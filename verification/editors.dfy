/**
 * Editors: re-keying rows by a column (`DigitToKey`), converting columns to a type
 * (`ColumnsConversion`), dropping values (`RemoveByValue`), writing along a key path
 * (`setKeyPath`, `moveToSubarray`) and renaming a column (`renameColumn`).
 *
 * Each loop is a `method` proved equal to a specification function; the lemmas state
 * what the specification functions promise.  A PHP array's keys are distinct, so
 * `$array[$key]` for the key a `foreach` is at is the entry at that position.
 */
module Editors {
  import opened PhpArrays
  import opened PhpCasts

  // ---------------------------------------------------------------------------
  // DigitToKey
  // ---------------------------------------------------------------------------

  /** The row `DigitToKey` stores: without the column when `keyUnset` and the row is
      an array; as it is otherwise (null and false survive the `unset`). */
  function StoredValue(item: Value, newKey: string, keyUnset: bool): Value {
    if keyUnset && item.VArr? then VArr(Remove(item.entries, StrKey(newKey))) else item
  }

  /** What `DigitToKey` writes for one row: the key `$item[$newKey]` gives, and the row
      stored there. */
  function StoredRow(item: Value, newKey: string, keyUnset: bool): (r: Result<(Key, Value)>)
    ensures r.Err? <==> (KeyOf(Column(item, StrKey(newKey))).None?
                         || (keyUnset && UnsetColumn(item, StrKey(newKey)).None?))
    ensures r.Ok? ==> r.value == (KeyOf(Column(item, StrKey(newKey))).value, StoredValue(item, newKey, keyUnset))
  {
    match KeyOf(Column(item, StrKey(newKey)))
    case None => Err(EngineError(IllegalOffsetType))
    case Some(k) =>
      if !keyUnset then Ok((k, item))
      else
        match UnsetColumn(item, StrKey(newKey))
        case None => Err(EngineError(UnsetOnScalar))
        case Some(v) => Ok((k, v))
  }

  /** The pairs written, one per row in order, or the first failing row's error. */
  function StoredRows(items: Entries, newKey: string, keyUnset: bool): (r: Result<seq<(Key, Value)>>)
    ensures r.Ok? ==> |r.value| == |items|
    decreases |items|
  {
    if items == [] then Ok([])
    else
      match StoredRow(items[0].1, newKey, keyUnset)
      case Err(e) => Err(e)
      case Ok(p) =>
        match StoredRows(items[1..], newKey, keyUnset)
        case Err(e) => Err(e)
        case Ok(ps) => Ok([p] + ps)
  }

  /** The rows of `items` written into `acc`, one assignment per row. */
  function DigitToKeyFrom(acc: Entries, items: Entries, newKey: string, keyUnset: bool): Result<Entries> {
    match StoredRows(items, newKey, keyUnset)
    case Err(e) => Err(e)
    case Ok(ps) => Ok(AssignAll(acc, ps))
  }

  /** `Editors::DigitToKey` as a value. */
  function DigitToKeySpec(oldArray: Entries, newKey: string, keyUnset: bool): Result<Entries> {
    if IsEmptyString(newKey) then Err(EmptyKey)
    else DigitToKeyFrom([], oldArray, newKey, keyUnset)
  }

  lemma DigitToKeyStep(acc: Entries, items: Entries, newKey: string, keyUnset: bool)
    requires items != []
    ensures var s := StoredRow(items[0].1, newKey, keyUnset);
            DigitToKeyFrom(acc, items, newKey, keyUnset)
            == if s.Err? then Err(s.error)
               else DigitToKeyFrom(Assign(acc, s.value.0, s.value.1), items[1..], newKey, keyUnset)
  {
    var s := StoredRow(items[0].1, newKey, keyUnset);
    if s.Ok? && StoredRows(items[1..], newKey, keyUnset).Ok? {
      var ps := StoredRows(items[1..], newKey, keyUnset).value;
      assert ([s.value] + ps)[1..] == ps;
    }
  }

  /** `Editors::DigitToKey`: each row is stored under the key its `newKey` column
      gives, the later row winning; with `keyUnset` the stored row loses the column. */
  method DigitToKey(oldArray: Entries, newKey: string, keyUnset: bool) returns (r: Result<Entries>)
    ensures r == DigitToKeySpec(oldArray, newKey, keyUnset)
  {
    if IsEmptyString(newKey) {
      return Err(EmptyKey);
    }
    var newArray: Entries := [];
    var i := 0;
    while i < |oldArray|
      invariant 0 <= i <= |oldArray|
      invariant DigitToKeyFrom([], oldArray, newKey, keyUnset)
                == DigitToKeyFrom(newArray, oldArray[i..], newKey, keyUnset)
    {
      DigitToKeyStep(newArray, oldArray[i..], newKey, keyUnset);
      assert oldArray[i..][1..] == oldArray[i + 1..];
      var item := oldArray[i].1;
      var key := KeyOf(Column(item, StrKey(newKey)));
      if key.None? {
        return Err(EngineError(IllegalOffsetType));
      }
      ghost var before := newArray;
      newArray := Assign(newArray, key.value, item);
      if keyUnset {
        AssignGet(before, key.value, item);
        var stored := UnsetColumn(Get(newArray, key.value).value, StrKey(newKey));
        if stored.None? {
          return Err(EngineError(UnsetOnScalar));
        }
        AssignTwice(before, key.value, item, stored.value);
        newArray := Assign(newArray, key.value, stored.value);
      }
      i := i + 1;
    }
    return Ok(newArray);
  }

  /** The pairs are the rows' own, in row order. */
  lemma {:induction false} StoredRowsAt(items: Entries, newKey: string, keyUnset: bool)
    ensures StoredRows(items, newKey, keyUnset).Ok? <==>
              forall i :: 0 <= i < |items| ==> StoredRow(items[i].1, newKey, keyUnset).Ok?
    ensures StoredRows(items, newKey, keyUnset).Ok? ==>
              forall i :: 0 <= i < |items| ==>
                StoredRows(items, newKey, keyUnset).value[i] == StoredRow(items[i].1, newKey, keyUnset).value
    decreases |items|
  {
    if items != [] {
      StoredRowsAt(items[1..], newKey, keyUnset);
      assert forall i :: 1 <= i < |items| ==> items[i] == items[1..][i - 1];
    }
  }

  /** Errors: an empty key name, or the first row whose column is not a valid key
      (an array or object) or, with `keyUnset`, that cannot have the column unset. */
  lemma DigitToKeyErrors(oldArray: Entries, newKey: string, keyUnset: bool)
    ensures DigitToKeySpec(oldArray, newKey, keyUnset) == Err(EmptyKey) <==> IsEmptyString(newKey)
    ensures DigitToKeySpec(oldArray, newKey, keyUnset).Ok? <==>
              !IsEmptyString(newKey)
              && forall i :: 0 <= i < |oldArray| ==> StoredRow(oldArray[i].1, newKey, keyUnset).Ok?
  {
    StoredRowsAt(oldArray, newKey, keyUnset);
    StoredRowsError(oldArray, newKey, keyUnset);
  }

  lemma {:induction false} StoredRowsError(items: Entries, newKey: string, keyUnset: bool)
    ensures StoredRows(items, newKey, keyUnset).Err? ==> StoredRows(items, newKey, keyUnset).error.EngineError?
    decreases |items|
  {
    if items != [] {
      StoredRowsError(items[1..], newKey, keyUnset);
    }
  }

  /** Last write wins: the row read back at key `k` is the last row whose column gives
      `k`; a key no row gives is absent. */
  lemma DigitToKeyLastWins(oldArray: Entries, newKey: string, keyUnset: bool, k: Key, j: int)
    requires DigitToKeySpec(oldArray, newKey, keyUnset).Ok?
    requires 0 <= j < |oldArray| && KeyOf(Column(oldArray[j].1, StrKey(newKey))) == Some(k)
    requires forall j' :: j < j' < |oldArray| ==> KeyOf(Column(oldArray[j'].1, StrKey(newKey))) != Some(k)
    ensures Get(DigitToKeySpec(oldArray, newKey, keyUnset).value, k)
            == Some(StoredValue(oldArray[j].1, newKey, keyUnset))
  {
    var ps := StoredRows(oldArray, newKey, keyUnset).value;
    StoredRowsAt(oldArray, newKey, keyUnset);
    AssignAllGet([], ps, k);
    LastValueAt(ps, k, j);
  }

  lemma DigitToKeyAbsent(oldArray: Entries, newKey: string, keyUnset: bool, k: Key)
    requires DigitToKeySpec(oldArray, newKey, keyUnset).Ok?
    requires forall j :: 0 <= j < |oldArray| ==> KeyOf(Column(oldArray[j].1, StrKey(newKey))) != Some(k)
    ensures !HasKey(DigitToKeySpec(oldArray, newKey, keyUnset).value, k)
  {
    var ps := StoredRows(oldArray, newKey, keyUnset).value;
    StoredRowsAt(oldArray, newKey, keyUnset);
    AssignAllGet([], ps, k);
    LastValueNone(ps, k);
  }

  /** One entry per distinct key, in order of first occurrence, and keys distinct. */
  lemma DigitToKeyKeys(oldArray: Entries, newKey: string, keyUnset: bool)
    requires DigitToKeySpec(oldArray, newKey, keyUnset).Ok?
    ensures var ps := StoredRows(oldArray, newKey, keyUnset).value;
            var r := DigitToKeySpec(oldArray, newKey, keyUnset).value;
            && KeysOf(r) == Dedup(KeysOf(ps))
            && |r| == |Dedup(KeysOf(ps))|
            && DistinctKeys(r)
  {
    AssignAllFromEmpty(StoredRows(oldArray, newKey, keyUnset).value);
  }

  /** With `keyUnset`, every stored row that is an array no longer holds the column. */
  lemma DigitToKeyUnset(oldArray: Entries, newKey: string, k: Key)
    requires DigitToKeySpec(oldArray, newKey, true).Ok?
    requires Get(DigitToKeySpec(oldArray, newKey, true).value, k).Some?
    ensures var v := Get(DigitToKeySpec(oldArray, newKey, true).value, k).value;
            v.VArr? ==> !HasKey(v.entries, StrKey(newKey))
  {
    var ps := StoredRows(oldArray, newKey, true).value;
    StoredRowsAt(oldArray, newKey, true);
    AssignAllGet([], ps, k);
    LastValueIn(ps, k);
    var v := LastValue(ps, k).value;
    var j :| 0 <= j < |ps| && ps[j] == (k, v);
    var item := oldArray[j].1;
    if item.VArr? {
      RemoveGone(item.entries, StrKey(newKey));
    }
  }

  // ---------------------------------------------------------------------------
  // ColumnsConversion
  // ---------------------------------------------------------------------------

  /** The type names the `match` recognises (compared case-sensitively). */
  predicate KnownType(t: string) {
    t in {"int", "integer", "bool", "boolean", "float", "double", "real", "string", "array", "object"}
  }

  /** The conversion the `match ($type)` applies; any other type name gives null. */
  function Convert(t: string, v: Value): (r: Result<Value>)
    ensures r.Err? <==> t == "string" && ToStr(v).None?
    ensures !KnownType(t) ==> r == Ok(VNull)
    ensures (t == "int" || t == "integer") && v.VStr? ==> r.Ok? && r.value.VInt? && IntMin <= r.value.i <= IntMax
  {
    if t == "int" || t == "integer" then Ok(VInt(ToInt(v)))
    else if t == "bool" || t == "boolean" then Ok(VBool(ToBool(v)))
    else if t == "float" || t == "double" || t == "real" then Ok(ToFloat(v))
    else if t == "string" then
      match ToStr(v)
      case None => Err(EngineError(ObjectToString))
      case Some(s) => Ok(VStr(s))
    else if t == "array" then Ok(VArr(ToArray(v)))
    else if t == "object" then Ok(ToObject(v))
    else Ok(VNull)
  }

  /** `$columns` after `if (is_string($columns)) $columns = [$columns];`: the values
      the inner `foreach` visits. */
  function ColumnList(columns: Value): seq<Value>
    requires columns.VStr? || columns.VArr?
  {
    if columns.VStr? then [columns] else ValuesOf(columns.entries)
  }

  /** `$value[$column]` as the right-hand side reads it: an array or a string row
      refuses an offset that is not a legal key; any other row reads null whatever the
      offset. */
  function ReadColumn(row: Value, column: Value): Result<Value> {
    match KeyOf(column)
    case Some(c) => Ok(Column(row, c))
    case None => if row.VArr? || row.VStr? then Err(EngineError(IllegalOffsetType)) else Ok(VNull)
  }

  /** The right-hand side `match ($type) { ... }`. */
  function Converted(row: Value, column: Value, t: string): Result<Value> {
    if KnownType(t) then
      match ReadColumn(row, column)
      case Err(e) => Err(e)
      case Ok(v) => Convert(t, v)
    else Ok(VNull)
  }

  /** One `$array[$key][$column] = match (...) { ... }`.  The right-hand side comes
      first: an arm naming a type reads the row as it was before the loop (`$value`) and
      converts it, and `default` stores null without reading.  The value is then written
      into the row as it is now, which refuses a scalar row before it looks at the
      offset. */
  function ConvertStep(current: Value, row: Value, column: Value, t: string): Result<Value> {
    match Converted(row, column, t)
    case Err(e) => Err(e)
    case Ok(y) =>
      match WriteBase(current)
      case None => Err(EngineError(ScalarUsedAsArray))
      case Some(b) =>
        match KeyOf(column)
        case None => Err(EngineError(IllegalOffsetType))
        case Some(c) => Ok(VArr(Assign(b, c, y)))
  }

  /** Which error one step raises for a column name that cannot be a key: the read's
      `TypeError` on an array or a string row, and otherwise the write's, which is
      "Cannot use a scalar value as an array" on an int, a float or `true`. */
  lemma ConvertStepIllegal(current: Value, row: Value, column: Value, t: string)
    requires KeyOf(column).None?
    ensures KnownType(t) && (row.VArr? || row.VStr?) ==>
              ConvertStep(current, row, column, t) == Err(EngineError(IllegalOffsetType))
    ensures !(KnownType(t) && (row.VArr? || row.VStr?)) ==>
              ConvertStep(current, row, column, t) ==
                Err(EngineError(if WriteBase(current).None? then ScalarUsedAsArray else IllegalOffsetType))
  {
    if !(KnownType(t) && (row.VArr? || row.VStr?)) && KnownType(t) {
      assert ReadColumn(row, column) == Ok(VNull);
      assert Convert(t, VNull).Ok?;
      assert Converted(row, column, t).Ok?;
    }
  }

  /** The inner `foreach`: every listed column converted in turn, starting from
      `current`. */
  function ConvertRowFrom(current: Value, row: Value, cols: seq<Value>, t: string): Result<Value>
    decreases |cols|
  {
    if cols == [] then Ok(current)
    else
      match ConvertStep(current, row, cols[0], t)
      case Err(e) => Err(e)
      case Ok(next) => ConvertRowFrom(next, row, cols[1..], t)
  }

  /** The outer `foreach`: every row converted, keys and positions kept; the first
      failure otherwise. */
  function ConvertRows(rows: Entries, cols: seq<Value>, t: string): (r: Result<Entries>)
    ensures r.Ok? ==> |r.value| == |rows|
    decreases |rows|
  {
    if rows == [] then Ok([])
    else
      match ConvertRowFrom(rows[0].1, rows[0].1, cols, t)
      case Err(e) => Err(e)
      case Ok(v) =>
        match ConvertRows(rows[1..], cols, t)
        case Err(e) => Err(e)
        case Ok(rest) => Ok([(rows[0].0, v)] + rest)
  }

  /** `Editors::ColumnsConversion` as a value. */
  function ColumnsConversionSpec(arr: Entries, columns: Value, t: string): Result<Entries>
    requires columns.VStr? || columns.VArr?
  {
    if IsEmpty(columns) then Err(EmptyColumns)
    else ConvertRows(arr, ColumnList(columns), t)
  }

  /** `ConvertRowFrom` from position `j` unfolded once. */
  lemma ConvertRowFromAt(current: Value, row: Value, cols: seq<Value>, j: int, t: string)
    requires 0 <= j < |cols|
    ensures var step := ConvertStep(current, row, cols[j], t);
            step.Err? ==> ConvertRowFrom(current, row, cols[j..], t) == step
    ensures var step := ConvertStep(current, row, cols[j], t);
            step.Ok? ==> ConvertRowFrom(current, row, cols[j..], t) == ConvertRowFrom(step.value, row, cols[j + 1..], t)
  {
    assert cols[j..][0] == cols[j] && cols[j..][1..] == cols[j + 1..];
  }

  /** The inner loop of `ColumnsConversion`, for one row. */
  method ConvertRow(row: Value, cols: seq<Value>, t: string) returns (r: Result<Value>)
    ensures r == ConvertRowFrom(row, row, cols, t)
  {
    var current := row;
    var j := 0;
    while j < |cols|
      invariant 0 <= j <= |cols|
      invariant ConvertRowFrom(row, row, cols, t) == ConvertRowFrom(current, row, cols[j..], t)
    {
      ConvertRowFromAt(current, row, cols, j, t);
      var x := Converted(row, cols[j], t);
      if x.Err? {
        return Err(x.error);
      }
      var b := WriteBase(current);
      if b.None? {
        return Err(EngineError(ScalarUsedAsArray));
      }
      var c := KeyOf(cols[j]);
      if c.None? {
        return Err(EngineError(IllegalOffsetType));
      }
      current := VArr(Assign(b.value, c.value, x.value));
      j := j + 1;
    }
    return Ok(current);
  }

  /** `ConvertRows` succeeds exactly when every row converts, and then holds each
      row's conversion at the row's position. */
  lemma {:induction false} ConvertRowsAt(rows: Entries, cols: seq<Value>, t: string)
    ensures ConvertRows(rows, cols, t).Ok? <==>
              forall i :: 0 <= i < |rows| ==> ConvertRowFrom(rows[i].1, rows[i].1, cols, t).Ok?
    ensures ConvertRows(rows, cols, t).Ok? ==>
              forall i :: 0 <= i < |rows| ==>
                ConvertRows(rows, cols, t).value[i] == (rows[i].0, ConvertRowFrom(rows[i].1, rows[i].1, cols, t).value)
    decreases |rows|
  {
    if rows != [] {
      ConvertRowsAt(rows[1..], cols, t);
      assert forall i :: 1 <= i < |rows| ==> rows[i] == rows[1..][i - 1];
    }
  }

  /** A failing row: the result is the error of the first row that fails. */
  lemma {:induction false} ConvertRowsFirstError(rows: Entries, cols: seq<Value>, t: string, i: int)
    requires 0 <= i < |rows| && ConvertRowFrom(rows[i].1, rows[i].1, cols, t).Err?
    requires forall j :: 0 <= j < i ==> ConvertRowFrom(rows[j].1, rows[j].1, cols, t).Ok?
    ensures ConvertRows(rows, cols, t) == Err(ConvertRowFrom(rows[i].1, rows[i].1, cols, t).error)
    decreases |rows|
  {
    if i > 0 {
      assert forall j :: 1 <= j < |rows| ==> rows[j] == rows[1..][j - 1];
      ConvertRowsFirstError(rows[1..], cols, t, i - 1);
    }
  }

  /** `Editors::ColumnsConversion`: every listed column of every row converted to the
      type named; the array as a whole is a copy, keys and order unchanged. */
  method ColumnsConversion(arr: Entries, columns: Value, t: string) returns (r: Result<Entries>)
    requires columns.VStr? || columns.VArr?
    ensures r == ColumnsConversionSpec(arr, columns, t)
  {
    if IsEmpty(columns) {
      return Err(EmptyColumns);
    }
    var cols := if columns.VStr? then [columns] else ValuesOf(columns.entries);
    var a := arr;
    var i := 0;
    while i < |arr|
      invariant 0 <= i <= |arr| && |a| == |arr|
      invariant forall j :: 0 <= j < i ==> ConvertRowFrom(arr[j].1, arr[j].1, cols, t).Ok?
      invariant forall j :: 0 <= j < i ==>
                  a[j] == (arr[j].0, ConvertRowFrom(arr[j].1, arr[j].1, cols, t).value)
      invariant forall j :: i <= j < |arr| ==> a[j] == arr[j]
    {
      var row := ConvertRow(arr[i].1, cols, t);
      if row.Err? {
        ConvertRowsFirstError(arr, cols, t, i);
        return Err(row.error);
      }
      a := a[i := (arr[i].0, row.value)];
      i := i + 1;
    }
    ConvertRowsAt(arr, cols, t);
    assert a == ConvertRows(arr, cols, t).value;
    return Ok(a);
  }

  /** The keys converting a list of columns writes. */
  ghost predicate Listed(cols: seq<Value>, k: Key) {
    exists j :: 0 <= j < |cols| && KeyOf(cols[j]) == Some(k)
  }

  /** What a row holds after conversion: each listed column holds the conversion of the
      row's old value at that column, every other key reads as in the row before (an
      absent row or `false` starting out as `[]`). */
  lemma {:induction false} ConvertRowReads(current: Value, row: Value, cols: seq<Value>, t: string, k: Key)
    requires |cols| > 0 && ConvertRowFrom(current, row, cols, t).Ok?
    ensures var v := ConvertRowFrom(current, row, cols, t).value;
            && v.VArr?
            && WriteBase(current).Some?
            && (Listed(cols, k) ==>
                  Convert(t, Column(row, k)).Ok? && Get(v.entries, k) == Some(Convert(t, Column(row, k)).value))
            && (!Listed(cols, k) ==> Get(v.entries, k) == Get(WriteBase(current).value, k))
    decreases |cols|
  {
    ConvertFirst(current, row, cols, t);
    var c := KeyOf(cols[0]).value;
    ConvertedKey(row, cols[0], t);
    var x := Converted(row, cols[0], t).value;
    var b := WriteBase(current).value;
    var next := VArr(Assign(b, c, x));
    AssignGet(b, c, x);
    ListedCons(cols, k);
    var v := ConvertRowFrom(current, row, cols, t).value;
    if |cols| == 1 {
      assert v == next;
    } else {
      ConvertRowReads(next, row, cols[1..], t, k);
      if k == c && !Listed(cols[1..], k) {
        assert Get(v.entries, k) == Get(Assign(b, c, x), c);
      }
    }
  }

  /** The first listed column of a row that converts. */
  lemma ConvertFirst(current: Value, row: Value, cols: seq<Value>, t: string)
    requires |cols| > 0 && ConvertRowFrom(current, row, cols, t).Ok?
    ensures KeyOf(cols[0]).Some? && Converted(row, cols[0], t).Ok?
    ensures WriteBase(current).Some?
    ensures var next := VArr(Assign(WriteBase(current).value, KeyOf(cols[0]).value, Converted(row, cols[0], t).value));
            ConvertRowFrom(current, row, cols, t) == ConvertRowFrom(next, row, cols[1..], t)
  {
  }

  /** For a column name that is a key, the right-hand side is the conversion of the
      column read from the row. */
  lemma ConvertedKey(row: Value, column: Value, t: string)
    requires KeyOf(column).Some?
    ensures Converted(row, column, t) == Convert(t, Column(row, KeyOf(column).value))
  {
  }

  lemma ListedCons(cols: seq<Value>, k: Key)
    requires |cols| > 0
    ensures Listed(cols, k) <==> KeyOf(cols[0]) == Some(k) || Listed(cols[1..], k)
  {
    assert forall j :: 1 <= j < |cols| ==> cols[j] == cols[1..][j - 1];
  }

  /** `ColumnsConversion` is refused for an empty column list; otherwise it fails
      exactly when some row fails to convert, and it changes nothing but the listed
      columns: keys, positions and every other field stay. */
  lemma ColumnsConversionRows(arr: Entries, columns: Value, t: string, i: int, k: Key)
    requires columns.VStr? || columns.VArr?
    requires 0 <= i < |arr|
    ensures ColumnsConversionSpec(arr, columns, t) == Err(EmptyColumns) <==> IsEmpty(columns)
    ensures ColumnsConversionSpec(arr, columns, t).Ok? <==>
              !IsEmpty(columns)
              && forall j :: 0 <= j < |arr| ==> ConvertRowFrom(arr[j].1, arr[j].1, ColumnList(columns), t).Ok?
    ensures ColumnsConversionSpec(arr, columns, t).Ok? ==>
              var r := ColumnsConversionSpec(arr, columns, t).value;
              var cols := ColumnList(columns);
              && |r| == |arr| && r[i].0 == arr[i].0 && r[i].1.VArr?
              && (Listed(cols, k) ==>
                    Convert(t, Column(arr[i].1, k)).Ok?
                    && Get(r[i].1.entries, k) == Some(Convert(t, Column(arr[i].1, k)).value))
              && (!Listed(cols, k) ==>
                    WriteBase(arr[i].1).Some? && Get(r[i].1.entries, k) == Get(WriteBase(arr[i].1).value, k))
  {
    if !IsEmpty(columns) {
      var cols := ColumnList(columns);
      ConvertRowsAt(arr, cols, t);
      ConvertRowsNotEmpty(arr, cols, t);
      if ConvertRows(arr, cols, t).Ok? {
        assert |cols| > 0 by {
          if columns.VArr? { assert columns.entries[0].1 == cols[0]; }
        }
        ConvertRowReads(arr[i].1, arr[i].1, cols, t, k);
      }
    }
  }

  /** `(int)` reads a numeric string with its fraction and exponent: converting a column
      that holds `"1e3"` to `int` stores 1000. */
  lemma ColumnsConversionExponent()
    ensures var r := ColumnsConversionSpec([(StrKey("r"), VArr([(StrKey("c"), VStr("1e3"))]))], VStr("c"), "int");
            && r.Ok? && |r.value| == 1 && r.value[0].1.VArr?
            && Get(r.value[0].1.entries, StrKey("c")) == Some(VInt(1000))
  {
    var row := VArr([(StrKey("c"), VStr("1e3"))]);
    var arr := [(StrKey("r"), row)];
    var cols := [VStr("c")];
    assert KeyOf(cols[0]) == Some(StrKey("c"));
    assert Listed(cols, StrKey("c"));
    assert Column(row, StrKey("c")) == VStr("1e3");
    StrToIntExponent();
    assert ConvertRowFrom(row, row, cols, "int").Ok?;
    ColumnsConversionRows(arr, VStr("c"), "int", 0, StrKey("c"));
  }

  /** The right-hand side is read before the write: an int row with an array as column
      name reads null, and the write then refuses the int. */
  lemma ColumnsConversionScalarRow()
    ensures ColumnsConversionSpec([(IntKey(0), VInt(5))], VArr([(IntKey(0), VArr([(IntKey(0), VInt(1))]))]), "int")
            == Err(EngineError(ScalarUsedAsArray))
  {
    var column := VArr([(IntKey(0), VInt(1))]);
    var columns := VArr([(IntKey(0), column)]);
    assert ColumnList(columns) == [column];
    ConvertStepIllegal(VInt(5), VInt(5), column, "int");
    assert ConvertRowFrom(VInt(5), VInt(5), [column], "int") == Err(EngineError(ScalarUsedAsArray));
  }

  lemma {:induction false} ConvertRowsNotEmpty(rows: Entries, cols: seq<Value>, t: string)
    ensures ConvertRows(rows, cols, t) != Err(EmptyColumns)
    decreases |rows|
  {
    if rows != [] {
      ConvertRowsNotEmpty(rows[1..], cols, t);
      ConvertRowFromNotEmpty(rows[0].1, rows[0].1, cols, t);
    }
  }

  lemma {:induction false} ConvertRowFromNotEmpty(current: Value, row: Value, cols: seq<Value>, t: string)
    ensures ConvertRowFrom(current, row, cols, t) != Err(EmptyColumns)
    decreases |cols|
  {
    if cols != [] {
      var step := ConvertStep(current, row, cols[0], t);
      ConvertStepEngineError(current, row, cols[0], t);
      if step.Ok? {
        ConvertRowFromNotEmpty(step.value, row, cols[1..], t);
      }
    }
  }

  /** A conversion step only ever fails with an engine error. */
  lemma ConvertStepEngineError(current: Value, row: Value, column: Value, t: string)
    ensures ConvertStep(current, row, column, t).Err? ==> ConvertStep(current, row, column, t).error.EngineError?
  {
    if KnownType(t) && ReadColumn(row, column).Ok? {
      var v := ReadColumn(row, column).value;
      assert Convert(t, v).Err? ==> Convert(t, v).error == EngineError(ObjectToString);
    }
  }

  // ---------------------------------------------------------------------------
  // RemoveByValue
  // ---------------------------------------------------------------------------

  /** The entries a `foreach` that unsets every entry whose value satisfies `drop`
      leaves behind, in order. */
  function Kept(e: Entries, drop: Value -> bool): (r: Entries)
    ensures |r| <= |e|
  {
    if e == [] then []
    else Kept(e[..|e| - 1], drop) + (if drop(e[|e| - 1].1) then [] else [e[|e| - 1]])
  }

  /** The test `$value === $remValue`. */
  function Same(rem: Value): Value -> bool {
    v => v == rem
  }

  /** `Editors::RemoveByValue` as a value. */
  function RemoveByValueSpec(arr: Entries, remValue: Value, reKey: bool): Entries {
    RemoveWhereSpec(arr, Same(remValue), reKey)
  }

  /** Unsetting every entry whose value satisfies `drop`, then renumbering with
      `array_values` when `reKey`. */
  function RemoveWhereSpec(arr: Entries, drop: Value -> bool, reKey: bool): Entries {
    if reKey then Reindex(Kept(arr, drop)) else Kept(arr, drop)
  }

  /** Everything `Kept` keeps comes from `e`. */
  lemma {:induction false} KeptMembers(e: Entries, drop: Value -> bool)
    ensures forall p :: p in Kept(e, drop) <==> p in e && !drop(p.1)
  {
    if e != [] {
      var init := e[..|e| - 1];
      KeptMembers(init, drop);
      assert e == init + [e[|e| - 1]];
      assert forall p :: p in e <==> p in init || p == e[|e| - 1];
    }
  }

  /** Filtering one more entry. */
  lemma KeptStep(e: Entries, drop: Value -> bool, i: int)
    requires 0 <= i < |e|
    ensures Kept(e[..i + 1], drop) == Kept(e[..i], drop) + (if drop(e[i].1) then [] else [e[i]])
  {
    assert e[..i + 1][..i] == e[..i];
  }

  /** Keeping the entry at `i`. */
  lemma KeepStep(e: Entries, drop: Value -> bool, i: int)
    requires 0 <= i < |e|
    ensures Kept(e[..i], drop) + e[i..] == (Kept(e[..i], drop) + [e[i]]) + e[i + 1..]
  {
    assert e[i..] == [e[i]] + e[i + 1..];
  }

  /** `unset($array[$key])` on the entry at `i`, with the entries before it already
      filtered. */
  lemma RemoveStep(e: Entries, drop: Value -> bool, i: int)
    requires DistinctKeys(e) && 0 <= i < |e|
    ensures Remove(Kept(e[..i], drop) + e[i..], e[i].0) == Kept(e[..i], drop) + e[i + 1..]
  {
    var front := Kept(e[..i], drop);
    var s := front + e[i..];
    KeptMembers(e[..i], drop);
    forall j | 0 <= j < |s| && j != |front| ensures s[j].0 != e[i].0 {
      if j < |front| {
        assert front[j] in e[..i];
        var q :| 0 <= q < i && e[..i][q] == front[j];
      } else {
        assert s[j] == e[i + (j - |front|)];
      }
    }
    RemoveAt(s, e[i].0, |front|);
    assert s[..|front|] == front;
    assert s[|front| + 1..] == e[i + 1..];
  }

  /** One turn of the `foreach` in `RemoveWhere`. */
  lemma UnsetStep(e: Entries, drop: Value -> bool, i: int)
    requires DistinctKeys(e) && 0 <= i < |e|
    ensures var a := Kept(e[..i], drop) + e[i..];
            (if drop(e[i].1) then Remove(a, e[i].0) else a) == Kept(e[..i + 1], drop) + e[i + 1..]
  {
    KeptStep(e, drop, i);
    if drop(e[i].1) {
      RemoveStep(e, drop, i);
    } else {
      KeepStep(e, drop, i);
    }
  }

  /** The loop both revisions of `RemoveByValue` run: every entry whose value satisfies
      `drop` is unset; with `reKey`, `array_values` renumbers what is left. */
  method RemoveWhere(arr: Entries, drop: Value -> bool, reKey: bool) returns (r: Entries)
    requires DistinctKeys(arr)
    ensures r == RemoveWhereSpec(arr, drop, reKey)
  {
    var a := arr;
    var i := 0;
    while i < |arr|
      invariant 0 <= i <= |arr|
      invariant a == Kept(arr[..i], drop) + arr[i..]
    {
      UnsetStep(arr, drop, i);
      if drop(arr[i].1) {
        a := Remove(a, arr[i].0);
      }
      i := i + 1;
    }
    assert arr[..|arr|] == arr;
    assert a == Kept(arr, drop) + arr[|arr|..];
    assert a == Kept(arr, drop);
    if reKey {
      a := Reindex(a);
    }
    return a;
  }

  /** `Editors::RemoveByValue`: every entry whose value is identical to `remValue` is
      unset; with `reKey`, `array_values` renumbers what is left. */
  method RemoveByValue(arr: Entries, remValue: Value, reKey: bool) returns (r: Entries)
    requires DistinctKeys(arr)
    ensures r == RemoveByValueSpec(arr, remValue, reKey)
  {
    r := RemoveWhere(arr, Same(remValue), reKey);
  }

  /** The filter keeps exactly the entries whose value fails `drop`, each with its key;
      every value that fails `drop` keeps its number of occurrences, and `reKey` gives
      a list of the same values. */
  lemma RemoveWhereKeeps(arr: Entries, drop: Value -> bool, reKey: bool)
    ensures forall p :: p in RemoveWhereSpec(arr, drop, false) <==> p in arr && !drop(p.1)
    ensures forall j :: 0 <= j < |RemoveWhereSpec(arr, drop, reKey)| ==> !drop(RemoveWhereSpec(arr, drop, reKey)[j].1)
    ensures forall v :: !drop(v) ==>
              multiset(ValuesOf(RemoveWhereSpec(arr, drop, reKey)))[v] == multiset(ValuesOf(arr))[v]
    ensures reKey ==> IsList(RemoveWhereSpec(arr, drop, reKey))
    ensures ValuesOf(RemoveWhereSpec(arr, drop, reKey)) == ValuesOf(Kept(arr, drop))
  {
    KeptMembers(arr, drop);
    forall v | !drop(v) ensures multiset(ValuesOf(Kept(arr, drop)))[v] == multiset(ValuesOf(arr))[v] {
      KeptCount(arr, drop, v);
    }
    var k := Kept(arr, drop);
    assert ValuesOf(Reindex(k)) == ValuesOf(k);
    forall j | 0 <= j < |k| ensures !drop(k[j].1) {
      assert k[j] in k;
    }
  }

  /** `RemoveByValue` keeps exactly the entries not identical to `remValue`, each with
      its key; every other value keeps its number of occurrences, and `reKey` gives a
      list of the same values. */
  lemma RemoveByValueKeeps(arr: Entries, remValue: Value, reKey: bool)
    ensures forall p :: p in RemoveByValueSpec(arr, remValue, false) <==> p in arr && p.1 != remValue
    ensures remValue !in ValuesOf(RemoveByValueSpec(arr, remValue, reKey))
    ensures forall v :: v != remValue ==>
              multiset(ValuesOf(RemoveByValueSpec(arr, remValue, reKey)))[v] == multiset(ValuesOf(arr))[v]
    ensures reKey ==> IsList(RemoveByValueSpec(arr, remValue, reKey))
    ensures reKey ==> ValuesOf(RemoveByValueSpec(arr, remValue, true)) == ValuesOf(RemoveByValueSpec(arr, remValue, false))
  {
    RemoveWhereKeeps(arr, Same(remValue), reKey);
    RemoveWhereKeeps(arr, Same(remValue), false);
    var r := RemoveByValueSpec(arr, remValue, reKey);
    forall j | 0 <= j < |r| ensures ValuesOf(r)[j] != remValue {
      assert !Same(remValue)(r[j].1);
    }
  }

  lemma {:induction false} KeptCount(e: Entries, drop: Value -> bool, v: Value)
    requires !drop(v)
    ensures multiset(ValuesOf(Kept(e, drop)))[v] == multiset(ValuesOf(e))[v]
  {
    if e != [] {
      var init := e[..|e| - 1];
      var last := e[|e| - 1];
      KeptCount(init, drop, v);
      assert e == init + [last];
      ValuesOfAppend(init, [last]);
      var tail: Entries := if drop(last.1) then [] else [last];
      ValuesOfAppend(Kept(init, drop), tail);
      assert ValuesOf(Kept(e, drop)) == ValuesOf(Kept(init, drop)) + ValuesOf(tail);
    }
  }

  // ---------------------------------------------------------------------------
  // setKeyPath and moveToSubarray
  // ---------------------------------------------------------------------------

  /** The key `array_shift($path)` gives: null on an empty path. */
  function PathHead(path: seq<Value>): Value {
    if path == [] then VNull else path[0]
  }

  /** What is left of the path after `array_shift`. */
  function PathRest(path: seq<Value>): seq<Value> {
    if path == [] then [] else path[1..]
  }

  /** Every step of the path is usable as an array key. */
  predicate PathValid(path: seq<Value>) {
    forall i :: 0 <= i < |path| ==> KeyOf(path[i]).Some?
  }

  /** The keys a valid path walks through; an empty path writes to the key `""`. */
  function PathKeys(path: seq<Value>): (ks: seq<Key>)
    requires PathValid(path)
    ensures |ks| >= 1 && ks[0] == KeyOf(PathHead(path)).value
    decreases |path|
  {
    if |path| <= 1 then [KeyOf(PathHead(path)).value]
    else [KeyOf(path[0]).value] + PathKeys(path[1..])
  }

  /** The array found under `k` for descending into it: `[]` when the key is missing
      or holds something other than an array. */
  function SubArray(e: Entries, k: Key): Entries {
    var v := Get(e, k);
    if v.Some? && v.value.VArr? then v.value.entries else []
  }

  /** The array `setKeyPath` leaves behind.  A step that is not a key makes PHP throw;
      the levels above it are already in place by then, the write itself is not. */
  function SetPath(e: Entries, path: seq<Value>, v: Value): Entries
    decreases |path|
  {
    match KeyOf(PathHead(path))
    case None => e
    case Some(k) =>
      if PathRest(path) == [] then Assign(e, k, v)
      else Assign(e, k, VArr(SetPath(SubArray(e, k), PathRest(path), v)))
  }

  /** Reading along a key path: `$a[$k1][$k2]...`, `None` where a step is missing or
      not an array. */
  function GetPath(e: Entries, ks: seq<Key>): Option<Value>
    requires |ks| >= 1
    decreases |ks|
  {
    var x := Get(e, ks[0]);
    if |ks| == 1 then x
    else if x.Some? && x.value.VArr? then GetPath(x.value.entries, ks[1..])
    else None
  }

  /** `setKeyPath(&$array, $path, $value)`: walks the path, creating (or replacing by)
      an empty array at every level that is missing or not an array, and writes the
      value at the last key.  The error is PHP's "Illegal offset type". */
  method SetKeyPath(a: ArrayVar, path: seq<Value>, value: Value) returns (err: Option<Error>)
    modifies a
    ensures a.arr == SetPath(old(a.arr), path, value)
    ensures err == if PathValid(path) then None else Some(EngineError(IllegalOffsetType))
    decreases |path|
  {
    PathValidCons(path);
    var key := if |path| == 0 then VNull else path[0];
    var rest := if |path| == 0 then [] else path[1..];
    var k := KeyOf(key);
    if k.None? {
      return Some(EngineError(IllegalOffsetType));
    }
    if rest == [] {
      a.arr := Assign(a.arr, k.value, value);
      return None;
    }
    ghost var before := a.arr;
    var cur := Get(a.arr, k.value);
    if cur.None? || !cur.value.VArr? {
      a.arr := Assign(a.arr, k.value, VArr([]));
      AssignGet(before, k.value, VArr([]));
    }
    var child := new ArrayVar(Get(a.arr, k.value).value.entries);
    assert child.arr == SubArray(before, k.value);
    err := SetKeyPath(child, rest, value);
    AssignTwice(before, k.value, VArr([]), VArr(child.arr));
    a.arr := Assign(a.arr, k.value, VArr(child.arr));
  }

  lemma PathValidCons(path: seq<Value>)
    ensures PathValid(path) <==> KeyOf(PathHead(path)).Some? && PathValid(PathRest(path))
  {
    if path != [] {
      assert forall i :: 1 <= i < |path| ==> path[i] == PathRest(path)[i - 1];
    }
  }

  /** After `setKeyPath`, reading along the path gives the value written. */
  lemma {:induction false} SetPathReads(e: Entries, path: seq<Value>, v: Value)
    requires PathValid(path)
    ensures GetPath(SetPath(e, path, v), PathKeys(path)) == Some(v)
    decreases |path|
  {
    PathValidCons(path);
    var k := KeyOf(PathHead(path)).value;
    var ks := PathKeys(path);
    assert ks[0] == k;
    if PathRest(path) == [] {
      AssignGet(e, k, v);
    } else {
      var rest := PathRest(path);
      var sub := SetPath(SubArray(e, k), rest, v);
      AssignGet(e, k, VArr(sub));
      SetPathReads(SubArray(e, k), rest, v);
      assert ks[1..] == PathKeys(rest);
      assert GetPath(Assign(e, k, VArr(sub)), ks) == GetPath(sub, ks[1..]);
    }
  }

  /** `setKeyPath` touches only the entry under the path's first key: every other key
      reads as before, and the key list grows by at most that key. */
  lemma SetPathOthers(e: Entries, path: seq<Value>, v: Value)
    requires PathValid(path)
    ensures forall k' :: k' != PathKeys(path)[0] ==> Get(SetPath(e, path, v), k') == Get(e, k')
    ensures KeysOf(SetPath(e, path, v)) ==
              if HasKey(e, PathKeys(path)[0]) then KeysOf(e) else KeysOf(e) + [PathKeys(path)[0]]
    ensures DistinctKeys(e) ==> DistinctKeys(SetPath(e, path, v))
  {
    PathValidCons(path);
    var k := KeyOf(PathHead(path)).value;
    assert PathKeys(path)[0] == k;
    var x := if PathRest(path) == [] then v else VArr(SetPath(SubArray(e, k), PathRest(path), v));
    assert SetPath(e, path, v) == Assign(e, k, x);
    AssignGet(e, k, x);
    AssignKeys(e, k, x);
  }

  /** One level down: the first key holds the rest of the path written into what was
      there if it was an array, and into a fresh empty array otherwise. */
  lemma SetPathDescends(e: Entries, path: seq<Value>, v: Value)
    requires PathValid(path) && |path| >= 2
    ensures Get(SetPath(e, path, v), PathKeys(path)[0]) ==
              Some(VArr(SetPath(SubArray(e, PathKeys(path)[0]), path[1..], v)))
    ensures (var old0 := Get(e, PathKeys(path)[0]);
             old0.Some? && old0.value.VArr? ==> SubArray(e, PathKeys(path)[0]) == old0.value.entries)
    ensures (var old0 := Get(e, PathKeys(path)[0]);
             old0.None? || !old0.value.VArr? ==> SubArray(e, PathKeys(path)[0]) == [])
  {
    var k := KeyOf(path[0]).value;
    assert PathKeys(path)[0] == k;
    AssignGet(e, k, VArr(SetPath(SubArray(e, k), path[1..], v)));
  }

  /** A step that is not a key stops `setKeyPath` before any write at that level. */
  lemma SetPathIllegal(e: Entries, path: seq<Value>, v: Value)
    requires KeyOf(PathHead(path)).None?
    ensures SetPath(e, path, v) == e
  {
  }

  /** `moveToSubarray`: the array left behind.  Nothing changes when the key is
      missing; otherwise the value is written along the path and the key is unset
      (unless the write threw). */
  function MoveSpec(e: Entries, key: Key, path: seq<Value>): Entries {
    if !HasKey(e, key) then e
    else
      var s := SetPath(e, path, Get(e, key).value);
      if PathValid(path) then Remove(s, key) else s
  }

  /** `moveToSubarray(&$array, $key, $newKeyPath)`. */
  method MoveToSubarray(a: ArrayVar, key: Key, path: seq<Value>) returns (err: Option<Error>)
    modifies a
    ensures a.arr == MoveSpec(old(a.arr), key, path)
    ensures err == if HasKey(old(a.arr), key) && !PathValid(path) then Some(EngineError(IllegalOffsetType)) else None
  {
    err := None;
    if HasKey(a.arr, key) {
      err := SetKeyPath(a, path, Get(a.arr, key).value);
      if err.Some? {
        return;
      }
      a.arr := Remove(a.arr, key);
    }
  }

  /** A key that is not there is left alone. */
  lemma MoveAbsent(e: Entries, key: Key, path: seq<Value>)
    requires !HasKey(e, key)
    ensures MoveSpec(e, key, path) == e
  {
  }

  /** When the path starts elsewhere, the value is found at the end of the path and
      the key is gone. */
  lemma MoveReachable(e: Entries, key: Key, path: seq<Value>)
    requires HasKey(e, key) && PathValid(path) && PathKeys(path)[0] != key
    ensures GetPath(MoveSpec(e, key, path), PathKeys(path)) == Get(e, key)
    ensures !HasKey(MoveSpec(e, key, path), key)
  {
    var s := SetPath(e, path, Get(e, key).value);
    var ks := PathKeys(path);
    SetPathReads(e, path, Get(e, key).value);
    RemoveKeepsOthers(s, key, ks[0]);
    GetPathHead(Remove(s, key), s, ks);
    RemoveGone(s, key);
  }

  /** When the path starts at the key being moved, the `unset` afterwards deletes the
      subtree the value was just written into: the value is not kept. */
  lemma MoveOntoItself(e: Entries, key: Key, path: seq<Value>)
    requires HasKey(e, key) && PathValid(path) && PathKeys(path)[0] == key
    ensures !HasKey(MoveSpec(e, key, path), key)
    ensures GetPath(MoveSpec(e, key, path), PathKeys(path)) == None
  {
    var s := SetPath(e, path, Get(e, key).value);
    RemoveGone(s, key);
  }

  /** A path is read through its first key only. */
  lemma GetPathHead(e1: Entries, e2: Entries, ks: seq<Key>)
    requires |ks| >= 1 && Get(e1, ks[0]) == Get(e2, ks[0])
    ensures GetPath(e1, ks) == GetPath(e2, ks)
  {
  }

  // ---------------------------------------------------------------------------
  // renameColumn
  // ---------------------------------------------------------------------------

  /** One row after `$array[$key][$keyName] = $row[$column]; unset($array[$key][$column]);`,
      or `None` when the row cannot be written into. */
  function RenamedRow(row: Value, column: string, keyName: string): Option<Value> {
    match WriteBase(row)
    case None => None
    case Some(b) => Some(VArr(Remove(Assign(b, StrKey(keyName), Column(row, StrKey(column))), StrKey(column))))
  }

  /** The position of the first row that cannot be written into (`|rows|` if none). */
  function FirstUnwritable(rows: Entries, column: string, keyName: string): (f: nat)
    ensures f <= |rows|
    ensures forall j :: 0 <= j < f ==> RenamedRow(rows[j].1, column, keyName).Some?
    ensures f < |rows| ==> RenamedRow(rows[f].1, column, keyName).None?
  {
    if rows == [] then 0
    else if RenamedRow(rows[0].1, column, keyName).None? then 0
    else 1 + FirstUnwritable(rows[1..], column, keyName)
  }

  /** The array `renameColumn` leaves: rows up to the first one that throws are
      renamed, the rest are as they were. */
  function RenameColumnSpec(rows: Entries, column: string, keyName: string): Entries {
    var f := FirstUnwritable(rows, column, keyName);
    seq(|rows|, j requires 0 <= j < |rows| =>
      if j < f then (rows[j].0, RenamedRow(rows[j].1, column, keyName).value) else rows[j])
  }

  /** `renameColumn(&$array, $column, $keyName)`; the error is PHP's "Cannot use a scalar
      value as an array". */
  method RenameColumn(a: ArrayVar, column: string, keyName: string) returns (err: Option<Error>)
    modifies a
    ensures a.arr == RenameColumnSpec(old(a.arr), column, keyName)
    ensures err == if FirstUnwritable(old(a.arr), column, keyName) < |old(a.arr)|
                   then Some(EngineError(ScalarUsedAsArray)) else None
  {
    ghost var orig := a.arr;
    var i := 0;
    while i < |a.arr|
      invariant 0 <= i <= |a.arr| == |orig|
      invariant i <= FirstUnwritable(orig, column, keyName)
      invariant forall j :: 0 <= j < i ==> a.arr[j] == (orig[j].0, RenamedRow(orig[j].1, column, keyName).value)
      invariant forall j :: i <= j < |orig| ==> a.arr[j] == orig[j]
    {
      var key := a.arr[i].0;
      var row := a.arr[i].1;
      var base := WriteBase(row);
      if base.None? {
        RenameColumnAt(orig, column, keyName, i);
        return Some(EngineError(ScalarUsedAsArray));
      }
      var written := VArr(Assign(base.value, StrKey(keyName), Column(row, StrKey(column))));
      var unset := UnsetColumn(written, StrKey(column));
      RenameColumnAt(orig, column, keyName, i);
      a.arr := a.arr[i := (key, unset.value)];
      i := i + 1;
    }
    assert a.arr == RenameColumnSpec(orig, column, keyName);
    return None;
  }

  /** The step the loop of `RenameColumn` takes at row `i`. */
  lemma RenameColumnAt(rows: Entries, column: string, keyName: string, i: nat)
    requires i < |rows| && i <= FirstUnwritable(rows, column, keyName)
    ensures WriteBase(rows[i].1).None? ==> FirstUnwritable(rows, column, keyName) == i
    ensures WriteBase(rows[i].1).Some? ==> i + 1 <= FirstUnwritable(rows, column, keyName)
  {
  }

  /** What a renamed row holds: the old column's value under the new name, no entry
      under the old name, every other key as before, and every other value read as
      before. */
  lemma RenamedRowReads(row: Value, column: string, keyName: string)
    requires RenamedRow(row, column, keyName).Some?
    ensures RenamedRow(row, column, keyName).value.VArr?
    ensures !HasKey(RenamedRow(row, column, keyName).value.entries, StrKey(column))
    ensures keyName != column ==>
              Get(RenamedRow(row, column, keyName).value.entries, StrKey(keyName)) == Some(Column(row, StrKey(column)))
    ensures forall k :: k != StrKey(column) && k != StrKey(keyName) ==>
              Get(RenamedRow(row, column, keyName).value.entries, k) == Get(WriteBase(row).value, k)
  {
    var b := WriteBase(row).value;
    var x := Column(row, StrKey(column));
    var w := Assign(b, StrKey(keyName), x);
    AssignGet(b, StrKey(keyName), x);
    RemoveGone(w, StrKey(column));
    forall k | k != StrKey(column) ensures Get(Remove(w, StrKey(column)), k) == Get(w, k) {
      RemoveKeepsOthers(w, StrKey(column), k);
    }
  }

  /** Rows that are arrays, null or false are all renamed; the keys of the array and
      their order stay. */
  lemma RenameColumnRows(rows: Entries, column: string, keyName: string)
    requires forall j :: 0 <= j < |rows| ==> WriteBase(rows[j].1).Some?
    ensures FirstUnwritable(rows, column, keyName) == |rows|
    ensures KeysOf(RenameColumnSpec(rows, column, keyName)) == KeysOf(rows)
    ensures forall j :: 0 <= j < |rows| ==>
              RenameColumnSpec(rows, column, keyName)[j].1 == RenamedRow(rows[j].1, column, keyName).value
  {
    forall j | 0 <= j < |rows| ensures RenamedRow(rows[j].1, column, keyName).Some? {
      assert WriteBase(rows[j].1).Some?;
    }
  }

  /** A row that cannot be written into stops the walk there: the rows before it are
      renamed and it and the rows after it are untouched. */
  lemma RenameColumnStops(rows: Entries, column: string, keyName: string, i: nat)
    requires i < |rows| && WriteBase(rows[i].1).None?
    requires forall j :: 0 <= j < i ==> WriteBase(rows[j].1).Some?
    ensures FirstUnwritable(rows, column, keyName) == i
    ensures RenameColumnSpec(rows, column, keyName)[i..] == rows[i..]
  {
    forall j | 0 <= j < i ensures RenamedRow(rows[j].1, column, keyName).Some? {
      assert WriteBase(rows[j].1).Some?;
    }
    assert RenamedRow(rows[i].1, column, keyName).None?;
  }
}
