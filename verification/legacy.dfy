/**
 * The older `ArrayHelpers` class: earlier revisions of `topAndBottom`, `splitByKey`,
 * `DigitToKey`, `MultiToSingle`, `ColumnsConversion`, `RemoveByValue` and
 * `MultArrSort`, kept apart from the newer modules so that the two revisions can be
 * compared.  Where an older operation runs the same code as the newer one, it is
 * stated in terms of the newer model.
 */
module ArrayHelpers {
  import opened PhpArrays
  import opened PhpCasts
  import opened StableSort
  import Splitters
  import Editors
  import Sorters
  import Converters

  // ---------------------------------------------------------------------------
  // topAndBottom
  // ---------------------------------------------------------------------------

  /** `topAndBottom($array, $rows)` as written.  When the requested count is not
      positive or does not fit twice, the count becomes `floor(count($array)/2)`, a
      float; the file declares `strict_types=1`, so `array_slice` refuses it with a
      `TypeError`. */
  function TopAndBottom(e: Entries, rows: int): (r: Result<Entries>)
    ensures |e| == 0 <==> r == Err(EmptyArray)
    ensures |e| == 1 <==> r == Err(SingleElement)
    ensures |e| >= 2 ==> (r == Err(EngineError(ArgumentType)) <==> rows <= 0 || |e| < rows * 2)
  {
    if |e| == 0 then Err(EmptyArray)
    else if |e| == 1 then Err(SingleElement)
    else if rows <= 0 || |e| < rows * 2 then Err(EngineError(ArgumentType))
    else Ok([(StrKey("top"), VArr(Splitters.TopOf(e, rows))), (StrKey("bottom"), VArr(Splitters.BottomOf(e, rows)))])
  }

  /** The clamping path fails: two rows and the default count of 0 give a `TypeError`
      where the newer revision splits the pair. */
  lemma TopAndBottomClampFails()
    ensures TopAndBottom([(IntKey(0), VInt(1)), (IntKey(1), VInt(2))], 0) == Err(EngineError(ArgumentType))
    ensures Splitters.TopAndBottom([(IntKey(0), VInt(1)), (IntKey(1), VInt(2))], 0).Ok?
  {
  }

  /** Wherever the older revision succeeds it gives what the newer revision gives; the
      newer one is the older with the clamped count kept an integer. */
  lemma TopAndBottomVersions(e: Entries, rows: int)
    ensures TopAndBottom(e, rows).Ok? ==> TopAndBottom(e, rows) == Splitters.TopAndBottom(e, rows)
    ensures TopAndBottom(e, rows) == Err(EngineError(ArgumentType)) ==>
              |e| >= 2 && Splitters.TopAndBottom(e, rows).Ok? && Splitters.RowCount(|e|, rows) == |e| / 2
  {
    if TopAndBottom(e, rows).Ok? {
      assert Splitters.RowCount(|e|, rows) == rows;
    }
  }

  // ---------------------------------------------------------------------------
  // splitByKey
  // ---------------------------------------------------------------------------

  /** The key `$newarray[$newkey] = []` uses for one value of `$newkeys`, or the exception
      that value raises: an empty value is refused first, then anything that is neither
      an integer nor a string.  An accepted value becomes the key PHP makes of it, which
      is also the key `array_combine` gives it. */
  function NewKey(index: Key, v: Value): (r: Result<Key>)
    ensures r.Ok? <==> !IsEmpty(v) && (v.VInt? || v.VStr?)
    ensures r.Ok? ==> KeyOf(v) == Some(r.value)
    ensures r.Err? ==> r.error == (if IsEmpty(v) then EmptyPartitionKey(index) else InvalidPartitionKey(index))
  {
    if IsEmpty(v) then Err(EmptyPartitionKey(index))
    else if v.VInt? then Ok(IntKey(v.i))
    else if v.VStr? then Ok(StrKey(v.s))
    else Err(InvalidPartitionKey(index))
  }

  function NewKeyMaker(): ((Key, Value)) -> Result<Key> {
    (p: (Key, Value)) => NewKey(p.0, p.1)
  }

  /** The rows whose column is loosely equal (`==`, the parameter `eq`) to `target`, in
      input order. */
  function EqualRows(rows: Entries, column: Key, target: Value, eq: (Value, Value) -> bool): (m: Entries)
    ensures |m| <= |rows|
  {
    if rows == [] then []
    else (if eq(Column(rows[0].1, column), target) then [rows[0]] else []) + EqualRows(rows[1..], column, target, eq)
  }

  /** `EqualRows` keeps exactly the rows that compare equal. */
  lemma {:induction false} EqualRowsMembers(rows: Entries, column: Key, target: Value, eq: (Value, Value) -> bool)
    ensures forall x :: x in EqualRows(rows, column, target, eq) <==> x in rows && eq(Column(x.1, column), target)
  {
    if rows != [] {
      EqualRowsMembers(rows[1..], column, target, eq);
      assert forall x :: x in rows <==> x == rows[0] || x in rows[1..];
    }
  }

  /** The inner `foreach ($array as $item)` for one expected value: each row whose column
      is equal to it, with the column unset, appended to `acc`; or the exception `unset`
      raises on a scalar row. */
  function Pick(acc: seq<Value>, rows: Entries, column: Key, target: Value, eq: (Value, Value) -> bool): Result<seq<Value>>
    decreases |rows|
  {
    if rows == [] then Ok(acc)
    else if !eq(Column(rows[0].1, column), target) then Pick(acc, rows[1..], column, target, eq)
    else
      match UnsetColumn(rows[0].1, column)
      case None => Err(EngineError(UnsetOnScalar))
      case Some(item) => Pick(acc + [item], rows[1..], column, target, eq)
  }

  /** Picking fails exactly when one of the equal rows cannot have its column unset, and
      then with that error. */
  lemma {:induction false} PickFails(acc: seq<Value>, rows: Entries, column: Key, target: Value,
                                     eq: (Value, Value) -> bool)
    ensures Pick(acc, rows, column, target, eq).Err? <==>
              exists x :: x in EqualRows(rows, column, target, eq) && UnsetColumn(x.1, column).None?
    ensures Pick(acc, rows, column, target, eq).Err? ==> Pick(acc, rows, column, target, eq).error == EngineError(UnsetOnScalar)
    decreases |rows|
  {
    if rows != [] {
      var m := EqualRows(rows, column, target, eq);
      var m' := EqualRows(rows[1..], column, target, eq);
      if !eq(Column(rows[0].1, column), target) {
        assert m == m';
        PickFails(acc, rows[1..], column, target, eq);
      } else {
        assert m == [rows[0]] + m';
        assert forall x :: x in m <==> x == rows[0] || x in m';
        if UnsetColumn(rows[0].1, column).Some? {
          PickFails(acc + [UnsetColumn(rows[0].1, column).value], rows[1..], column, target, eq);
        }
      }
    }
  }

  /** A successful pick appends every equal row, in input order, with the column unset. */
  lemma {:induction false} PickEqualRows(acc: seq<Value>, rows: Entries, column: Key, target: Value,
                                         eq: (Value, Value) -> bool)
    requires Pick(acc, rows, column, target, eq).Ok?
    ensures var p := Pick(acc, rows, column, target, eq).value;
            var m := EqualRows(rows, column, target, eq);
            && |p| == |acc| + |m| && p[..|acc|] == acc
            && forall t :: 0 <= t < |m| ==> UnsetColumn(m[t].1, column) == Some(p[|acc| + t])
    decreases |rows|
  {
    if rows != [] {
      var m := EqualRows(rows, column, target, eq);
      var m' := EqualRows(rows[1..], column, target, eq);
      if !eq(Column(rows[0].1, column), target) {
        assert m == m';
        PickEqualRows(acc, rows[1..], column, target, eq);
      } else {
        var q := UnsetColumn(rows[0].1, column).value;
        var p := Pick(acc, rows, column, target, eq).value;
        assert m == [rows[0]] + m';
        PickEqualRows(acc + [q], rows[1..], column, target, eq);
        assert p[..|acc| + 1] == acc + [q];
        assert p[..|acc|] == p[..|acc| + 1][..|acc|];
        forall t | 0 <= t < |m| ensures UnsetColumn(m[t].1, column) == Some(p[|acc| + t]) {
          if t == 0 {
            assert p[|acc|] == (acc + [q])[|acc|];
          } else {
            assert m[t] == m'[t - 1];
          }
        }
      }
    }
  }

  /** The outer `foreach ($valuestocheck as $key => $value)`: each combined key in turn
      gets the list of its picked rows; `acc` holds the partitions already filled. */
  function Distribute(acc: Entries, combined: Entries, rows: Entries, column: Key, eq: (Value, Value) -> bool): Result<Entries>
    decreases |combined|
  {
    if combined == [] then Ok(acc)
    else
      match Pick([], rows, column, combined[0].1, eq)
      case Err(e) => Err(e)
      case Ok(part) => Distribute(acc + [(combined[0].0, VArr(ListOf(part)))], combined[1..], rows, column, eq)
  }

  /** Distributing fails exactly when picking for one of the expected values fails;
      otherwise there is one partition per combined entry, in order, holding what was
      picked for its value. */
  lemma {:induction false} DistributeOk(acc: Entries, combined: Entries, rows: Entries, column: Key,
                                        eq: (Value, Value) -> bool)
    ensures Distribute(acc, combined, rows, column, eq).Err? <==>
              exists j :: 0 <= j < |combined| && Pick([], rows, column, combined[j].1, eq).Err?
    ensures Distribute(acc, combined, rows, column, eq).Err? ==>
              Distribute(acc, combined, rows, column, eq).error == EngineError(UnsetOnScalar)
    ensures Distribute(acc, combined, rows, column, eq).Ok? ==>
              var out := Distribute(acc, combined, rows, column, eq).value;
              && |out| == |acc| + |combined| && out[..|acc|] == acc
              && forall j :: 0 <= j < |combined| ==>
                   && Pick([], rows, column, combined[j].1, eq).Ok?
                   && out[|acc| + j] == (combined[j].0, VArr(ListOf(Pick([], rows, column, combined[j].1, eq).value)))
    decreases |combined|
  {
    if combined != [] {
      assert forall j :: 1 <= j < |combined| ==> combined[j] == combined[1..][j - 1];
      PickFails([], rows, column, combined[0].1, eq);
      if Pick([], rows, column, combined[0].1, eq).Ok? {
        var part := Pick([], rows, column, combined[0].1, eq).value;
        var acc' := acc + [(combined[0].0, VArr(ListOf(part)))];
        DistributeOk(acc', combined[1..], rows, column, eq);
        if Distribute(acc, combined, rows, column, eq).Ok? {
          var out := Distribute(acc, combined, rows, column, eq).value;
          assert out[..|acc'|][..|acc|] == out[..|acc|];
          assert out[|acc|] == acc'[|acc|];
          forall j | 1 <= j < |combined|
            ensures out[|acc| + j] == (combined[j].0, VArr(ListOf(Pick([], rows, column, combined[j].1, eq).value)))
          {
            assert out[|acc'| + (j - 1)] == out[|acc| + j];
          }
        }
      }
    }
  }

  /** The partition keys and the values they are compared with: `array_combine($newkeys,
      $valuestocheck)`, the keys being the ones the preparing loop formed. */
  function Combined(newKeys: Entries, expected: Entries): Result<Entries> {
    Converters.ArrayCombine(Splitters.Formed(newKeys, NewKeyMaker()), ValuesOf(expected))
  }

  /** `splitByKey($array, $columnkey, $newkeys, $valuestocheck)` as written, with `==`
      the given loose equality. */
  function SplitByKeySpec(rows: Entries, column: string, newKeys: Entries, expected: Entries,
                          eq: (Value, Value) -> bool): Result<Entries>
  {
    if |rows| == 0 then Err(EmptyArray)
    else if IsEmptyString(column) then Err(EmptyKey)
    else if |newKeys| == 0 then Err(EmptyNewKeys)
    else if |expected| == 0 then Err(EmptyExpectedValues)
    else if |newKeys| != |expected| then Err(KeyValueCountMismatch)
    else
      match Splitters.Prepare([], newKeys, NewKeyMaker())
      case Err(e) => Err(e)
      case Ok(_) =>
        match Combined(newKeys, expected)
        case Err(e) => Err(e)
        case Ok(combined) => Distribute([], combined, rows, StrKey(column), eq)
  }

  /** `splitByKey($array, $columnkey, $newkeys, $valuestocheck)`. */
  method SplitByKey(rows: Entries, column: string, newKeys: Entries, expected: Entries,
                    eq: (Value, Value) -> bool) returns (r: Result<Entries>)
    ensures r == SplitByKeySpec(rows, column, newKeys, expected, eq)
  {
    if |rows| == 0 {
      return Err(EmptyArray);
    }
    if IsEmptyString(column) {
      return Err(EmptyKey);
    }
    if |newKeys| == 0 {
      return Err(EmptyNewKeys);
    }
    if |expected| == 0 {
      return Err(EmptyExpectedValues);
    }
    if |newKeys| != |expected| {
      return Err(KeyValueCountMismatch);
    }
    var prepared := PrepareNewKeys(newKeys);
    if prepared.Err? {
      return Err(prepared.error);
    }
    var combined := Combined(newKeys, expected);
    if combined.Err? {
      return Err(combined.error);
    }
    CombinedKeys(newKeys, expected);
    r := DistributeLoop(prepared.value, combined.value, rows, StrKey(column), eq);
  }

  /** The loop that prepares an empty partition per new key. */
  method PrepareNewKeys(newKeys: Entries) returns (r: Result<Entries>)
    ensures r == Splitters.Prepare([], newKeys, NewKeyMaker())
  {
    var newArray: Entries := [];
    var j := 0;
    while j < |newKeys|
      invariant 0 <= j <= |newKeys|
      invariant Splitters.Prepare([], newKeys, NewKeyMaker()) == Splitters.Prepare(newArray, newKeys[j..], NewKeyMaker())
    {
      assert newKeys[j..][1..] == newKeys[j + 1..];
      var newKey := newKeys[j].1;
      if IsEmpty(newKey) {
        return Err(EmptyPartitionKey(newKeys[j].0));
      }
      if newKey.VInt? {
        newArray := Assign(newArray, IntKey(newKey.i), VArr([]));
      } else if newKey.VStr? {
        newArray := Assign(newArray, StrKey(newKey.s), VArr([]));
      } else {
        return Err(InvalidPartitionKey(newKeys[j].0));
      }
      j := j + 1;
    }
    return Ok(newArray);
  }

  /** The outer loop over the combined keys, filling the prepared partition of each; the
      partition of the `t`-th combined key is the `t`-th entry of `$newarray`. */
  method DistributeLoop(prepared: Entries, combined: Entries, rows: Entries, column: Key,
                        eq: (Value, Value) -> bool) returns (r: Result<Entries>)
    requires KeysOf(prepared) == KeysOf(combined)
    ensures r == Distribute([], combined, rows, column, eq)
  {
    var newArray := prepared;
    var t := 0;
    while t < |combined|
      invariant 0 <= t <= |combined| == |newArray| == |prepared|
      invariant forall k :: t <= k < |newArray| ==> newArray[k] == prepared[k]
      invariant Distribute([], combined, rows, column, eq) == Distribute(newArray[..t], combined[t..], rows, column, eq)
    {
      var key := combined[t].0;
      assert key == KeysOf(prepared)[t] == newArray[t].0;
      assert combined[t..][1..] == combined[t + 1..];
      var part := PickLoop(rows, column, combined[t].1, eq);
      if part.Err? {
        return Err(part.error);
      }
      newArray := newArray[t := (key, VArr(ListOf(part.value)))];
      assert newArray[..t + 1] == newArray[..t] + [(key, VArr(ListOf(part.value)))];
      t := t + 1;
    }
    assert newArray[..t] == newArray;
    return Ok(newArray);
  }

  /** The inner loop over the rows for one expected value. */
  method PickLoop(rows: Entries, column: Key, target: Value, eq: (Value, Value) -> bool) returns (r: Result<seq<Value>>)
    ensures r == Pick([], rows, column, target, eq)
  {
    var part: seq<Value> := [];
    var q := 0;
    while q < |rows|
      invariant 0 <= q <= |rows|
      invariant Pick([], rows, column, target, eq) == Pick(part, rows[q..], column, target, eq)
    {
      assert rows[q..][1..] == rows[q + 1..];
      var item := rows[q].1;
      if eq(Column(item, column), target) {
        var unset := UnsetColumn(item, column);
        if unset.None? {
          return Err(EngineError(UnsetOnScalar));
        }
        part := part + [unset.value];
      }
      q := q + 1;
    }
    return Ok(part);
  }

  /** Every new key accepted, each formed key is the one for its place. */
  lemma {:induction false} FormedAll(ks: Entries)
    requires forall j :: 0 <= j < |ks| ==> NewKey(ks[j].0, ks[j].1).Ok?
    ensures |Splitters.Formed(ks, NewKeyMaker())| == |ks|
    ensures forall j :: 0 <= j < |ks| ==> Splitters.Formed(ks, NewKeyMaker())[j] == NewKey(ks[j].0, ks[j].1).value
  {
    if ks != [] {
      assert forall j :: 1 <= j < |ks| ==> ks[j] == ks[1..][j - 1];
      FormedAll(ks[1..]);
    }
  }

  /** Once the new keys are accepted, `array_combine` succeeds and gives the keys of the
      prepared array, in the same order: each formed key once, at its first place. */
  lemma CombinedKeys(newKeys: Entries, expected: Entries)
    requires |newKeys| == |expected|
    requires Splitters.Prepare([], newKeys, NewKeyMaker()).Ok?
    ensures Combined(newKeys, expected).Ok?
    ensures KeysOf(Combined(newKeys, expected).value) == KeysOf(Splitters.Prepare([], newKeys, NewKeyMaker()).value)
    ensures KeysOf(Combined(newKeys, expected).value) == Dedup(Splitters.Formed(newKeys, NewKeyMaker()))
  {
    var formed := Splitters.Formed(newKeys, NewKeyMaker());
    Splitters.PrepareOrder([], newKeys, NewKeyMaker());
    assert KeysOf([]) == [];
    FormedAll(newKeys);
    var ps := seq(|formed|, i requires 0 <= i < |formed| => (formed[i], ValuesOf(expected)[i]));
    assert KeysOf(ps) == formed;
    AssignAllFromEmpty(ps);
  }

  /** The pairs `array_combine` assigns in turn: each formed key with the expected value at
      the same place. */
  function CombinedPairs(newKeys: Entries, expected: Entries): seq<(Key, Value)> {
    var formed := Splitters.Formed(newKeys, NewKeyMaker());
    var values := ValuesOf(expected);
    var n := if |formed| <= |values| then |formed| else |values|;
    seq(n, i requires 0 <= i < n => (formed[i], values[i]))
  }

  lemma CombinedIsAssignAll(newKeys: Entries, expected: Entries)
    requires |newKeys| == |expected|
    requires forall j :: 0 <= j < |newKeys| ==> NewKey(newKeys[j].0, newKeys[j].1).Ok?
    ensures |CombinedPairs(newKeys, expected)| == |newKeys|
    ensures forall j :: 0 <= j < |newKeys| ==>
              CombinedPairs(newKeys, expected)[j] == (NewKey(newKeys[j].0, newKeys[j].1).value, expected[j].1)
    ensures Combined(newKeys, expected) == Ok(AssignAll([], CombinedPairs(newKeys, expected)))
  {
    FormedAll(newKeys);
    var formed := Splitters.Formed(newKeys, NewKeyMaker());
    var values := ValuesOf(expected);
    assert CombinedPairs(newKeys, expected) == seq(|formed|, i requires 0 <= i < |formed| => (formed[i], values[i]));
  }

  /** A key formed at place `j` and at no later place is compared with the expected value
      at `j`: the last pairing wins. */
  lemma CombinedValue(newKeys: Entries, expected: Entries, j: int)
    requires |newKeys| == |expected|
    requires forall i :: 0 <= i < |newKeys| ==> NewKey(newKeys[i].0, newKeys[i].1).Ok?
    requires 0 <= j < |newKeys|
    requires forall i :: j < i < |newKeys| ==> NewKey(newKeys[i].0, newKeys[i].1) != NewKey(newKeys[j].0, newKeys[j].1)
    ensures Combined(newKeys, expected).Ok?
    ensures Get(Combined(newKeys, expected).value, NewKey(newKeys[j].0, newKeys[j].1).value) == Some(expected[j].1)
  {
    var k := NewKey(newKeys[j].0, newKeys[j].1).value;
    var ps := CombinedPairs(newKeys, expected);
    CombinedIsAssignAll(newKeys, expected);
    AssignAllGet([], ps, k);
    LastValueAt(ps, k, j);
  }

  /** The first refused new key decides the exception. */
  lemma {:induction false} PrepareFirst(acc: Entries, ks: Entries, j: int)
    requires 0 <= j < |ks| && NewKey(ks[j].0, ks[j].1).Err?
    requires forall i :: 0 <= i < j ==> NewKey(ks[i].0, ks[i].1).Ok?
    ensures Splitters.Prepare(acc, ks, NewKeyMaker()) == Err(NewKey(ks[j].0, ks[j].1).error)
    decreases |ks|
  {
    if j > 0 {
      assert forall i :: 1 <= i < |ks| ==> ks[i] == ks[1..][i - 1];
      PrepareFirst(Assign(acc, NewKey(ks[0].0, ks[0].1).value, VArr([])), ks[1..], j - 1);
    }
  }

  /** Preparing only ever refuses a new key. */
  lemma {:induction false} PrepareErrors(acc: Entries, ks: Entries)
    ensures Splitters.Prepare(acc, ks, NewKeyMaker()).Err? ==>
              Splitters.Prepare(acc, ks, NewKeyMaker()).error.EmptyPartitionKey? ||
              Splitters.Prepare(acc, ks, NewKeyMaker()).error.InvalidPartitionKey?
    decreases |ks|
  {
    if ks != [] && NewKey(ks[0].0, ks[0].1).Ok? {
      PrepareErrors(Assign(acc, NewKey(ks[0].0, ks[0].1).value, VArr([])), ks[1..]);
    }
  }

  /** The argument checks of `splitByKey` all pass. */
  predicate ArgumentsPass(rows: Entries, column: string, newKeys: Entries, expected: Entries) {
    |rows| > 0 && !IsEmptyString(column) && |newKeys| > 0 && |expected| > 0 && |newKeys| == |expected|
  }

  /** Each argument exception is raised exactly when its check is the first to fail. */
  lemma SplitByKeyChecks(rows: Entries, column: string, newKeys: Entries, expected: Entries,
                         eq: (Value, Value) -> bool)
    ensures SplitByKeySpec(rows, column, newKeys, expected, eq) == Err(EmptyArray) <==> |rows| == 0
    ensures SplitByKeySpec(rows, column, newKeys, expected, eq) == Err(EmptyKey) <==>
              |rows| > 0 && IsEmptyString(column)
    ensures SplitByKeySpec(rows, column, newKeys, expected, eq) == Err(EmptyNewKeys) <==>
              |rows| > 0 && !IsEmptyString(column) && |newKeys| == 0
    ensures SplitByKeySpec(rows, column, newKeys, expected, eq) == Err(EmptyExpectedValues) <==>
              |rows| > 0 && !IsEmptyString(column) && |newKeys| > 0 && |expected| == 0
    ensures SplitByKeySpec(rows, column, newKeys, expected, eq) == Err(KeyValueCountMismatch) <==>
              |rows| > 0 && !IsEmptyString(column) && |newKeys| > 0 && |expected| > 0 && |newKeys| != |expected|
  {
    if ArgumentsPass(rows, column, newKeys, expected) {
      SplitByKeyLaterErrors(rows, column, newKeys, expected, eq);
    }
  }

  /** Past the argument checks, every exception is a refused new key or a failed `unset`. */
  lemma SplitByKeyLaterErrors(rows: Entries, column: string, newKeys: Entries, expected: Entries,
                              eq: (Value, Value) -> bool)
    requires ArgumentsPass(rows, column, newKeys, expected)
    ensures var r := SplitByKeySpec(rows, column, newKeys, expected, eq);
            r.Err? ==> r.error.EmptyPartitionKey? || r.error.InvalidPartitionKey? || r.error == EngineError(UnsetOnScalar)
  {
    match Splitters.Prepare([], newKeys, NewKeyMaker())
    case Err(e) =>
      PrepareErrors([], newKeys);
    case Ok(_) =>
      CombinedKeys(newKeys, expected);
      DistributeOk([], Combined(newKeys, expected).value, rows, StrKey(column), eq);
  }

  /** The first refused new key decides the exception. */
  lemma SplitByKeyRefusedKey(rows: Entries, column: string, newKeys: Entries, expected: Entries,
                             eq: (Value, Value) -> bool, j: int)
    requires ArgumentsPass(rows, column, newKeys, expected)
    requires 0 <= j < |newKeys| && NewKey(newKeys[j].0, newKeys[j].1).Err?
    requires forall i :: 0 <= i < j ==> NewKey(newKeys[i].0, newKeys[i].1).Ok?
    ensures SplitByKeySpec(rows, column, newKeys, expected, eq) == Err(NewKey(newKeys[j].0, newKeys[j].1).error)
  {
    PrepareFirst([], newKeys, j);
  }

  /** With every new key accepted, the split fails exactly when a row equal to one of the
      compared values cannot have its column unset. */
  lemma SplitByKeyUnsetFails(rows: Entries, column: string, newKeys: Entries, expected: Entries,
                             eq: (Value, Value) -> bool)
    requires ArgumentsPass(rows, column, newKeys, expected)
    requires forall j :: 0 <= j < |newKeys| ==> NewKey(newKeys[j].0, newKeys[j].1).Ok?
    ensures Combined(newKeys, expected).Ok?
    ensures SplitByKeySpec(rows, column, newKeys, expected, eq).Err? <==>
              exists j, x :: 0 <= j < |Combined(newKeys, expected).value| &&
                             x in EqualRows(rows, StrKey(column), Combined(newKeys, expected).value[j].1, eq) &&
                             UnsetColumn(x.1, StrKey(column)).None?
  {
    Splitters.PrepareOrder([], newKeys, NewKeyMaker());
    CombinedKeys(newKeys, expected);
    var combined := Combined(newKeys, expected).value;
    DistributeOk([], combined, rows, StrKey(column), eq);
    forall j | 0 <= j < |combined| {
      PickFails([], rows, StrKey(column), combined[j].1, eq);
    }
  }

  /** One partition holds exactly the rows whose column equals `target`, in input order,
      each with the column unset, as a list. */
  ghost predicate PartitionHolds(p: (Key, Value), rows: Entries, column: Key, target: Option<Value>,
                                 eq: (Value, Value) -> bool)
  {
    && target.Some? && p.1.VArr? && IsList(p.1.entries)
    && var m := EqualRows(rows, column, target.value, eq);
       |p.1.entries| == |m|
       && forall t :: 0 <= t < |m| ==> UnsetColumn(m[t].1, column) == Some(p.1.entries[t].1)
  }

  /** A successful split is the distribution over the combined keys. */
  lemma SplitByKeyDistributes(rows: Entries, column: string, newKeys: Entries, expected: Entries,
                              eq: (Value, Value) -> bool)
    requires SplitByKeySpec(rows, column, newKeys, expected, eq).Ok?
    ensures forall j :: 0 <= j < |newKeys| ==> NewKey(newKeys[j].0, newKeys[j].1).Ok?
    ensures Combined(newKeys, expected).Ok?
    ensures KeysOf(Combined(newKeys, expected).value) == Dedup(Splitters.Formed(newKeys, NewKeyMaker()))
    ensures SplitByKeySpec(rows, column, newKeys, expected, eq) ==
              Distribute([], Combined(newKeys, expected).value, rows, StrKey(column), eq)
  {
    Splitters.PrepareOrder([], newKeys, NewKeyMaker());
    CombinedKeys(newKeys, expected);
  }

  /** The keys of a successful split: one partition per distinct accepted new key, in
      order of first appearance, and every new key has one. */
  lemma SplitByKeyKeys(rows: Entries, column: string, newKeys: Entries, expected: Entries,
                       eq: (Value, Value) -> bool)
    requires SplitByKeySpec(rows, column, newKeys, expected, eq).Ok?
    ensures var out := SplitByKeySpec(rows, column, newKeys, expected, eq).value;
            && KeysOf(out) == Dedup(Splitters.Formed(newKeys, NewKeyMaker()))
            && DistinctKeys(out)
            && forall j :: 0 <= j < |newKeys| ==>
                 NewKey(newKeys[j].0, newKeys[j].1).Ok? && HasKey(out, NewKey(newKeys[j].0, newKeys[j].1).value)
  {
    SplitByKeyDistributes(rows, column, newKeys, expected, eq);
    FormedAll(newKeys);
    var combined := Combined(newKeys, expected).value;
    DistributeOk([], combined, rows, StrKey(column), eq);
    var out := SplitByKeySpec(rows, column, newKeys, expected, eq).value;
    assert KeysOf(out) == KeysOf(combined);
    DistinctKeysOf(out);
    forall j | 0 <= j < |newKeys| ensures HasKey(out, NewKey(newKeys[j].0, newKeys[j].1).value) {
      var k := NewKey(newKeys[j].0, newKeys[j].1).value;
      assert Splitters.Formed(newKeys, NewKeyMaker())[j] == k;
      KeysOfHasKey(out, k);
    }
  }

  /** The partitions of a successful split: each holds the rows equal to the value
      `array_combine` paired with its key (see `CombinedValue`). */
  lemma SplitByKeyContents(rows: Entries, column: string, newKeys: Entries, expected: Entries,
                           eq: (Value, Value) -> bool)
    requires SplitByKeySpec(rows, column, newKeys, expected, eq).Ok?
    ensures Combined(newKeys, expected).Ok?
    ensures var out := SplitByKeySpec(rows, column, newKeys, expected, eq).value;
            forall j :: 0 <= j < |out| ==>
              PartitionHolds(out[j], rows, StrKey(column), Get(Combined(newKeys, expected).value, out[j].0), eq)
  {
    SplitByKeyDistributes(rows, column, newKeys, expected, eq);
    var combined := Combined(newKeys, expected).value;
    DistinctKeysOf(combined);
    DistributeOk([], combined, rows, StrKey(column), eq);
    var out := Distribute([], combined, rows, StrKey(column), eq).value;
    forall j | 0 <= j < |out|
      ensures PartitionHolds(out[j], rows, StrKey(column), Get(combined, out[j].0), eq)
    {
      assert out[0 + j] == out[j];
      GetAt(combined, j);
      PickEqualRows([], rows, StrKey(column), combined[j].1, eq);
    }
  }

  // ---------------------------------------------------------------------------
  // DigitToKey
  // ---------------------------------------------------------------------------

  /** `DigitToKey($oldarray, $newkey, $keyunset)`: the same checks and the same loop as
      the newer revision (`$oldarray[$oldkey]` is the row the `foreach` is at). */
  method DigitToKey(oldArray: Entries, newKey: string, keyUnset: bool) returns (r: Result<Entries>)
    ensures r == Editors.DigitToKeySpec(oldArray, newKey, keyUnset)
    ensures r == Err(EmptyKey) <==> IsEmptyString(newKey)
  {
    Editors.DigitToKeyErrors(oldArray, newKey, keyUnset);
    r := Editors.DigitToKey(oldArray, newKey, keyUnset);
  }

  // ---------------------------------------------------------------------------
  // MultiToSingle
  // ---------------------------------------------------------------------------

  /** The assignments the loop makes: each key paired with its row's column. */
  function ColumnPairs(e: Entries, keyToSave: string): (ps: seq<(Key, Value)>)
    ensures |ps| == |e|
  {
    seq(|e|, i requires 0 <= i < |e| => (e[i].0, Column(e[i].1, StrKey(keyToSave))))
  }

  /** `MultiToSingle($oldarray, $keytosave)` as a value. */
  function MultiToSingleSpec(e: Entries, keyToSave: string): Result<Entries> {
    if IsEmptyString(keyToSave) then Err(EmptyKey)
    else Ok(AssignAll([], ColumnPairs(e, keyToSave)))
  }

  /** `MultiToSingle($oldarray, $keytosave)`. */
  method MultiToSingle(oldArray: Entries, keyToSave: string) returns (r: Result<Entries>)
    ensures r == MultiToSingleSpec(oldArray, keyToSave)
  {
    if IsEmptyString(keyToSave) {
      return Err(EmptyKey);
    }
    ghost var ps := ColumnPairs(oldArray, keyToSave);
    var newArray: Entries := [];
    var i := 0;
    while i < |oldArray|
      invariant 0 <= i <= |oldArray|
      invariant newArray == AssignAll([], ps[..i])
    {
      assert ps[..i + 1] == ps[..i] + [ps[i]];
      AssignAllSnoc([], ps[..i], ps[i]);
      newArray := Assign(newArray, oldArray[i].0, Column(oldArray[i].1, StrKey(keyToSave)));
      i := i + 1;
    }
    assert ps[..i] == ps;
    return Ok(newArray);
  }

  /** Every key keeps its place and maps to its row's column, null where the row lacks
      it. */
  lemma MultiToSingleRows(e: Entries, keyToSave: string)
    requires DistinctKeys(e) && !IsEmptyString(keyToSave)
    ensures MultiToSingleSpec(e, keyToSave) == Ok(ColumnPairs(e, keyToSave))
    ensures KeysOf(ColumnPairs(e, keyToSave)) == KeysOf(e)
    ensures forall i :: 0 <= i < |e| ==> ColumnPairs(e, keyToSave)[i].1 == Column(e[i].1, StrKey(keyToSave))
  {
    var ps := ColumnPairs(e, keyToSave);
    assert forall i :: 0 <= i < |e| ==> ps[i].0 == e[i].0;
    assert DistinctKeys([] + ps) by {
      assert [] + ps == ps;
    }
    AssignAllFresh([], ps);
    assert [] + ps == ps;
  }

  /** Where the two revisions part: an empty name is an error here and `[]` in the newer
      one; the name "0" is an error here (`empty("0")`) while the newer one reads the
      column; a name of only whitespace reads the column here and gives `[]` in the newer
      one; a row lacking the column reads null here and makes the newer one fail;
      otherwise they agree. */
  lemma MultiToSingleVersions(e: Entries, keyToSave: string)
    requires DistinctKeys(e)
    ensures keyToSave == "" ==>
              MultiToSingleSpec(e, keyToSave) == Err(EmptyKey) && Converters.MultiToSingle(e, keyToSave) == Ok([])
    ensures keyToSave == "0" ==>
              && MultiToSingleSpec(e, keyToSave) == Err(EmptyKey)
              && (Converters.MultiToSingle(e, keyToSave).Ok? <==>
                    forall i :: 0 <= i < |e| ==> HasColumn(e[i].1, StrKey(keyToSave)))
    ensures keyToSave != "" && Converters.IsBlank(keyToSave) ==>
              MultiToSingleSpec(e, keyToSave) == Ok(ColumnPairs(e, keyToSave))
              && Converters.MultiToSingle(e, keyToSave) == Ok([])
    ensures !IsEmptyString(keyToSave) && !Converters.IsBlank(keyToSave) ==>
              (Converters.MultiToSingle(e, keyToSave).Ok? ==> Converters.MultiToSingle(e, keyToSave) == MultiToSingleSpec(e, keyToSave))
    ensures !IsEmptyString(keyToSave) && !Converters.IsBlank(keyToSave) ==>
              ((exists i :: 0 <= i < |e| && !HasColumn(e[i].1, StrKey(keyToSave))) ==>
                 Converters.MultiToSingle(e, keyToSave).Err? && MultiToSingleSpec(e, keyToSave).Ok?)
  {
    Converters.MultiToSingleRows(e, keyToSave);
    if keyToSave == "0" {
      assert !Converters.IsBlank(keyToSave) by { assert !IsSpace(keyToSave[0]); }
    }
    if keyToSave != "" && Converters.IsBlank(keyToSave) {
      assert keyToSave != "0" by { assert IsSpace(keyToSave[0]); }
      MultiToSingleRows(e, keyToSave);
    }
    if !IsEmptyString(keyToSave) && !Converters.IsBlank(keyToSave) {
      MultiToSingleRows(e, keyToSave);
      var ps := ColumnPairs(e, keyToSave);
      if Converters.MultiToSingle(e, keyToSave).Ok? {
        var q := Converters.MultiToSingle(e, keyToSave).value;
        assert |q| == |ps|;
        assert forall i :: 0 <= i < |q| ==> q[i] == ps[i];
      }
    }
  }

  // ---------------------------------------------------------------------------
  // ColumnsConversion
  // ---------------------------------------------------------------------------

  /** The `case` labels that store `NULL`. */
  predicate NullType(t: string) {
    t in {"uncset", "null", "nothing"}
  }

  /** `ColumnsConversion($array, $columns, $type)` as a value.  `$columns` has no
      declared type here, so anything but a string or an array is refused after the
      emptiness check.  The type is lower-cased; a name no `case` matches leaves
      every row as it is. */
  function ColumnsConversionSpec(arr: Entries, columns: Value, typ: string): Result<Entries> {
    if IsEmpty(columns) then Err(EmptyColumns)
    else if !(columns.VStr? || columns.VArr?) then Err(ColumnsNotList)
    else
      var t := AsciiLower(typ);
      if Editors.KnownType(t) || NullType(t) then Editors.ColumnsConversionSpec(arr, columns, t)
      else Ok(arr)
  }

  /** `ColumnsConversion($array, $columns, $type)`.  The conversions are those of the
      newer revision (whose `default` arm stores null, as the `NULL` cases do here). */
  method ColumnsConversion(arr: Entries, columns: Value, typ: string) returns (r: Result<Entries>)
    ensures r == ColumnsConversionSpec(arr, columns, typ)
  {
    if IsEmpty(columns) {
      return Err(EmptyColumns);
    }
    if !(columns.VStr? || columns.VArr?) {
      return Err(ColumnsNotList);
    }
    var t := AsciiLower(typ);
    if !(Editors.KnownType(t) || NullType(t)) {
      // No `case` matches: every pass of both loops does nothing.
      return Ok(arr);
    }
    r := Editors.ColumnsConversion(arr, columns, t);
  }

  lemma AsciiLowerIdempotent(s: string)
    ensures AsciiLower(AsciiLower(s)) == AsciiLower(s)
  {
  }

  /** The type name is matched without regard to ASCII case, unlike the newer
      revision; for a lower-case name both revisions agree. */
  lemma ColumnsConversionCaseless(arr: Entries, columns: Value, typ: string)
    ensures ColumnsConversionSpec(arr, columns, typ) == ColumnsConversionSpec(arr, columns, AsciiLower(typ))
    ensures (columns.VStr? || columns.VArr?) && AsciiLower(typ) == typ && Editors.KnownType(typ) ==>
              ColumnsConversionSpec(arr, columns, typ) == Editors.ColumnsConversionSpec(arr, columns, typ)
  {
    AsciiLowerIdempotent(typ);
  }

  /** With a type no `case` names the array comes back unchanged; with a `NULL` case
      every listed column of every row reads null. */
  lemma ColumnsConversionNull(arr: Entries, columns: Value, typ: string, i: int, k: Key)
    requires columns.VStr? || columns.VArr?
    requires !IsEmpty(columns) && 0 <= i < |arr|
    ensures !Editors.KnownType(AsciiLower(typ)) && !NullType(AsciiLower(typ)) ==>
              ColumnsConversionSpec(arr, columns, typ) == Ok(arr)
    ensures NullType(AsciiLower(typ)) && ColumnsConversionSpec(arr, columns, typ).Ok? && Editors.Listed(Editors.ColumnList(columns), k) ==>
              var r := ColumnsConversionSpec(arr, columns, typ).value;
              |r| == |arr| && r[i].1.VArr? && Get(r[i].1.entries, k) == Some(VNull)
  {
    var t := AsciiLower(typ);
    if NullType(t) {
      assert !Editors.KnownType(t);
      Editors.ColumnsConversionRows(arr, columns, t, i, k);
    }
  }

  /** A `NULL` case writes without reading: an int row with an array as column name is
      refused by the write, as in the newer revision. */
  lemma ColumnsConversionScalarRow()
    ensures ColumnsConversionSpec([(IntKey(0), VInt(5))], VArr([(IntKey(0), VArr([(IntKey(0), VInt(1))]))]), "null")
            == Err(EngineError(ScalarUsedAsArray))
  {
    var column := VArr([(IntKey(0), VInt(1))]);
    var columns := VArr([(IntKey(0), column)]);
    assert AsciiLower("null") == "null";
    assert Editors.ColumnList(columns) == [column];
    Editors.ConvertStepIllegal(VInt(5), VInt(5), column, "null");
    assert Editors.ConvertRowFrom(VInt(5), VInt(5), [column], "null") == Err(EngineError(ScalarUsedAsArray));
  }

  // ---------------------------------------------------------------------------
  // RemoveByValue
  // ---------------------------------------------------------------------------

  /** The test the loop applies: `===` when `$strict`, `==` (the given loose equality)
      otherwise. */
  function Matches(remValue: Value, strict: bool, looseEq: (Value, Value) -> bool): Value -> bool {
    if strict then Editors.Same(remValue) else v => looseEq(v, remValue)
  }

  /** `RemoveByValue($array, $remvalue, $strict, $rekey)`. */
  method RemoveByValue(arr: Entries, remValue: Value, strict: bool, reKey: bool, looseEq: (Value, Value) -> bool)
    returns (r: Entries)
    requires DistinctKeys(arr)
    ensures r == Editors.RemoveWhereSpec(arr, Matches(remValue, strict, looseEq), reKey)
  {
    r := Editors.RemoveWhere(arr, Matches(remValue, strict, looseEq), reKey);
  }

  /** Strict removal is the newer revision's; loose removal keeps exactly the entries
      not loosely equal to the value, and `$rekey` gives a list. */
  lemma RemoveByValueModes(arr: Entries, remValue: Value, reKey: bool, looseEq: (Value, Value) -> bool)
    ensures Editors.RemoveWhereSpec(arr, Matches(remValue, true, looseEq), reKey) ==
              Editors.RemoveByValueSpec(arr, remValue, reKey)
    ensures forall p :: p in Editors.RemoveWhereSpec(arr, Matches(remValue, false, looseEq), false) <==>
              p in arr && !looseEq(p.1, remValue)
    ensures forall j :: 0 <= j < |Editors.RemoveWhereSpec(arr, Matches(remValue, false, looseEq), reKey)| ==>
              !looseEq(Editors.RemoveWhereSpec(arr, Matches(remValue, false, looseEq), reKey)[j].1, remValue)
    ensures reKey ==> IsList(Editors.RemoveWhereSpec(arr, Matches(remValue, false, looseEq), reKey))
  {
    var drop := Matches(remValue, false, looseEq);
    Editors.RemoveWhereKeeps(arr, drop, false);
    Editors.RemoveWhereKeeps(arr, drop, reKey);
  }

  // ---------------------------------------------------------------------------
  // MultArrSort
  // ---------------------------------------------------------------------------

  /** `MultArrSort($array, $column, $desc)`: an empty column name is an error; otherwise
      the same `uasort` as the newer revision. */
  function MultArrSort(e: Entries, column: string, desc: bool, le: (Value, Value) -> bool): (r: Result<Entries>) {
    if IsEmptyString(column) then Err(EmptyKey) else Ok(Sorters.MultiArrSort(e, column, desc, le))
  }

  /** An empty column name is an error (the newer revision returns `[]`); otherwise the
      result is a reordering of the rows, ordered by the column and stable. */
  lemma MultArrSortOrdered(e: Entries, column: string, desc: bool, le: (Value, Value) -> bool)
    requires TotalPreorder(le)
    ensures MultArrSort(e, column, desc, le) == Err(EmptyKey) <==> IsEmptyString(column)
    ensures IsEmptyString(column) ==> Sorters.MultiArrSort(e, column, desc, le) == []
    ensures MultArrSort(e, column, desc, le).Ok? ==>
              var r := MultArrSort(e, column, desc, le).value;
              && multiset(r) == multiset(e)
              && forall i, j :: 0 <= i < j < |r| ==>
                   if desc then le(Column(r[j].1, StrKey(column)), Column(r[i].1, StrKey(column)))
                   else le(Column(r[i].1, StrKey(column)), Column(r[j].1, StrKey(column)))
  {
    if !IsEmptyString(column) {
      Sorters.MultiArrSortOrdered(e, column, desc, le);
    }
  }
}
