/**
 * Converters: projecting rows onto one column (`multiToSingle`), turning key/value
 * pairs into two-column rows (`toMultiArray`) and reading a DOM node's attributes
 * into an array (`attributesToArray`).
 *
 * The DOM node is given as its attributes in document order, each a pair of the
 * attribute's name and its text content.
 */
module Converters {
  import opened PhpArrays
  import opened PhpCasts

  // ---------------------------------------------------------------------------
  // multiToSingle
  // ---------------------------------------------------------------------------

  /** `preg_match('/^\s*$/', $s)`: the string is empty or only whitespace. */
  predicate IsBlank(s: string) {
    forall i :: 0 <= i < |s| ==> IsSpace(s[i])
  }

  /** `array_combine($keys, $values)`: PHP throws when the lengths differ; otherwise
      each key is assigned its value in turn. */
  function ArrayCombine(keys: seq<Key>, values: seq<Value>): Result<Entries> {
    if |keys| != |values| then Err(EngineError(CombineLengths))
    else Ok(AssignAll([], seq(|keys|, i requires 0 <= i < |keys| => (keys[i], values[i]))))
  }

  /** `multiToSingle($old_array, $key_to_save)`. */
  function MultiToSingle(e: Entries, keyToSave: string): Result<Entries> {
    if IsBlank(keyToSave) then Ok([])
    else ArrayCombine(KeysOf(e), ColumnValues(e, StrKey(keyToSave)))
  }

  /** A blank column name gives `[]`; a row lacking the column makes `array_combine`
      throw; otherwise every key keeps its place and maps to its row's column. */
  lemma MultiToSingleRows(e: Entries, keyToSave: string)
    requires DistinctKeys(e)
    ensures IsBlank(keyToSave) ==> MultiToSingle(e, keyToSave) == Ok([])
    ensures !IsBlank(keyToSave) ==>
              (MultiToSingle(e, keyToSave).Err? <==> exists i :: 0 <= i < |e| && !HasColumn(e[i].1, StrKey(keyToSave)))
    ensures !IsBlank(keyToSave) && MultiToSingle(e, keyToSave).Ok? ==>
              MultiToSingle(e, keyToSave).value ==
                seq(|e|, i requires 0 <= i < |e| => (e[i].0, Column(e[i].1, StrKey(keyToSave))))
  {
    var c := StrKey(keyToSave);
    if !IsBlank(keyToSave) && forall i :: 0 <= i < |e| ==> HasColumn(e[i].1, c) {
      ColumnValuesAll(e, c);
      var ks := KeysOf(e);
      var vs := ColumnValues(e, c);
      CombineDistinct(ks, vs);
      assert seq(|ks|, i requires 0 <= i < |ks| => (ks[i], vs[i])) ==
             seq(|e|, i requires 0 <= i < |e| => (e[i].0, Column(e[i].1, c)));
    }
  }

  /** `array_combine` with distinct keys pairs them up position by position. */
  lemma CombineDistinct(ks: seq<Key>, vs: seq<Value>)
    requires |ks| == |vs|
    requires forall i, j :: 0 <= i < j < |ks| ==> ks[i] != ks[j]
    ensures ArrayCombine(ks, vs) == Ok(seq(|ks|, i requires 0 <= i < |ks| => (ks[i], vs[i])))
  {
    var ps := seq(|ks|, i requires 0 <= i < |ks| => (ks[i], vs[i]));
    assert DistinctKeys(ps);
    assert [] + ps == ps;
    AssignAllFresh([], ps);
  }

  // ---------------------------------------------------------------------------
  // toMultiArray
  // ---------------------------------------------------------------------------

  /** The key named by `$keys[n]`: null (so the key `""`) when `$keys` lacks
      position `n`, `None` when the name cannot be a key. */
  function KeyName(keys: Entries, n: int): Option<Key> {
    KeyOf(Get(keys, IntKey(n)).GetOr(VNull))
  }

  /** The row `[$keys[0] => $key, $keys[1] => $element]`: when both names are the
      same key the second value takes the first one's place. */
  function PairRow(k0: Key, k1: Key, key: Key, element: Value): Value {
    if k0 == k1 then VArr([(k1, element)]) else VArr([(k0, KeyValue(key)), (k1, element)])
  }

  /** The row is what the two assignments of the array literal build, one after the
      other. */
  lemma PairRowAssigns(k0: Key, k1: Key, key: Key, element: Value)
    ensures PairRow(k0, k1, key, element) == VArr(Assign(Assign([], k0, KeyValue(key)), k1, element))
  {
    var first := Assign([], k0, KeyValue(key));
    assert first == [(k0, KeyValue(key))];
    if k0 != k1 {
      assert !HasKey(first, k1);
    }
  }

  /** What `toMultiArray($array, $keys)` returns.  The key names are only used inside
      the loop, so an empty array never trips over a bad name. */
  function ToMultiArraySpec(arr: Entries, keys: Entries): Result<Entries> {
    if |keys| != 2 then Err(KeyCountNotTwo)
    else if arr == [] then Ok([])
    else if KeyName(keys, 0).None? || KeyName(keys, 1).None? then Err(EngineError(IllegalOffsetType))
    else Ok(ListOf(seq(|arr|, i requires 0 <= i < |arr| =>
                         PairRow(KeyName(keys, 0).value, KeyName(keys, 1).value, arr[i].0, arr[i].1))))
  }

  /** `toMultiArray($array, $keys)`. */
  method ToMultiArray(arr: Entries, keys: Entries) returns (r: Result<Entries>)
    ensures r == ToMultiArraySpec(arr, keys)
  {
    if |keys| != 2 {
      return Err(KeyCountNotTwo);
    }
    var k0 := KeyName(keys, 0);
    var k1 := KeyName(keys, 1);
    if arr == [] {
      return Ok([]);
    }
    // The first pass of the loop builds `[$keys[0] => ..., $keys[1] => ...]` before
    // anything is appended, so a bad name throws with nothing built.
    if k0.None? || k1.None? {
      return Err(EngineError(IllegalOffsetType));
    }
    var name0, name1 := k0.value, k1.value;
    ghost var rows := seq(|arr|, j requires 0 <= j < |arr| => PairRow(name0, name1, arr[j].0, arr[j].1));
    var out: Entries := [];
    var i := 0;
    while i < |arr|
      invariant 0 <= i <= |arr|
      invariant |out| == i
      invariant forall j :: 0 <= j < i ==> out[j] == (IntKey(j), rows[j])
    {
      out := out + [(IntKey(|out|), PairRow(name0, name1, arr[i].0, arr[i].1))];
      i := i + 1;
    }
    assert out == ListOf(rows);
    return Ok(out);
  }

  /** The result is a list as long as the input; row `i` holds the `i`-th key under
      the first name and the `i`-th value under the second (the value alone when the
      two names are the same key). */
  lemma ToMultiArrayRows(arr: Entries, keys: Entries, i: int)
    requires ToMultiArraySpec(arr, keys).Ok? && 0 <= i < |arr|
    ensures |keys| == 2 && KeyName(keys, 0).Some? && KeyName(keys, 1).Some?
    ensures IsList(ToMultiArraySpec(arr, keys).value) && |ToMultiArraySpec(arr, keys).value| == |arr|
    ensures ToMultiArraySpec(arr, keys).value[i].1.VArr?
    ensures Get(ToMultiArraySpec(arr, keys).value[i].1.entries, KeyName(keys, 1).value) == Some(arr[i].1)
    ensures KeyName(keys, 0) != KeyName(keys, 1) ==>
              Get(ToMultiArraySpec(arr, keys).value[i].1.entries, KeyName(keys, 0).value) == Some(KeyValue(arr[i].0))
    ensures KeyName(keys, 0) == KeyName(keys, 1) ==>
              ToMultiArraySpec(arr, keys).value[i].1.entries == [(KeyName(keys, 1).value, arr[i].1)]
  {
    var row := ToMultiArraySpec(arr, keys).value[i].1.entries;
    var k0 := KeyName(keys, 0).value;
    var k1 := KeyName(keys, 1).value;
    if k0 != k1 {
      FindIs(row, k0, 0);
      FindIs(row, k1, 1);
    } else {
      FindIs(row, k1, 0);
    }
  }

  /** `toMultiArray` refuses anything but two key names, whatever the array. */
  lemma ToMultiArrayKeyCount(arr: Entries, keys: Entries)
    ensures ToMultiArraySpec(arr, keys) == Err(KeyCountNotTwo) <==> |keys| != 2
    ensures |keys| == 2 && arr == [] ==> ToMultiArraySpec(arr, keys) == Ok([])
  {
  }

  // ---------------------------------------------------------------------------
  // attributesToArray
  // ---------------------------------------------------------------------------

  /** The value stored for an attribute.  As written (`intended` false), the test
      `$attribute_value === ''` compares the attribute node itself with a string and
      never holds, so the text is always stored; `intended` gives the null that the
      documentation promises for empty text. */
  function AttrValue(text: string, nullEmpty: bool, intended: bool): Value {
    if intended && nullEmpty && text == "" then VNull else VStr(text)
  }

  /** The assignments the first loop makes, one per attribute in order. */
  function NodePairs(attrs: seq<(string, string)>, nullEmpty: bool, intended: bool): (ps: seq<(Key, Value)>)
    ensures |ps| == |attrs|
  {
    seq(|attrs|, i requires 0 <= i < |attrs| => (StrKey(attrs[i].0), AttrValue(attrs[i].1, nullEmpty, intended)))
  }

  /** What an extra attribute missing from the node is set to. */
  function Fill(nullEmpty: bool): Value {
    if nullEmpty then VNull else VStr("")
  }

  /** The second loop: each extra name not yet present is added with `fill`; a name
      that cannot be a key makes `array_key_exists` throw. */
  function AddExtras(acc: Entries, extras: seq<Value>, fill: Value): Result<Entries>
    decreases |extras|
  {
    if extras == [] then Ok(acc)
    else
      match KeyOf(extras[0])
      case None => Err(EngineError(IllegalOffsetType))
      case Some(k) => AddExtras(if HasKey(acc, k) then acc else Assign(acc, k, fill), extras[1..], fill)
  }

  /** What `attributesToArray($node, $null, $extra_attributes)` returns. */
  function AttributesSpec(attrs: seq<(string, string)>, nullEmpty: bool, extras: seq<Value>, intended: bool): Result<Entries> {
    AddExtras(AssignAll([], NodePairs(attrs, nullEmpty, intended)), extras, Fill(nullEmpty))
  }

  /** `attributesToArray($node, $null, $extra_attributes)`, with the empty-text test
      made on the attribute's text as intended (`AttributesAsWrittenKeepsEmpty` shows
      the difference). */
  method AttributesToArray(attrs: seq<(string, string)>, nullEmpty: bool, extras: seq<Value>) returns (r: Result<Entries>)
    ensures r == AttributesSpec(attrs, nullEmpty, extras, true)
  {
    ghost var pairs := NodePairs(attrs, nullEmpty, true);
    var result: Entries := [];
    var i := 0;
    while i < |attrs|
      invariant 0 <= i <= |attrs|
      invariant AssignAll([], pairs) == AssignAll(result, pairs[i..])
    {
      assert pairs[i..] == [pairs[i]] + pairs[i + 1..];
      if nullEmpty && attrs[i].1 == "" {
        result := Assign(result, StrKey(attrs[i].0), VNull);
      } else {
        result := Assign(result, StrKey(attrs[i].0), VStr(attrs[i].1));
      }
      i := i + 1;
    }
    var fill := if nullEmpty then VNull else VStr("");
    ghost var start := result;
    var j := 0;
    while j < |extras|
      invariant 0 <= j <= |extras|
      invariant AddExtras(start, extras, fill) == AddExtras(result, extras[j..], fill)
    {
      assert extras[j..][1..] == extras[j + 1..];
      var k := KeyOf(extras[j]);
      if k.None? {
        return Err(EngineError(IllegalOffsetType));
      }
      if !HasKey(result, k.value) {
        result := Assign(result, k.value, fill);
      }
      j := j + 1;
    }
    return Ok(result);
  }

  /** The extras fail exactly when one of them cannot be a key. */
  lemma {:induction false} AddExtrasErrors(acc: Entries, extras: seq<Value>, fill: Value)
    ensures AddExtras(acc, extras, fill).Err? <==> exists j :: 0 <= j < |extras| && KeyOf(extras[j]).None?
    decreases |extras|
  {
    if extras != [] {
      assert forall j :: 1 <= j < |extras| ==> extras[j] == extras[1..][j - 1];
      if KeyOf(extras[0]).Some? {
        var k := KeyOf(extras[0]).value;
        AddExtrasErrors(if HasKey(acc, k) then acc else Assign(acc, k, fill), extras[1..], fill);
      }
    }
  }

  /** After the extras: a key already present reads as before (an extra never
      overwrites), a key named only by an extra reads `fill`, any other key is absent. */
  lemma {:induction false} AddExtrasReads(acc: Entries, extras: seq<Value>, fill: Value, k: Key)
    requires AddExtras(acc, extras, fill).Ok?
    ensures Get(AddExtras(acc, extras, fill).value, k) ==
              if HasKey(acc, k) then Get(acc, k)
              else if Named(extras, k) then Some(fill)
              else None
    decreases |extras|
  {
    if extras != [] {
      var k0 := KeyOf(extras[0]).value;
      var next := if HasKey(acc, k0) then acc else Assign(acc, k0, fill);
      AddExtrasReads(next, extras[1..], fill, k);
      NamedCons(extras, k);
      if !HasKey(acc, k0) {
        AssignGet(acc, k0, fill);
        if k == k0 {
          assert Get(next, k) == Some(fill);
        } else {
          assert Get(next, k) == Get(acc, k);
        }
      }
    }
  }

  /** Some extra name is the key `k`. */
  ghost predicate Named(extras: seq<Value>, k: Key) {
    exists j :: 0 <= j < |extras| && KeyOf(extras[j]) == Some(k)
  }

  lemma NamedCons(extras: seq<Value>, k: Key)
    requires extras != []
    ensures Named(extras, k) <==> KeyOf(extras[0]) == Some(k) || Named(extras[1..], k)
  {
    if Named(extras, k) {
      var j :| 0 <= j < |extras| && KeyOf(extras[j]) == Some(k);
      if j > 0 {
        assert extras[1..][j - 1] == extras[j];
      }
    }
    if Named(extras[1..], k) {
      var j :| 0 <= j < |extras[1..]| && KeyOf(extras[1..][j]) == Some(k);
      assert extras[j + 1] == extras[1..][j];
    }
  }

  /** Each attribute of the node (names are distinct in a node) reads its stored
      value. */
  lemma NodeReads(attrs: seq<(string, string)>, nullEmpty: bool, intended: bool, i: int)
    requires 0 <= i < |attrs|
    requires forall p, q :: 0 <= p < q < |attrs| ==> attrs[p].0 != attrs[q].0
    ensures Get(AssignAll([], NodePairs(attrs, nullEmpty, intended)), StrKey(attrs[i].0)) ==
              Some(AttrValue(attrs[i].1, nullEmpty, intended))
  {
    var ps := NodePairs(attrs, nullEmpty, intended);
    AssignAllGet([], ps, StrKey(attrs[i].0));
    LastValueAt(ps, StrKey(attrs[i].0), i);
  }

  /** `attributesToArray` fails exactly when an extra name cannot be a key; every
      attribute of the node appears under its name with its stored value; every extra
      name appears, and one the node lacks reads null when `$null` is set and `''`
      otherwise. */
  lemma AttributesToArrayReads(attrs: seq<(string, string)>, nullEmpty: bool, extras: seq<Value>, intended: bool)
    requires forall p, q :: 0 <= p < q < |attrs| ==> attrs[p].0 != attrs[q].0
    ensures AttributesSpec(attrs, nullEmpty, extras, intended).Err? <==>
              exists j :: 0 <= j < |extras| && KeyOf(extras[j]).None?
    ensures AttributesSpec(attrs, nullEmpty, extras, intended).Ok? ==>
              forall i :: 0 <= i < |attrs| ==>
                Get(AttributesSpec(attrs, nullEmpty, extras, intended).value, StrKey(attrs[i].0)) == Some(AttrValue(attrs[i].1, nullEmpty, intended))
    ensures AttributesSpec(attrs, nullEmpty, extras, intended).Ok? ==>
              forall j :: 0 <= j < |extras| ==>
                Get(AttributesSpec(attrs, nullEmpty, extras, intended).value, KeyOf(extras[j]).value) ==
                  if exists i :: 0 <= i < |attrs| && StrKey(attrs[i].0) == KeyOf(extras[j]).value
                  then Get(AssignAll([], NodePairs(attrs, nullEmpty, intended)), KeyOf(extras[j]).value)
                  else Some(Fill(nullEmpty))
  {
    var node := AssignAll([], NodePairs(attrs, nullEmpty, intended));
    AddExtrasErrors(node, extras, Fill(nullEmpty));
    if AttributesSpec(attrs, nullEmpty, extras, intended).Ok? {
      forall i | 0 <= i < |attrs|
        ensures Get(AttributesSpec(attrs, nullEmpty, extras, intended).value, StrKey(attrs[i].0)) == Some(AttrValue(attrs[i].1, nullEmpty, intended))
      {
        NodeReads(attrs, nullEmpty, intended, i);
        AddExtrasReads(node, extras, Fill(nullEmpty), StrKey(attrs[i].0));
      }
      forall j | 0 <= j < |extras|
        ensures Get(AttributesSpec(attrs, nullEmpty, extras, intended).value, KeyOf(extras[j]).value) ==
                  if exists i :: 0 <= i < |attrs| && StrKey(attrs[i].0) == KeyOf(extras[j]).value
                  then Get(node, KeyOf(extras[j]).value)
                  else Some(Fill(nullEmpty))
      {
        var k := KeyOf(extras[j]).value;
        AddExtrasReads(node, extras, Fill(nullEmpty), k);
        assert Named(extras, k);
        NodeKeys(attrs, nullEmpty, intended, k);
      }
    }
  }

  /** The node's array holds exactly the node's attribute names. */
  lemma NodeKeys(attrs: seq<(string, string)>, nullEmpty: bool, intended: bool, k: Key)
    ensures HasKey(AssignAll([], NodePairs(attrs, nullEmpty, intended)), k) <==>
              exists i :: 0 <= i < |attrs| && StrKey(attrs[i].0) == k
  {
    var ps := NodePairs(attrs, nullEmpty, intended);
    AssignAllFromEmpty(ps);
    KeysOfHasKey(AssignAll([], ps), k);
    if exists i :: 0 <= i < |attrs| && StrKey(attrs[i].0) == k {
      var i :| 0 <= i < |attrs| && StrKey(attrs[i].0) == k;
      assert KeysOf(ps)[i] == k;
    }
  }

  /** As written, an empty attribute is kept as `''` even when `$null` asks for null. */
  lemma AttributesAsWrittenKeepsEmpty()
    ensures AttributesSpec([("a", "")], true, [], false) == Ok([(StrKey("a"), VStr(""))])
    ensures AttributesSpec([("a", "")], true, [], true) == Ok([(StrKey("a"), VNull)])
  {
    assert NodePairs([("a", "")], true, false) == [(StrKey("a"), VStr(""))];
    assert NodePairs([("a", "")], true, true) == [(StrKey("a"), VNull)];
  }

  /** With the test made on the text, `$null` turns every empty attribute into null
      and leaves every other attribute's text as it is. */
  lemma AttributesIntendedNulls(attrs: seq<(string, string)>, nullEmpty: bool, extras: seq<Value>, i: int)
    requires 0 <= i < |attrs|
    requires forall p, q :: 0 <= p < q < |attrs| ==> attrs[p].0 != attrs[q].0
    requires AttributesSpec(attrs, nullEmpty, extras, true).Ok?
    ensures nullEmpty && attrs[i].1 == "" ==>
              Get(AttributesSpec(attrs, nullEmpty, extras, true).value, StrKey(attrs[i].0)) == Some(VNull)
    ensures !(nullEmpty && attrs[i].1 == "") ==>
              Get(AttributesSpec(attrs, nullEmpty, extras, true).value, StrKey(attrs[i].0)) == Some(VStr(attrs[i].1))
  {
    var node := AssignAll([], NodePairs(attrs, nullEmpty, true));
    NodeReads(attrs, nullEmpty, true, i);
    AddExtrasReads(node, extras, Fill(nullEmpty), StrKey(attrs[i].0));
  }
}
