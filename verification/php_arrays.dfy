/**
 * PHP values and PHP arrays as the record-reshaping engine sees them.
 *
 * A PHP array is an ordered map: a sequence of (key, value) entries whose keys are
 * distinct.  Assigning to an existing key keeps that key's position, assigning a new
 * key appends, and `unset` removes.  Keys are integers or strings; PHP's silent
 * conversion of decimal strings such as "5" into integer keys is not modelled, so a
 * key is exactly what the code asked for.
 */
module PhpArrays {

  datatype Option<+T> = None | Some(value: T) {
    function GetOr(default: T): T {
      match this
      case Some(v) => v
      case None => default
    }
  }

  datatype Key = IntKey(i: int) | StrKey(s: string)

  /** A PHP value.  Floats and objects are opaque tags that remember the value they
      were produced from; nothing about floating point or stdClass is modelled. */
  datatype Value =
    | VNull
    | VBool(b: bool)
    | VInt(i: int)
    | VStr(s: string)
    | VFloat(from: Value)
    | VObject(from: Value)
    | VArr(entries: seq<(Key, Value)>)

  type Entries = seq<(Key, Value)>

  /** Failures raised by the PHP engine or a built-in function rather than by the
      library's own checks. */
  datatype Fault =
    | IllegalOffsetType   // an array or an object used as an array key
    | ScalarUsedAsArray   // `$x[$k] = ...` where `$x` holds a scalar PHP will not turn into an array
    | UnsetOnScalar       // `unset($x[$k])` where `$x` holds a scalar
    | ObjectToString      // `(string)` of an object that has no __toString
    | ArgumentType        // a built-in given an argument of the wrong type under strict_types
    | CombineLengths      // array_combine of two arrays of different sizes

  /** The library's exceptions, one constructor per distinct message. */
  datatype Error =
    | EmptyArray                        // InvalidArgumentException: empty array provided
    | EmptyKey                          // InvalidArgumentException: empty key provided
    | SingleElement                     // UnexpectedValueException: only 1 element
    | EmptyPartitionKey(index: Key)     // UnexpectedValueException: new key is empty
    | InvalidPartitionKey(index: Key)   // UnexpectedValueException: neither string nor integer
    | EmptyNewKeys                      // InvalidArgumentException: empty array of new keys
    | EmptyExpectedValues               // InvalidArgumentException: empty array of expected values
    | KeyValueCountMismatch             // UnexpectedValueException: lists of different size
    | EmptyColumns                      // InvalidArgumentException: empty columns
    | ColumnsNotList                    // InvalidArgumentException: neither string nor array
    | KeyCountNotTwo                    // UnexpectedValueException: number of keys is not 2
    | UnequalLengths                    // UnexpectedValueException: child arrays of different length
    | MixedScalars                      // UnexpectedValueException: scalar and non-scalar values
    | EngineError(fault: Fault)

  datatype Result<+T> = Ok(value: T) | Err(error: Error)

  // ---------------------------------------------------------------------------
  // Ordered-map view of an array
  // ---------------------------------------------------------------------------

  function KeysOf(e: Entries): (ks: seq<Key>)
    ensures |ks| == |e|
    ensures forall i :: 0 <= i < |e| ==> ks[i] == e[i].0
  {
    seq(|e|, i requires 0 <= i < |e| => e[i].0)
  }

  function ValuesOf(e: Entries): (vs: seq<Value>)
    ensures |vs| == |e|
    ensures forall i :: 0 <= i < |e| ==> vs[i] == e[i].1
  {
    seq(|e|, i requires 0 <= i < |e| => e[i].1)
  }

  /** What every PHP array satisfies: no key occurs twice. */
  ghost predicate DistinctKeys(e: Entries) {
    forall i, j :: 0 <= i < j < |e| ==> e[i].0 != e[j].0
  }

  /** Position of key `k`, or -1 when the key is absent. */
  function Find(e: Entries, k: Key): (i: int)
    ensures -1 <= i < |e|
    ensures i >= 0 ==> e[i].0 == k
    ensures forall j :: 0 <= j < |e| && (i < 0 || j < i) ==> e[j].0 != k
  {
    if e == [] then -1
    else if e[0].0 == k then 0
    else
      var j := Find(e[1..], k);
      assert forall q :: 1 <= q < |e| ==> e[q] == e[1..][q - 1];
      if j < 0 then -1 else j + 1
  }

  /** `Find` is pinned down by its contract: the first position holding `k`. */
  lemma FindIs(e: Entries, k: Key, i: int)
    requires 0 <= i < |e| && e[i].0 == k
    requires forall j :: 0 <= j < i ==> e[j].0 != k
    ensures Find(e, k) == i
  {
    assert e[i].0 == k;
  }

  lemma ValuesOfAppend(a: Entries, b: Entries)
    ensures ValuesOf(a + b) == ValuesOf(a) + ValuesOf(b)
  {
  }

  /** `array_key_exists($k, $a)`. */
  predicate HasKey(e: Entries, k: Key) {
    Find(e, k) >= 0
  }

  /** `$a[$k]` as an optional value. */
  function Get(e: Entries, k: Key): Option<Value> {
    var i := Find(e, k);
    if i < 0 then None else Some(e[i].1)
  }

  /** In an array, the value read at a key is the value stored in that key's entry. */
  lemma GetAt(e: Entries, i: int)
    requires DistinctKeys(e) && 0 <= i < |e|
    ensures Find(e, e[i].0) == i && Get(e, e[i].0) == Some(e[i].1)
  {
  }

  lemma KeysOfHasKey(e: Entries, k: Key)
    ensures k in KeysOf(e) <==> HasKey(e, k)
  {
    if HasKey(e, k) {
      assert KeysOf(e)[Find(e, k)] == k;
    }
  }

  /** `$a[$k] = $v`: an existing key keeps its position, a new key is appended. */
  function Assign(e: Entries, k: Key, v: Value): (r: Entries)
    ensures !HasKey(e, k) ==> r == e + [(k, v)]
    ensures HasKey(e, k) ==>
              |r| == |e| && forall i :: 0 <= i < |e| ==> r[i] == if i == Find(e, k) then (k, v) else e[i]
  {
    if e == [] then [(k, v)]
    else if e[0].0 == k then [(k, v)] + e[1..]
    else
      var rest := Assign(e[1..], k, v);
      assert forall q :: 1 <= q < |e| ==> e[q] == e[1..][q - 1];
      [e[0]] + rest
  }

  /** After `$a[$k] = $v`, reading `$a[$k]` gives `$v` and every other key reads
      as before. */
  lemma AssignGet(e: Entries, k: Key, v: Value)
    ensures Get(Assign(e, k, v), k) == Some(v)
    ensures forall k' :: k' != k ==> Get(Assign(e, k, v), k') == Get(e, k')
  {
    var r := Assign(e, k, v);
    var f := Find(e, k);
    if f >= 0 {
      FindIs(r, k, f);
    } else {
      FindIs(r, k, |e|);
    }
    forall k' | k' != k ensures Get(r, k') == Get(e, k') {
      AssignOther(e, k, v, k');
    }
  }

  lemma AssignOther(e: Entries, k: Key, v: Value, k': Key)
    requires k' != k
    ensures Find(Assign(e, k, v), k') == Find(e, k')
  {
    var r := Assign(e, k, v);
    var g := Find(e, k');
    if g >= 0 {
      FindIs(r, k', g);
    } else {
      assert forall j :: 0 <= j < |r| ==> r[j].0 != k' by {
        forall j | 0 <= j < |r| ensures r[j].0 != k' {
          if j < |e| { assert r[j] == e[j] || r[j].0 == k; }
        }
      }
    }
  }

  /** `$a[$k] = $v` leaves the key list alone when `k` is present and appends `k`
      otherwise, so an array stays an array. */
  lemma AssignKeys(e: Entries, k: Key, v: Value)
    ensures KeysOf(Assign(e, k, v)) == if HasKey(e, k) then KeysOf(e) else KeysOf(e) + [k]
    ensures DistinctKeys(e) ==> DistinctKeys(Assign(e, k, v))
  {
  }

  /** Assigning a key twice leaves what the second assignment alone would. */
  lemma AssignTwice(e: Entries, k: Key, v1: Value, v2: Value)
    ensures Assign(Assign(e, k, v1), k, v2) == Assign(e, k, v2)
  {
    var r1 := Assign(e, k, v1);
    var i := if HasKey(e, k) then Find(e, k) else |e|;
    FindIs(r1, k, i);
    var r2 := Assign(r1, k, v2);
    var r := Assign(e, k, v2);
    assert |r2| == |r| == |r1|;
    forall j | 0 <= j < |r| ensures r2[j] == r[j] {
      if j != i {
        assert r1[j] == e[j];
      }
    }
  }

  /** `unset($a[$k])`: the entries keyed `k` disappear, the others keep their order. */
  function Remove(e: Entries, k: Key): (r: Entries)
    ensures |r| <= |e|
  {
    if e == [] then []
    else
      var rest := Remove(e[1..], k);
      if e[0].0 == k then rest else [e[0]] + rest
  }

  /** `unset` keeps exactly the entries with other keys. */
  lemma {:induction false} RemoveMembers(e: Entries, k: Key)
    ensures forall p :: p in Remove(e, k) <==> p in e && p.0 != k
  {
    if e != [] {
      RemoveMembers(e[1..], k);
      assert forall p :: p in e <==> p == e[0] || p in e[1..];
    }
  }

  lemma {:induction false} RemoveAbsent(e: Entries, k: Key)
    requires forall j :: 0 <= j < |e| ==> e[j].0 != k
    ensures Remove(e, k) == e
  {
    if e != [] {
      RemoveAbsent(e[1..], k);
    }
  }

  /** Removing a key that occurs once, at position `f`, cuts out exactly that entry. */
  lemma {:induction false} RemoveAt(e: Entries, k: Key, f: int)
    requires 0 <= f < |e| && e[f].0 == k
    requires forall j :: 0 <= j < |e| && j != f ==> e[j].0 != k
    ensures Remove(e, k) == e[..f] + e[f + 1..]
  {
    if f == 0 {
      RemoveAbsent(e[1..], k);
    } else {
      RemoveAt(e[1..], k, f - 1);
      assert e[1..][..f - 1] == e[1..f];
      assert e[1..][f..] == e[f + 1..];
      assert e[..f] == [e[0]] + e[1..f];
    }
  }

  /** `Remove` keeps the keys of what it keeps distinct. */
  lemma {:induction false} RemoveDistinct(e: Entries, k: Key)
    requires DistinctKeys(e)
    ensures DistinctKeys(Remove(e, k))
  {
    if e != [] {
      RemoveDistinct(e[1..], k);
      RemoveMembers(e[1..], k);
      var rest := Remove(e[1..], k);
      if e[0].0 != k {
        var r := [e[0]] + rest;
        forall i, j | 0 <= i < j < |r| ensures r[i].0 != r[j].0 {
          if i == 0 {
            assert r[j] == rest[j - 1] && rest[j - 1] in e[1..];
          } else {
            assert r[i] == rest[i - 1] && r[j] == rest[j - 1];
          }
        }
      }
    }
  }

  /** In an array (distinct keys) `unset` removes exactly the one entry at the key's
      position, or nothing when the key is absent. */
  lemma RemoveShape(e: Entries, k: Key)
    requires DistinctKeys(e)
    ensures HasKey(e, k) ==> Remove(e, k) == e[..Find(e, k)] + e[Find(e, k) + 1..]
    ensures !HasKey(e, k) ==> Remove(e, k) == e
  {
    var f := Find(e, k);
    if f >= 0 {
      RemoveAt(e, k, f);
    } else {
      RemoveAbsent(e, k);
    }
  }

  /** After `unset`, the key is gone. */
  lemma RemoveGone(e: Entries, k: Key)
    ensures !HasKey(Remove(e, k), k)
  {
    var r := Remove(e, k);
    RemoveMembers(e, k);
    forall j | 0 <= j < |r| ensures r[j].0 != k { assert r[j] in r; }
  }

  /** Reading past a first entry with another key. */
  lemma GetTail(e: Entries, k: Key)
    requires e != [] && e[0].0 != k
    ensures Get(e, k) == Get(e[1..], k)
  {
  }

  /** `unset` leaves every other key reading as before. */
  lemma {:induction false} RemoveKeepsOthers(e: Entries, k: Key, k': Key)
    requires k' != k
    ensures Get(Remove(e, k), k') == Get(e, k')
  {
    if e != [] {
      RemoveKeepsOthers(e[1..], k, k');
      var rest := Remove(e[1..], k);
      if e[0].0 == k {
        GetTail(e, k');
      } else if e[0].0 != k' {
        GetTail(e, k');
        GetTail([e[0]] + rest, k');
        assert ([e[0]] + rest)[1..] == rest;
      }
    }
  }

  /** `unset` on an array: the entry at the key's position goes, the key is gone, every
      other key reads as before and keys stay distinct. */
  lemma RemoveFacts(e: Entries, k: Key)
    requires DistinctKeys(e)
    ensures HasKey(e, k) ==> Remove(e, k) == e[..Find(e, k)] + e[Find(e, k) + 1..]
    ensures !HasKey(e, k) ==> Remove(e, k) == e
    ensures !HasKey(Remove(e, k), k)
    ensures forall k' :: k' != k ==> Get(Remove(e, k), k') == Get(e, k')
    ensures DistinctKeys(Remove(e, k))
  {
    RemoveShape(e, k);
    RemoveGone(e, k);
    forall k' | k' != k ensures Get(Remove(e, k), k') == Get(e, k') {
      RemoveKeepsOthers(e, k, k');
    }
    RemoveDistinct(e, k);
  }

  // ---------------------------------------------------------------------------
  // Lists: arrays keyed 0..n-1
  // ---------------------------------------------------------------------------

  predicate IsList(e: Entries) {
    forall i :: 0 <= i < |e| ==> e[i].0 == IntKey(i)
  }

  /** The array PHP builds by appending `$a[] = $x` for each value in turn,
      starting from `[]`; also `array_values`. */
  function ListOf(s: seq<Value>): (r: Entries)
    ensures |r| == |s| && IsList(r) && ValuesOf(r) == s
  {
    seq(|s|, i requires 0 <= i < |s| => (IntKey(i), s[i]))
  }

  /** `array_values($a)`: the same values in the same order, keyed 0..n-1. */
  function Reindex(e: Entries): (r: Entries)
    ensures |r| == |e| && IsList(r)
    ensures forall i :: 0 <= i < |e| ==> r[i].1 == e[i].1
  {
    ListOf(ValuesOf(e))
  }

  /** The keys `array_slice` and `array_reverse` give their result when keys are not
      preserved: integer keys are renumbered from `next` upwards, string keys stay. */
  function Renumber(e: Entries, next: int): (r: Entries)
    ensures |r| == |e|
  {
    if e == [] then []
    else
      var rest := if e[0].0.IntKey? then Renumber(e[1..], next + 1) else Renumber(e[1..], next);
      if e[0].0.IntKey? then [(IntKey(next), e[0].1)] + rest else [e[0]] + rest
  }

  /** Renumbering keeps every value and every string key in place, and hands out
      integer keys from `next` upwards. */
  lemma {:induction false} RenumberFacts(e: Entries, next: int)
    ensures var r := Renumber(e, next);
            && (forall i :: 0 <= i < |e| ==> r[i].1 == e[i].1)
            && (forall i :: 0 <= i < |e| ==> (r[i].0.StrKey? <==> e[i].0.StrKey?))
            && (forall i :: 0 <= i < |e| && e[i].0.StrKey? ==> r[i].0 == e[i].0)
            && (forall i :: 0 <= i < |e| && e[i].0.IntKey? ==> next <= r[i].0.i)
  {
    if e != [] {
      var t := if e[0].0.IntKey? then next + 1 else next;
      RenumberFacts(e[1..], t);
      var r := Renumber(e, next);
      assert r[1..] == Renumber(e[1..], t);
      assert forall q :: 1 <= q < |e| ==> e[q] == e[1..][q - 1] && r[q] == r[1..][q - 1];
    }
  }

  /** Renumbering keeps the keys distinct whenever the string keys were distinct:
      the integer keys it hands out strictly increase. */
  lemma {:induction false} RenumberDistinct(e: Entries, next: int)
    requires DistinctKeys(e)
    ensures DistinctKeys(Renumber(e, next))
  {
    if e != [] {
      var t := if e[0].0.IntKey? then next + 1 else next;
      RenumberDistinct(e[1..], t);
      RenumberFacts(e[1..], t);
      var r := Renumber(e, next);
      var rest := Renumber(e[1..], t);
      assert r[1..] == rest;
      forall i, j | 0 <= i < j < |r| ensures r[i].0 != r[j].0 {
        if i == 0 {
          assert r[j] == rest[j - 1];
          assert e[j] == e[1..][j - 1];
        } else {
          assert r[i] == rest[i - 1] && r[j] == rest[j - 1];
        }
      }
    }
  }

  /** `$a[$k] = $v` on a key that sits at position `i`: the entry is replaced in place. */
  lemma AssignAt(e: Entries, i: int, v: Value)
    requires DistinctKeys(e) && 0 <= i < |e|
    ensures Assign(e, e[i].0, v) == e[i := (e[i].0, v)]
  {
    GetAt(e, i);
  }

  /** `array_reverse`'s order: the same elements back to front. */
  function Reverse<T>(s: seq<T>): (r: seq<T>)
    ensures |r| == |s| && forall i :: 0 <= i < |s| ==> r[i] == s[|s| - 1 - i]
  {
    seq(|s|, i requires 0 <= i < |s| => s[|s| - 1 - i])
  }

  // ---------------------------------------------------------------------------
  // Duplicates and successive assignments
  // ---------------------------------------------------------------------------

  ghost predicate Distinct<T>(s: seq<T>) {
    forall i, j :: 0 <= i < j < |s| ==> s[i] != s[j]
  }

  lemma DistinctKeysOf(e: Entries)
    ensures DistinctKeys(e) <==> Distinct(KeysOf(e))
  {
  }

  /** `seen` followed by the first occurrence of each element of `s` not already seen,
      in the order of `s`: the values `array_unique` keeps. */
  function DedupOnto<T(==,!new)>(seen: seq<T>, s: seq<T>): (r: seq<T>)
    ensures forall x :: x in r <==> x in seen || x in s
    ensures |seen| <= |r| && r[..|seen|] == seen
    decreases |s|
  {
    if s == [] then seen
    else
      assert forall x :: x in s <==> x == s[0] || x in s[1..];
      var seen' := if s[0] in seen then seen else seen + [s[0]];
      var r := DedupOnto(seen', s[1..]);
      assert r[..|seen|] == r[..|seen'|][..|seen|];
      r
  }

  lemma {:induction false} DedupOntoDistinct<T(!new)>(seen: seq<T>, s: seq<T>)
    requires Distinct(seen)
    ensures Distinct(DedupOnto(seen, s))
    decreases |s|
  {
    if s != [] {
      var seen' := if s[0] in seen then seen else seen + [s[0]];
      DedupOntoDistinct(seen', s[1..]);
    }
  }

  /** `array_unique` on a list of plain values: each value once, at its first position. */
  function Dedup<T(==,!new)>(s: seq<T>): (r: seq<T>)
    ensures forall x :: x in r <==> x in s
    ensures Distinct(r)
  {
    DedupOntoDistinct([], s);
    DedupOnto([], s)
  }

  /** A run of `$a[$k] = $v` statements, one per pair, in order. */
  function AssignAll(e: Entries, ps: seq<(Key, Value)>): Entries
    decreases |ps|
  {
    if ps == [] then e else AssignAll(Assign(e, ps[0].0, ps[0].1), ps[1..])
  }

  /** The value of the last pair keyed `k`, if any pair is. */
  function LastValue(ps: seq<(Key, Value)>, k: Key): Option<Value> {
    if ps == [] then None
    else
      var later := LastValue(ps[1..], k);
      if later.Some? then later else if ps[0].0 == k then Some(ps[0].1) else None
  }

  /** The last assignment to a key wins; keys never assigned read as before. */
  lemma {:induction false} AssignAllGet(e: Entries, ps: seq<(Key, Value)>, k: Key)
    ensures Get(AssignAll(e, ps), k) == if LastValue(ps, k).Some? then LastValue(ps, k) else Get(e, k)
    decreases |ps|
  {
    if ps != [] {
      AssignAllGet(Assign(e, ps[0].0, ps[0].1), ps[1..], k);
      AssignGet(e, ps[0].0, ps[0].1);
    }
  }

  /** No pair keyed `k`: nothing to read. */
  lemma {:induction false} LastValueNone(ps: seq<(Key, Value)>, k: Key)
    requires forall j :: 0 <= j < |ps| ==> ps[j].0 != k
    ensures LastValue(ps, k) == None
  {
    if ps != [] {
      assert forall j :: 1 <= j < |ps| ==> ps[j] == ps[1..][j - 1];
      LastValueNone(ps[1..], k);
    }
  }

  /** The pair at `j` is the last one keyed `k`: its value is the one read. */
  lemma {:induction false} LastValueAt(ps: seq<(Key, Value)>, k: Key, j: int)
    requires 0 <= j < |ps| && ps[j].0 == k
    requires forall j' :: j < j' < |ps| ==> ps[j'].0 != k
    ensures LastValue(ps, k) == Some(ps[j].1)
  {
    assert forall q :: 1 <= q < |ps| ==> ps[q] == ps[1..][q - 1];
    if j == 0 {
      LastValueNone(ps[1..], k);
    } else {
      LastValueAt(ps[1..], k, j - 1);
    }
  }

  /** The value read is that of some pair keyed `k`. */
  lemma {:induction false} LastValueIn(ps: seq<(Key, Value)>, k: Key)
    ensures LastValue(ps, k).Some? ==> (k, LastValue(ps, k).value) in ps
  {
    if ps != [] {
      LastValueIn(ps[1..], k);
      assert forall p :: p in ps[1..] ==> p in ps;
    }
  }

  /** The keys after a run of assignments: the old keys, then each new key at the place
      of its first assignment. */
  lemma {:induction false} AssignAllKeys(e: Entries, ps: seq<(Key, Value)>)
    ensures KeysOf(AssignAll(e, ps)) == DedupOnto(KeysOf(e), KeysOf(ps))
    decreases |ps|
  {
    if ps != [] {
      var e' := Assign(e, ps[0].0, ps[0].1);
      AssignAllKeys(e', ps[1..]);
      AssignKeys(e, ps[0].0, ps[0].1);
      KeysOfHasKey(e, ps[0].0);
      assert KeysOf(ps)[1..] == KeysOf(ps[1..]);
    }
  }

  /** Assigning pairs whose keys are all new appends them as they are. */
  lemma {:induction false} AssignAllFresh(e: Entries, ps: seq<(Key, Value)>)
    requires DistinctKeys(e + ps)
    ensures AssignAll(e, ps) == e + ps
    decreases |ps|
  {
    if ps != [] {
      assert forall i :: 0 <= i < |e| ==> (e + ps)[i] == e[i];
      assert (e + ps)[|e|] == ps[0];
      KeysOfHasKey(e, ps[0].0);
      assert !HasKey(e, ps[0].0);
      var e' := e + [ps[0]];
      assert e' + ps[1..] == e + ps;
      AssignAllFresh(e', ps[1..]);
    }
  }

  /** A run of assignments followed by one more. */
  lemma {:induction false} AssignAllSnoc(e: Entries, ps: seq<(Key, Value)>, p: (Key, Value))
    ensures AssignAll(e, ps + [p]) == Assign(AssignAll(e, ps), p.0, p.1)
    decreases |ps|
  {
    if ps == [] {
      assert ps + [p] == [p];
    } else {
      assert (ps + [p])[1..] == ps[1..] + [p];
      AssignAllSnoc(Assign(e, ps[0].0, ps[0].1), ps[1..], p);
    }
  }

  /** Assigning into an array gives an array whose entries are one per distinct key
      assigned, in order of first assignment. */
  lemma AssignAllFromEmpty(ps: seq<(Key, Value)>)
    ensures KeysOf(AssignAll([], ps)) == Dedup(KeysOf(ps))
    ensures DistinctKeys(AssignAll([], ps))
    ensures |AssignAll([], ps)| == |Dedup(KeysOf(ps))|
  {
    AssignAllKeys([], ps);
    assert KeysOf([]) == [];
    DistinctKeysOf(AssignAll([], ps));
  }

  // ---------------------------------------------------------------------------
  // A PHP variable holding an array, for parameters declared `array &$array`
  // ---------------------------------------------------------------------------

  /** The caller's array variable that a by-reference parameter aliases: whatever the
      callee assigns to it is what the caller sees afterwards. */
  class ArrayVar {
    var arr: Entries

    constructor (a: Entries)
      ensures arr == a
    {
      arr := a;
    }
  }
}
