/**
 * Checkers: predicates over a PHP array - whether it is multidimensional (every value
 * an array, optionally all of one length), associative (some key is a string) and
 * made only of scalars.
 */
module Checkers {
  import opened PhpArrays
  import opened PhpCasts

  /** `count(array_filter(array_values($array), 'is_array'))`: how many values are arrays. */
  function CountArrays(e: Entries): (n: nat)
    ensures n <= |e|
    ensures n == |e| <==> forall i :: 0 <= i < |e| ==> e[i].1.VArr?
  {
    if e == [] then 0
    else
      assert forall i :: 1 <= i < |e| ==> e[i] == e[1..][i - 1];
      (if e[0].1.VArr? then 1 else 0) + CountArrays(e[1..])
  }

  /** `array_map('count', $array)`, applied only when every value is an array. */
  function Lengths(e: Entries): (ls: seq<nat>)
    ensures |ls| == |e|
    ensures forall i :: 0 <= i < |e| && e[i].1.VArr? ==> ls[i] == |e[i].1.entries|
  {
    seq(|e|, i requires 0 <= i < |e| => if e[i].1.VArr? then |e[i].1.entries| else 0)
  }

  /** `array_any($s, $p)`: whether some element satisfies `p`. */
  function Any<T>(s: seq<T>, p: T -> bool): (r: bool)
    ensures r <==> exists i :: 0 <= i < |s| && p(s[i])
  {
    if s == [] then false
    else
      assert forall i :: 1 <= i < |s| ==> s[i] == s[1..][i - 1];
      p(s[0]) || Any(s[1..], p)
  }

  lemma {:induction false} DedupConst(seen: seq<nat>, s: seq<nat>, c: nat)
    requires c in seen && forall i :: 0 <= i < |s| ==> s[i] == c
    ensures DedupOnto(seen, s) == seen
    decreases |s|
  {
    if s != [] {
      DedupConst(seen, s[1..], c);
    }
  }

  /** `count(array_unique($lengths)) === 1` exactly when there is at least one length
      and all lengths are equal. */
  lemma DedupSingle(s: seq<nat>)
    ensures |Dedup(s)| == 1 <==> |s| > 0 && forall i :: 0 <= i < |s| ==> s[i] == s[0]
  {
    var d := Dedup(s);
    if |s| > 0 {
      if forall i :: 0 <= i < |s| ==> s[i] == s[0] {
        DedupConst([s[0]], s[1..], s[0]);
        assert [] + [s[0]] == [s[0]];
      } else {
        var i :| 0 <= i < |s| && s[i] != s[0];
        assert s[0] in d && s[i] in d;
        var p :| 0 <= p < |d| && d[p] == s[0];
        var q :| 0 <= q < |d| && d[q] == s[i];
        assert p != q;
      }
    }
  }

  /** `Checkers::isMultiDimensional`: true when every value is an array; with
      `equalLength` those arrays must also share one length (an empty input has no
      length and is refused); otherwise false, unless `allScalar` asks that the values
      then be all scalars and some is not. */
  function IsMultiDimensional(e: Entries, equalLength: bool, allScalar: bool): (r: Result<bool>)
    ensures r == Ok(true) <==>
              (forall i :: 0 <= i < |e| ==> e[i].1.VArr?)
              && (equalLength ==> |e| > 0 && forall i :: 0 <= i < |e| ==> |e[i].1.entries| == |e[0].1.entries|)
    ensures r == Err(UnequalLengths) <==>
              (forall i :: 0 <= i < |e| ==> e[i].1.VArr?)
              && equalLength && !(|e| > 0 && forall i :: 0 <= i < |e| ==> |e[i].1.entries| == |e[0].1.entries|)
    ensures r == Err(MixedScalars) <==>
              (exists i :: 0 <= i < |e| && !e[i].1.VArr?)
              && allScalar && (exists i :: 0 <= i < |e| && !IsScalar(e[i].1))
    ensures r == Ok(false) <==>
              (exists i :: 0 <= i < |e| && !e[i].1.VArr?)
              && !(allScalar && exists i :: 0 <= i < |e| && !IsScalar(e[i].1))
  {
    if CountArrays(e) == |e| then
      var ls := Lengths(e);
      DedupSingle(ls);
      assert (|ls| > 0 && forall i :: 0 <= i < |ls| ==> ls[i] == ls[0])
          <==> (|e| > 0 && forall i :: 0 <= i < |e| ==> |e[i].1.entries| == |e[0].1.entries|);
      if equalLength && |Dedup(ls)| != 1 then Err(UnequalLengths) else Ok(true)
    else if allScalar && !IsAllScalar(e) then Err(MixedScalars)
    else Ok(false)
  }

  /** `Checkers::isAssociative`: some key is a string. */
  function IsAssociative(e: Entries): (r: bool)
    ensures r <==> exists i :: 0 <= i < |e| && e[i].0.StrKey?
  {
    Any(KeysOf(e), (k: Key) => k.StrKey?)
  }

  /** `Checkers::isAllScalar`: no value is null, an array or an object. */
  function IsAllScalar(e: Entries): (r: bool)
    ensures r <==> forall i :: 0 <= i < |e| ==> IsScalar(e[i].1)
  {
    !Any(ValuesOf(e), (v: Value) => !IsScalar(v))
  }

  /** A list (keys 0..n-1) is never associative. */
  lemma ListNotAssociative(e: Entries)
    requires IsList(e)
    ensures !IsAssociative(e)
  {
  }

  /** A non-empty array of scalars is not multidimensional, and asking for all scalars
      then never throws. */
  lemma ScalarsNotMultiDimensional(e: Entries, equalLength: bool, allScalar: bool)
    requires |e| > 0 && IsAllScalar(e)
    ensures IsMultiDimensional(e, equalLength, allScalar) == Ok(false)
  {
    assert !e[0].1.VArr?;
  }
}
