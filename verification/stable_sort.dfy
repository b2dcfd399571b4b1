/**
 * The stable sort behind PHP's `uasort`, `asort`, `sort`, `rsort`, `ksort` and
 * `krsort` (PHP 8 sorts are stable).  The order is a parameter: a "less than or equal"
 * relation that is total and transitive; elements it ranks equal keep their input order.
 */
module StableSort {

  ghost predicate TotalPreorder<T(!new)>(le: (T, T) -> bool) {
    && (forall a, b :: le(a, b) || le(b, a))
    && (forall a, b, c :: le(a, b) && le(b, c) ==> le(a, c))
  }

  ghost predicate Sorted<T>(s: seq<T>, le: (T, T) -> bool) {
    forall i, j :: 0 <= i < j < |s| ==> le(s[i], s[j])
  }

  /** Ranked equal by `le`. */
  predicate Equiv<T>(a: T, b: T, le: (T, T) -> bool) {
    le(a, b) && le(b, a)
  }

  /** Insert `x` in front of the first element it is `le` to. */
  function Insert<T>(x: T, s: seq<T>, le: (T, T) -> bool): (r: seq<T>)
    ensures multiset(r) == multiset(s) + multiset{x}
  {
    if s == [] then [x]
    else if le(x, s[0]) then [x] + s
    else
      assert s == [s[0]] + s[1..];
      [s[0]] + Insert(x, s[1..], le)
  }

  /** Insertion sort, inserting each element in front of its equals. */
  function Sort<T>(s: seq<T>, le: (T, T) -> bool): (r: seq<T>)
    ensures multiset(r) == multiset(s)
  {
    if s == [] then []
    else
      assert s == [s[0]] + s[1..];
      Insert(s[0], Sort(s[1..], le), le)
  }

  /** The elements of `s` ranked equal to `x`, in their order in `s`. */
  function Equivalents<T>(s: seq<T>, x: T, le: (T, T) -> bool): seq<T> {
    if s == [] then []
    else (if Equiv(s[0], x, le) then [s[0]] else []) + Equivalents(s[1..], x, le)
  }

  lemma {:induction false} InsertSorted<T(!new)>(x: T, s: seq<T>, le: (T, T) -> bool)
    requires TotalPreorder(le) && Sorted(s, le)
    ensures Sorted(Insert(x, s, le), le)
  {
    if s != [] && !le(x, s[0]) {
      InsertSorted(x, s[1..], le);
      var r := Insert(x, s, le);
      var t := Insert(x, s[1..], le);
      assert r == [s[0]] + t;
      forall j | 1 <= j < |r| ensures le(s[0], r[j]) {
        assert r[j] in multiset(t);
        assert r[j] == x || r[j] in multiset(s[1..]);
        if r[j] != x {
          var q :| 0 <= q < |s[1..]| && s[1..][q] == r[j];
          assert s[q + 1] == r[j];
        }
      }
    }
  }

  /** `Sort` orders its result. */
  lemma {:induction false} SortSorted<T(!new)>(s: seq<T>, le: (T, T) -> bool)
    requires TotalPreorder(le)
    ensures Sorted(Sort(s, le), le)
  {
    if s != [] {
      SortSorted(s[1..], le);
      InsertSorted(s[0], Sort(s[1..], le), le);
    }
  }

  /** When `h` is ranked equal to `x`, nothing `h` does not go in front of is. */
  ghost predicate ClassBelow<T(!new)>(h: T, x: T, le: (T, T) -> bool) {
    Equiv(h, x, le) ==> forall y :: !le(h, y) ==> !Equiv(y, x, le)
  }

  lemma ClassBelowHolds<T(!new)>(h: T, x: T, le: (T, T) -> bool)
    requires TotalPreorder(le)
    ensures ClassBelow(h, x, le)
  {
  }

  lemma EquivalentsCons<T>(a: T, s: seq<T>, x: T, le: (T, T) -> bool)
    ensures Equivalents([a] + s, x, le) == (if Equiv(a, x, le) then [a] else []) + Equivalents(s, x, le)
  {
    assert ([a] + s)[1..] == s;
  }

  lemma {:induction false} InsertEquivalentsBelow<T(!new)>(h: T, u: seq<T>, x: T, le: (T, T) -> bool)
    requires ClassBelow(h, x, le)
    ensures Equivalents(Insert(h, u, le), x, le)
            == (if Equiv(h, x, le) then [h] else []) + Equivalents(u, x, le)
  {
    if u == [] {
      EquivalentsCons(h, [], x, le);
      assert [h] + [] == [h];
    } else if le(h, u[0]) {
      EquivalentsCons(h, u, x, le);
    } else {
      InsertEquivalentsBelow(h, u[1..], x, le);
      EquivalentsCons(u[0], Insert(h, u[1..], le), x, le);
      EquivalentsCons(u[0], u[1..], x, le);
      assert u == [u[0]] + u[1..];
      SwapClasses(h, u[0], x, Equivalents(u[1..], x, le), le);
    }
  }

  lemma SwapClasses<T(!new)>(h: T, y: T, x: T, rest: seq<T>, le: (T, T) -> bool)
    requires ClassBelow(h, x, le) && !le(h, y)
    ensures (if Equiv(y, x, le) then [y] else []) + ((if Equiv(h, x, le) then [h] else []) + rest)
            == (if Equiv(h, x, le) then [h] else []) + ((if Equiv(y, x, le) then [y] else []) + rest)
  {
    if Equiv(h, x, le) {
      assert !Equiv(y, x, le);
      assert [] + ([h] + rest) == [h] + ([] + rest);
    } else {
      assert [] + ([y] + rest) == [y] + rest;
    }
  }

  /** Inserting `h` puts it after the elements of its class already there. */
  lemma InsertEquivalents<T(!new)>(h: T, u: seq<T>, x: T, le: (T, T) -> bool)
    requires TotalPreorder(le)
    ensures Equivalents(Insert(h, u, le), x, le)
            == (if Equiv(h, x, le) then [h] else []) + Equivalents(u, x, le)
  {
    ClassBelowHolds(h, x, le);
    InsertEquivalentsBelow(h, u, x, le);
  }

  /** Stability: every class of elements ranked equal appears in the result exactly as
      it appears in the input, in the same order. */
  lemma {:induction false} SortStable<T(!new)>(s: seq<T>, x: T, le: (T, T) -> bool)
    requires TotalPreorder(le)
    ensures Equivalents(Sort(s, le), x, le) == Equivalents(s, x, le)
  {
    if s != [] {
      SortStable(s[1..], x, le);
      InsertEquivalents(s[0], Sort(s[1..], le), x, le);
    }
  }

  /** Sorting what is already sorted changes nothing. */
  lemma {:induction false} SortSortedIsIdentity<T>(s: seq<T>, le: (T, T) -> bool)
    requires Sorted(s, le)
    ensures Sort(s, le) == s
  {
    if s != [] {
      SortSortedIsIdentity(s[1..], le);
      assert s == [s[0]] + s[1..];
      if |s| > 1 {
        assert le(s[0], s[1]);
        assert s[1..][0] == s[1];
      }
    }
  }
}
