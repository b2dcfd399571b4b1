/**
 * Splitters: cutting an array into its first and last rows (`topAndBottom`) and
 * distributing the rows of a table into partitions by the value of one column
 * (`splitByKey`).
 *
 * `mb_strtolower` (`lower`) and the `SORT_NATURAL` order on strings (`natLe`) are
 * parameters.  `array_unique` compares the string forms of values: by equality for the
 * derived keys, and by natural order (`natLe` both ways) after case folding.
 */
module Splitters {
  import opened PhpArrays
  import opened PhpCasts
  import opened StableSort

  // ---------------------------------------------------------------------------
  // topAndBottom
  // ---------------------------------------------------------------------------

  /** How many rows `topAndBottom` takes from each end: the requested number when it is
      positive and fits twice, otherwise half the array, rounded down. */
  function RowCount(count: nat, rows: int): (n: int)
    ensures count >= 2 ==> 1 <= n && 2 * n <= count
    ensures rows > 0 && 2 * rows <= count ==> n == rows
    ensures rows <= 0 || count < 2 * rows ==> n == count / 2
  {
    if rows <= 0 || count < rows * 2 then count / 2 else rows
  }

  /** The first `n` entries as `array_slice($array, 0, n)` returns them. */
  function TopOf(e: Entries, n: nat): (r: Entries)
    requires n <= |e|
    ensures ValuesOf(r) == ValuesOf(e)[..n]
  {
    RenumberValues(e[..n], 0);
    ValuesOfSlice(e, 0, n);
    Renumber(e[..n], 0)
  }

  /** The last `n` entries, last first, as `array_reverse(array_slice($array, -n, n))`
      returns them. */
  function BottomOf(e: Entries, n: nat): (r: Entries)
    requires n <= |e|
    ensures ValuesOf(r) == Reverse(ValuesOf(e)[|e| - n..])
  {
    var t := Renumber(e[|e| - n..], 0);
    RenumberValues(e[|e| - n..], 0);
    ValuesOfSlice(e, |e| - n, |e|);
    ValuesOfReverse(t);
    RenumberValues(Reverse(t), 0);
    Renumber(Reverse(t), 0)
  }

  lemma RenumberValues(e: Entries, next: int)
    ensures ValuesOf(Renumber(e, next)) == ValuesOf(e)
  {
    RenumberFacts(e, next);
  }

  lemma ValuesOfSlice(e: Entries, i: nat, j: nat)
    requires i <= j <= |e|
    ensures ValuesOf(e[i..j]) == ValuesOf(e)[i..j]
    ensures j == |e| ==> ValuesOf(e[i..]) == ValuesOf(e)[i..]
    ensures i == 0 ==> ValuesOf(e[..j]) == ValuesOf(e)[..j]
  {
    assert e[i..] == e[i..|e|] && e[..j] == e[0..j];
  }

  lemma ValuesOfReverse(e: Entries)
    ensures ValuesOf(Reverse(e)) == Reverse(ValuesOf(e))
  {
  }

  /** `Splitters::topAndBottom`: `['top' => first n rows, 'bottom' => last n rows, last
      first]`, with n as `RowCount` chooses. */
  function TopAndBottom(e: Entries, rows: int): (r: Result<Entries>)
    ensures |e| == 0 <==> r == Err(EmptyArray)
    ensures |e| == 1 <==> r == Err(SingleElement)
    ensures |e| >= 2 ==>
              && r.Ok? && |r.value| == 2
              && r.value[0].0 == StrKey("top") && r.value[1].0 == StrKey("bottom")
              && r.value[0].1.VArr? && r.value[1].1.VArr?
              && ValuesOf(r.value[0].1.entries) == ValuesOf(e)[..RowCount(|e|, rows)]
              && ValuesOf(r.value[1].1.entries) == Reverse(ValuesOf(e)[|e| - RowCount(|e|, rows)..])
  {
    if |e| == 0 then Err(EmptyArray)
    else if |e| == 1 then Err(SingleElement)
    else
      var n := RowCount(|e|, rows);
      Ok([(StrKey("top"), VArr(TopOf(e, n))), (StrKey("bottom"), VArr(BottomOf(e, n)))])
  }

  /** With no row count the input splits evenly: the top, the middle row when the count
      is odd, and the bottom read backwards give back every value in order. */
  lemma TopAndBottomEven(e: Entries)
    requires |e| >= 2
    ensures var n := RowCount(|e|, 0);
            ValuesOf(TopOf(e, n)) + (if |e| % 2 == 1 then [e[n].1] else [])
              + Reverse(ValuesOf(BottomOf(e, n))) == ValuesOf(e)
  {
    var n := |e| / 2;
    var tail := ValuesOf(e)[|e| - n..];
    assert Reverse(ValuesOf(BottomOf(e, n))) == tail by {
      ReverseReverse(tail);
    }
    HalvesJoin(e);
  }

  lemma HalvesJoin(e: Entries)
    ensures var n := |e| / 2;
            ValuesOf(e)[..n] + (if |e| % 2 == 1 then [e[n].1] else []) + ValuesOf(e)[|e| - n..] == ValuesOf(e)
  {
    var vs := ValuesOf(e);
    var n := |e| / 2;
    if |e| % 2 == 1 {
      assert |e| - n == n + 1;
      assert vs == vs[..n] + [vs[n]] + vs[n + 1..];
    } else {
      assert |e| - n == n;
      assert vs == vs[..n] + vs[n..];
    }
  }

  lemma ReverseReverse<T>(s: seq<T>)
    ensures Reverse(Reverse(s)) == s
  {
  }

  /** Renumbering entries that all have integer keys keys them `next`, `next + 1`, ... */
  lemma {:induction false} RenumberInts(e: Entries, next: int)
    requires forall i :: 0 <= i < |e| ==> e[i].0.IntKey?
    ensures forall i :: 0 <= i < |e| ==> Renumber(e, next)[i].0 == IntKey(next + i)
  {
    if e != [] {
      assert forall i :: 1 <= i < |e| ==> e[i] == e[1..][i - 1];
      RenumberInts(e[1..], next + 1);
    }
  }

  lemma ReverseDistinct(e: Entries)
    requires DistinctKeys(e)
    ensures DistinctKeys(Reverse(e))
  {
    var r := Reverse(e);
    forall i, j | 0 <= i < j < |r| ensures r[i].0 != r[j].0 {
      assert r[i] == e[|e| - 1 - i] && r[j] == e[|e| - 1 - j];
    }
  }

  lemma {:induction false} ReverseInts(e: Entries)
    requires forall i :: 0 <= i < |e| ==> e[i].0.IntKey?
    ensures forall i :: 0 <= i < |e| ==> Reverse(e)[i].0.IntKey?
  {
    forall i | 0 <= i < |e| ensures Reverse(e)[i].0.IntKey? {
      assert Reverse(e)[i] == e[|e| - 1 - i];
    }
  }

  /** The bottom part of an array is an array. */
  lemma BottomDistinct(e: Entries, n: nat)
    requires n <= |e| && DistinctKeys(e)
    ensures DistinctKeys(BottomOf(e, n))
  {
    var tail := Renumber(e[|e| - n..], 0);
    assert BottomOf(e, n) == Renumber(Reverse(tail), 0);
    DropDistinct(e, |e| - n);
    RenumberDistinct(e[|e| - n..], 0);
    ReverseDistinct(tail);
    RenumberDistinct(Reverse(tail), 0);
  }

  /** The bottom part of an array with integer keys only is a list. */
  lemma BottomList(e: Entries, n: nat)
    requires n <= |e| && forall i :: 0 <= i < |e| ==> e[i].0.IntKey?
    ensures IsList(BottomOf(e, n))
  {
    var tail := Renumber(e[|e| - n..], 0);
    assert BottomOf(e, n) == Renumber(Reverse(tail), 0);
    RenumberKeepsInts(e[|e| - n..], 0);
    ReverseInts(tail);
    RenumberInts(Reverse(tail), 0);
  }

  lemma DropDistinct(e: Entries, k: nat)
    requires k <= |e| && DistinctKeys(e)
    ensures DistinctKeys(e[k..])
  {
    forall i, j | 0 <= i < j < |e| - k ensures e[k..][i].0 != e[k..][j].0 {
      assert e[k..][i] == e[k + i] && e[k..][j] == e[k + j];
    }
  }

  lemma RenumberKeepsInts(e: Entries, next: int)
    requires forall i :: 0 <= i < |e| ==> e[i].0.IntKey?
    ensures forall i :: 0 <= i < |e| ==> Renumber(e, next)[i].0.IntKey?
  {
  }

  /** Both parts of an array (no key twice) are arrays, and both parts of an array with
      integer keys only (a list, say) are lists. */
  lemma TopAndBottomKeys(e: Entries, n: nat)
    requires n <= |e|
    ensures DistinctKeys(e) ==> DistinctKeys(TopOf(e, n)) && DistinctKeys(BottomOf(e, n))
    ensures (forall i :: 0 <= i < |e| ==> e[i].0.IntKey?) ==> IsList(TopOf(e, n)) && IsList(BottomOf(e, n))
  {
    if DistinctKeys(e) {
      BottomDistinct(e, n);
      RenumberDistinct(e[..n], 0);
    }
    if forall i :: 0 <= i < |e| ==> e[i].0.IntKey? {
      BottomList(e, n);
      RenumberInts(e[..n], 0);
    }
  }

  // ---------------------------------------------------------------------------
  // splitByKey: choosing the partition keys
  // ---------------------------------------------------------------------------

  // The loops of `splitByKey` are specified by functions that take the per-element
  // behaviour (how a value is cast to a string, how a key is formed, how a row is
  // compared and placed) as a function value; `Comparer`, `Placer` and the like give
  // the behaviour `splitByKey` uses.

  /** The string form `array_unique` and `SORT_NATURAL` compare values by. */
  function StrOf(v: Value): string {
    ToStr(v).GetOr("")
  }

  /** The string forms `str` gives the values of `e`. */
  function StrsBy(e: Entries, str: Value -> Option<string>): (ss: seq<string>)
    ensures |ss| == |e| && forall i :: 0 <= i < |e| ==> ss[i] == str(e[i].1).GetOr("")
  {
    seq(|e|, i requires 0 <= i < |e| => str(e[i].1).GetOr(""))
  }

  /** Equality of string forms, as `array_unique` decides it by default (`SORT_STRING`). */
  function SameString(): (string, string) -> bool {
    (a: string, b: string) => a == b
  }

  /** Equality under `SORT_NATURAL`: each string ranks at most the other in natural order. */
  function SameNatural(natLe: (string, string) -> bool): (string, string) -> bool {
    (a: string, b: string) => natLe(a, b) && natLe(b, a)
  }

  /** Whether `s` is `same` as one of the strings already kept. */
  predicate Seen(seen: seq<string>, s: string, same: (string, string) -> bool) {
    exists t :: t in seen && same(s, t)
  }

  /** `array_unique($a, $flags)`: the first entry, with its key, of each class of string
      forms that `same` identifies, in order; `None` when a value has no string form (an
      object), on which PHP throws.  PHP sorts a copy and drops every entry of a run of
      equal values but the earliest, which keeps the same entries when `same` is an
      equivalence, as it is for `SameString` and for `SameNatural` of a total preorder. */
  function UniqueBy(seen: seq<string>, e: Entries, str: Value -> Option<string>,
                    same: (string, string) -> bool): Option<Entries>
    decreases |e|
  {
    if e == [] then Some([])
    else
      match str(e[0].1)
      case None => None
      case Some(s) =>
        if Seen(seen, s, same) then UniqueBy(seen, e[1..], str, same)
        else
          match UniqueBy(seen + [s], e[1..], str, same)
          case None => None
          case Some(rest) => Some([e[0]] + rest)
  }

  /** What `array_unique` keeps by default: exactly one entry per string form, in order of
      first occurrence. */
  lemma {:induction false} UniqueByForms(seen: seq<string>, e: Entries, str: Value -> Option<string>)
    requires UniqueBy(seen, e, str, SameString()).Some?
    ensures seen + StrsBy(UniqueBy(seen, e, str, SameString()).value, str) == DedupOnto(seen, StrsBy(e, str))
    decreases |e|
  {
    if e != [] {
      var s := str(e[0].1).value;
      var all := StrsBy(e, str);
      assert all[0] == s && all[1..] == StrsBy(e[1..], str);
      SeenString(seen, s);
      if s in seen {
        UniqueByForms(seen, e[1..], str);
        assert UniqueBy(seen, e, str, SameString()) == UniqueBy(seen, e[1..], str, SameString());
        assert DedupOnto(seen, all) == DedupOnto(seen, all[1..]);
      } else {
        UniqueByForms(seen + [s], e[1..], str);
        FormsKept(seen, e, str);
      }
    }
  }

  /** The step of `UniqueByForms` where the first value is new. */
  lemma FormsKept(seen: seq<string>, e: Entries, str: Value -> Option<string>)
    requires e != [] && str(e[0].1).Some? && str(e[0].1).value !in seen
    requires !Seen(seen, str(e[0].1).value, SameString())
    requires UniqueBy(seen + [str(e[0].1).value], e[1..], str, SameString()).Some?
    requires var s := str(e[0].1).value;
             seen + [s] + StrsBy(UniqueBy(seen + [s], e[1..], str, SameString()).value, str)
             == DedupOnto(seen + [s], StrsBy(e[1..], str))
    ensures UniqueBy(seen, e, str, SameString()).Some?
    ensures seen + StrsBy(UniqueBy(seen, e, str, SameString()).value, str) == DedupOnto(seen, StrsBy(e, str))
  {
    var s := str(e[0].1).value;
    var rest := UniqueBy(seen + [s], e[1..], str, SameString()).value;
    UniqueByKeeps(seen, e, str, SameString());
    DedupOntoNew(seen, StrsBy(e, str), StrsBy(e[1..], str));
    StrsByCons(seen, e[0], rest, str);
  }

  lemma UniqueByKeeps(seen: seq<string>, e: Entries, str: Value -> Option<string>, same: (string, string) -> bool)
    requires e != [] && str(e[0].1).Some? && !Seen(seen, str(e[0].1).value, same)
    requires UniqueBy(seen + [str(e[0].1).value], e[1..], str, same).Some?
    ensures UniqueBy(seen, e, str, same) == Some([e[0]] + UniqueBy(seen + [str(e[0].1).value], e[1..], str, same).value)
  {
  }

  lemma DedupOntoNew(seen: seq<string>, all: seq<string>, tail: seq<string>)
    requires all != [] && all[0] !in seen && all[1..] == tail
    ensures DedupOnto(seen, all) == DedupOnto(seen + [all[0]], tail)
  {
  }

  lemma StrsByCons(seen: seq<string>, first: (Key, Value), rest: Entries, str: Value -> Option<string>)
    requires str(first.1).Some?
    ensures seen + StrsBy([first] + rest, str) == seen + [str(first.1).value] + StrsBy(rest, str)
  {
    assert StrsBy([first] + rest, str) == [str(first.1).value] + StrsBy(rest, str);
  }

  lemma SeenString(seen: seq<string>, s: string)
    ensures Seen(seen, s, SameString()) <==> s in seen
  {
    if s in seen {
      assert SameString()(s, s);
    }
  }

  /** `array_unique` fails only on a value without a string form. */
  lemma {:induction false} UniqueByDefined(seen: seq<string>, e: Entries, str: Value -> Option<string>,
                                           same: (string, string) -> bool)
    ensures UniqueBy(seen, e, str, same).Some? <==> forall i :: 0 <= i < |e| ==> str(e[i].1).Some?
    decreases |e|
  {
    if e != [] {
      assert forall i :: 1 <= i < |e| ==> e[i] == e[1..][i - 1];
      if str(e[0].1).Some? {
        UniqueByDefined(seen, e[1..], str, same);
        UniqueByDefined(seen + [str(e[0].1).value], e[1..], str, same);
      }
    }
  }

  /** What `array_unique` keeps under any equality: entries of the input, none of them
      `same` as a string seen before it or as an entry kept before it. */
  lemma {:induction false} UniqueByKept(seen: seq<string>, e: Entries, str: Value -> Option<string>,
                                        same: (string, string) -> bool)
    requires UniqueBy(seen, e, str, same).Some?
    ensures var u := UniqueBy(seen, e, str, same).value;
            && (forall j :: 0 <= j < |u| ==> u[j] in e && str(u[j].1).Some?)
            && (forall j :: 0 <= j < |u| ==> !Seen(seen + StrsBy(u[..j], str), str(u[j].1).value, same))
    decreases |e|
  {
    if e != [] {
      var s := str(e[0].1).value;
      if Seen(seen, s, same) {
        UniqueByKept(seen, e[1..], str, same);
      } else {
        UniqueByKept(seen + [s], e[1..], str, same);
        var rest := UniqueBy(seen + [s], e[1..], str, same).value;
        var u := [e[0]] + rest;
        forall j | 0 <= j < |u| ensures !Seen(seen + StrsBy(u[..j], str), str(u[j].1).value, same) {
          KeptPrefix(seen, e[0], rest, str, j);
        }
      }
    }
  }

  lemma KeptPrefix(seen: seq<string>, first: (Key, Value), rest: Entries, str: Value -> Option<string>, j: int)
    requires str(first.1).Some? && 0 <= j <= |rest|
    ensures seen + StrsBy(([first] + rest)[..j + 1], str) == seen + [str(first.1).value] + StrsBy(rest[..j], str)
    ensures j > 0 ==> seen + StrsBy(([first] + rest)[..j], str) == seen + [str(first.1).value] + StrsBy(rest[..j - 1], str)
    ensures j == 0 ==> seen + StrsBy(([first] + rest)[..j], str) == seen
    ensures j > 0 ==> ([first] + rest)[j] == rest[j - 1]
  {
    var u := [first] + rest;
    assert u[..j + 1] == [first] + rest[..j];
    if j > 0 {
      assert u[..j] == [first] + rest[..j - 1];
    } else {
      assert StrsBy(u[..0], str) == [];
    }
  }

  /** Nothing `array_unique` drops is lost for good: every entry of the input is kept or
      is `same` as a string seen before or as a kept entry. */
  lemma {:induction false} UniqueByCovers(seen: seq<string>, e: Entries, str: Value -> Option<string>,
                                          same: (string, string) -> bool, i: int)
    requires UniqueBy(seen, e, str, same).Some?
    requires 0 <= i < |e|
    ensures var u := UniqueBy(seen, e, str, same).value;
            str(e[i].1).Some? && (e[i] in u || Seen(seen + StrsBy(u, str), str(e[i].1).value, same))
    decreases |e|
  {
    UniqueByDefined(seen, e, str, same);
    var s := str(e[0].1).value;
    var u := UniqueBy(seen, e, str, same).value;
    if Seen(seen, s, same) {
      if i == 0 {
        var t :| t in seen && same(s, t);
        assert t in seen + StrsBy(u, str);
      } else {
        assert e[i] == e[1..][i - 1];
        UniqueByCovers(seen, e[1..], str, same, i - 1);
      }
    } else if i > 0 {
      var rest := UniqueBy(seen + [s], e[1..], str, same).value;
      assert u == [e[0]] + rest;
      assert e[i] == e[1..][i - 1];
      UniqueByCovers(seen + [s], e[1..], str, same, i - 1);
      assert StrsBy(u, str) == [s] + StrsBy(rest, str);
      assert seen + StrsBy(u, str) == seen + [s] + StrsBy(rest, str);
    }
  }

  /** The order `asort($keys, SORT_NATURAL)` applies. */
  function NatEntryLe(natLe: (string, string) -> bool): ((Key, Value), (Key, Value)) -> bool {
    (x: (Key, Value), y: (Key, Value)) => natLe(StrOf(x.1), StrOf(y.1))
  }

  /** Comparing entries by the natural order of their string forms is a total preorder
      when that order is one. */
  lemma NatEntryPreorder(natLe: (string, string) -> bool)
    requires TotalPreorder(natLe)
    ensures TotalPreorder(NatEntryLe(natLe))
  {
    var le := NatEntryLe(natLe);
    forall a, b, c | le(a, b) && le(b, c) ensures le(a, c) {
      assert natLe(StrOf(a.1), StrOf(b.1)) && natLe(StrOf(b.1), StrOf(c.1));
    }
    forall a, b ensures le(a, b) || le(b, a) {
      assert natLe(StrOf(a.1), StrOf(b.1)) || natLe(StrOf(b.1), StrOf(a.1));
    }
  }

  /** Partition keys when none are given: the distinct values of the column, in natural
      order (`array_unique(array_column(...))` then `asort(..., SORT_NATURAL)`). */
  function DeriveKeys(rows: Entries, column: string, natLe: (string, string) -> bool): Result<Entries> {
    match UniqueBy([], ArrayColumn(rows, StrKey(column)), ToStr, SameString())
    case None => Err(EngineError(ObjectToString))
    case Some(u) => Ok(Sort(u, NatEntryLe(natLe)))
  }

  function MapSeq<A, B>(s: seq<A>, f: A -> B): (r: seq<B>)
    ensures |r| == |s| && forall i :: 0 <= i < |s| ==> r[i] == f(s[i])
  {
    seq(|s|, i requires 0 <= i < |s| => f(s[i]))
  }

  lemma MapSeqAppend<A, B>(x: seq<A>, y: seq<A>, f: A -> B)
    ensures MapSeq(x + y, f) == MapSeq(x, f) + MapSeq(y, f)
  {
  }

  /** Mapping a permutation gives a permutation. */
  lemma {:induction false} MapPermutation<A, B>(a: seq<A>, b: seq<A>, f: A -> B)
    requires multiset(a) == multiset(b)
    ensures multiset(MapSeq(a, f)) == multiset(MapSeq(b, f))
    decreases |a|
  {
    if a != [] {
      var x := a[0];
      assert x in multiset(b);
      var p :| 0 <= p < |b| && b[p] == x;
      var b' := b[..p] + b[p + 1..];
      assert b == b[..p] + [x] + b[p + 1..];
      assert a == [x] + a[1..];
      assert multiset(a[1..]) == multiset(b') by {
        assert multiset(a) == multiset{x} + multiset(a[1..]);
        assert multiset(b) == multiset(b[..p]) + multiset{x} + multiset(b[p + 1..]);
        assert multiset(b') == multiset(b[..p]) + multiset(b[p + 1..]);
        assert multiset(a[1..]) == multiset(a) - multiset{x};
        assert multiset(b') == multiset(b) - multiset{x};
      }
      MapPermutation(a[1..], b', f);
      MapSeqAppend(b[..p] + [x], b[p + 1..], f);
      MapSeqAppend(b[..p], [x], f);
      MapSeqAppend(b[..p], b[p + 1..], f);
      MapSeqAppend([x], a[1..], f);
    }
  }

  function EntryStr(p: (Key, Value)): string {
    StrOf(p.1)
  }

  /** The derived keys are the column's values, one per string form: as a multiset their
      string forms are the distinct string forms of the column, and deriving fails only
      when some value of the column has no string form.  When `SORT_NATURAL` is a total
      preorder, they come out in its order. */
  lemma DeriveKeysForms(rows: Entries, column: string, natLe: (string, string) -> bool)
    ensures var col := ArrayColumn(rows, StrKey(column));
            DeriveKeys(rows, column, natLe).Err? <==> exists i :: 0 <= i < |col| && ToStr(col[i].1).None?
    ensures DeriveKeys(rows, column, natLe).Ok? ==>
              multiset(StrsBy(DeriveKeys(rows, column, natLe).value, ToStr))
              == multiset(Dedup(StrsBy(ArrayColumn(rows, StrKey(column)), ToStr)))
    ensures TotalPreorder(natLe) && DeriveKeys(rows, column, natLe).Ok? ==>
              Sorted(DeriveKeys(rows, column, natLe).value, NatEntryLe(natLe))
  {
    var col := ArrayColumn(rows, StrKey(column));
    UniqueByDefined([], col, ToStr, SameString());
    if DeriveKeys(rows, column, natLe).Ok? {
      var u := UniqueBy([], col, ToStr, SameString()).value;
      var sorted := Sort(u, NatEntryLe(natLe));
      if TotalPreorder(natLe) {
        NatEntryPreorder(natLe);
        SortSorted(u, NatEntryLe(natLe));
      }
      UniqueByForms([], col, ToStr);
      assert [] + StrsBy(u, ToStr) == StrsBy(u, ToStr);
      MapPermutation(sorted, u, EntryStr);
      assert StrsBy(sorted, ToStr) == MapSeq(sorted, EntryStr);
      assert StrsBy(u, ToStr) == MapSeq(u, EntryStr);
    }
  }

  /** One step of the `$caseInsensitive` pass: numeric values stay, other values go
      through `mb_strtolower`, which under strict types accepts only strings. */
  function FoldValue(v: Value, lower: string -> string): Result<Value> {
    if IsNumeric(v) then Ok(v)
    else if v.VStr? then Ok(VStr(lower(v.s)))
    else Err(EngineError(ArgumentType))
  }

  function Folder(lower: string -> string): Value -> Result<Value> {
    v => FoldValue(v, lower)
  }

  /** `r` with `p` in front when it is a success. */
  function Then(p: Entries, r: Result<Entries>): Result<Entries> {
    match r
    case Ok(rest) => Ok(p + rest)
    case Err(e) => Err(e)
  }

  lemma ThenThen(a: Entries, b: Entries, r: Result<Entries>)
    ensures Then(a, Then(b, r)) == Then(a + b, r)
  {
    if r.Ok? {
      assert a + (b + r.value) == (a + b) + r.value;
    }
  }

  /** The `foreach` that rewrites the values of the keys in place with `fold`. */
  function FoldAll(ks: Entries, fold: Value -> Result<Value>): (r: Result<Entries>)
    ensures r.Ok? ==> |r.value| == |ks| && forall i :: 0 <= i < |ks| ==> r.value[i].0 == ks[i].0
  {
    if ks == [] then Ok([])
    else
      match fold(ks[0].1)
      case Err(e) => Err(e)
      case Ok(v) => Then([(ks[0].0, v)], FoldAll(ks[1..], fold))
  }

  /** `FoldAll` from position `i` unfolded once. */
  lemma FoldAllAt(ks: Entries, i: int, fold: Value -> Result<Value>)
    requires 0 <= i < |ks|
    ensures FoldAll(ks[i..], fold) ==
              match fold(ks[i].1)
              case Err(e) => Err(e)
              case Ok(v) => Then([(ks[i].0, v)], FoldAll(ks[i + 1..], fold))
  {
    assert ks[i..][1..] == ks[i + 1..];
  }

  /** One step of the fold: with `done` folded before position `i`, the value at `i`
      either stops the fold or extends `done`. */
  lemma FoldStep(ks: Entries, i: int, done: Entries, fold: Value -> Result<Value>)
    requires 0 <= i < |ks|
    requires FoldAll(ks, fold) == Then(done, FoldAll(ks[i..], fold))
    ensures fold(ks[i].1).Err? ==> FoldAll(ks, fold) == Err(fold(ks[i].1).error)
    ensures fold(ks[i].1).Ok? ==>
              FoldAll(ks, fold) == Then(done + [(ks[i].0, fold(ks[i].1).value)], FoldAll(ks[i + 1..], fold))
  {
    FoldAllAt(ks, i, fold);
    if fold(ks[i].1).Ok? {
      ThenThen(done, [(ks[i].0, fold(ks[i].1).value)], FoldAll(ks[i + 1..], fold));
    }
  }

  /** The fold keeps the keys and rewrites each value, and fails exactly when one value
      cannot be rewritten. */
  lemma {:induction false} FoldAllValues(ks: Entries, fold: Value -> Result<Value>)
    ensures FoldAll(ks, fold).Ok? <==> forall i :: 0 <= i < |ks| ==> fold(ks[i].1).Ok?
    ensures FoldAll(ks, fold).Ok? ==>
              forall i :: 0 <= i < |ks| ==> FoldAll(ks, fold).value[i] == (ks[i].0, fold(ks[i].1).value)
  {
    if ks != [] {
      FoldAllValues(ks[1..], fold);
      assert forall i :: 1 <= i < |ks| ==> ks[i] == ks[1..][i - 1];
    }
  }

  /** The key `$newArray` gets for one accepted value, or the exception for the value. */
  function PartitionKey(index: Key, v: Value, ci: bool, lower: string -> string): Result<Key> {
    if IsEmpty(v) then Err(EmptyPartitionKey(index))
    else if v.VInt? then Ok(StrKey(IntToStr(v.i)))
    else if v.VStr? then Ok(StrKey(if ci then lower(v.s) else v.s))
    else Err(InvalidPartitionKey(index))
  }

  function KeyMaker(ci: bool, lower: string -> string): ((Key, Value)) -> Result<Key> {
    (p: (Key, Value)) => PartitionKey(p.0, p.1, ci, lower)
  }

  /** The `foreach` that prepares `$newArray[$key] = []` for each partition key. */
  function Prepare(acc: Entries, ks: Entries, mk: ((Key, Value)) -> Result<Key>): Result<Entries>
    decreases |ks|
  {
    if ks == [] then Ok(acc)
    else
      match mk(ks[0])
      case Err(e) => Err(e)
      case Ok(k) => Prepare(Assign(acc, k, VArr([])), ks[1..], mk)
  }

  /** The keys `mk` forms, one per entry, up to the first refusal. */
  function Formed(ks: Entries, mk: ((Key, Value)) -> Result<Key>): seq<Key> {
    if ks == [] then []
    else
      match mk(ks[0])
      case Err(_) => []
      case Ok(k) => [k] + Formed(ks[1..], mk)
  }

  /** Preparing succeeds exactly when every key is accepted, and then yields the keys
      `mk` formed, each once, in order of first formation. */
  lemma {:induction false} PrepareOrder(acc: Entries, ks: Entries, mk: ((Key, Value)) -> Result<Key>)
    ensures Prepare(acc, ks, mk).Ok? <==> forall j :: 0 <= j < |ks| ==> mk(ks[j]).Ok?
    ensures Prepare(acc, ks, mk).Ok? ==>
              KeysOf(Prepare(acc, ks, mk).value) == DedupOnto(KeysOf(acc), Formed(ks, mk))
    decreases |ks|
  {
    if ks != [] {
      assert forall j :: 1 <= j < |ks| ==> ks[j] == ks[1..][j - 1];
      if mk(ks[0]).Ok? {
        var k := mk(ks[0]).value;
        var acc' := Assign(acc, k, VArr([]));
        PrepareOrder(acc', ks[1..], mk);
        AssignKeys(acc, k, VArr([]));
        KeysOfHasKey(acc, k);
      }
    }
  }

  lemma FormedMembers(ks: Entries, mk: ((Key, Value)) -> Result<Key>)
    requires forall j :: 0 <= j < |ks| ==> mk(ks[j]).Ok?
    ensures forall j :: 0 <= j < |ks| ==> mk(ks[j]).value in Formed(ks, mk)
    ensures forall k :: k in Formed(ks, mk) ==> exists j :: 0 <= j < |ks| && mk(ks[j]) == Ok(k)
  {
    if ks != [] {
      assert forall j :: 1 <= j < |ks| ==> ks[j] == ks[1..][j - 1];
      FormedMembers(ks[1..], mk);
    }
  }

  // ---------------------------------------------------------------------------
  // splitByKey: filling the partitions
  // ---------------------------------------------------------------------------

  /** The string a row is compared by: its column lower-cased when `caseInsensitive` and
      the column is a string, otherwise `(string)` of the column; `None` where the cast
      throws. */
  function CompareString(item: Value, column: Key, ci: bool, lower: string -> string): Option<string> {
    var c := Column(item, column);
    if ci && c.VStr? then Some(lower(c.s)) else ToStr(c)
  }

  function Comparer(column: Key, ci: bool, lower: string -> string): Value -> Option<string> {
    item => CompareString(item, column, ci, lower)
  }

  /** The row as it is added to a partition: the column unset unless `keepKey`. */
  function Placed(item: Value, column: Key, keepKey: bool): Option<Value> {
    if keepKey then Some(item) else UnsetColumn(item, column)
  }

  function Placer(column: Key, keepKey: bool): Value -> Option<Value> {
    item => Placed(item, column, keepKey)
  }

  /** The rows whose compared string is `key`, in input order. */
  function Matching(rows: Entries, key: string, cmp: Value -> Option<string>): (m: Entries)
    ensures |m| <= |rows|
  {
    if rows == [] then []
    else (if cmp(rows[0].1) == Some(key) then [rows[0]] else []) + Matching(rows[1..], key, cmp)
  }

  /** `Matching` keeps exactly the matching rows. */
  lemma {:induction false} MatchingMembers(rows: Entries, key: string, cmp: Value -> Option<string>)
    ensures forall x :: x in Matching(rows, key, cmp) <==> x in rows && cmp(x.1) == Some(key)
  {
    if rows != [] {
      MatchingMembers(rows[1..], key, cmp);
      assert forall x :: x in rows <==> x == rows[0] || x in rows[1..];
    }
  }

  /** The inner `foreach ($array as $item)` for one partition key: the rows it appends
      to `acc`, or the first exception. */
  function Fill(acc: seq<Value>, rows: Entries, key: string, cmp: Value -> Option<string>,
                place: Value -> Option<Value>): Result<seq<Value>>
    decreases |rows|
  {
    if rows == [] then Ok(acc)
    else
      match cmp(rows[0].1)
      case None => Err(EngineError(ObjectToString))
      case Some(s) =>
        if s != key then Fill(acc, rows[1..], key, cmp, place)
        else
          match place(rows[0].1)
          case None => Err(EngineError(UnsetOnScalar))
          case Some(p) => Fill(acc + [p], rows[1..], key, cmp, place)
  }

  /** A partition holds exactly the matching rows, in input order, each as placed. */
  lemma {:induction false} FillMatching(acc: seq<Value>, rows: Entries, key: string,
                                        cmp: Value -> Option<string>, place: Value -> Option<Value>)
    requires Fill(acc, rows, key, cmp, place).Ok?
    ensures var p := Fill(acc, rows, key, cmp, place).value;
            var m := Matching(rows, key, cmp);
            && |p| == |acc| + |m| && p[..|acc|] == acc
            && forall t :: 0 <= t < |m| ==> place(m[t].1) == Some(p[|acc| + t])
    decreases |rows|
  {
    if rows != [] {
      var m := Matching(rows, key, cmp);
      var m' := Matching(rows[1..], key, cmp);
      var p := Fill(acc, rows, key, cmp, place).value;
      if cmp(rows[0].1).value != key {
        assert m == m';
        FillMatching(acc, rows[1..], key, cmp, place);
      } else {
        var q := place(rows[0].1).value;
        assert m == [rows[0]] + m';
        FillMatching(acc + [q], rows[1..], key, cmp, place);
        assert p[..|acc| + 1] == acc + [q];
        assert p[..|acc|] == p[..|acc| + 1][..|acc|];
        forall t | 0 <= t < |m| ensures place(m[t].1) == Some(p[|acc| + t]) {
          if t == 0 {
            assert p[|acc|] == (acc + [q])[|acc|];
          } else {
            assert m[t] == m'[t - 1];
          }
        }
      }
    }
  }

  /** The outer `foreach ($newArray as $key => $value)`: each partition key in turn gets
      its rows; `acc` holds the partitions already filled. */
  function FillAll(acc: Entries, keys: seq<Key>, rows: Entries, cmp: Value -> Option<string>,
                   place: Value -> Option<Value>): Result<Entries>
    decreases |keys|
  {
    if keys == [] then Ok(acc)
    else
      match Fill([], rows, KeyString(keys[0]), cmp, place)
      case Err(e) => Err(e)
      case Ok(part) => FillAll(acc + [(keys[0], VArr(ListOf(part)))], keys[1..], rows, cmp, place)
  }

  /** `FillAll` from key `t` unfolded once. */
  lemma FillAllAt(acc: Entries, keys: seq<Key>, t: int, rows: Entries, cmp: Value -> Option<string>,
                  place: Value -> Option<Value>)
    requires 0 <= t < |keys|
    ensures var f := Fill([], rows, KeyString(keys[t]), cmp, place);
            f.Err? ==> FillAll(acc, keys[t..], rows, cmp, place) == Err(f.error)
    ensures var f := Fill([], rows, KeyString(keys[t]), cmp, place);
            f.Ok? ==> FillAll(acc, keys[t..], rows, cmp, place)
                      == FillAll(acc + [(keys[t], VArr(ListOf(f.value)))], keys[t + 1..], rows, cmp, place)
  {
    assert keys[t..][1..] == keys[t + 1..];
  }

  /** After filling, there is one entry per key, in order, holding the list of what the
      inner loop collected for that key. */
  lemma {:induction false} FillAllOk(acc: Entries, keys: seq<Key>, rows: Entries,
                                     cmp: Value -> Option<string>, place: Value -> Option<Value>)
    requires FillAll(acc, keys, rows, cmp, place).Ok?
    ensures var out := FillAll(acc, keys, rows, cmp, place).value;
            && |out| == |acc| + |keys| && out[..|acc|] == acc
            && forall j :: 0 <= j < |keys| ==>
                 && Fill([], rows, KeyString(keys[j]), cmp, place).Ok?
                 && out[|acc| + j] == (keys[j], VArr(ListOf(Fill([], rows, KeyString(keys[j]), cmp, place).value)))
    decreases |keys|
  {
    if keys != [] {
      var part := Fill([], rows, KeyString(keys[0]), cmp, place).value;
      var acc' := acc + [(keys[0], VArr(ListOf(part)))];
      FillAllOk(acc', keys[1..], rows, cmp, place);
      var out := FillAll(acc, keys, rows, cmp, place).value;
      assert out[..|acc'|][..|acc|] == out[..|acc|];
      assert out[|acc|] == acc'[|acc|];
      forall j | 1 <= j < |keys|
        ensures out[|acc| + j] == (keys[j], VArr(ListOf(Fill([], rows, KeyString(keys[j]), cmp, place).value)))
      {
        assert keys[j] == keys[1..][j - 1];
      }
    }
  }

  // ---------------------------------------------------------------------------
  // splitByKey
  // ---------------------------------------------------------------------------

  /** The `$caseInsensitive` pass: lower-casing, then `array_unique(..., SORT_NATURAL)`,
      which keeps the first of the keys that natural order ranks equal. */
  function CaseFold(ks: Entries, lower: string -> string, natLe: (string, string) -> bool): Result<Entries> {
    match FoldAll(ks, Folder(lower))
    case Err(e) => Err(e)
    case Ok(folded) =>
      match UniqueBy([], folded, ToStr, SameNatural(natLe))
      case None => Err(EngineError(ObjectToString))
      case Some(u) => Ok(u)
  }

  /** After case folding, no two keys are equal in natural order, each is one of the
      lower-cased keys, and every lower-cased key is kept or equal in natural order to a
      kept one. */
  lemma CaseFoldClasses(ks: Entries, lower: string -> string, natLe: (string, string) -> bool)
    requires CaseFold(ks, lower, natLe).Ok?
    ensures FoldAll(ks, Folder(lower)).Ok?
    ensures var folded := FoldAll(ks, Folder(lower)).value;
            var u := CaseFold(ks, lower, natLe).value;
            && (forall j :: 0 <= j < |u| ==> u[j] in folded)
            && (forall i, j :: 0 <= i < j < |u| ==>
                  !(natLe(StrOf(u[i].1), StrOf(u[j].1)) && natLe(StrOf(u[j].1), StrOf(u[i].1))))
            && (forall i :: 0 <= i < |folded| ==>
                  folded[i] in u
                  || exists j :: 0 <= j < |u| && natLe(StrOf(folded[i].1), StrOf(u[j].1))
                                              && natLe(StrOf(u[j].1), StrOf(folded[i].1)))
  {
    CaseFoldDistinct(ks, lower, natLe);
    CaseFoldCovers(ks, lower, natLe);
  }

  lemma CaseFoldDistinct(ks: Entries, lower: string -> string, natLe: (string, string) -> bool)
    requires CaseFold(ks, lower, natLe).Ok?
    ensures FoldAll(ks, Folder(lower)).Ok?
    ensures var folded := FoldAll(ks, Folder(lower)).value;
            var u := CaseFold(ks, lower, natLe).value;
            && (forall j :: 0 <= j < |u| ==> u[j] in folded)
            && (forall i, j :: 0 <= i < j < |u| ==>
                  !(natLe(StrOf(u[i].1), StrOf(u[j].1)) && natLe(StrOf(u[j].1), StrOf(u[i].1))))
  {
    var folded := FoldAll(ks, Folder(lower)).value;
    var u := CaseFold(ks, lower, natLe).value;
    UniqueByKept([], folded, ToStr, SameNatural(natLe));
    forall i, j | 0 <= i < j < |u|
      ensures !(natLe(StrOf(u[i].1), StrOf(u[j].1)) && natLe(StrOf(u[j].1), StrOf(u[i].1)))
    {
      assert [] + StrsBy(u[..j], ToStr) == StrsBy(u[..j], ToStr);
      assert StrOf(u[i].1) == StrsBy(u[..j], ToStr)[i];
      assert StrOf(u[i].1) in [] + StrsBy(u[..j], ToStr);
      assert !SameNatural(natLe)(StrOf(u[j].1), StrOf(u[i].1));
    }
  }

  lemma CaseFoldCovers(ks: Entries, lower: string -> string, natLe: (string, string) -> bool)
    requires CaseFold(ks, lower, natLe).Ok?
    ensures FoldAll(ks, Folder(lower)).Ok?
    ensures var folded := FoldAll(ks, Folder(lower)).value;
            var u := CaseFold(ks, lower, natLe).value;
            forall i :: 0 <= i < |folded| ==>
              folded[i] in u
              || exists j :: 0 <= j < |u| && natLe(StrOf(folded[i].1), StrOf(u[j].1))
                                          && natLe(StrOf(u[j].1), StrOf(folded[i].1))
  {
    var folded := FoldAll(ks, Folder(lower)).value;
    var u := CaseFold(ks, lower, natLe).value;
    forall i | 0 <= i < |folded|
      ensures folded[i] in u
              || exists j :: 0 <= j < |u| && natLe(StrOf(folded[i].1), StrOf(u[j].1))
                                          && natLe(StrOf(u[j].1), StrOf(folded[i].1))
    {
      UniqueByCovers([], folded, ToStr, SameNatural(natLe), i);
      if folded[i] !in u {
        var t :| t in [] + StrsBy(u, ToStr) && SameNatural(natLe)(ToStr(folded[i].1).value, t);
        var j :| 0 <= j < |u| && StrsBy(u, ToStr)[j] == t;
        assert StrOf(u[j].1) == t;
      }
    }
  }

  /** Two text keys whose lower-cased forms natural order ranks equal (such as "NEW YORK"
      and "newyork", when natural order skips whitespace) leave one key, the first. */
  lemma CaseFoldMerges(a: string, b: string, lower: string -> string, natLe: (string, string) -> bool)
    requires !IsNumericStr(a) && !IsNumericStr(b)
    requires natLe(lower(a), lower(b)) && natLe(lower(b), lower(a))
    ensures CaseFold([(IntKey(0), VStr(a)), (IntKey(1), VStr(b))], lower, natLe) == Ok([(IntKey(0), VStr(lower(a)))])
  {
    var ks := [(IntKey(0), VStr(a)), (IntKey(1), VStr(b))];
    assert ks[1..] == [(IntKey(1), VStr(b))] && ks[1..][1..] == [];
    assert Folder(lower)(VStr(a)) == Ok(VStr(lower(a)));
    assert Folder(lower)(VStr(b)) == Ok(VStr(lower(b)));
    var tail := ks[1..];
    assert tail[0] == (IntKey(1), VStr(b)) && tail[1..] == [];
    assert FoldAll(tail[1..], Folder(lower)) == Ok([]);
    assert [(IntKey(1), VStr(lower(b)))] + [] == [(IntKey(1), VStr(lower(b)))];
    assert FoldAll(tail, Folder(lower)) == Ok([(IntKey(1), VStr(lower(b)))]);
    var folded := [(IntKey(0), VStr(lower(a))), (IntKey(1), VStr(lower(b)))];
    assert FoldAll(ks, Folder(lower)) == Ok([(IntKey(0), VStr(lower(a)))] + [(IntKey(1), VStr(lower(b)))]);
    assert [(IntKey(0), VStr(lower(a)))] + [(IntKey(1), VStr(lower(b)))] == folded;
    assert folded[1..] == [(IntKey(1), VStr(lower(b)))] && folded[1..][1..] == [];
    assert !Seen([], lower(a), SameNatural(natLe));
    assert lower(a) in [] + [lower(a)] && SameNatural(natLe)(lower(b), lower(a));
    assert Seen([] + [lower(a)], lower(b), SameNatural(natLe));
    assert UniqueBy([] + [lower(a)], folded[1..], ToStr, SameNatural(natLe)) == Some([]);
    assert UniqueBy([], folded, ToStr, SameNatural(natLe)) == Some([folded[0]] + []);
    assert [folded[0]] + [] == [(IntKey(0), VStr(lower(a)))];
  }

  /** The partition keys: the given ones or the derived ones, case folded on request. */
  function ChooseKeys(rows: Entries, column: string, newKeys: Entries, ci: bool,
                      lower: string -> string, natLe: (string, string) -> bool): Result<Entries>
  {
    match (if |newKeys| == 0 then DeriveKeys(rows, column, natLe) else Ok(newKeys))
    case Err(e) => Err(e)
    case Ok(ks) => if ci then CaseFold(ks, lower, natLe) else Ok(ks)
  }

  /** Preparing `$newArray` from the partition keys, then filling it. */
  function Partition(rows: Entries, ks: Entries, mk: ((Key, Value)) -> Result<Key>,
                     cmp: Value -> Option<string>, place: Value -> Option<Value>): Result<Entries>
  {
    match Prepare([], ks, mk)
    case Err(e) => Err(e)
    case Ok(prepared) => FillAll([], KeysOf(prepared), rows, cmp, place)
  }

  /** `Splitters::splitByKey` as a whole: the checks, the choice of partition keys, then
      the partitioning. */
  function SplitByKeySpec(rows: Entries, column: string, newKeys: Entries, keepKey: bool, ci: bool,
                          lower: string -> string, natLe: (string, string) -> bool): Result<Entries>
  {
    if |rows| == 0 then Err(EmptyArray)
    else if IsEmptyString(column) then Err(EmptyKey)
    else
      match ChooseKeys(rows, column, newKeys, ci, lower, natLe)
      case Err(e) => Err(e)
      case Ok(ks) => Partition(rows, ks, KeyMaker(ci, lower), Comparer(StrKey(column), ci, lower),
                               Placer(StrKey(column), keepKey))
  }

  /** `Splitters::splitByKey`. */
  method SplitByKey(rows: Entries, column: string, newKeys: Entries, keepKey: bool, ci: bool,
                    lower: string -> string, natLe: (string, string) -> bool) returns (r: Result<Entries>)
    ensures r == SplitByKeySpec(rows, column, newKeys, keepKey, ci, lower, natLe)
  {
    if |rows| == 0 {
      return Err(EmptyArray);
    }
    if IsEmptyString(column) {
      return Err(EmptyKey);
    }
    var keys := newKeys;
    if |keys| == 0 {
      var derived := DeriveKeys(rows, column, natLe);
      if derived.Err? {
        return Err(derived.error);
      }
      keys := derived.value;
    }
    if ci {
      var folded := LowerKeys(keys, lower);
      if folded.Err? {
        return Err(folded.error);
      }
      var unique := UniqueBy([], folded.value, ToStr, SameNatural(natLe));
      if unique.None? {
        return Err(EngineError(ObjectToString));
      }
      keys := unique.value;
    }
    var prepared := PrepareLoop(keys, ci, lower);
    if prepared.Err? {
      return Err(prepared.error);
    }
    r := FillLoop(prepared.value, rows, StrKey(column), keepKey, ci, lower);
  }

  /** After one pass of the loop body at `i`, the keys up to `i` are the folded ones. */
  lemma LowerKeysStep(ks: Entries, keys: Entries, i: int, done: Entries, lower: string -> string)
    requires 0 <= i < |keys| == |ks|
    requires keys[..i] == done
    requires Folder(lower)(ks[i].1).Ok? && keys[i] == (ks[i].0, Folder(lower)(ks[i].1).value)
    requires FoldAll(ks, Folder(lower)) == Then(done + [(ks[i].0, Folder(lower)(ks[i].1).value)], FoldAll(ks[i + 1..], Folder(lower)))
    ensures FoldAll(ks, Folder(lower)) == Then(keys[..i + 1], FoldAll(ks[i + 1..], Folder(lower)))
  {
    assert keys[..i + 1] == keys[..i] + [keys[i]];
  }

  /** The `$caseInsensitive` loop over the keys, lower-casing in place. */
  method LowerKeys(ks: Entries, lower: string -> string) returns (r: Result<Entries>)
    ensures r == FoldAll(ks, Folder(lower))
  {
    if FoldAll(ks, Folder(lower)).Ok? {
      assert [] + FoldAll(ks, Folder(lower)).value == FoldAll(ks, Folder(lower)).value;
    }
    var keys := ks;
    var i := 0;
    while i < |keys|
      invariant 0 <= i <= |keys| == |ks|
      invariant forall k :: i <= k < |keys| ==> keys[k] == ks[k]
      invariant FoldAll(ks, Folder(lower)) == Then(keys[..i], FoldAll(ks[i..], Folder(lower)))
    {
      ghost var done := keys[..i];
      FoldStep(ks, i, done, Folder(lower));
      var v := keys[i].1;
      if !IsNumeric(v) {
        if !v.VStr? {
          return Err(EngineError(ArgumentType));
        }
        keys := keys[i := (keys[i].0, VStr(lower(v.s)))];
      }
      LowerKeysStep(ks, keys, i, done, lower);
      i := i + 1;
    }
    assert ks[i..] == [] && keys[..i] == keys && keys + [] == keys;
    return Ok(keys);
  }

  /** The loop that prepares an empty partition per key. */
  method PrepareLoop(keys: Entries, ci: bool, lower: string -> string) returns (r: Result<Entries>)
    ensures r == Prepare([], keys, KeyMaker(ci, lower))
  {
    var newArray: Entries := [];
    var j := 0;
    while j < |keys|
      invariant 0 <= j <= |keys|
      invariant Prepare([], keys, KeyMaker(ci, lower)) == Prepare(newArray, keys[j..], KeyMaker(ci, lower))
    {
      assert keys[j..][1..] == keys[j + 1..];
      var newKey := keys[j].1;
      if IsEmpty(newKey) {
        return Err(EmptyPartitionKey(keys[j].0));
      }
      if newKey.VInt? {
        newArray := Assign(newArray, StrKey(IntToStr(newKey.i)), VArr([]));
      } else if newKey.VStr? {
        if ci {
          newArray := Assign(newArray, StrKey(lower(newKey.s)), VArr([]));
        } else {
          newArray := Assign(newArray, StrKey(newKey.s), VArr([]));
        }
      } else {
        return Err(InvalidPartitionKey(keys[j].0));
      }
      j := j + 1;
    }
    return Ok(newArray);
  }

  /** The outer loop over the prepared partitions, filling each in place. */
  method FillLoop(prepared: Entries, rows: Entries, column: Key, keepKey: bool, ci: bool,
                  lower: string -> string) returns (r: Result<Entries>)
    ensures r == FillAll([], KeysOf(prepared), rows, Comparer(column, ci, lower), Placer(column, keepKey))
  {
    var newArray := prepared;
    ghost var pkeys := KeysOf(prepared);
    var t := 0;
    while t < |newArray|
      invariant 0 <= t <= |newArray| == |prepared|
      invariant forall k :: t <= k < |newArray| ==> newArray[k] == prepared[k]
      invariant FillAll([], pkeys, rows, Comparer(column, ci, lower), Placer(column, keepKey))
                == FillAll(newArray[..t], pkeys[t..], rows, Comparer(column, ci, lower), Placer(column, keepKey))
    {
      var key := newArray[t].0;
      FillAllAt(newArray[..t], pkeys, t, rows, Comparer(column, ci, lower), Placer(column, keepKey));
      var part := FillOne(rows, KeyString(key), column, keepKey, ci, lower);
      if part.Err? {
        return Err(part.error);
      }
      ghost var done := newArray[..t];
      newArray := newArray[t := (key, VArr(ListOf(part.value)))];
      assert newArray[..t + 1] == done + [(key, VArr(ListOf(part.value)))];
      t := t + 1;
    }
    assert newArray[..t] == newArray;
    return Ok(newArray);
  }

  /** The inner loop over the rows for one partition key. */
  method FillOne(rows: Entries, key: string, column: Key, keepKey: bool, ci: bool,
                 lower: string -> string) returns (r: Result<seq<Value>>)
    ensures r == Fill([], rows, key, Comparer(column, ci, lower), Placer(column, keepKey))
  {
    var part: seq<Value> := [];
    var q := 0;
    while q < |rows|
      invariant 0 <= q <= |rows|
      invariant Fill([], rows, key, Comparer(column, ci, lower), Placer(column, keepKey))
                == Fill(part, rows[q..], key, Comparer(column, ci, lower), Placer(column, keepKey))
    {
      assert rows[q..][1..] == rows[q + 1..];
      var item := rows[q].1;
      var col := Column(item, column);
      var compared: string;
      if ci && col.VStr? {
        compared := lower(col.s);
      } else {
        var s := ToStr(col);
        if s.None? {
          return Err(EngineError(ObjectToString));
        }
        compared := s.value;
      }
      if compared == key {
        if !keepKey {
          var unset := UnsetColumn(item, column);
          if unset.None? {
            return Err(EngineError(UnsetOnScalar));
          }
          item := unset.value;
        }
        part := part + [item];
      }
      q := q + 1;
    }
    return Ok(part);
  }

  // ---------------------------------------------------------------------------
  // What the partitions are
  // ---------------------------------------------------------------------------

  /** One partition holds exactly the rows matching its key, in input order, as placed. */
  ghost predicate PartitionHolds(p: (Key, Value), rows: Entries, cmp: Value -> Option<string>,
                                 place: Value -> Option<Value>)
  {
    && p.1.VArr? && IsList(p.1.entries)
    && var m := Matching(rows, KeyString(p.0), cmp);
       |p.1.entries| == |m|
       && forall t :: 0 <= t < |m| ==> place(m[t].1) == Some(p.1.entries[t].1)
  }

  lemma FilledHolds(key: Key, rows: Entries, cmp: Value -> Option<string>, place: Value -> Option<Value>)
    requires Fill([], rows, KeyString(key), cmp, place).Ok?
    ensures PartitionHolds((key, VArr(ListOf(Fill([], rows, KeyString(key), cmp, place).value))), rows, cmp, place)
  {
    FillMatching([], rows, KeyString(key), cmp, place);
  }

  /** Every filled partition holds its matching rows. */
  lemma FillAllHolds(keys: seq<Key>, rows: Entries, cmp: Value -> Option<string>, place: Value -> Option<Value>)
    requires FillAll([], keys, rows, cmp, place).Ok?
    ensures var out := FillAll([], keys, rows, cmp, place).value;
            && KeysOf(out) == keys
            && forall j :: 0 <= j < |out| ==> PartitionHolds(out[j], rows, cmp, place)
  {
    FillAllOk([], keys, rows, cmp, place);
    var out := FillAll([], keys, rows, cmp, place).value;
    forall j | 0 <= j < |out| ensures out[j].0 == keys[j] && PartitionHolds(out[j], rows, cmp, place) {
      assert out[0 + j] == out[j];
      FilledHolds(keys[j], rows, cmp, place);
    }
  }

  /** The result of a successful partitioning: one partition per distinct formed key, in
      order of first formation, and each partition the list of the rows whose compared
      string is its key, in input order, as placed. */
  lemma PartitionContents(rows: Entries, ks: Entries, mk: ((Key, Value)) -> Result<Key>,
                          cmp: Value -> Option<string>, place: Value -> Option<Value>)
    requires Partition(rows, ks, mk, cmp, place).Ok?
    ensures var out := Partition(rows, ks, mk, cmp, place).value;
            && KeysOf(out) == Dedup(Formed(ks, mk))
            && DistinctKeys(out)
            && forall j :: 0 <= j < |out| ==> PartitionHolds(out[j], rows, cmp, place)
  {
    var prepared := Prepare([], ks, mk).value;
    PrepareOrder([], ks, mk);
    assert KeysOf([]) == [];
    FillAllHolds(KeysOf(prepared), rows, cmp, place);
    var out := Partition(rows, ks, mk, cmp, place).value;
    DistinctKeysOf(out);
  }

  /** Every accepted value of the key list has a partition, and every partition comes
      from one. */
  lemma PartitionKeys(rows: Entries, ks: Entries, mk: ((Key, Value)) -> Result<Key>,
                      cmp: Value -> Option<string>, place: Value -> Option<Value>)
    requires Partition(rows, ks, mk, cmp, place).Ok?
    ensures forall j :: 0 <= j < |ks| ==>
              mk(ks[j]).Ok? && HasKey(Partition(rows, ks, mk, cmp, place).value, mk(ks[j]).value)
  {
    var out := Partition(rows, ks, mk, cmp, place).value;
    PrepareOrder([], ks, mk);
    PartitionContents(rows, ks, mk, cmp, place);
    FormedMembers(ks, mk);
    forall j | 0 <= j < |ks| ensures HasKey(out, mk(ks[j]).value) {
      KeysOfHasKey(out, mk(ks[j]).value);
    }
  }

  /** Every partition comes from one of the keys. */
  lemma PartitionFromKeys(rows: Entries, ks: Entries, mk: ((Key, Value)) -> Result<Key>,
                          cmp: Value -> Option<string>, place: Value -> Option<Value>)
    requires Partition(rows, ks, mk, cmp, place).Ok?
    ensures var out := Partition(rows, ks, mk, cmp, place).value;
            forall i :: 0 <= i < |out| ==> exists j :: 0 <= j < |ks| && mk(ks[j]) == Ok(out[i].0)
  {
    var out := Partition(rows, ks, mk, cmp, place).value;
    var f := Formed(ks, mk);
    PrepareOrder([], ks, mk);
    PartitionContents(rows, ks, mk, cmp, place);
    FormedMembers(ks, mk);
    forall i | 0 <= i < |out| ensures out[i].0 in f {
      assert out[i].0 == KeysOf(out)[i];
      assert out[i].0 in Dedup(f);
    }
  }

  /** `splitByKey`'s partition keys are strings: an integer is cast, a string kept or
      lower-cased; empty values and other types are refused with their index. */
  lemma PartitionKeyCases(index: Key, v: Value, ci: bool, lower: string -> string)
    ensures PartitionKey(index, v, ci, lower).Ok? ==> PartitionKey(index, v, ci, lower).value.StrKey?
    ensures IsEmpty(v) <==> PartitionKey(index, v, ci, lower) == Err(EmptyPartitionKey(index))
    ensures !IsEmpty(v) && !v.VInt? && !v.VStr? <==> PartitionKey(index, v, ci, lower) == Err(InvalidPartitionKey(index))
  {
  }

  /** With `caseInsensitive`, two rows whose column strings lower-case alike (such as
      "A" and "a") are matched by the same partition keys. */
  lemma CaseInsensitiveMerge(rows: Entries, i: int, j: int, key: string, column: Key, lower: string -> string)
    requires 0 <= i < |rows| && 0 <= j < |rows|
    requires Column(rows[i].1, column).VStr? && Column(rows[j].1, column).VStr?
    requires lower(Column(rows[i].1, column).s) == lower(Column(rows[j].1, column).s)
    ensures rows[i] in Matching(rows, key, Comparer(column, true, lower))
            <==> rows[j] in Matching(rows, key, Comparer(column, true, lower))
  {
    MatchingMembers(rows, key, Comparer(column, true, lower));
  }

  /** Without `keepKey`, no array row of any partition still has the column. */
  lemma PlacedWithoutColumn(rows: Entries, ks: Entries, mk: ((Key, Value)) -> Result<Key>,
                            cmp: Value -> Option<string>, column: Key)
    requires Partition(rows, ks, mk, cmp, Placer(column, false)).Ok?
    ensures var out := Partition(rows, ks, mk, cmp, Placer(column, false)).value;
            forall j, t ::
              (0 <= j < |out| && out[j].1.VArr? && 0 <= t < |out[j].1.entries| && out[j].1.entries[t].1.VArr?)
              ==> !HasKey(out[j].1.entries[t].1.entries, column)
  {
    var out := Partition(rows, ks, mk, cmp, Placer(column, false)).value;
    PartitionContents(rows, ks, mk, cmp, Placer(column, false));
    forall j, t | 0 <= j < |out| && out[j].1.VArr? && 0 <= t < |out[j].1.entries| && out[j].1.entries[t].1.VArr?
      ensures !HasKey(out[j].1.entries[t].1.entries, column)
    {
      assert PartitionHolds(out[j], rows, cmp, Placer(column, false));
      PlacedEntryWithout(out[j], rows, cmp, column, t);
    }
  }

  /** One placed row of one partition lacks the column. */
  lemma PlacedEntryWithout(p: (Key, Value), rows: Entries, cmp: Value -> Option<string>, column: Key, t: int)
    requires PartitionHolds(p, rows, cmp, Placer(column, false))
    requires 0 <= t < |p.1.entries| && p.1.entries[t].1.VArr?
    ensures !HasKey(p.1.entries[t].1.entries, column)
  {
    var m := Matching(rows, KeyString(p.0), cmp);
    assert Placer(column, false)(m[t].1) == Some(p.1.entries[t].1);
    assert UnsetColumn(m[t].1, column) == Some(p.1.entries[t].1);
  }

  // Sizes: no row goes to two partitions.

  function Hits(item: Value, keys: seq<string>, cmp: Value -> Option<string>): nat {
    if keys == [] then 0
    else (if cmp(item) == Some(keys[0]) then 1 else 0) + Hits(item, keys[1..], cmp)
  }

  function SumMatching(rows: Entries, keys: seq<string>, cmp: Value -> Option<string>): nat {
    if keys == [] then 0
    else |Matching(rows, keys[0], cmp)| + SumMatching(rows, keys[1..], cmp)
  }

  lemma {:induction false} HitsAbsent(item: Value, keys: seq<string>, cmp: Value -> Option<string>)
    requires forall i :: 0 <= i < |keys| ==> cmp(item) != Some(keys[i])
    ensures Hits(item, keys, cmp) == 0
  {
    if keys != [] {
      assert forall i :: 1 <= i < |keys| ==> keys[i] == keys[1..][i - 1];
      HitsAbsent(item, keys[1..], cmp);
    }
  }

  /** A row matches at most one of a list of distinct keys. */
  lemma {:induction false} HitsAtMostOne(item: Value, keys: seq<string>, cmp: Value -> Option<string>)
    requires Distinct(keys)
    ensures Hits(item, keys, cmp) <= 1
  {
    if keys != [] {
      if cmp(item) == Some(keys[0]) {
        HitsAbsent(item, keys[1..], cmp);
      } else {
        HitsAtMostOne(item, keys[1..], cmp);
      }
    }
  }

  lemma {:induction false} SumSplit(rows: Entries, keys: seq<string>, cmp: Value -> Option<string>)
    requires rows != []
    ensures SumMatching(rows, keys, cmp) == Hits(rows[0].1, keys, cmp) + SumMatching(rows[1..], keys, cmp)
  {
    if keys != [] {
      SumSplit(rows, keys[1..], cmp);
    }
  }

  lemma {:induction false} SumEmpty(keys: seq<string>, cmp: Value -> Option<string>)
    ensures SumMatching([], keys, cmp) == 0
  {
    if keys != [] {
      SumEmpty(keys[1..], cmp);
    }
  }

  /** Partitions for distinct keys hold, together, no more rows than the input. */
  lemma {:induction false} SumMatchingBound(rows: Entries, keys: seq<string>, cmp: Value -> Option<string>)
    requires Distinct(keys)
    ensures SumMatching(rows, keys, cmp) <= |rows|
    decreases |rows|
  {
    if rows == [] {
      SumEmpty(keys, cmp);
    } else {
      SumSplit(rows, keys, cmp);
      HitsAtMostOne(rows[0].1, keys, cmp);
      SumMatchingBound(rows[1..], keys, cmp);
    }
  }

  function SumSizes(out: Entries): nat {
    if out == [] then 0
    else (if out[0].1.VArr? then |out[0].1.entries| else 0) + SumSizes(out[1..])
  }

  function KeyStrings(out: Entries): (ks: seq<string>)
    ensures |ks| == |out| && forall j :: 0 <= j < |out| ==> ks[j] == KeyString(out[j].0)
  {
    seq(|out|, j requires 0 <= j < |out| => KeyString(out[j].0))
  }

  lemma {:induction false} SumSizesMatching(out: Entries, rows: Entries, cmp: Value -> Option<string>,
                                            place: Value -> Option<Value>)
    requires forall j :: 0 <= j < |out| ==> PartitionHolds(out[j], rows, cmp, place)
    ensures SumSizes(out) == SumMatching(rows, KeyStrings(out), cmp)
  {
    if out != [] {
      assert forall j :: 1 <= j < |out| ==> out[j] == out[1..][j - 1];
      assert PartitionHolds(out[0], rows, cmp, place);
      SumSizesMatching(out[1..], rows, cmp, place);
      assert KeyStrings(out)[1..] == KeyStrings(out[1..]);
    }
  }

  /** No row lands in two partitions: together the partitions hold at most as many rows
      as the input (when keys are strings, as `splitByKey` forms them). */
  lemma PartitionSizes(rows: Entries, ks: Entries, mk: ((Key, Value)) -> Result<Key>,
                       cmp: Value -> Option<string>, place: Value -> Option<Value>)
    requires Partition(rows, ks, mk, cmp, place).Ok?
    requires forall j :: 0 <= j < |ks| && mk(ks[j]).Ok? ==> mk(ks[j]).value.StrKey?
    ensures SumSizes(Partition(rows, ks, mk, cmp, place).value) <= |rows|
  {
    var out := Partition(rows, ks, mk, cmp, place).value;
    PartitionContents(rows, ks, mk, cmp, place);
    PartitionFromKeys(rows, ks, mk, cmp, place);
    SumSizesMatching(out, rows, cmp, place);
    var names := KeyStrings(out);
    forall i | 0 <= i < |out| ensures out[i].0.StrKey? {
      var j :| 0 <= j < |ks| && mk(ks[j]) == Ok(out[i].0);
    }
    forall a, b | 0 <= a < b < |names| ensures names[a] != names[b] {
      assert out[a].0 != out[b].0;
    }
    SumMatchingBound(rows, names, cmp);
  }
}
