/**
 * Sorters: sorting the rows of a table by one column (`multiArrSort`) and sorting an
 * array and every array nested in it (`recursiveSort`).
 *
 * PHP's `<=>` on column values and the order a `SORT_*` flag selects for `sort`,
 * `rsort`, `ksort` and `krsort` are parameters: `le(a, b)` stands for "`a` sorts no
 * later than `b`".  PHP 8 sorts are stable, which `StableSort.Sort` models.
 */
module Sorters {
  import opened PhpArrays
  import opened PhpCasts
  import opened StableSort

  // ---------------------------------------------------------------------------
  // multiArrSort
  // ---------------------------------------------------------------------------

  /** The comparison `uasort` is given: `$a[$column] <=> $b[$column]`, or
      `$b[$column] <=> $a[$column]` for a descending sort, as "sorts no later than". */
  function RowLe(column: Key, desc: bool, le: (Value, Value) -> bool): ((Key, Value), (Key, Value)) -> bool {
    (x: (Key, Value), y: (Key, Value)) =>
      if desc then le(Column(y.1, column), Column(x.1, column))
      else le(Column(x.1, column), Column(y.1, column))
  }

  lemma RowLePreorder(column: Key, desc: bool, le: (Value, Value) -> bool)
    requires TotalPreorder(le)
    ensures TotalPreorder(RowLe(column, desc, le))
  {
    var f := RowLe(column, desc, le);
    forall x, y ensures f(x, y) || f(y, x) {
      var a, b := Column(x.1, column), Column(y.1, column);
      assert le(a, b) || le(b, a);
    }
    forall x, y, z | f(x, y) && f(y, z) ensures f(x, z) {
      var a, b, c := Column(x.1, column), Column(y.1, column), Column(z.1, column);
      if desc {
        assert le(c, b) && le(b, a);
      } else {
        assert le(a, b) && le(b, c);
      }
    }
  }

  /** `Sorters::multiArrSort`: an empty column name ("" or "0") gives `[]`; otherwise the
      rows are reordered by the column, each row keeping its key. */
  function MultiArrSort(e: Entries, column: string, desc: bool, le: (Value, Value) -> bool): (r: Entries)
    ensures IsEmptyString(column) ==> r == []
    ensures !IsEmptyString(column) ==> multiset(r) == multiset(e)
  {
    if IsEmptyString(column) then [] else Sort(e, RowLe(StrKey(column), desc, le))
  }

  /** The sorted rows are ordered by the column: ascending, or descending when `desc`. */
  lemma MultiArrSortOrdered(e: Entries, column: string, desc: bool, le: (Value, Value) -> bool)
    requires TotalPreorder(le) && !IsEmptyString(column)
    ensures var r := MultiArrSort(e, column, desc, le);
            forall i, j :: 0 <= i < j < |r| ==>
              if desc then le(Column(r[j].1, StrKey(column)), Column(r[i].1, StrKey(column)))
              else le(Column(r[i].1, StrKey(column)), Column(r[j].1, StrKey(column)))
  {
    RowLePreorder(StrKey(column), desc, le);
    SortSorted(e, RowLe(StrKey(column), desc, le));
  }

  /** Stability: rows whose columns compare equal keep their relative order. */
  lemma MultiArrSortStable(e: Entries, column: string, desc: bool, le: (Value, Value) -> bool, x: (Key, Value))
    requires TotalPreorder(le) && !IsEmptyString(column)
    ensures Equivalents(MultiArrSort(e, column, desc, le), x, RowLe(StrKey(column), desc, le))
            == Equivalents(e, x, RowLe(StrKey(column), desc, le))
  {
    RowLePreorder(StrKey(column), desc, le);
    SortStable(e, x, RowLe(StrKey(column), desc, le));
  }

  // ---------------------------------------------------------------------------
  // recursiveSort
  // ---------------------------------------------------------------------------

  /** The order `ksort` (or `krsort` when `desc`) puts entries in. */
  function EntryKeyLe(desc: bool, kle: (Key, Key) -> bool): ((Key, Value), (Key, Value)) -> bool {
    (x: (Key, Value), y: (Key, Value)) => if desc then kle(y.0, x.0) else kle(x.0, y.0)
  }

  /** The order `sort` (or `rsort` when `desc`) puts values in. */
  function ValueLe(desc: bool, vle: (Value, Value) -> bool): (Value, Value) -> bool {
    (a: Value, b: Value) => if desc then vle(b, a) else vle(a, b)
  }

  lemma LevelPreorders(desc: bool, vle: (Value, Value) -> bool, kle: (Key, Key) -> bool)
    requires TotalPreorder(vle) && TotalPreorder(kle)
    ensures TotalPreorder(EntryKeyLe(desc, kle)) && TotalPreorder(ValueLe(desc, vle))
  {
    var f := EntryKeyLe(desc, kle);
    forall x, y ensures f(x, y) || f(y, x) {
      assert kle(x.0, y.0) || kle(y.0, x.0);
    }
    forall x, y, z | f(x, y) && f(y, z) ensures f(x, z) {
      if desc {
        assert kle(z.0, y.0) && kle(y.0, x.0);
      } else {
        assert kle(x.0, y.0) && kle(y.0, z.0);
      }
    }
    var g := ValueLe(desc, vle);
    forall a, b ensures g(a, b) || g(b, a) {
      assert vle(a, b) || vle(b, a);
    }
    forall a, b, c | g(a, b) && g(b, c) ensures g(a, c) {
      if desc {
        assert vle(c, b) && vle(b, a);
      } else {
        assert vle(a, b) && vle(b, c);
      }
    }
  }

  /** One level of `recursiveSort`: `ksort`/`krsort` reorder the entries by key, keeping
      each key with its value; `sort`/`rsort` sort the values and key them 0..n-1. */
  function SortLevel(e: Entries, byKey: bool, desc: bool, vle: (Value, Value) -> bool, kle: (Key, Key) -> bool): (r: Entries)
    ensures byKey ==> multiset(r) == multiset(e)
    ensures !byKey ==> IsList(r) && multiset(ValuesOf(r)) == multiset(ValuesOf(e))
  {
    if byKey then Sort(e, EntryKeyLe(desc, kle))
    else ListOf(Sort(ValuesOf(e), ValueLe(desc, vle)))
  }

  /** What `recursiveSort` leaves in `$array`: every nested array sorted first, then the
      array itself. */
  function DeepSort(e: Entries, byKey: bool, desc: bool, vle: (Value, Value) -> bool, kle: (Key, Key) -> bool): Entries
    decreases VArr(e), 1
  {
    SortLevel(DeepChildren(e, byKey, desc, vle, kle), byKey, desc, vle, kle)
  }

  /** The entries after the `foreach ($array as &$value)` pass: each nested array
      replaced by its deep-sorted self, keys and positions unchanged. */
  function DeepChildren(e: Entries, byKey: bool, desc: bool, vle: (Value, Value) -> bool, kle: (Key, Key) -> bool): (r: Entries)
    ensures |r| == |e|
    ensures forall i :: 0 <= i < |e| ==> r[i] == (e[i].0, DeepChild(e[i].1, byKey, desc, vle, kle))
    decreases VArr(e), 0
  {
    seq(|e|, i requires 0 <= i < |e| => (e[i].0, DeepChild(e[i].1, byKey, desc, vle, kle)))
  }

  function DeepChild(v: Value, byKey: bool, desc: bool, vle: (Value, Value) -> bool, kle: (Key, Key) -> bool): Value
    decreases v, 2
  {
    if v.VArr? then VArr(DeepSort(v.entries, byKey, desc, vle, kle)) else v
  }

  /** `Sorters::recursiveSort`, on the caller's array variable. */
  method RecursiveSort(a: ArrayVar, byKey: bool, desc: bool, vle: (Value, Value) -> bool, kle: (Key, Key) -> bool)
    modifies a
    ensures a.arr == DeepSort(old(a.arr), byKey, desc, vle, kle)
    decreases VArr(a.arr)
  {
    ghost var orig := a.arr;
    var i := 0;
    while i < |a.arr|
      invariant 0 <= i <= |a.arr| == |orig|
      invariant forall j :: 0 <= j < i ==> a.arr[j] == (orig[j].0, DeepChild(orig[j].1, byKey, desc, vle, kle))
      invariant forall j :: i <= j < |orig| ==> a.arr[j] == orig[j]
    {
      var entry := a.arr[i];
      if entry.1.VArr? {
        var child := new ArrayVar(entry.1.entries);
        RecursiveSort(child, byKey, desc, vle, kle);
        a.arr := a.arr[i := (entry.0, VArr(child.arr))];
      }
      i := i + 1;
    }
    assert a.arr == DeepChildren(orig, byKey, desc, vle, kle);
    a.arr := SortLevel(a.arr, byKey, desc, vle, kle);
  }

  /** One level is in the order its sort function leaves it. */
  ghost predicate LevelSorted(e: Entries, byKey: bool, desc: bool, vle: (Value, Value) -> bool, kle: (Key, Key) -> bool) {
    if byKey then Sorted(e, EntryKeyLe(desc, kle))
    else IsList(e) && Sorted(ValuesOf(e), ValueLe(desc, vle))
  }

  /** Every level, at every depth, is sorted. */
  ghost predicate DeepSorted(e: Entries, byKey: bool, desc: bool, vle: (Value, Value) -> bool, kle: (Key, Key) -> bool)
    decreases VArr(e)
  {
    && LevelSorted(e, byKey, desc, vle, kle)
    && forall i :: 0 <= i < |e| && e[i].1.VArr? ==> DeepSorted(e[i].1.entries, byKey, desc, vle, kle)
  }

  /** A value of the sorted level is a value of the level before sorting. */
  lemma SortLevelValues(c: Entries, byKey: bool, desc: bool, vle: (Value, Value) -> bool, kle: (Key, Key) -> bool, i: int)
    requires 0 <= i < |SortLevel(c, byKey, desc, vle, kle)|
    ensures exists j :: 0 <= j < |c| && c[j].1 == SortLevel(c, byKey, desc, vle, kle)[i].1
  {
    var r := SortLevel(c, byKey, desc, vle, kle);
    if byKey {
      assert r[i] in multiset(c);
    } else {
      assert ValuesOf(r)[i] in multiset(ValuesOf(c));
    }
  }

  /** After `recursiveSort`, the array is sorted at every depth. */
  lemma {:induction false} DeepSortSorted(e: Entries, byKey: bool, desc: bool, vle: (Value, Value) -> bool, kle: (Key, Key) -> bool)
    requires TotalPreorder(vle) && TotalPreorder(kle)
    ensures DeepSorted(DeepSort(e, byKey, desc, vle, kle), byKey, desc, vle, kle)
    decreases VArr(e)
  {
    var c := DeepChildren(e, byKey, desc, vle, kle);
    var r := DeepSort(e, byKey, desc, vle, kle);
    LevelPreorders(desc, vle, kle);
    if byKey {
      SortSorted(c, EntryKeyLe(desc, kle));
    } else {
      SortSorted(ValuesOf(c), ValueLe(desc, vle));
    }
    forall i | 0 <= i < |r| && r[i].1.VArr?
      ensures DeepSorted(r[i].1.entries, byKey, desc, vle, kle)
    {
      SortLevelValues(c, byKey, desc, vle, kle, i);
      var j :| 0 <= j < |c| && c[j].1 == r[i].1;
      assert e[j].1.VArr? && e[j].1 < VArr(e);
      DeepSortSorted(e[j].1.entries, byKey, desc, vle, kle);
    }
  }

  lemma ListOfValues(e: Entries)
    requires IsList(e)
    ensures ListOf(ValuesOf(e)) == e
  {
  }

  /** An array already sorted at every depth is left as it is. */
  lemma {:induction false} DeepSortedFixed(e: Entries, byKey: bool, desc: bool, vle: (Value, Value) -> bool, kle: (Key, Key) -> bool)
    requires DeepSorted(e, byKey, desc, vle, kle)
    ensures DeepSort(e, byKey, desc, vle, kle) == e
    decreases VArr(e)
  {
    var c := DeepChildren(e, byKey, desc, vle, kle);
    forall i | 0 <= i < |e| ensures c[i] == e[i] {
      if e[i].1.VArr? {
        assert e[i].1 < VArr(e);
        DeepSortedFixed(e[i].1.entries, byKey, desc, vle, kle);
      }
    }
    assert c == e;
    if byKey {
      SortSortedIsIdentity(e, EntryKeyLe(desc, kle));
    } else {
      SortSortedIsIdentity(ValuesOf(e), ValueLe(desc, vle));
      ListOfValues(e);
    }
  }

  /** `recursiveSort` is idempotent: sorting a second time changes nothing. */
  lemma DeepSortIdempotent(e: Entries, byKey: bool, desc: bool, vle: (Value, Value) -> bool, kle: (Key, Key) -> bool)
    requires TotalPreorder(vle) && TotalPreorder(kle)
    ensures var once := DeepSort(e, byKey, desc, vle, kle);
            DeepSort(once, byKey, desc, vle, kle) == once
  {
    DeepSortSorted(e, byKey, desc, vle, kle);
    DeepSortedFixed(DeepSort(e, byKey, desc, vle, kle), byKey, desc, vle, kle);
  }
}
