/**
 * The ordering step: a copy of the entry list sorted with a comparator
 * that subtracts the `from` of its two arguments. JavaScript's sort is stable; it is modelled
 * here as insertion sort, which moves an entry in front of its left
 * neighbour exactly when the comparator calls the neighbour greater. When
 * either entry has no `from` the comparator yields NaN, which never calls
 * anything greater, so such pairs are left as they stand.
 */
module EntrySort {
  import opened Wrappers
  import opened Bcc

  /** The comparator puts `a` after `b`: both have `from` and `a`'s is the greater. */
  predicate After(a: Entry, b: Entry) {
    a.from.Some? && b.from.Some? && a.from.value > b.from.value
  }

  predicate AllTimed(s: seq<Entry>) {
    forall i :: 0 <= i < |s| ==> s[i].from.Some?
  }

  /** No entry stands after one the comparator puts later. */
  predicate Sorted(s: seq<Entry>) {
    forall i, j :: 0 <= i < j < |s| ==> !After(s[i], s[j])
  }

  /** Inserts `x` at the end of `s`, moving it left past every greater neighbour. */
  function Insert(s: seq<Entry>, x: Entry): seq<Entry> {
    if s == [] then [x]
    else if After(s[|s| - 1], x) then Insert(s[..|s| - 1], x) + [s[|s| - 1]]
    else s + [x]
  }

  /** A sorted copy of the list, by `from`, stable. */
  function SortByFrom(s: seq<Entry>): seq<Entry> {
    if s == [] then [] else Insert(SortByFrom(s[..|s| - 1]), s[|s| - 1])
  }

  /** The entries whose `from` is `k`, in their order. */
  function WithFrom(s: seq<Entry>, k: Option<int>): seq<Entry> {
    if s == [] then []
    else WithFrom(s[..|s| - 1], k) + (if s[|s| - 1].from == k then [s[|s| - 1]] else [])
  }

  lemma {:induction false} InsertPermutes(s: seq<Entry>, x: Entry)
    ensures multiset(Insert(s, x)) == multiset(s) + multiset{x}
  {
    if s != [] && After(s[|s| - 1], x) {
      InsertPermutes(s[..|s| - 1], x);
      assert s == s[..|s| - 1] + [s[|s| - 1]];
    }
  }

  /** The sort only reorders: the sorted copy holds exactly the entries of the list. */
  lemma {:induction false} SortPermutes(s: seq<Entry>)
    ensures multiset(SortByFrom(s)) == multiset(s)
  {
    if s != [] {
      SortPermutes(s[..|s| - 1]);
      InsertPermutes(SortByFrom(s[..|s| - 1]), s[|s| - 1]);
      assert s == s[..|s| - 1] + [s[|s| - 1]];
    }
  }

  lemma InsertMembers(s: seq<Entry>, x: Entry)
    ensures forall e :: e in Insert(s, x) ==> e in s || e == x
  {
    InsertPermutes(s, x);
    forall e | e in Insert(s, x) ensures e in s || e == x {
      assert e in multiset(Insert(s, x));
    }
  }

  /** Appending an entry no earlier entry is after keeps a sequence sorted. */
  lemma AppendSorted(r: seq<Entry>, y: Entry)
    requires Sorted(r) && forall e :: e in r ==> !After(e, y)
    ensures Sorted(r + [y])
  {
    var t := r + [y];
    forall i, j | 0 <= i < j < |t| ensures !After(t[i], t[j]) {
      if j == |r| { assert t[i] in r; }
    }
  }

  /** In a sorted, timed sequence nothing is after the last entry. */
  lemma LastIsGreatest(init: seq<Entry>, last: Entry)
    requires Sorted(init + [last])
    ensures forall e :: e in init ==> !After(e, last)
  {
    var s := init + [last];
    forall e | e in init ensures !After(e, last) {
      var k :| 0 <= k < |init| && init[k] == e;
      assert s[k] == e && s[|init|] == last;
    }
  }

  lemma {:induction false} InsertKeepsSorted(s: seq<Entry>, x: Entry)
    requires Sorted(s) && AllTimed(s) && x.from.Some?
    ensures Sorted(Insert(s, x)) && AllTimed(Insert(s, x))
  {
    var r := Insert(s, x);
    InsertMembers(s, x);
    if s != [] {
      var init, last := s[..|s| - 1], s[|s| - 1];
      assert s == init + [last];
      LastIsGreatest(init, last);
      if After(last, x) {
        assert Sorted(init) && AllTimed(init);
        InsertKeepsSorted(init, x);
        InsertMembers(init, x);
        AppendSorted(Insert(init, x), last);
      } else {
        forall e | e in s ensures !After(e, x) {
          if e != last {
            assert e in init by {
              var k :| 0 <= k < |s| && s[k] == e;
              assert init[k] == e;
            }
          }
        }
        AppendSorted(s, x);
      }
    }
    forall i | 0 <= i < |r| ensures r[i].from.Some? {
      assert r[i] in r;
    }
  }

  /** When every entry has `from`, the sorted copy is in ascending order of `from`. */
  lemma {:induction false} SortSorts(s: seq<Entry>)
    requires AllTimed(s)
    ensures Sorted(SortByFrom(s)) && AllTimed(SortByFrom(s))
    ensures forall i, j :: 0 <= i < j < |SortByFrom(s)| ==>
      SortByFrom(s)[i].from.value <= SortByFrom(s)[j].from.value
  {
    if s != [] {
      SortSorts(s[..|s| - 1]);
      InsertKeepsSorted(SortByFrom(s[..|s| - 1]), s[|s| - 1]);
    }
  }

  lemma {:induction false} InsertStable(s: seq<Entry>, x: Entry, k: Option<int>)
    ensures WithFrom(Insert(s, x), k) == WithFrom(s, k) + (if x.from == k then [x] else [])
  {
    if s == [] {
      assert WithFrom([x], k) == WithFrom([], k) + (if x.from == k then [x] else []);
    } else {
      var init, last := s[..|s| - 1], s[|s| - 1];
      if After(last, x) {
        InsertStable(init, x, k);
        var r := Insert(init, x) + [last];
        assert r[..|r| - 1] == Insert(init, x);
      } else {
        var r := s + [x];
        assert r[..|r| - 1] == s;
      }
    }
  }

  /**
   * The sort is stable: for every value of `from` (or its absence), the
   * entries carrying it keep their relative order.
   */
  lemma {:induction false} SortStable(s: seq<Entry>, k: Option<int>)
    ensures WithFrom(SortByFrom(s), k) == WithFrom(s, k)
  {
    if s != [] {
      SortStable(s[..|s| - 1], k);
      InsertStable(SortByFrom(s[..|s| - 1]), s[|s| - 1], k);
    }
  }
}
