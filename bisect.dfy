/** The parts of Python's `bisect` module the leaderboard uses, on lists of
    `(gap, name)` tuples: `bisect_left`, `bisect_right` and `insort` (which
    is `insort_right`). Like the library, each of them assumes the list it is
    given is already sorted. */
module Bisect {
  import opened Ordering

  /** Ascending in Python's sense: no entry is smaller than one before it. */
  predicate Sorted(s: seq<Entry>)
  {
    forall i, j :: 0 <= i < j < |s| ==> !Less(s[j], s[i])
  }

  /** How many entries of `s` are strictly smaller than `x`. */
  function CountLess(s: seq<Entry>, x: Entry): nat
  {
    if s == [] then 0
    else (if Less(s[0], x) then 1 else 0) + CountLess(s[1..], x)
  }

  /** Reference definition of inserting `x` into a sorted list to the right
      of every entry it is not smaller than, written without a search. */
  function Inserted(s: seq<Entry>, x: Entry): (r: seq<Entry>)
    ensures |r| == |s| + 1
  {
    if s == [] then [x]
    else if Less(x, s[0]) then [x] + s
    else [s[0]] + Inserted(s[1..], x)
  }

  /** `Inserted` adds exactly `x` to the entries of `s`. */
  lemma {:induction false} InsertedEntries(s: seq<Entry>, x: Entry)
    ensures multiset(Inserted(s, x)) == multiset(s) + multiset{x}
    ensures forall e :: e in Inserted(s, x) <==> e in s || e == x
  {
    if s != [] && !Less(x, s[0]) {
      InsertedEntries(s[1..], x);
      assert s == [s[0]] + s[1..];
    }
  }

  /** When every entry before index `k` is smaller than `x` and none from
      `k` on is, there are exactly `k` entries smaller than `x`. */
  lemma {:induction false} CountLessAtBoundary(s: seq<Entry>, x: Entry, k: nat)
    requires k <= |s|
    requires forall i :: 0 <= i < k ==> Less(s[i], x)
    requires forall i :: k <= i < |s| ==> !Less(s[i], x)
    ensures CountLess(s, x) == k
  {
    if s != [] {
      CountLessAtBoundary(s[1..], x, if k > 0 then k - 1 else 0);
    }
  }

  /** Splicing `x` between a prefix it is not smaller than and a suffix that
      starts above it is what `Inserted` computes. */
  lemma {:induction false} InsertedSplit(p: seq<Entry>, q: seq<Entry>, x: Entry)
    requires forall i :: 0 <= i < |p| ==> !Less(x, p[i])
    requires q == [] || Less(x, q[0])
    ensures Inserted(p + q, x) == p + [x] + q
  {
    if p == [] {
      assert p + q == q;
    } else {
      assert (p + q)[1..] == p[1..] + q;
      InsertedSplit(p[1..], q, x);
    }
  }

  /** Inserting into a sorted list keeps it sorted. */
  lemma {:induction false} InsertedSorted(s: seq<Entry>, x: Entry)
    requires Sorted(s)
    ensures Sorted(Inserted(s, x))
  {
    var r := Inserted(s, x);
    if s == [] {
    } else if Less(x, s[0]) {
      forall j | 0 < j < |r|
        ensures !Less(r[j], x)
      {
        assert r[j] == s[j - 1];
        if j > 1 {
          LessNotLess(x, s[0], s[j - 1]);
        }
        LessAsymmetric(x, s[j - 1]);
      }
    } else {
      var t := Inserted(s[1..], x);
      InsertedSorted(s[1..], x);
      InsertedEntries(s[1..], x);
      forall j | 0 <= j < |t|
        ensures !Less(t[j], s[0])
      {
        assert t[j] in multiset(t);
        if t[j] != x {
          assert t[j] in s[1..];
        }
      }
    }
  }

  /** Python's `bisect_left(a, x)`: the leftmost position at which `x` could
      be inserted keeping `a` sorted. Everything before it is smaller than
      `x`, nothing from it on is, so it is the number of smaller entries. */
  method BisectLeft(a: seq<Entry>, x: Entry) returns (lo: nat)
    requires Sorted(a)
    ensures lo <= |a|
    ensures forall i :: 0 <= i < lo ==> Less(a[i], x)
    ensures forall i :: lo <= i < |a| ==> !Less(a[i], x)
    ensures lo == CountLess(a, x)
  {
    lo := 0;
    var hi := |a|;
    while lo < hi
      invariant 0 <= lo <= hi <= |a|
      invariant forall i :: 0 <= i < lo ==> Less(a[i], x)
      invariant forall i :: hi <= i < |a| ==> !Less(a[i], x)
    {
      var mid := (lo + hi) / 2;
      if Less(a[mid], x) {
        forall i | lo <= i < mid
          ensures Less(a[i], x)
        {
          NotLessLess(a[i], a[mid], x);
        }
        lo := mid + 1;
      } else {
        forall i | mid < i < hi
          ensures !Less(a[i], x)
        {
          NotLessTransitive(x, a[mid], a[i]);
        }
        hi := mid;
      }
    }
    CountLessAtBoundary(a, x, lo);
  }

  /** Python's `bisect_right(a, x)`: the rightmost position at which `x`
      could be inserted keeping `a` sorted. No entry before it is greater
      than `x`, every entry from it on is. */
  method BisectRight(a: seq<Entry>, x: Entry) returns (lo: nat)
    requires Sorted(a)
    ensures lo <= |a|
    ensures forall i :: 0 <= i < lo ==> !Less(x, a[i])
    ensures forall i :: lo <= i < |a| ==> Less(x, a[i])
  {
    lo := 0;
    var hi := |a|;
    while lo < hi
      invariant 0 <= lo <= hi <= |a|
      invariant forall i :: 0 <= i < lo ==> !Less(x, a[i])
      invariant forall i :: hi <= i < |a| ==> Less(x, a[i])
    {
      var mid := (lo + hi) / 2;
      if Less(x, a[mid]) {
        forall i | mid < i < hi
          ensures Less(x, a[i])
        {
          LessNotLess(x, a[mid], a[i]);
        }
        hi := mid;
      } else {
        forall i | lo <= i < mid
          ensures !Less(x, a[i])
        {
          NotLessTransitive(a[i], a[mid], x);
        }
        lo := mid + 1;
      }
    }
  }

  /** Python's `insort(a, x)`: find the insertion point with `bisect_right`
      and splice `x` in there. The list that results is the reference
      insertion `Inserted(a, x)`, so it is sorted and holds the entries of
      `a` plus `x`. */
  method Insort(a: seq<Entry>, x: Entry) returns (r: seq<Entry>)
    requires Sorted(a)
    ensures r == Inserted(a, x)
    ensures Sorted(r)
    ensures multiset(r) == multiset(a) + multiset{x}
  {
    var i := BisectRight(a, x);
    r := a[..i] + [x] + a[i..];
    assert a[..i] + a[i..] == a;
    InsertedSplit(a[..i], a[i..], x);
    InsertedSorted(a, x);
    InsertedEntries(a, x);
  }
}
