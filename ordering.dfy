/** The order the leaderboard's list is kept in: Python's comparison of
    `(gap, name)` tuples. A tuple compares by its first component and, when
    those are equal, by its second; strings compare lexicographically by code
    point, a proper prefix coming first. The gap is a Python float that is
    only ever compared, so it is modelled as an exact `real`. */
module Ordering {

  /** One element of the leaderboard's list: the tuple `(gap, name)`. */
  datatype Entry = Entry(gap: real, name: string)

  /** Python's `a < b` on `str`. */
  predicate StrLess(a: string, b: string)
    decreases |a|
  {
    if |a| == 0 then |b| > 0
    else if |b| == 0 then false
    else if a[0] != b[0] then a[0] < b[0]
    else StrLess(a[1..], b[1..])
  }

  /** Python's `a < b` on `(gap, name)` tuples. */
  predicate Less(a: Entry, b: Entry)
  {
    a.gap < b.gap || (a.gap == b.gap && StrLess(a.name, b.name))
  }

  lemma {:induction false} StrLessIrreflexive(a: string)
    ensures !StrLess(a, a)
  {
    if |a| > 0 {
      StrLessIrreflexive(a[1..]);
    }
  }

  lemma {:induction false} StrLessTransitive(a: string, b: string, c: string)
    requires StrLess(a, b) && StrLess(b, c)
    ensures StrLess(a, c)
    decreases |a|
  {
    if |a| > 0 && a[0] == b[0] && b[0] == c[0] {
      StrLessTransitive(a[1..], b[1..], c[1..]);
    }
  }

  lemma {:induction false} StrLessTotal(a: string, b: string)
    requires a != b
    ensures StrLess(a, b) || StrLess(b, a)
    decreases |a|
  {
    if |a| > 0 && |b| > 0 && a[0] == b[0] {
      assert a == [a[0]] + a[1..] && b == [b[0]] + b[1..];
      StrLessTotal(a[1..], b[1..]);
    }
  }

  lemma LessIrreflexive(a: Entry)
    ensures !Less(a, a)
  {
    StrLessIrreflexive(a.name);
  }

  lemma LessTransitive(a: Entry, b: Entry, c: Entry)
    requires Less(a, b) && Less(b, c)
    ensures Less(a, c)
  {
    if a.gap == b.gap == c.gap {
      StrLessTransitive(a.name, b.name, c.name);
    }
  }

  lemma LessAsymmetric(a: Entry, b: Entry)
    requires Less(a, b)
    ensures !Less(b, a)
  {
    if Less(b, a) {
      LessTransitive(a, b, a);
      LessIrreflexive(a);
    }
  }

  /** The tuple order is total: two different tuples are always ordered. */
  lemma LessTotal(a: Entry, b: Entry)
    requires a != b
    ensures Less(a, b) || Less(b, a)
  {
    if a.gap == b.gap {
      StrLessTotal(a.name, b.name);
    }
  }

  /** `a <= b` and `b < c` give `a < c`, with `a <= b` written `!(b < a)`. */
  lemma NotLessLess(a: Entry, b: Entry, c: Entry)
    requires !Less(b, a) && Less(b, c)
    ensures Less(a, c)
  {
    if a != b {
      LessTotal(a, b);
      LessTransitive(a, b, c);
    }
  }

  /** `a < b` and `b <= c` give `a < c`. */
  lemma LessNotLess(a: Entry, b: Entry, c: Entry)
    requires Less(a, b) && !Less(c, b)
    ensures Less(a, c)
  {
    if b != c {
      LessTotal(b, c);
      LessTransitive(a, b, c);
    }
  }

  /** `a <= b` and `b <= c` give `a <= c`. */
  lemma NotLessTransitive(a: Entry, b: Entry, c: Entry)
    requires !Less(b, a) && !Less(c, b)
    ensures !Less(c, a)
  {
    if Less(c, a) {
      LessNotLess(c, a, b);
    }
  }
}
