/** The `Leaderboard` class: a list of `(gap, name)` tuples kept sorted, with
    a dictionary from each name to its gap beside it. Upserting a driver
    removes its old tuple (found with `bisect_left`) and `insort`s the new
    one; a driver's rank is the `bisect_left` position of its tuple plus one;
    the top k are the first k tuples, numbered from 1. */
module LeaderboardCore {
  import opened Ordering
  import opened Bisect

  datatype Option<T> = None | Some(value: T)

  /** One row of `top_k`: the tuple `(rank, name, gap)`. */
  datatype Ranked = Ranked(rank: nat, name: string, gap: real)

  /** No name occurs in two entries of the list. */
  predicate UniqueNames(s: seq<Entry>)
  {
    forall i, j :: 0 <= i < j < |s| ==> s[i].name != s[j].name
  }

  /** The invariant tying the list `d` to the dictionary `m`: the list is
      sorted, its names are distinct, every tuple in it carries its name's
      gap from the dictionary, and every name in the dictionary has its tuple
      in the list. */
  predicate Consistent(d: seq<Entry>, m: map<string, real>)
  {
    && Sorted(d)
    && UniqueNames(d)
    && (forall e :: e in d ==> e.name in m && m[e.name] == e.gap)
    && (forall n :: n in m ==> Entry(m[n], n) in d)
  }

  /** The list with every tuple of driver `name` taken out. */
  function Without(s: seq<Entry>, name: string): (r: seq<Entry>)
    ensures |r| <= |s|
  {
    if s == [] then []
    else if s[0].name == name then Without(s[1..], name)
    else [s[0]] + Without(s[1..], name)
  }

  /** `Without` keeps exactly the tuples of the other drivers. */
  lemma {:induction false} WithoutEntries(s: seq<Entry>, name: string)
    ensures forall e :: e in Without(s, name) <==> e in s && e.name != name
  {
    if s != [] {
      WithoutEntries(s[1..], name);
      assert s == [s[0]] + s[1..];
    }
  }

  /** What `update(name, gap)` turns the list `d` into: the old tuple of
      `name` taken out and `(gap, name)` inserted at its sorted position. */
  function Upserted(d: seq<Entry>, name: string, gap: real): (r: seq<Entry>)
    ensures forall e :: e in r <==> e == Entry(gap, name) || (e in d && e.name != name)
  {
    WithoutEntries(d, name);
    InsertedEntries(Without(d, name), Entry(gap, name));
    Inserted(Without(d, name), Entry(gap, name))
  }

  lemma {:induction false} WithoutAbsent(s: seq<Entry>, name: string)
    requires forall e :: e in s ==> e.name != name
    ensures Without(s, name) == s
  {
    if s != [] {
      assert s[0] in s;
      WithoutAbsent(s[1..], name);
      assert s == [s[0]] + s[1..];
    }
  }

  /** In a list with distinct names, taking out the tuples of the name found
      at index `j` is popping index `j`. */
  lemma {:induction false} WithoutAt(s: seq<Entry>, j: nat)
    requires UniqueNames(s)
    requires j < |s|
    ensures Without(s, s[j].name) == s[..j] + s[j + 1..]
  {
    if j == 0 {
      forall e | e in s[1..]
        ensures e.name != s[0].name
      {
        var k :| 0 <= k < |s[1..]| && s[1..][k] == e;
        assert s[k + 1] == e;
      }
      WithoutAbsent(s[1..], s[0].name);
    } else {
      assert s[0].name != s[j].name;
      assert s[1..][j - 1] == s[j];
      WithoutAt(s[1..], j - 1);
      assert s[..j] + s[j + 1..] == [s[0]] + (s[1..][..j - 1] + s[1..][j..]);
    }
  }

  lemma {:induction false} WithoutSorted(s: seq<Entry>, name: string)
    requires Sorted(s)
    ensures Sorted(Without(s, name))
  {
    if s != [] {
      WithoutSorted(s[1..], name);
      WithoutEntries(s[1..], name);
      var t := Without(s[1..], name);
      forall j | 0 <= j < |t|
        ensures !Less(t[j], s[0])
      {
        assert t[j] in s[1..];
      }
    }
  }

  lemma {:induction false} WithoutUnique(s: seq<Entry>, name: string)
    requires UniqueNames(s)
    ensures UniqueNames(Without(s, name))
  {
    if s != [] {
      WithoutUnique(s[1..], name);
      WithoutEntries(s[1..], name);
      var t := Without(s[1..], name);
      forall j | 0 <= j < |t|
        ensures t[j].name != s[0].name
      {
        assert t[j] in s[1..];
      }
    }
  }

  /** Inserting a tuple whose name is not yet in the list keeps the names
      distinct. */
  lemma {:induction false} InsertedUnique(s: seq<Entry>, x: Entry)
    requires UniqueNames(s)
    requires forall e :: e in s ==> e.name != x.name
    ensures UniqueNames(Inserted(s, x))
  {
    if s != [] && !Less(x, s[0]) {
      assert s[0] in s;
      InsertedUnique(s[1..], x);
      var t := Inserted(s[1..], x);
      InsertedEntries(s[1..], x);
      forall j | 0 <= j < |t|
        ensures t[j].name != s[0].name
      {
        assert t[j] in multiset(t);
        if t[j] != x {
          assert t[j] in s[1..];
        }
      }
    }
  }

  /** Sorted with distinct names means strictly ascending. */
  lemma StrictlyAscending(d: seq<Entry>, i: nat, j: nat)
    requires Sorted(d) && UniqueNames(d)
    requires i < j < |d|
    ensures Less(d[i], d[j])
  {
    LessTotal(d[i], d[j]);
  }

  /** In a board kept in order, the driver at index `i` has exactly `i`
      tuples below its own, so its rank is `i + 1`: the numbering `top_k`
      gives agrees with `get_rank`. */
  lemma RankOfPosition(d: seq<Entry>, i: nat)
    requires Sorted(d) && UniqueNames(d)
    requires i < |d|
    ensures CountLess(d, d[i]) == i
  {
    forall j | 0 <= j < i
      ensures Less(d[j], d[i])
    {
      StrictlyAscending(d, j, i);
    }
    forall j | i <= j < |d|
      ensures !Less(d[j], d[i])
    {
      if j == i {
        LessIrreflexive(d[i]);
      } else {
        StrictlyAscending(d, i, j);
        LessAsymmetric(d[i], d[j]);
      }
    }
    CountLessAtBoundary(d, d[i], i);
  }

  /** Where `bisect_left` lands when looking up a driver's own tuple: at the
      index of that tuple. */
  lemma LocateEntry(d: seq<Entry>, m: map<string, real>, name: string, k: nat)
    requires Consistent(d, m)
    requires name in m
    requires k <= |d|
    requires forall i :: 0 <= i < k ==> Less(d[i], Entry(m[name], name))
    requires forall i :: k <= i < |d| ==> !Less(d[i], Entry(m[name], name))
    ensures k < |d| && d[k] == Entry(m[name], name)
  {
    var x := Entry(m[name], name);
    var j :| 0 <= j < |d| && d[j] == x;
    LessIrreflexive(x);
    if k < j {
      StrictlyAscending(d, k, j);
    }
  }

  /** The list and the dictionary stay in step under `update`. */
  lemma UpsertConsistent(d: seq<Entry>, m: map<string, real>, name: string, gap: real)
    requires Consistent(d, m)
    ensures Consistent(Upserted(d, name, gap), m[name := gap])
  {
    var s := Without(d, name);
    var x := Entry(gap, name);
    WithoutSorted(d, name);
    WithoutUnique(d, name);
    WithoutEntries(d, name);
    InsertedSorted(s, x);
    InsertedUnique(s, x);
    var m' := m[name := gap];
    forall n | n in m'
      ensures Entry(m'[n], n) in Upserted(d, name, gap)
    {
      if n != name {
        assert Entry(m[n], n) in d;
      }
    }
  }

  /** The list and the dictionary stay in step when a driver is removed. */
  lemma RemoveConsistent(d: seq<Entry>, m: map<string, real>, name: string)
    requires Consistent(d, m)
    ensures Consistent(Without(d, name), m - {name})
  {
    WithoutEntries(d, name);
    WithoutSorted(d, name);
    WithoutUnique(d, name);
    var m' := m - {name};
    forall n | n in m'
      ensures Entry(m'[n], n) in Without(d, name)
    {
      assert Entry(m[n], n) in d;
    }
  }

  /** `update` on a new name adds one tuple; on a known name it keeps the
      length, since exactly the old tuple is popped. */
  lemma UpsertLength(d: seq<Entry>, m: map<string, real>, name: string, gap: real)
    requires Consistent(d, m)
    ensures |Upserted(d, name, gap)| == if name in m then |d| else |d| + 1
  {
    if name in m {
      var j :| 0 <= j < |d| && d[j] == Entry(m[name], name);
      WithoutAt(d, j);
    } else {
      WithoutAbsent(d, name);
    }
  }

  /** Upserting a driver with the gap it already has changes nothing. */
  lemma UpsertSameGap(d: seq<Entry>, m: map<string, real>, name: string)
    requires Consistent(d, m)
    requires name in m
    ensures Upserted(d, name, m[name]) == d
  {
    var j :| 0 <= j < |d| && d[j] == Entry(m[name], name);
    WithoutAt(d, j);
    ReinsertAt(d, j);
  }

  /** Putting back the tuple popped from index `j` of a strictly ascending
      list puts it back at index `j`. */
  lemma ReinsertAt(d: seq<Entry>, j: nat)
    requires Sorted(d) && UniqueNames(d)
    requires j < |d|
    ensures Inserted(d[..j] + d[j + 1..], d[j]) == d
  {
    if j + 1 < |d| {
      StrictlyAscending(d, j, j + 1);
    }
    InsertedSplit(d[..j], d[j + 1..], d[j]);
    assert d[..j] + [d[j]] + d[j + 1..] == d;
  }

  /** Removing a tuple just inserted under a fresh name restores the list. */
  lemma {:induction false} WithoutInserted(s: seq<Entry>, x: Entry)
    requires forall e :: e in s ==> e.name != x.name
    ensures Without(Inserted(s, x), x.name) == s
  {
    if s == [] {
    } else if Less(x, s[0]) {
      WithoutAbsent(s, x.name);
    } else {
      assert s[0] in s;
      WithoutInserted(s[1..], x);
      assert s == [s[0]] + s[1..];
    }
  }

  /** Removing a driver after updating it leaves what removing it would have
      left before the update. */
  lemma RemoveAfterUpsert(d: seq<Entry>, name: string, gap: real)
    ensures Without(Upserted(d, name, gap), name) == Without(d, name)
  {
    WithoutEntries(d, name);
    WithoutInserted(Without(d, name), Entry(gap, name));
  }

  /** Two lists with the same tuples are either both empty or both not. */
  lemma SameMembersBothEmpty(a: seq<Entry>, b: seq<Entry>)
    requires forall e :: e in a <==> e in b
    ensures a == [] <==> b == []
  {
    if a != [] {
      assert a[0] in b;
    }
    if b != [] {
      assert b[0] in a;
    }
  }

  /** Two strictly ascending lists with the same tuples are the same list. */
  lemma {:induction false} AscendingUnique(a: seq<Entry>, b: seq<Entry>)
    requires Sorted(a) && UniqueNames(a) && Sorted(b) && UniqueNames(b)
    requires forall e :: e in a <==> e in b
    ensures a == b
  {
    SameMembersBothEmpty(a, b);
    if a != [] && b != [] {
      assert a[0] in b && b[0] in a;
      if a[0] != b[0] {
        var i :| 0 < i < |a| && a[i] == b[0];
        StrictlyAscending(a, 0, i);
        assert false;
      }
      forall e
        ensures e in a[1..] <==> e in b[1..]
      {
        if e in a[1..] {
          var i :| 0 < i < |a| && a[i] == e;
          StrictlyAscending(a, 0, i);
          LessIrreflexive(e);
          assert e in b;
          assert e != b[0];
        }
        if e in b[1..] {
          var j :| 0 < j < |b| && b[j] == e;
          StrictlyAscending(b, 0, j);
          LessIrreflexive(e);
          assert e in a;
          assert e != a[0];
        }
      }
      AscendingUnique(a[1..], b[1..]);
      assert a == [a[0]] + a[1..] && b == [b[0]] + b[1..];
    }
  }

  /** The dictionary determines the list: two consistent lists for the same
      dictionary are equal. */
  lemma ListDeterminedByMap(d1: seq<Entry>, d2: seq<Entry>, m: map<string, real>)
    requires Consistent(d1, m) && Consistent(d2, m)
    ensures d1 == d2
  {
    forall e
      ensures e in d1 <==> e in d2
    {
      if e in d1 {
        assert Entry(m[e.name], e.name) in d2;
      }
      if e in d2 {
        assert Entry(m[e.name], e.name) in d1;
      }
    }
    AscendingUnique(d1, d2);
  }

  /** The first index at which `e` occurs in `s`, found by scanning from the
      front, or `None` when it does not occur. */
  method Scan(s: seq<Entry>, e: Entry) returns (idx: Option<nat>)
    ensures idx.Some? ==> idx.value < |s| && s[idx.value] == e && e !in s[..idx.value]
    ensures idx.None? <==> e !in s
  {
    for i := 0 to |s|
      invariant e !in s[..i]
    {
      if s[i].name == e.name && s[i].gap == e.gap {
        return Some(i);
      }
    }
    return None;
  }

  class Leaderboard {
    /** The `(gap, name)` tuples, ascending. */
    var drivers: seq<Entry>
    /** Each driver's current gap. */
    var driverMap: map<string, real>

    ghost predicate Valid()
      reads this
    {
      Consistent(drivers, driverMap)
    }

    constructor ()
      ensures Valid()
      ensures drivers == [] && driverMap == map[]
    {
      drivers := [];
      driverMap := map[];
    }

    /** Set driver `name`'s gap, adding the driver if it is new. */
    method Update(name: string, gap: real)
      requires Valid()
      modifies this
      ensures Valid()
      ensures driverMap == old(driverMap)[name := gap]
      ensures drivers == Upserted(old(drivers), name, gap)
      ensures |drivers| == if name in old(driverMap) then |old(drivers)| else |old(drivers)| + 1
      ensures forall e :: e in drivers && e.name == name ==> e == Entry(gap, name)
      ensures Entry(gap, name) in drivers
      ensures forall e: Entry :: e.name != name ==> (e in drivers <==> e in old(drivers))
    {
      ghost var d, m := drivers, driverMap;
      if name in driverMap {
        var oldGap := driverMap[name];
        var idx := BisectLeft(drivers, Entry(oldGap, name));
        LocateEntry(drivers, driverMap, name, idx);
        WithoutAt(drivers, idx);
        drivers := drivers[..idx] + drivers[idx + 1..];
      } else {
        WithoutAbsent(drivers, name);
      }
      WithoutSorted(d, name);
      drivers := Insort(drivers, Entry(gap, name));
      driverMap := driverMap[name := gap];
      UpsertConsistent(d, m, name, gap);
      UpsertLength(d, m, name, gap);
    }

    /** Driver `name`'s 1-based rank, or `None` when there is no such
        driver. The rank is one more than the number of tuples smaller than
        the driver's own, which is where that tuple sits in the list. */
    method GetRank(name: string) returns (rank: Option<nat>)
      requires Valid()
      ensures name !in driverMap ==> rank == None
      ensures name in driverMap ==>
        rank == Some(CountLess(drivers, Entry(driverMap[name], name)) + 1)
      ensures rank.Some? ==>
        1 <= rank.value <= |drivers| && drivers[rank.value - 1] == Entry(driverMap[name], name)
    {
      if name !in driverMap {
        return None;
      }
      var gap := driverMap[name];
      var idx := BisectLeft(drivers, Entry(gap, name));
      LocateEntry(drivers, driverMap, name, idx);
      return Some(idx + 1);
    }

    /** The first `k` tuples (all of them when there are fewer), each as
        `(rank, name, gap)` with ranks counted from 1. */
    method TopK(k: nat) returns (result: seq<Ranked>)
      ensures |result| == if k < |drivers| then k else |drivers|
      ensures forall i :: 0 <= i < |result| ==>
        result[i] == Ranked(i + 1, drivers[i].name, drivers[i].gap)
    {
      var top := if k < |drivers| then drivers[..k] else drivers;
      result := [];
      for i := 0 to |top|
        invariant |result| == i
        invariant forall j :: 0 <= j < i ==> result[j] == Ranked(j + 1, top[j].name, top[j].gap)
      {
        result := result + [Ranked(i + 1, top[i].name, top[i].gap)];
      }
    }

    /** Take driver `name` off the board: look its tuple up by a linear scan
        for `(gap, name)`, pop it and delete the dictionary entry. Answers
        whether a driver was removed; a driver that is not on the board is
        reported and nothing changes. */
    method Remove(name: string) returns (removed: bool)
      requires Valid()
      modifies this
      ensures Valid()
      ensures removed == (name in old(driverMap))
      ensures driverMap == old(driverMap) - {name}
      ensures drivers == Without(old(drivers), name)
      ensures name !in old(driverMap) ==> drivers == old(drivers)
    {
      ghost var d, m := drivers, driverMap;
      RemoveConsistent(d, m, name);
      if name !in driverMap {
        WithoutAbsent(d, name);
        return false;
      }
      var gap := driverMap[name];
      var idx := Scan(drivers, Entry(gap, name));
      if idx.Some? {
        var i := idx.value;
        WithoutAt(d, i);
        drivers := drivers[..i] + drivers[i + 1..];
        driverMap := driverMap - {name};
        removed := true;
      } else {
        // The dictionary's tuple is always in the list, so the scan finds it.
        assert false;
        removed := false;
      }
    }

    /** Empty the board: both the list and the dictionary. */
    method Clear()
      modifies this
      ensures Valid()
      ensures drivers == [] && driverMap == map[]
    {
      drivers := [];
      driverMap := map[];
    }
  }
}
