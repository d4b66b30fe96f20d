/** The race the leaderboard's own demonstration runs: five drivers enter,
    then VER passes SAI. What it prints is left out; what it looks up is
    proved here from the contracts of `Leaderboard` alone. The gaps are the
    demonstration's; the driver codes only need to be distinct, so the race
    is first stated for any five distinct codes and then for the real ones. */
module LeaderboardDemo {
  import opened Ordering
  import opened Bisect
  import opened LeaderboardCore

  /** A driver entering behind everyone already on the board is appended. */
  lemma EnterLast(s: seq<Entry>, x: Entry)
    requires forall e :: e in s ==> e.name != x.name && e.gap < x.gap
    ensures Upserted(s, x.name, x.gap) == s + [x]
  {
    WithoutAbsent(s, x.name);
    InsertedSplit(s, [], x);
    assert s + [] == s;
  }

  /** Enter the drivers of `grid` one after another, as the demonstration's
      loop does. When the gaps ascend and the codes are distinct, each new
      driver lands at the back and the board ends up holding `grid`. */
  method EnterAll(grid: seq<Entry>) returns (lb: Leaderboard)
    requires forall i, j :: 0 <= i < j < |grid| ==> grid[i].gap < grid[j].gap && grid[i].name != grid[j].name
    ensures fresh(lb) && lb.Valid()
    ensures lb.drivers == grid
  {
    lb := new Leaderboard();
    for i := 0 to |grid|
      invariant lb.Valid()
      invariant lb.drivers == grid[..i]
    {
      EnterLast(grid[..i], grid[i]);
      lb.Update(grid[i].name, grid[i].gap);
      assert grid[..i + 1] == grid[..i] + [grid[i]];
    }
  }

  /** The five driver codes are pairwise different. */
  predicate Distinct(lec: string, sai: string, ver: string, per: string, bot: string)
  {
    && lec != sai && lec != ver && lec != per && lec != bot
    && sai != ver && sai != per && sai != bot
    && ver != per && ver != bot && per != bot
  }

  /** The first half of VER's update to 11.500: its old tuple is popped
      from third place. */
  lemma VerTakenOut(lec: string, sai: string, ver: string, per: string, bot: string)
    requires Distinct(lec, sai, ver, per, bot)
    ensures Without([Entry(0.0, lec), Entry(11.850, sai), Entry(12.252, ver),
                     Entry(14.777, per), Entry(16.347, bot)], ver)
         == [Entry(0.0, lec), Entry(11.850, sai), Entry(14.777, per), Entry(16.347, bot)]
  {
    var s := [Entry(0.0, lec), Entry(11.850, sai), Entry(12.252, ver),
              Entry(14.777, per), Entry(16.347, bot)];
    WithoutAt(s, 2);
    assert s[..2] + s[3..] == [Entry(0.0, lec), Entry(11.850, sai), Entry(14.777, per), Entry(16.347, bot)];
  }

  /** The second half: its new tuple is inserted between LEC's and SAI's. */
  lemma VerPutBack(lec: string, sai: string, ver: string, per: string, bot: string)
    ensures Inserted([Entry(0.0, lec), Entry(11.850, sai), Entry(14.777, per), Entry(16.347, bot)],
                     Entry(11.500, ver))
         == [Entry(0.0, lec), Entry(11.500, ver), Entry(11.850, sai),
             Entry(14.777, per), Entry(16.347, bot)]
  {
  }

  /** After the overtake exactly one tuple is below VER's. */
  lemma VerSecond(lec: string, sai: string, ver: string, per: string, bot: string)
    ensures CountLess([Entry(0.0, lec), Entry(11.500, ver), Entry(11.850, sai),
                       Entry(14.777, per), Entry(16.347, bot)], Entry(11.500, ver)) == 1
  {
    LessIrreflexive(Entry(11.500, ver));
    CountLessAtBoundary([Entry(0.0, lec), Entry(11.500, ver), Entry(11.850, sai),
                         Entry(14.777, per), Entry(16.347, bot)], Entry(11.500, ver), 1);
  }

  /** The first part of the race for any five distinct codes: the five
      drivers enter and VER passes SAI, leaving VER second on the board. */
  method Overtaken(lec: string, sai: string, ver: string, per: string, bot: string)
    returns (lb: Leaderboard)
    requires Distinct(lec, sai, ver, per, bot)
    ensures fresh(lb) && lb.Valid()
    ensures lb.drivers == [Entry(0.0, lec), Entry(11.500, ver), Entry(11.850, sai),
                           Entry(14.777, per), Entry(16.347, bot)]
    ensures ver in lb.driverMap && lb.driverMap[ver] == 11.500
  {
    lb := EnterAll([Entry(0.0, lec), Entry(11.850, sai), Entry(12.252, ver),
                    Entry(14.777, per), Entry(16.347, bot)]);
    VerTakenOut(lec, sai, ver, per, bot);
    VerPutBack(lec, sai, ver, per, bot);
    lb.Update(ver, 11.500);
  }

  /** The race for any five distinct codes: after VER passes SAI, VER's rank
      is 2 and the top three are LEC, VER and SAI. */
  method Race(lec: string, sai: string, ver: string, per: string, bot: string)
    returns (rank: Option<nat>, top: seq<Ranked>)
    requires Distinct(lec, sai, ver, per, bot)
    ensures rank == Some(2)
    ensures top == [Ranked(1, lec, 0.0), Ranked(2, ver, 11.500), Ranked(3, sai, 11.850)]
  {
    var lb := Overtaken(lec, sai, ver, per, bot);
    VerSecond(lec, sai, ver, per, bot);
    rank := lb.GetRank(ver);
    top := lb.TopK(3);
  }

  /** The demonstration itself. */
  method Overtake()
  {
    assert "LEC"[0] == 'L' && "SAI"[0] == 'S' && "VER"[0] == 'V';
    assert "PER"[0] == 'P' && "BOT"[0] == 'B';
    var rank, top := Race("LEC", "SAI", "VER", "PER", "BOT");
    assert rank == Some(2);
    assert top == [Ranked(1, "LEC", 0.0), Ranked(2, "VER", 11.500), Ranked(3, "SAI", 11.850)];
  }
}
