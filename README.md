# F1 leaderboard, modelled in Dafny

This project models the `Leaderboard` class of a small Formula 1 timing
leaderboard, along with the two list operations its interactive shell
performs directly on that class: removing a driver and clearing the board.

A leaderboard keeps two structures side by side:

- `drivers`, a list of `(gap, name)` tuples kept in ascending order by
  Python's tuple comparison;
- `driver_map`, a dictionary from each driver's name to that driver's
  current gap.

The operations are:

- `update` upserts a driver. If the name is already known, it finds the old
  tuple with `bisect_left` and pops it. It then `insort`s the new tuple and
  records the new gap.
- `get_rank` returns the `bisect_left` position of the driver's tuple plus
  one, or `None` when the driver is unknown.
- `top_k` returns the first `k` tuples as `(rank, name, gap)`, with ranks
  numbered from 1.

The files are:

- `ordering.dfy` (module `Ordering`): the `(gap, name)` entry and Python's `<`
  on tuples and strings. It proves that this order is a strict total order.
- `bisect.dfy` (module `Bisect`): `bisect_left`, `bisect_right` and `insort`
  as binary-search methods with loop invariants. They are proved against a
  reference insertion `Inserted`, which finds its place without searching,
  and against the count of smaller entries, `CountLess`.
- `leaderboard.dfy` (module `LeaderboardCore`): the `Leaderboard` class. Its
  fields `drivers: seq<Entry>` and `driverMap: map<string, real>` are
  reassigned by its methods. It also holds the reference functions `Upserted`
  and `Without`, and the invariant `Consistent`, which says the list is
  sorted, its names are distinct, and the list and dictionary hold the same
  drivers and gaps. The lemmas prove that every operation keeps that
  invariant, and they prove the algebraic facts about the operations.
- `demo.dfy` (module `LeaderboardDemo`): the module's own demonstration.
  Five drivers enter, then VER's gap drops to 11.500. It proves that VER is
  then ranked 2 and that the top three are LEC, VER and SAI.

## Model

| member | source | states |
|---|---|---|
| Ordering.StrLessTransitive | leaderboard_core.py:13 | Python's string `<`, by which names in the list are ordered, is transitive |
| Ordering.StrLessTotal | leaderboard_core.py:13 | two different names are always ordered one way or the other |
| Ordering.LessTotal | leaderboard_core.py:13 | two different `(gap, name)` tuples are always ordered, so the list's order is total |
| Ordering.LessTransitive | leaderboard_core.py:13 | the tuple order is transitive |
| Ordering.LessAsymmetric | leaderboard_core.py:13 | no two tuples are each below the other |
| Bisect.BisectLeft | leaderboard_core.py:21 | on a sorted list, returns the position before which every tuple is smaller than the key and from which none is; that position equals the number of smaller tuples |
| Bisect.BisectRight | leaderboard_core.py:25 | on a sorted list, returns the position before which no tuple is greater than the key and from which every tuple is |
| Bisect.Insort | leaderboard_core.py:25 | splicing the key in at the `bisect_right` position gives the reference insertion; the result is sorted and holds the old tuples plus the key |
| Bisect.InsertedSorted | leaderboard_core.py:24-25 | inserting into a sorted list keeps it sorted |
| Bisect.InsertedEntries | leaderboard_core.py:24-25 | insertion adds exactly the new tuple: the multiset grows by it, and membership is old membership or the new tuple |
| Bisect.InsertedSplit | leaderboard_core.py:25 | placing a tuple between a prefix it is not below and a suffix that starts above it is the reference insertion |
| Bisect.CountLessAtBoundary | leaderboard_core.py:33-34 | a partition point of the list for a key is the number of tuples smaller than the key |
| LeaderboardCore.WithoutEntries | leaderboard_core.py:19-22 | taking a driver out keeps exactly the other drivers' tuples |
| LeaderboardCore.WithoutAt | leaderboard_core.py:22 | when names are distinct, popping index `j` is taking out the driver at `j` |
| LeaderboardCore.WithoutSorted | leaderboard_core.py:22 | taking a driver out keeps the list sorted |
| LeaderboardCore.LocateEntry | leaderboard_core.py:20-22 | in a consistent board, `bisect_left` for a known driver's own tuple lands exactly on that tuple, so the pop removes the right entry |
| LeaderboardCore.UpsertConsistent | leaderboard_core.py:16-26 | after `update`, the list is still sorted with distinct names and agrees with the updated dictionary |
| LeaderboardCore.UpsertLength | leaderboard_core.py:19-25 | `update` keeps the list's length for a known driver and adds one for a new driver |
| LeaderboardCore.UpsertSameGap | leaderboard_core.py:16-26 | updating a driver with the gap it already has leaves the list unchanged |
| LeaderboardCore.RankOfPosition | leaderboard_core.py:33-34 | in a consistent board, the driver at index `i` has exactly `i` smaller tuples, so `top_k`'s numbering agrees with `get_rank` |
| LeaderboardCore.ListDeterminedByMap | leaderboard_core.py:13-14 | the dictionary alone determines the list: two consistent lists for one dictionary are equal |
| LeaderboardCore.AscendingUnique | leaderboard_core.py:13 | two strictly ascending lists with the same tuples are equal |
| LeaderboardCore.Leaderboard.constructor | leaderboard_core.py:12-14 | a new board has an empty list and an empty dictionary, and is consistent |
| LeaderboardCore.Leaderboard.Update | leaderboard_core.py:16-26 | keeps the board consistent; the dictionary maps `name` to the new gap; the list becomes the old list with `name`'s tuple replaced by `(gap, name)` at its sorted place; other drivers' tuples are untouched; the length grows by one only for a new driver |
| LeaderboardCore.Leaderboard.GetRank | leaderboard_core.py:28-34 | `None` exactly when the driver is unknown; otherwise one plus the number of smaller tuples, and the driver's tuple sits at index rank - 1 |
| LeaderboardCore.Leaderboard.TopK | leaderboard_core.py:36-41 | returns `min(k, n)` rows; row `i` is `(i + 1, name, gap)` of the `i`-th tuple |
| LeaderboardCore.Scan | leaderboard_userdriven.py:143-148 | the linear search returns the first index holding `(gap, name)` and finds nothing exactly when the tuple is absent |
| LeaderboardCore.RemoveConsistent | leaderboard_userdriven.py:150-152 | popping a driver's tuple and deleting its dictionary key keeps the board consistent |
| LeaderboardCore.Leaderboard.Remove | leaderboard_userdriven.py:133-155 | an unknown driver is reported and nothing changes; a known driver's tuple and key are removed; the board stays consistent |
| LeaderboardCore.RemoveAfterUpsert | leaderboard_userdriven.py:150-152 | removing a driver after updating it leaves what removing it before the update would have left |
| LeaderboardCore.Leaderboard.Clear | leaderboard_userdriven.py:210-211 | empties both the list and the dictionary, leaving a consistent board |
| LeaderboardDemo.EnterAll | leaderboard_core.py:58-68 | entering drivers with ascending gaps and distinct codes, one after another, leaves them on the board in that order |
| LeaderboardDemo.Overtaken | leaderboard_core.py:72 | after VER's update to 11.500, the board reads LEC, VER, SAI, PER, BOT |
| LeaderboardDemo.Race | leaderboard_core.py:58-76 | after the overtake, VER's rank is 2 and the top three are LEC 0.0, VER 11.500, SAI 11.850, for any five distinct codes; `Overtake` applies it to the demonstration's codes "LEC", "SAI", "VER", "PER", "BOT" |

## Left out

- `display` and all the printing in the demonstration and the shell are not
  modelled, because they produce only output.
- The interactive shell's menu, prompts, confirmations, input parsing and
  validation are not modelled, because they are I/O. Only the remove
  (leaderboard_userdriven.py:133-155) and clear
  (leaderboard_userdriven.py:210-211) steps, which act on the class's
  fields, are modelled.
- Gaps are Python floats. They are modelled as exact `real` numbers, because
  the code only compares and stores them. NaN, which would break the list's
  order, is not modelled.
- The complexity claims in the class docstring (O(log n) update) are not
  modelled. A Python list pop or insert is linear anyway.
- Leaderboard.TopK: `k` is a `nat`. Python's slicing with a negative `k`
  (which drops drivers from the end) is not modelled.
- Leaderboard.Update and Leaderboard.Remove: the list is a `seq` field that
  each method reassigns, rather than a Python list mutated in place.
  Aliasing of that list by other code is therefore not modelled.
- Leaderboard.Remove: the branch that prints "Error removing driver"
  (leaderboard_userdriven.py:154-155) is proved unreachable, because a known
  driver's tuple is always on the list. The model therefore leaves the board
  unchanged in that branch without reporting anything.
- Bisect.BisectLeft, Bisect.BisectRight and Bisect.Insort require a sorted
  list, as the Python library documents. On an unsorted list, their results
  are not modelled.
- Leaderboard.Update, Leaderboard.GetRank and Leaderboard.Remove require the
  board's invariant `Valid()`. Every constructor and method establishes it,
  but Python code that edits `drivers` or `driver_map` directly from outside
  the class could break it.
