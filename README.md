# Infections: a verified model of the infection engine

The repository rolls out a feature to a population of users connected by
coach/student relationships. A rollout should "infect" whole classrooms, so that
a coach and a student never see different versions.

- `total_infection` infects the whole connected component of one user.
- `limited_infection` infects a requested number of users, or a number within a
  tolerance of it. It keeps whole components, largest first, while they fit. When
  the kept total misses the tolerance window, it splits the smallest component
  that did not fit. The split uses a Kernighan-Lin style refinement
  (`_split_component`) that looks for few conflicting relationships.
- `user.py` holds the user objects. `add_students` and `add_coaches` keep the
  relation symmetric, and a class-wide registry refuses duplicate uids.

This project models that core in Dafny and proves what it promises.

## Layout

| file | module | models |
|---|---|---|
| wrappers.dfy | `Wrappers` | the `Result` type used for raised errors |
| sets.dfy | `Sets` | cardinality facts about finite sets |
| graph.dfy | `Graphs` | the engine's view of the population: uid → (students, coaches); paths, reachability, components |
| total_infection.dfy | `Traversal` | `total_infection` / `_infect_coaches_students` |
| catalog.dfy | `Catalog` | the component catalog of `limited_infection` and its sort by size |
| conflicts.dfy | `Conflicts` | conflicting relationships, D values and pair gains, and how a swap changes the conflict count |
| refiner.dfy | `Refiner` | `_split_component` with `_get_D_value`, `_toggle_infected`, `_find_max_left_justified_subarray`, `_find_num_conflicts` |
| packer.dfy | `Packer` | `limited_infection`: argument checks, greedy packing, the tolerance window, the split |
| user.dfy | `Users` | `User`, `_make_iterable`, the uid registry, `clear_users` |
| examples.dfy | `SmallExample` | the ten-user graph of the test suite and its expected answers |

### How the source maps onto the model

- **The graph.** The engine walks `User` objects. It reads only each user's uid,
  students and coaches. So the engine is modelled over `Graph = map<int, Node>`,
  a map from each uid to the uids of that user's students and coaches. The
  link to the objects is `Users.Snapshot`. `Users.SnapshotValid` proves that a
  symmetric, closed population with unique uids gives a `Valid` graph.
- **The users.** `User` is a Dafny `class` whose `students` and `coaches` sets
  `AddStudents` and `AddCoaches` update in place. The two methods call each other
  as in the source, and their termination measure is the number of links still
  missing.
- **The traversal.** `_infect_coaches_students` recurses. The model turns the
  recursion into an explicit stack of frames. Each frame is one active call,
  holding the neighbours its `for` loop has not reached yet, so the
  re-check before visiting is kept.
- **Returned values.** `total_infection` returns `User` objects, and
  `limited_infection` maps them to uids straight away. The model returns the set of
  uids.
- **`limited_infection`.** Its parallel lists `comp_uids` and `comp_counts` become
  one sequence of `Component(uids, count)`.
- **`_split_component`.**
  - D values are a `map<int, int>` from uid to D value, in place of the `_d`
    attribute set on each user.
  - The `del user._d` clean-up becomes the error `NoDValue`, returned when some
    user was never scored.
  - The warning after `max_iter` rounds becomes the returned flag `converged`.

## Model

| member | source | states |
|---|---|---|
| Graphs.NeighbourSymmetric | user.py:23-39 | in a graph whose coach/student links are symmetric, being a neighbour (student or coach) is an undirected relation |
| Graphs.ReachableRefl | infections.py:18 | the seed reaches itself, so it is in its own component |
| Graphs.ReachableStep | infections.py:32-39 | a neighbour of a reachable user is reachable: the recursion's step |
| Graphs.ReachableSymmetric | infections.py:32-33 | in a valid graph reachability is symmetric, because the walk follows both relations: a path read backwards is again a path |
| Graphs.ReachableTransitive | infections.py:24-41 | reachability composes: the recursion chains steps |
| Graphs.ClosedSetHoldsReachable | infections.py:24-41 | a set that holds the seed and every neighbour of its members holds everything the seed reaches |
| Graphs.SameComponent | infections.py:99-107 | any member of a component floods the same component, so the seed a component was found from does not matter |
| Graphs.ComponentsEqualOrDisjoint | infections.py:99-107 | two components are equal or disjoint, which is why skipping already-infected uids loses nothing |
| Graphs.ComponentHoldsSeed | infections.py:18 | a user belongs to its own component |
| Traversal.ToVisit | infections.py:32-33 | the set a call iterates over, students, plus the coaches not yet infected, lies within the user's neighbours and, together with the infected set, covers all of them |
| Traversal.ReturnKeeps | infections.py:41 | when a call has nothing left to visit and returns, every infected user's neighbours are still infected or pending in some remaining call |
| Traversal.VisitKeeps | infections.py:32-39 | visiting the next neighbour keeps that property: skipped if already infected (the re-check), otherwise infected and explored by a new call |
| Traversal.ExploredIsComponent | infections.py:13-21 | when no call has work left, an infected set that holds the seed and only reaches from it is exactly the seed's component |
| Traversal.WalkStep | infections.py:32-39 | one step of the walk keeps the walk invariant, never un-infects anyone, and decreases the (uninfected, stack depth, top frame) measure |
| Traversal.TotalInfection | infections.py:13-41 | total_infection returns exactly the seed's connected component, and the seed is in it |
| Catalog.UnionAllPush | infections.py:106-109 | appending a component adds its uids to the union and its count to the total |
| Catalog.UnionAllMember | infections.py:107 | a uid is in the union of the catalog iff it is in one of its entries |
| Catalog.DisjointPairwise | infections.py:99-109 | entries of a disjoint catalog share no uid, for every pair of positions |
| Catalog.DisjointAt | infections.py:99-109 | two different positions of a disjoint catalog share no uid, in either order |
| Catalog.SumCountsIsSize | infections.py:104-109 | for a disjoint catalog whose counts are the entries' sizes, the counts sum to the number of uids covered |
| Catalog.NewComponentDisjoint | infections.py:100-103 | the component of a uid that no entry holds yet shares no uid with any entry |
| Catalog.CatalogStep | infections.py:100-109 | claiming an unclaimed uid appends its component with its size, and the claimed set grows by that component |
| Catalog.SeededAreComponents | infections.py:103-109 | every entry is the component of its seed, with its true size, which is at least 1 |
| Catalog.SeededIsCatalog | infections.py:99-109 | once every uid is claimed, the catalog is disjoint, covers every uid, and its counts are the sizes |
| Catalog.SkipKeeps | infections.py:100-101 | skipping a uid already infected keeps the catalog invariant |
| Catalog.ClaimKeeps | infections.py:103-109 | flooding a new uid keeps the catalog invariant |
| Catalog.BuildCatalog | infections.py:93-109 | the loop returns the components of the graph: pairwise disjoint, union equal to all uids, each count equal to its entry's size and at least 1 |
| Catalog.PrefixKeepsOrder | infections.py:118-122 | a prefix of a list sorted largest first is sorted |
| Catalog.AppendKeepsOrder | infections.py:118-122 | appending an entry no larger than any other keeps a list sorted |
| Catalog.LargerFirst | infections.py:118-122 | in a list sorted largest first, a strictly larger entry comes earlier |
| Catalog.LastIsSmallest | infections.py:118-122 | in a list sorted largest first the last entry is the smallest |
| Catalog.BoundedByLast | infections.py:118-122 | every entry of a rearrangement of the first entries and a larger new one is at least the last entry |
| Catalog.InsertAddsOne | infections.py:118-122 | inserting an entry adds exactly that entry to the multiset of entries |
| Catalog.InsertSorted | infections.py:118-122 | inserting into a sorted list keeps it sorted largest first |
| Catalog.SortBySize | infections.py:118-122 | the argsort-descending reordering: sorted by count largest first, and a permutation of the catalog |
| Catalog.InsertKeepsSums | infections.py:118-122 | inserting keeps the union and the total of counts |
| Catalog.InsertKeepsCounts | infections.py:121-122 | inserting keeps every count equal to its entry's size |
| Catalog.InsertKeepsDisjoint | infections.py:122 | inserting a disjoint entry keeps the catalog disjoint |
| Catalog.SortKeeps | infections.py:118-122 | sorting keeps the union, the total, matching counts and disjointness |
| Conflicts.DValue | infections.py:188-199 | a user's D value: its neighbours on the other side minus its neighbours on its own side (the loop that counts them is `Refiner.GetDValue`) |
| Conflicts.Connected | infections.py:278-280 | `_are_connected(a, b)`: a is a student or a coach of b |
| Conflicts.Gain | infections.py:245-247 | the gain of swapping a and b: `D(a) + D(b) - 2·c(a, b)`, with c(a, b) 1 iff they are connected |
| Conflicts.ConflictCount | infections.py:151-158 | the report's count: every conflicting relationship of a group's users, counted once from each end |
| Conflicts.DValueFromConflicts | infections.py:188-199 | a user's D value is twice its conflicting relationships minus its degree |
| Conflicts.ConnectedSymmetric | infections.py:278-280 | `_are_connected` is symmetric in a valid graph |
| Conflicts.ConflictCountRemove | infections.py:153-156 | the conflict count of a group is one member's conflicts plus the count of the rest, as the report loop sums it |
| Conflicts.ConflictCountBound | infections.py:151-158 | in a group closed under its links, the count over any subgroup is at most its size times the group's size |
| Conflicts.ConflictCountEmpty | infections.py:153 | the count over no users is 0 |
| Conflicts.SwapInside | infections.py:201-207 | swapping an infected and an uninfected user changes the number of infected users in any set by the two users' membership |
| Conflicts.SwapOutside | infections.py:201-207 | the same for the uninfected users in any set |
| Conflicts.VertexDelta | infections.py:245-247 | how swapping a and b changes one user's conflicts |
| Conflicts.GroupDeltasHold | infections.py:245-247 | that per-user change holds for every member of a group closed under its links |
| Conflicts.SwapDeltaStep | infections.py:245-247 | the group's total change is one member's change plus the rest's |
| Conflicts.SwapDeltaSum | infections.py:245-247 | the change in the conflict count is the sum of the members' changes |
| Conflicts.SwapDeltaOfGroup | infections.py:245-247 | that sum is exactly -2 × the pair's gain `D(a) + D(b) - 2·c(a, b)` |
| Conflicts.SwapChangesConflicts | infections.py:240-255 | swapping a and b lowers the conflicting relationships by twice the gain the source computes for them |
| Conflicts.NoGainIsLocalOptimum | infections.py:259-262 | when no pair has a positive gain, no single swap lowers the conflict count |
| Refiner.CountConnections | infections.py:190-195 | the counting loop yields the numbers of infected and of uninfected neighbours |
| Refiner.CountStep | infections.py:192-195 | one counted neighbour raises exactly one of the two counts |
| Refiner.GetDValue | infections.py:188-199 | `_get_D_value` is the user's opposite-side neighbours minus its same-side neighbours |
| Refiner.FindNumConflicts | infections.py:296-308 | `_find_num_conflicts` is the number of the user's neighbours on the other side |
| Refiner.PairGain | infections.py:245-247 | the gain of a pair from the stored D values: `D(a) + D(b) - 2·c(a, b)`; with fresh D values it is `Conflicts.Gain` |
| Refiner.ComputeDValues | infections.py:237-239 | every unlocked user gets its current D value; other scores are kept; no other key appears |
| Refiner.BestPair | infections.py:240-251 | the chosen pair is an unlocked infected and an unlocked uninfected user whose gain is at least that of every other such pair |
| Refiner.MaxLeftJustifiedPrefix | infections.py:283-293 | the result is the shortest prefix length whose sum is maximal, and 0 exactly when no prefix has a positive sum |
| Refiner.ToggleInfected | infections.py:201-207 | a uid ends up infected iff it started infected and was toggled an even number of times |
| Refiner.ToggleSwaps | infections.py:201-207 | toggling an (infected, uninfected) pair swaps the two |
| Refiner.PairsPush | infections.py:252-255 | applying one more pair swaps it, and the pairs stay valid iff the new pair is (infected, uninfected) at that point |
| Refiner.PairsValidPrefix | infections.py:263-265 | a prefix of valid pairs is valid |
| Refiner.PairsKeepSize | infections.py:263-265 | applying valid pairs keeps the infected set's size and keeps it inside the component |
| Refiner.GainsPush | infections.py:253-254 | recording the next pair with its gain keeps every recorded value equal to the gain of its pair at that point of the round |
| Refiner.PairsLowerConflicts | infections.py:258-265 | committing the first k pairs lowers the conflict count by twice the sum of their recorded gains |
| Refiner.SumPush | infections.py:289 | a prefix sum one element longer adds that element |
| Refiner.PairLowersConflicts | infections.py:263-265 | each committed pair lowers the conflict count by twice its recorded gain |
| Refiner.SwapPass | infections.py:230-256 | one tentative round takes the given number of steps; each pair is (infected, uninfected) at its step; each value is that pair's gain; the first value is the best gain of the round's starting split; every user is scored when a step runs |
| Refiner.FirstIsBestStart | infections.py:240-254 | the first step's best gain bounds every pair's gain on the round's starting split |
| Refiner.FirstIsBestPush | infections.py:253-254 | later steps keep that bound on the first recorded value |
| Refiner.FirstStep | infections.py:233-235 | the round starts from the committed split, with nothing locked and no pairs |
| Refiner.NothingLocked | infections.py:235 | no user is locked before the first step |
| Refiner.PassStep | infections.py:252-255 | a step locks its two users and swaps them, which keeps the lock count equal on both sides |
| Refiner.SwapStep | infections.py:237-255 | one step scores every unlocked user, picks an unlocked pair of maximal gain, reports that gain and swaps the pair |
| Refiner.Unlocked | infections.py:236 | while fewer than `min(remaining, num_uninfected)` steps have run, both sides still have an unlocked user |
| Refiner.SideUnlocked | infections.py:243-244 | a side with fewer locked users than members has an unlocked one |
| Refiner.LockStep | infections.py:252-255 | after a step, one more user is locked on each side and the working split keeps its size |
| Refiner.InitialSize | infections.py:222-226 | the initial split's size is at most the component's size, 0 only for an empty component, `remaining` when that is between 1 and the size, and the size when `remaining` reaches it |
| Refiner.InitialSplit | infections.py:222-226 | the first loop infects min(remaining, number of users) users of the component, and one user when `remaining` is not positive |
| Refiner.StopSize | infections.py:225-226 | where the break leaves the initial split's size |
| Refiner.EndSize | infections.py:223 | a loop that runs out of users infects them all |
| Refiner.CommitPairs | infections.py:263-265 | committing the best prefix applies exactly its pairs, keeps the size, and stays inside the component |
| Refiner.NoGainWhenNoPrefixGains | infections.py:259-262 | when the best prefix sum is not positive, no swap of the committed split has a positive gain |
| Refiner.SplitOutcome | infections.py:165-275 | what a successful split delivers: an initial split of `InitialSize` users, a result of `remaining` users of the component, no more conflicts than the initial split, and either no gaining swap or `2·max_iter` fewer conflicts than the initial split |
| Refiner.SplitComponent | infections.py:165-275 | it fails, with the error of `del user._d`, exactly when the component is non-empty and no step or no round runs. Otherwise it returns `remaining` users of the component, with no more conflicts than the initial split (`SplitOutcome`). On stopping without the warning, no single swap gains; with the warning, the conflicts dropped by at least 2 per round, so the warning is impossible when `n² < 2·max_iter` for a component of n users |
| Packer.Resolve | infections.py:73-86 | an integer passes unchanged; a proportion is accepted iff it lies in [0, 1] and becomes `int(p·n)`, rounded down; otherwise the argument's error |
| Packer.ValidateArgs | infections.py:73-91 | the argument checks: the target ends in [0, n] and the tolerance is not negative; the result agrees with the as-written checks wherever those accept a non-negative tolerance |
| Packer.NegativeToleranceAccepted | infections.py:80-91 | the as-written checks accept tolerance -1, whose window holds no size at all; the corrected checks refuse it |
| Packer.InWindow | infections.py:139 | the tolerance window: a size x is accepted iff `t - e <= x <= t + e` |
| Packer.ValidatedWindowHoldsTarget | infections.py:139 | after the corrected checks the window always contains the target |
| Packer.Greedy | infections.py:125-133 | the packing of the sorted catalog, largest first: an entry is kept iff it fits under the target together with those kept before it; otherwise it is the last one skipped (properties in `GreedyKept`, `GreedySkipped`) |
| Packer.GreedyPack | infections.py:124-133 | the packing loop computes the specification `Greedy` of the sorted catalog |
| Packer.SumKeptPrefix | infections.py:128-133 | the kept total depends only on the entries it indexes |
| Packer.GreedyKept | infections.py:125-133 | the kept indices increase, the running total is their summed count, and it never exceeds a non-negative target |
| Packer.GreedySkipped | infections.py:127-131 | with no skipped entry everything was kept; otherwise the last skipped entry is not kept and would have overshot |
| Packer.SplitCandidate | infections.py:127-148 | when the kept total misses the window, a skipped entry exists and `1 <= remaining < its size`, so it can be split |
| Packer.KeptUnion | infections.py:135 | the corrected union of the kept components' uids, empty when none is kept (see Findings) |
| Packer.KeptUnionAsWritten | infections.py:135 | `set.union(*…)` fails iff no component is kept, and otherwise is the union of the kept entries |
| Packer.NothingKeptFails | infections.py:128-135 | a target of 0 keeps nothing, so the union as written fails where the corrected union is empty |
| Packer.KeptUnionMember | infections.py:135 | a uid is kept iff a kept entry holds it |
| Packer.KeptUnionSize | infections.py:132-135 | the kept union has as many uids as the kept total |
| Packer.KeptUnionMisses | infections.py:145-160 | the entry to split shares no uid with the kept union, so the split's users are new |
| Packer.KeptUnionHolds | infections.py:135 | every kept entry lies in the kept union |
| Packer.CatalogEntryOf | infections.py:99-109 | every user's component is an entry of the catalog |
| Packer.OnlySplitEntryPartial | infections.py:135-160 | the only component that can be partly infected is the one being split |
| Packer.KeptComponentsConfined | infections.py:135 | the kept union consists of whole components: its size is the kept total and no component is partly infected |
| Packer.KeptUnionInKeys | infections.py:135 | every kept uid is a user |
| Packer.SplitConfined | infections.py:145-160 | kept union plus part of the split entry: its size is the sum, and conflicts stay inside one component |
| Packer.SortedIsCatalog | infections.py:118-122 | the sorted catalog is still a catalog and its counts sum to the population |
| Packer.SortedAreComponents | infections.py:118-122 | after sorting every entry is still a component with its size |
| Packer.Packed | infections.py:93-160 | how a result is made: from a sorted catalog of the components and `Greedy` on it, the union of the kept entries when that lands in the window, and otherwise that union plus the `SplitOutcome` of the last skipped entry for the missing users |
| Packer.SplitBranch | infections.py:143-160 | in the split branch, the kept union plus the split has exactly t users, lies in the population, and confines conflicts to the split component |
| Packer.InfectSplit | infections.py:143-160 | the split branch as a method: it splits the last skipped entry for the missing users and returns the kept union plus that split, with the properties of `SplitBranch` |
| Packer.InfectComponents | infections.py:93-162 | the corrected program after the checks: the result is `Packed` from the sorted catalog, lies in the population with a size in the tolerance window, confines conflicts to at most one component, and a size other than the target means whole components only |
| Packer.LimitedInfection | infections.py:44-162 | the corrected program (`ValidateArgs`, `KeptUnion`): errors are exactly those of the corrected argument checks; otherwise the result has the properties of `InfectComponents`. The program as written also fails at :135 and :273, see Findings |
| Users.MakeIterable | user.py:56-63 | a lone user becomes a one-element sequence; a collection passes unchanged |
| Users.MakeIterableMembers | user.py:56-63 | so `add_students(x)` and `add_students((x,))` act on the same users |
| Users.User.constructor | user.py:19-21 | a new user has its uid and no students or coaches |
| Users.User.AddStudents | user.py:23-30 | the students are added; each gains this user as a coach; nobody else's students change; this user's coaches change only if it is its own student |
| Users.User.TellStudent | user.py:29-30 | a student lacking this user as a coach is told through `add_coaches` and then has it |
| Users.User.AddCoaches | user.py:32-39 | the coaches are added; each gains this user as a student; the mirror of `AddStudents` |
| Users.User.TellCoach | user.py:38-39 | a coach lacking this user as a student is told through `add_students` and then has it |
| Users.User.GetStudents | user.py:41-42 | returns the students |
| Users.User.GetCoaches | user.py:44-45 | returns the coaches |
| Users.User.GetUid | user.py:47-48 | returns the uid |
| Users.AddStudentsKeepsSymmetry | user.py:23-30 | `add_students` within a symmetric population leaves it symmetric |
| Users.AddCoachesKeepsSymmetry | user.py:32-39 | `add_coaches` within a symmetric population leaves it symmetric |
| Users.Registry.constructor | user.py:10 | the registry starts empty |
| Users.Registry.NewUser | user.py:12-21 | a uid already in use is refused and nothing changes; otherwise the uid is registered and the new user is empty |
| Users.Registry.ClearUsers | user.py:50-53 | every uid is forgotten, so uids may be reused |
| Users.SnapshotValid | user.py:23-39 | a closed, symmetric population with unique uids is a valid graph, keyed by its uids |
| SmallExample.SmallGraphSize | test.py:66-69 | the small example has ten users |
| SmallExample.KeysUpTo | test.py:68-69 | a population with uids 0 to n-1 has n users |
| SmallExample.SmallGraphValid | test.py:71-83 | the links built by `add_students` are symmetric and closed |
| SmallExample.ComponentIs | infections.py:13-41 | a closed set of users reachable from s is s's component |
| SmallExample.SmallNeighbours | test.py:71-83 | the neighbours of each user of the example |
| SmallExample.SmallStep | test.py:71-83 | one link of the example extends reachability |
| SmallExample.FirstComponent | test.py:113-115 | the component of user 2 is {0, 1, 2, 3} |
| SmallExample.SecondComponent | test.py:117-119 | the component of user 7 is {4, 5, 6, 7, 8} |
| SmallExample.ThirdComponent | test.py:121-123 | the component of user 9 is {9} |
| SmallExample.SmallKeys | test.py:66-69 | the example's uids are 0 to 9 |
| SmallExample.TotalInfectionSmall | test.py:111-125 | `total_infection` returns those three sets |
| SmallExample.SmallFacts | test.py:61-83 | the example's components are {0, 1, 2, 3}, {4, …, 8} and {9}, and in the first one users 2 and 3 each gain 1 by swapping with 0 from a split {2} or {3} |
| SmallExample.SortedCounts | infections.py:118-122 | the expected sorted catalog has matching counts and is sorted largest first |
| SmallExample.SortedDisjoint | infections.py:99-109 | its entries are disjoint |
| SmallExample.SortedUnion | infections.py:99-109 | its entries cover the ten users |
| SmallExample.SmallSortedAreComponents | infections.py:99-109 | each of its entries is a component of the example |
| SmallExample.SortedIsCatalogOf | infections.py:99-122 | it is a sorted catalog of any graph with the example's components |
| SmallExample.SmallSortedIsCatalog | infections.py:99-122 | `[{4..8}, {0..3}, {9}]` is a sorted catalog of the example |
| SmallExample.OneOfThree | infections.py:99-109 | in a disjoint catalog covered by three entries, every non-empty entry is one of them |
| SmallExample.ThreeEntries | infections.py:118-122 | a sorted disjoint catalog covered by entries of sizes 4, 5 and 1 has exactly those three, in the order 5, 4, 1 |
| SmallExample.EntriesNonEmpty | infections.py:103-109 | no entry of a catalog is empty |
| SmallExample.ExampleEntries | infections.py:99-109 | every catalog of the example has entries for the components of 2, 7 and 9, and they cover it |
| SmallExample.ExampleEntryCounts | infections.py:104-109 | those entries have counts 4, 5 and 1 |
| SmallExample.SortedFromEntries | infections.py:118-122 | three entries of sizes 5, 4 and 1 with the example's uids are the expected catalog |
| SmallExample.SmallCatalogUnique | infections.py:93-122 | every sorted catalog of the example is `[{4..8}, {0..3}, {9}]`, whatever order argsort picks among equal sizes |
| SmallExample.SmallGreedy | infections.py:124-133 | the packings of that catalog for targets 1, 2, 4, 5 and 9 |
| SmallExample.SmallKept | infections.py:135 | the unions of the kept entries for those packings |
| SmallExample.FirstComponentSimple | test.py:71-75 | the first component is closed under its links and has no self-links |
| SmallExample.GainOfTwo | infections.py:245-247 | from the split {2}, swapping 2 and 0 gains 1 |
| SmallExample.GainOfThree | infections.py:245-247 | from the split {3}, swapping 3 and 0 gains 1 |
| SmallExample.SplitOfOne | infections.py:222-265 | a split of one user out of a group small enough that the split converges ends on a single user that has no gaining swap, so on neither of two users b1, b2 that have one |
| SmallExample.SplitOfFirstComponent | test.py:134-135 | splitting one user out of {0, 1, 2, 3} yields {0} or {1} |
| SmallExample.PackedOnSmall | test.py:130-135 | any result `Packed` on the example for targets 1, 2, 4, 5, 9 is the expected set |
| SmallExample.LimitedFour | test.py:130 | `limited_infection(users, 4)` is {0, 1, 2, 3} |
| SmallExample.LimitedFive | test.py:131 | `limited_infection(users, 5)` is {4, 5, 6, 7, 8} |
| SmallExample.LimitedNine | test.py:132 | `limited_infection(users, 9)` is {0, …, 8} |
| SmallExample.TenthOfTen | infections.py:73-91 | a proportion 0.1 of ten users with tolerance 0 is the target 1 with tolerance 0 |
| SmallExample.LimitedTenth | test.py:133 | `limited_infection(users, 0.1)` is {9} |
| SmallExample.LimitedTwo | test.py:134-135 | `limited_infection(users, 2)` is {9, 0} or {9, 1} |
| SmallExample.LimitedInfectionExample | test.py:128-136 | the five answers of the test, for any graph with the example's components and gains |
| SmallExample.LimitedInfectionSmall | test.py:128-136 | on the example itself, `limited_infection` gives the five answers the test expects |
| SmallExample.NegativeToleranceOnSmall | infections.py:124-139 | on the example, for every sorted catalog, a target of 4 is met exactly by whole components, yet tolerance -1 rejects the exact fit, leaving 0 users to split out of {9} |
| SmallExample.NegativeToleranceSplitFails | infections.py:209-273 | splitting 0 users out of {9} runs no step, so the final `del user._d` fails |

## Left out

- Packer.LimitedInfection, Packer.InfectComponents: model the corrected program, which uses `Packer.ValidateArgs` and `Packer.KeptUnion`. The program as written also raises TypeError at infections.py:135 whenever no component is kept, and AttributeError at infections.py:273 for a negative tolerance with an exact packing. Both are under Findings, with their as-written members.
- Printing is not modelled. That covers the error messages before `RuntimeError`, the verbose messages, the conflict report (`infections.py:151-158`) and the non-convergence warning. The warning is returned as `converged == false`. The report's count is `Conflicts.ConflictCount`, and `Refiner.FindNumConflicts` models its per-user term. The loop that sums the report is not written as a method.
- The result of `total_infection` is a set of uids, not `User` objects: `limited_infection` uses only the uids.
- Floating-point arithmetic: a proportion is an exact fraction `num / den`, and `int(p * n)` is the rounded-down quotient. A float whose product rounds differently is not modelled.
- The order of `np.argsort` among components of equal size is left open. `SortBySize` is an insertion sort, and its contract is any non-increasing permutation.
- Python's set iteration order is nondeterministic in the model. The initial split, the walk order and the choice among pairs of equal gain use `:|` in methods, so the proofs hold for every order.
- Refiner.BestPair: the source's starting maximum of -1000000000 is replaced by "the first candidate wins". The two differ only when every gain is below -10^9, which needs a degree of about 5·10^8.
- `deepcopy` of the infected set is a value copy: sets are values in Dafny.
- Object identity in `user.py` is Dafny reference identity. `hasattr(obj, '__contains__')` is the choice between the `One` and `Many` arguments of `Users.Arg`.
- The gain arithmetic (`Conflicts.SwapChangesConflicts` and the conflict bounds of `Refiner.SplitComponent`) assumes a group closed under its links with no self-links (`SimpleGroup`). A component has the first property; self-links are simply excluded.
- Each conflicting relationship is counted once from each end, as the report loop does.
- `run.py`, the file loading and saving, and the random large-graph generator of `test.py` are not part of this model.
- The recursion depth of `_infect_coaches_students` is not modelled; the walk uses an explicit stack.

## Findings

| source | as written | input that shows it | evidently intended | confidence | as-written member | corrected member |
|---|---|---|---|---|---|---|
| infections.py:135 | `set.union(*(…))` is called on the kept components, and with none kept it is `set.union()`, which raises TypeError | any target below the smallest component's size, e.g. a connected population of ten users with target 4, or `limited_infection(users, 0)` on any population: no component is kept | the empty set of infected users | not executed | `Packer.KeptUnionAsWritten`, `Packer.NothingKeptFails` | `Packer.KeptUnion` |
| infections.py:80-91 | an integer tolerance is never range-checked. A negative one makes the window empty, so even an exact packing goes on to a split of 0 users, and the final `del user._d` raises AttributeError | the ten-user example with target 4 and tolerance -1 | a negative tolerance refused like a negative proportion | not executed | `Packer.ValidateArgsAsWritten`, `Packer.NegativeToleranceAccepted`, `SmallExample.NegativeToleranceOnSmall`, `SmallExample.NegativeToleranceSplitFails` | `Packer.ValidateArgs` |
