/**
 The ten-user population of the test suite (three components: {0,1,2,3},
 {4,...,8} and {9}) and what the model promises about it.
 */
module SmallExample {
  import opened Wrappers
  import opened Graphs
  import opened Traversal
  import opened Catalog
  import opened Refiner
  import opened Packer
  import opened Conflicts
  import opened Sets

  /** The students each user of test.py's small example is given. */
  function SmallStudents(u: int): set<int>
  {
    if u == 0 then {3} else if u == 1 then {2} else if u == 2 then {0, 3} else if u == 3 then {1}
    else if u == 4 then {5, 8, 6} else if u == 5 then {6, 8} else if u == 6 then {4}
    else if u == 7 then {8} else {}
  }

  /** The coaches those links give each user. */
  function SmallCoaches(u: int): set<int>
  {
    if u == 0 then {2} else if u == 1 then {3} else if u == 2 then {1} else if u == 3 then {0, 2}
    else if u == 4 then {6} else if u == 5 then {4} else if u == 6 then {4, 5}
    else if u == 8 then {4, 5, 7} else {}
  }

  /** The ten users of test.py's small example, uids 0 to 9. */
  function SmallGraph(): Graph
  {
    map u | 0 <= u < 10 :: Node(SmallStudents(u), SmallCoaches(u))
  }

  lemma SmallGraphSize()
    ensures |SmallGraph()| == 10
  {
    KeysUpTo(SmallGraph(), 10);
  }

  /** A graph whose uids are 0 to n - 1 has n users. */
  lemma KeysUpTo(g: Graph, n: nat)
    requires forall u :: u in g <==> 0 <= u < n
    ensures |g| == n
  {
    var keys: set<int> := {};
    var i := 0;
    while i < n
      invariant i <= n && |keys| == i
      invariant forall u :: u in keys <==> 0 <= u < i
    {
      assert i !in keys;
      keys := keys + {i};
      i := i + 1;
    }
    forall u ensures u in g.Keys <==> u in keys {
    }
    assert g.Keys == keys;
  }

  lemma SmallGraphValid()
    ensures Valid(SmallGraph())
  {
    var g := SmallGraph();
    forall a, b | 0 <= a < 10 && 0 <= b < 10
      ensures b in SmallStudents(a) <==> a in SmallCoaches(b)
    {
    }
  }

  /** A set holding s, closed under neighbours, all of whose members s reaches, is s's component. */
  lemma ComponentIs(g: Graph, s: int, c: set<int>)
    requires s in c
    requires forall u :: u in c ==> u in g && Neighbours(g, u) <= c
    requires forall t :: t in c ==> Reachable(g, s, t)
    ensures ComponentOf(g, s) == c
  {
    forall t | t in c ensures t in ComponentOf(g, s) {
    }
    forall t | t in ComponentOf(g, s) ensures t in c {
      ClosedSetHoldsReachable(g, c, s, t);
    }
  }

  /** Looking a user of the small example up in the graph. */
  lemma SmallNeighbours(u: int)
    requires 0 <= u < 10
    ensures u in SmallGraph() && Neighbours(SmallGraph(), u) == SmallStudents(u) + SmallCoaches(u)
  {
  }

  /** One step along a relationship of the small example. */
  lemma SmallStep(s: int, u: int, v: int)
    requires 0 <= u < 10 && v in SmallStudents(u) + SmallCoaches(u)
    requires Reachable(SmallGraph(), s, u)
    ensures Reachable(SmallGraph(), s, v)
  {
    SmallGraphValid();
    SmallNeighbours(u);
    ReachableStep(SmallGraph(), s, u, v);
  }

  /** The components the small-example tests expect total_infection to find. */
  lemma FirstComponent()
    ensures ComponentOf(SmallGraph(), 2) == {0, 1, 2, 3}
  {
    var g := SmallGraph();
    SmallNeighbours(2);
    ReachableRefl(g, 2);
    SmallStep(2, 2, 0);
    SmallStep(2, 2, 1);
    SmallStep(2, 2, 3);
    forall u | u in {0, 1, 2, 3} ensures u in g && Neighbours(g, u) <= {0, 1, 2, 3} {
      SmallNeighbours(u);
    }
    ComponentIs(g, 2, {0, 1, 2, 3});
  }

  lemma SecondComponent()
    ensures ComponentOf(SmallGraph(), 7) == {4, 5, 6, 7, 8}
  {
    var g := SmallGraph();
    SmallNeighbours(7);
    ReachableRefl(g, 7);
    SmallStep(7, 7, 8);
    SmallStep(7, 8, 4);
    SmallStep(7, 8, 5);
    SmallStep(7, 4, 6);
    forall u | u in {4, 5, 6, 7, 8} ensures u in g && Neighbours(g, u) <= {4, 5, 6, 7, 8} {
      SmallNeighbours(u);
    }
    ComponentIs(g, 7, {4, 5, 6, 7, 8});
  }

  lemma ThirdComponent()
    ensures ComponentOf(SmallGraph(), 9) == {9}
  {
    var g := SmallGraph();
    SmallNeighbours(9);
    ReachableRefl(g, 9);
    ComponentIs(g, 9, {9});
  }

  /** The total-infection tests of the small example. */
  method TotalInfectionSmall() returns (a: set<int>, b: set<int>, c: set<int>)
    ensures a == {0, 1, 2, 3} && b == {4, 5, 6, 7, 8} && c == {9}
  {
    SmallGraphValid();
    FirstComponent();
    SecondComponent();
    ThirdComponent();
    a := TotalInfection(SmallGraph(), 2);
    b := TotalInfection(SmallGraph(), 7);
    c := TotalInfection(SmallGraph(), 9);
  }

  /** The uids of the example are 0 to 9. */
  lemma SmallKeys()
    ensures SmallGraph().Keys == {0, 1, 2, 3, 4, 5, 6, 7, 8, 9}
  {
    forall u ensures u in SmallGraph().Keys <==> u in {0, 1, 2, 3, 4, 5, 6, 7, 8, 9} {
    }
  }

  /** The catalog of the small example sorted from largest to smallest. */
  function SmallSorted(): seq<Component>
  {
    [Component({4, 5, 6, 7, 8}, 5), Component({0, 1, 2, 3}, 4), Component({9}, 1)]
  }

  /** The part of the example the catalog proofs use: ten users in three components. */
  ghost predicate ExampleComponents(g: Graph)
  {
    && Valid(g)
    && |g| == 10
    && g.Keys == {0, 1, 2, 3, 4, 5, 6, 7, 8, 9}
    && ComponentOf(g, 2) == {0, 1, 2, 3}
    && ComponentOf(g, 7) == {4, 5, 6, 7, 8}
    && ComponentOf(g, 9) == {9}
    && g.Keys == ComponentOf(g, 2) + ComponentOf(g, 7) + ComponentOf(g, 9)
  }

  /** The part of the example the split proof uses: in {0, 1, 2, 3} nobody is their
      own student or coach, and users 2 and 3 each gain by trading places with 0. */
  ghost predicate ExampleGains(g: Graph)
  {
    && SimpleGroup(g, {0, 1, 2, 3})
    && Gain(g, {2}, 2, 0) == 1
    && Gain(g, {3}, 3, 0) == 1
  }

  /** Set arithmetic on the example's uids. */
  lemma SmallSets()
    ensures {0, 1, 2, 3, 4, 5, 6, 7, 8, 9} == {0, 1, 2, 3} + {4, 5, 6, 7, 8} + {9}
    ensures |{0, 1, 2, 3}| == 4 && |{0, 1, 2, 3}| * |{0, 1, 2, 3}| < 2 * MaxIter
    ensures {9} + {0} == {9, 0} && {9} + {1} == {9, 1}
  {
  }

  lemma SmallFacts()
    ensures ExampleComponents(SmallGraph()) && ExampleGains(SmallGraph())
  {
    SmallGraphValid();
    SmallGraphSize();
    SmallKeys();
    SmallSets();
    FirstComponent();
    SecondComponent();
    ThirdComponent();
    FirstComponentSimple();
    GainOfTwo();
    GainOfThree();
  }

  /** The sorted catalog written out: each count is its entry's size, largest first. */
  lemma SortedCounts()
    ensures CountsMatch(SmallSorted()) && NonIncreasing(SmallSorted())
  {
  }

  /** The sorted catalog written out: no two entries share a uid. */
  lemma SortedDisjoint()
    ensures Disjoint(SmallSorted())
  {
    var s := SmallSorted();
    var c0, c1, c2 := s[0], s[1], s[2];
    assert s[..2] == [c0, c1];
    UnionAllPush([], c0);
    UnionAllPush([c0], c1);
    assert [] + [c0] == [c0] && [c0] + [c1] == [c0, c1];
    assert Disjoint([c0]) by { assert [c0][..0] == []; }
    assert Disjoint([c0, c1]) by { assert [c0, c1][..1] == [c0]; }
  }

  /** The sorted catalog written out: its entries together hold every uid. */
  lemma SortedUnion()
    ensures UnionAll(SmallSorted()) == {0, 1, 2, 3, 4, 5, 6, 7, 8, 9}
  {
    var s := SmallSorted();
    var c0, c1, c2 := s[0], s[1], s[2];
    UnionAllPush([], c0);
    UnionAllPush([c0], c1);
    UnionAllPush([c0, c1], c2);
    assert [] + [c0] == [c0] && [c0] + [c1] == [c0, c1] && [c0, c1] + [c2] == s;
  }

  /** Each entry of the sorted catalog written out is a component of a graph with the example's components. */
  lemma SmallSortedAreComponents(g: Graph)
    requires ComponentOf(g, 2) == {0, 1, 2, 3} && ComponentOf(g, 7) == {4, 5, 6, 7, 8} && ComponentOf(g, 9) == {9}
    ensures AreComponents(g, SmallSorted())
  {
    var s := SmallSorted();
    forall i | 0 <= i < |s| ensures exists u :: u in s[i].uids && s[i].uids == ComponentOf(g, u) {
      var u := if i == 0 then 7 else if i == 1 then 2 else 9;
      assert u in s[i].uids && s[i].uids == ComponentOf(g, u);
    }
  }

  /** The sorted catalog written out is a catalog of any graph with the example's components. */
  lemma SortedIsCatalogOf(g: Graph)
    requires ExampleComponents(g)
    ensures IsCatalog(g, SmallSorted()) && NonIncreasing(SmallSorted())
  {
    SortedCounts();
    SortedDisjoint();
    SortedUnion();
    SmallSortedAreComponents(g);
  }

  lemma SmallSortedIsCatalog()
    ensures IsCatalog(SmallGraph(), SmallSorted()) && NonIncreasing(SmallSorted())
  {
    SmallFacts();
    SortedIsCatalogOf(SmallGraph());
  }

  /** Position i of a disjoint list that covers just the entries at iA, iB and iC
      is one of those three positions. */
  lemma OneOfThree(s: seq<Component>, i: int, iA: int, iB: int, iC: int)
    requires Disjoint(s) && 0 <= i < |s| && s[i].uids != {}
    requires 0 <= iA < |s| && 0 <= iB < |s| && 0 <= iC < |s|
    requires UnionAll(s) == s[iA].uids + s[iB].uids + s[iC].uids
    ensures i == iA || i == iB || i == iC
  {
    var w := Pick(s[i].uids);
    UnionAllMember(s, w);
    DisjointAt(s, i, iA);
    DisjointAt(s, i, iB);
    DisjointAt(s, i, iC);
  }

  /** The sizes 5, 4 and 1 differ, so a list sorted largest first made of the
      entries at iA, iB and iC holds them in the order iB, iA, iC. */
  lemma ThreeEntries(s: seq<Component>, iA: int, iB: int, iC: int)
    requires Disjoint(s) && NonIncreasing(s)
    requires forall i :: 0 <= i < |s| ==> s[i].uids != {}
    requires 0 <= iA < |s| && 0 <= iB < |s| && 0 <= iC < |s|
    requires UnionAll(s) == s[iA].uids + s[iB].uids + s[iC].uids
    requires s[iA].count == 4 && s[iB].count == 5 && s[iC].count == 1
    ensures |s| == 3 && iB == 0 && iA == 1 && iC == 2
  {
    LargerFirst(s, iB, iA);
    LargerFirst(s, iA, iC);
    OneOfThree(s, 0, iA, iB, iC);
    OneOfThree(s, iB + 1, iA, iB, iC);
    OneOfThree(s, iA + 1, iA, iB, iC);
    OneOfThree(s, |s| - 1, iA, iB, iC);
  }

  /** Every entry of a list of components holds at least its seed. */
  lemma EntriesNonEmpty(g: Graph, s: seq<Component>)
    requires AreComponents(g, s)
    ensures forall i :: 0 <= i < |s| ==> s[i].uids != {}
  {
    forall i | 0 <= i < |s| ensures s[i].uids != {} {
      var w :| w in s[i].uids && s[i].uids == ComponentOf(g, w);
    }
  }

  /** Where the three components of the example sit in one of its catalogs. */
  lemma ExampleEntries(g: Graph, s: seq<Component>) returns (iA: int, iB: int, iC: int)
    requires ExampleComponents(g) && IsCatalog(g, s)
    ensures 0 <= iA < |s| && 0 <= iB < |s| && 0 <= iC < |s|
    ensures s[iA].uids == ComponentOf(g, 2) && s[iB].uids == ComponentOf(g, 7) && s[iC].uids == ComponentOf(g, 9)
    ensures UnionAll(s) == s[iA].uids + s[iB].uids + s[iC].uids
  {
    iA := CatalogEntryOf(g, s, 2);
    iB := CatalogEntryOf(g, s, 7);
    iC := CatalogEntryOf(g, s, 9);
  }

  /** The sizes of those entries, which the catalog records. */
  lemma ExampleEntryCounts(g: Graph, s: seq<Component>, iA: int, iB: int, iC: int)
    requires ExampleComponents(g) && IsCatalog(g, s)
    requires 0 <= iA < |s| && 0 <= iB < |s| && 0 <= iC < |s|
    requires s[iA].uids == ComponentOf(g, 2) && s[iB].uids == ComponentOf(g, 7) && s[iC].uids == ComponentOf(g, 9)
    ensures s[iA].count == 4 && s[iB].count == 5 && s[iC].count == 1
  {
    SortedCounts();
    assert s[iA].uids == SmallSorted()[1].uids && s[iB].uids == SmallSorted()[0].uids && s[iC].uids == SmallSorted()[2].uids;
  }

  /** A list of three entries with the example's components in size order is the sorted catalog written out. */
  lemma SortedFromEntries(s: seq<Component>)
    requires |s| == 3
    requires s[0].uids == {4, 5, 6, 7, 8} && s[0].count == 5
    requires s[1].uids == {0, 1, 2, 3} && s[1].count == 4
    requires s[2].uids == {9} && s[2].count == 1
    ensures s == SmallSorted()
  {
    assert s[0] == SmallSorted()[0] && s[1] == SmallSorted()[1] && s[2] == SmallSorted()[2];
  }

  /** The example has exactly one catalog sorted largest first, whatever order
      the users are visited in. */
  lemma SmallCatalogUnique(g: Graph, s: seq<Component>)
    requires ExampleComponents(g) && IsCatalog(g, s) && NonIncreasing(s)
    ensures s == SmallSorted()
  {
    var iA, iB, iC := ExampleEntries(g, s);
    ExampleEntryCounts(g, s, iA, iB, iC);
    EntriesNonEmpty(g, s);
    ThreeEntries(s, iA, iB, iC);
    SortedFromEntries(s);
  }

  /** The packing loop on the example's sorted catalog for the targets the tests use. */
  lemma SmallGreedy()
    ensures Greedy(SmallSorted(), 1) == Packing(1, [2], 1)
    ensures Greedy(SmallSorted(), 2) == Packing(1, [2], 1)
    ensures Greedy(SmallSorted(), 4) == Packing(4, [1], 2)
    ensures Greedy(SmallSorted(), 5) == Packing(5, [0], 2)
    ensures Greedy(SmallSorted(), 9) == Packing(9, [0, 1], 2)
  {
    var s := SmallSorted();
    assert s[..2][..1] == s[..1] && s[..1][..0] == [] && s[..|s| - 1] == s[..2];
    assert Greedy(s[..1], 1) == Packing(0, [], 0) && Greedy(s[..2], 1) == Packing(0, [], 1);
    assert Greedy(s[..1], 2) == Packing(0, [], 0) && Greedy(s[..2], 2) == Packing(0, [], 1);
    assert Greedy(s[..1], 4) == Packing(0, [], 0) && Greedy(s[..2], 4) == Packing(4, [1], 0);
    assert Greedy(s[..1], 5) == Packing(5, [0], -1) && Greedy(s[..2], 5) == Packing(5, [0], 1);
    assert Greedy(s[..1], 9) == Packing(5, [0], -1) && Greedy(s[..2], 9) == Packing(9, [0, 1], -1);
  }

  /** The example's first component with nobody their own student or coach. */
  lemma FirstComponentSimple()
    ensures SimpleGroup(SmallGraph(), {0, 1, 2, 3})
  {
    SmallGraphValid();
    forall u | u in {0, 1, 2, 3} ensures u in SmallGraph() && Neighbours(SmallGraph(), u) <= {0, 1, 2, 3} && u !in Neighbours(SmallGraph(), u) {
      SmallNeighbours(u);
    }
  }

  /** Infecting 2 alone: its three relationships all conflict, and 0 has one of each kind. */
  lemma GainOfTwo()
    ensures Gain(SmallGraph(), {2}, 2, 0) == 1
  {
    var g := SmallGraph();
    SmallNeighbours(0);
    SmallNeighbours(2);
    assert Opposite(g, 2, {2}) == {0, 1, 3} && SameSide(g, 2, {2}) == {};
    assert Opposite(g, 0, {2}) == {2} && SameSide(g, 0, {2}) == {3};
  }

  /** Infecting 3 alone: the same by symmetry. */
  lemma GainOfThree()
    ensures Gain(SmallGraph(), {3}, 3, 0) == 1
  {
    var g := SmallGraph();
    SmallNeighbours(0);
    SmallNeighbours(3);
    assert Opposite(g, 3, {3}) == {0, 1, 2} && SameSide(g, 3, {3}) == {};
    assert Opposite(g, 0, {3}) == {3} && SameSide(g, 0, {3}) == {2};
  }

  /**
   Splitting one user out of a small group: the refinement has at most |users|^2
   conflicts to remove, fewer than two per round of max_iter, so it stops with
   no gaining exchange, and so with neither b1 nor b2, which gain by trading
   places with y.
   */
  lemma SplitOfOne(g: Graph, users: set<int>, extra: set<int>, start: set<int>, b1: int, b2: int, y: int) returns (x: int)
    requires SimpleGroup(g, users) && |users| * |users| < 2 * MaxIter
    requires SplitOutcome(g, users, 1, MaxIter, extra, start)
    requires y in users && b1 in users && b2 in users && b1 != y && b2 != y
    requires Gain(g, {b1}, b1, y) > 0 && Gain(g, {b2}, b2, y) > 0
    ensures x in users && x != b1 && x != b2 && extra == {x}
  {
    ConflictCountBound(g, users, users, start);
    assert NoGainingSwap(g, users, extra);
    x := OnlyMember(extra);
    assert x != y ==> Gain(g, {x}, x, y) <= 0;
  }

  /** Splitting one user out of {0, 1, 2, 3} rules out users 2 and 3. */
  lemma SplitOfFirstComponent(g: Graph, extra: set<int>, start: set<int>)
    requires ExampleGains(g)
    requires SplitOutcome(g, {0, 1, 2, 3}, 1, MaxIter, extra, start)
    ensures extra == {0} || extra == {1}
  {
    SmallSets();
    var x := SplitOfOne(g, {0, 1, 2, 3}, extra, start, 2, 3, 0);
    assert x == 0 || x == 1;
  }

  /** The kept components of the packings the tests produce. */
  lemma SmallKept()
    ensures KeptUnion(SmallSorted(), [2]) == {9}
    ensures KeptUnion(SmallSorted(), [1]) == {0, 1, 2, 3}
    ensures KeptUnion(SmallSorted(), [0]) == {4, 5, 6, 7, 8}
    ensures KeptUnion(SmallSorted(), [0, 1]) == {0, 1, 2, 3, 4, 5, 6, 7, 8}
  {
    assert [2][..0] == [] && [1][..0] == [] && [0][..0] == [] && [0, 1][..1] == [0];
  }

  /** What limited_infection's promise comes to on the example for the targets the tests use. */
  lemma PackedOnSmall(g: Graph, t: int, infected: set<int>, sorted: seq<Component>, extra: set<int>, start: set<int>)
    requires ExampleComponents(g) && ExampleGains(g) && Packed(g, t, 0, infected, sorted, extra, start)
    ensures t == 1 ==> infected == {9}
    ensures t == 2 ==> infected == {9, 0} || infected == {9, 1}
    ensures t == 4 ==> infected == {0, 1, 2, 3}
    ensures t == 5 ==> infected == {4, 5, 6, 7, 8}
    ensures t == 9 ==> infected == {0, 1, 2, 3, 4, 5, 6, 7, 8}
  {
    SmallCatalogUnique(g, sorted);
    SmallGreedy();
    SmallKept();
    SmallSets();
    if t == 2 {
      SplitOfFirstComponent(g, extra, start);
    }
  }

  /** limited_infection(users, 4) with the default tolerance of 0 on a graph with the example's components. */
  method LimitedFour(g: Graph) returns (infected: set<int>)
    requires ExampleComponents(g) && ExampleGains(g)
    ensures infected == {0, 1, 2, 3}
  {
    var r, sorted, extra, start := LimitedInfection(g, Count(4), Count(0));
    PackedOnSmall(g, 4, r.value, sorted, extra, start);
    infected := r.value;
  }

  method LimitedFive(g: Graph) returns (infected: set<int>)
    requires ExampleComponents(g) && ExampleGains(g)
    ensures infected == {4, 5, 6, 7, 8}
  {
    var r, sorted, extra, start := LimitedInfection(g, Count(5), Count(0));
    PackedOnSmall(g, 5, r.value, sorted, extra, start);
    infected := r.value;
  }

  method LimitedNine(g: Graph) returns (infected: set<int>)
    requires ExampleComponents(g) && ExampleGains(g)
    ensures infected == {0, 1, 2, 3, 4, 5, 6, 7, 8}
  {
    var r, sorted, extra, start := LimitedInfection(g, Count(9), Count(0));
    PackedOnSmall(g, 9, r.value, sorted, extra, start);
    infected := r.value;
  }

  /** A proportion 0.1 of ten users is one user. */
  lemma TenthOfTen()
    ensures ValidateArgs(Fraction(1, 10), Count(0), 10) == Ok((1, 0))
  {
  }

  method LimitedTenth(g: Graph) returns (infected: set<int>)
    requires ExampleComponents(g) && ExampleGains(g)
    ensures infected == {9}
  {
    TenthOfTen();
    var r, sorted, extra, start := LimitedInfection(g, Fraction(1, 10), Count(0));
    PackedOnSmall(g, 1, r.value, sorted, extra, start);
    infected := r.value;
  }

  method LimitedTwo(g: Graph) returns (infected: set<int>)
    requires ExampleComponents(g) && ExampleGains(g)
    ensures infected == {9, 0} || infected == {9, 1}
  {
    var r, sorted, extra, start := LimitedInfection(g, Count(2), Count(0));
    PackedOnSmall(g, 2, r.value, sorted, extra, start);
    infected := r.value;
  }

  /**
   The limited-infection tests of the small example, on any graph with its
   components and gains: targets 4, 5, 9 and 0.1 are met by whole components,
   and a target of 2 takes user 9 and one user of {0, 1, 2, 3} that has only two
   relationships.
   */
  method LimitedInfectionExample(g: Graph) returns (four: set<int>, five: set<int>, nine: set<int>, tenth: set<int>, two: set<int>)
    requires ExampleComponents(g) && ExampleGains(g)
    ensures four == {0, 1, 2, 3}
    ensures five == {4, 5, 6, 7, 8}
    ensures nine == {0, 1, 2, 3, 4, 5, 6, 7, 8}
    ensures tenth == {9}
    ensures two == {9, 0} || two == {9, 1}
  {
    four := LimitedFour(g);
    five := LimitedFive(g);
    nine := LimitedNine(g);
    tenth := LimitedTenth(g);
    two := LimitedTwo(g);
  }

  /** The limited-infection tests of the small example. */
  method LimitedInfectionSmall() returns (four: set<int>, five: set<int>, nine: set<int>, tenth: set<int>, two: set<int>)
    ensures four == {0, 1, 2, 3}
    ensures five == {4, 5, 6, 7, 8}
    ensures nine == {0, 1, 2, 3, 4, 5, 6, 7, 8}
    ensures tenth == {9}
    ensures two == {9, 0} || two == {9, 1}
  {
    SmallFacts();
    four, five, nine, tenth, two := LimitedInfectionExample(SmallGraph());
  }

  /**
   With a target of 4 the packing on any sorted catalog of the example keeps
   {0, 1, 2, 3} exactly, and the last component that did not fit is {9}. With a
   tolerance of -1 the window is empty, so the source goes on to split {9} with
   nothing left to infect.
   */
  lemma NegativeToleranceOnSmall(s: seq<Component>)
    requires IsCatalog(SmallGraph(), s) && NonIncreasing(s)
    ensures |s| == 3 && Greedy(s, 4) == Packing(4, [1], 2)
    ensures KeptUnion(s, [1]) == {0, 1, 2, 3} && s[2].uids == {9}
    ensures !InWindow(4, -1, Greedy(s, 4).count)
  {
    SmallFacts();
    SmallCatalogUnique(SmallGraph(), s);
    SmallGreedy();
    SmallKept();
  }

  /** The split the as-written argument check lets through: no step runs, no D
      value is computed, and the final clean-up fails. */
  method NegativeToleranceSplitFails() returns (r: Result<set<int>, SplitError>)
    ensures r == Err(NoDValue)
  {
    var converged;
    ghost var start;
    r, converged, start := SplitComponent(SmallGraph(), {9}, 0, MaxIter);
    match r.error
    case NoDValue =>
  }
}
