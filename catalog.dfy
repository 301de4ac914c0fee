/**
 The first half of limited_infection: split the population into connected
 components (the parallel lists comp_uids / comp_counts, kept here as one list
 of pairs) and order them from largest to smallest.
 */
module Catalog {
  import opened Graphs
  import opened Traversal
  import opened Sets

  /** One entry of comp_uids with its comp_counts entry. */
  datatype Component = Component(uids: set<int>, count: nat)

  /** The union of the uid sets of a list of components. */
  function UnionAll(s: seq<Component>): set<int>
  {
    if s == [] then {} else UnionAll(s[..|s| - 1]) + s[|s| - 1].uids
  }

  /** No two components of the list share a uid. */
  ghost predicate Disjoint(s: seq<Component>)
  {
    s == [] || (Disjoint(s[..|s| - 1]) && s[|s| - 1].uids !! UnionAll(s[..|s| - 1]))
  }

  function SumCounts(s: seq<Component>): int
  {
    if s == [] then 0 else SumCounts(s[..|s| - 1]) + s[|s| - 1].count
  }

  /** Every count is the size of its uid set. */
  ghost predicate CountsMatch(s: seq<Component>)
  {
    forall i :: 0 <= i < |s| ==> s[i].count == |s[i].uids|
  }

  /** Every entry is a whole connected component of g. */
  ghost predicate AreComponents(g: Graph, s: seq<Component>)
  {
    forall i :: 0 <= i < |s| ==> exists u :: u in s[i].uids && s[i].uids == ComponentOf(g, u)
  }

  /** What the catalog builder promises: every entry a component with its size,
      no two sharing a uid, and together every uid of the population. */
  ghost predicate IsCatalog(g: Graph, s: seq<Component>)
  {
    && AreComponents(g, s) && CountsMatch(s) && Disjoint(s) && UnionAll(s) == g.Keys
  }

  lemma UnionAllPush(s: seq<Component>, c: Component)
    ensures UnionAll(s + [c]) == UnionAll(s) + c.uids
    ensures SumCounts(s + [c]) == SumCounts(s) + c.count
  {
    assert (s + [c])[..|s|] == s;
  }

  lemma {:induction false} UnionAllMember(s: seq<Component>, x: int)
    ensures x in UnionAll(s) <==> exists i :: 0 <= i < |s| && x in s[i].uids
  {
    if s != [] {
      var n := |s| - 1;
      UnionAllMember(s[..n], x);
      assert forall i :: 0 <= i < n ==> s[..n][i] == s[i];
    }
  }

  /** A disjoint list is pairwise disjoint. */
  lemma {:induction false} DisjointPairwise(s: seq<Component>, i: int, j: int)
    requires Disjoint(s) && 0 <= i < j < |s|
    ensures s[i].uids !! s[j].uids
  {
    var n := |s| - 1;
    if j == n {
      forall x | x in s[i].uids ensures x in UnionAll(s[..n]) {
        UnionAllMember(s[..n], x);
        assert s[..n][i] == s[i];
      }
    } else {
      DisjointPairwise(s[..n], i, j);
      assert s[..n][i] == s[i] && s[..n][j] == s[j];
    }
  }

  /** Two different positions of a disjoint list hold disjoint sets, in either order. */
  lemma DisjointAt(s: seq<Component>, i: int, j: int)
    requires Disjoint(s) && 0 <= i < |s| && 0 <= j < |s|
    ensures i != j ==> s[i].uids !! s[j].uids
  {
    if i < j {
      DisjointPairwise(s, i, j);
    } else if j < i {
      DisjointPairwise(s, j, i);
    }
  }

  /** The counts of a disjoint list add up to the size of its union. */
  lemma {:induction false} SumCountsIsSize(s: seq<Component>)
    requires Disjoint(s) && CountsMatch(s)
    ensures SumCounts(s) == |UnionAll(s)|
  {
    if s != [] {
      var n := |s| - 1;
      assert CountsMatch(s[..n]) by {
        assert forall i :: 0 <= i < n ==> s[..n][i] == s[i];
      }
      SumCountsIsSize(s[..n]);
    }
  }

  /** The loop state of the builder: entry i is the component of seeds[i]. */
  ghost predicate SeededCatalog(g: Graph, comps: seq<Component>, seeds: seq<int>)
  {
    && |seeds| == |comps|
    && (forall i :: 0 <= i < |comps| ==>
          seeds[i] in g && comps[i].uids == ComponentOf(g, seeds[i]) && comps[i].count == |comps[i].uids|)
    && Disjoint(comps)
  }

  /** A user not yet claimed seeds a component that meets none of the earlier ones. */
  lemma {:induction false} NewComponentDisjoint(g: Graph, comps: seq<Component>, seeds: seq<int>, uid: int)
    requires Valid(g) && SeededCatalog(g, comps, seeds) && uid in g && uid !in UnionAll(comps)
    ensures ComponentOf(g, uid) !! UnionAll(comps)
  {
    forall x | x in ComponentOf(g, uid) && x in UnionAll(comps) ensures false {
      UnionAllMember(comps, x);
      var i :| 0 <= i < |comps| && x in comps[i].uids;
      ComponentsEqualOrDisjoint(g, uid, seeds[i]);
      ComponentHoldsSeed(g, uid);
      assert uid in comps[i].uids;
      UnionAllMember(comps, uid);
    }
  }

  lemma {:induction false} CatalogStep(g: Graph, comps: seq<Component>, seeds: seq<int>, uid: int)
    requires Valid(g) && SeededCatalog(g, comps, seeds) && uid in g && uid !in UnionAll(comps)
    ensures var c := ComponentOf(g, uid);
            && SeededCatalog(g, comps + [Component(c, |c|)], seeds + [uid])
            && UnionAll(comps + [Component(c, |c|)]) == UnionAll(comps) + c
  {
    var c := Component(ComponentOf(g, uid), |ComponentOf(g, uid)|);
    NewComponentDisjoint(g, comps, seeds, uid);
    UnionAllPush(comps, c);
    var comps' := comps + [c];
    assert comps'[..|comps|] == comps;
    assert Disjoint(comps');
    var seeds' := seeds + [uid];
    forall i | 0 <= i < |comps'|
      ensures seeds'[i] in g && comps'[i].uids == ComponentOf(g, seeds'[i]) && comps'[i].count == |comps'[i].uids|
    {
      if i < |comps| {
        assert comps'[i] == comps[i] && seeds'[i] == seeds[i];
      }
    }
  }

  /** Every seeded entry is a whole, non-empty component. */
  lemma SeededAreComponents(g: Graph, comps: seq<Component>, seeds: seq<int>)
    requires SeededCatalog(g, comps, seeds)
    ensures AreComponents(g, comps) && CountsMatch(comps)
    ensures forall i :: 0 <= i < |comps| ==> comps[i].count >= 1
  {
    forall i | 0 <= i < |comps|
      ensures comps[i].count >= 1 && exists u :: u in comps[i].uids && comps[i].uids == ComponentOf(g, u)
    {
      var u := seeds[i];
      ComponentHoldsSeed(g, u);
      assert u in comps[i].uids;
    }
  }

  lemma SeededIsCatalog(g: Graph, comps: seq<Component>, seeds: seq<int>)
    requires SeededCatalog(g, comps, seeds) && UnionAll(comps) == g.Keys
    ensures IsCatalog(g, comps)
    ensures forall i :: 0 <= i < |comps| ==> comps[i].count >= 1
  {
    SeededAreComponents(g, comps, seeds);
  }

  /** The state of the builder's loop: the users already claimed are exactly the
      union of the components found, and cover every user already looked at. */
  ghost predicate BuildInv(g: Graph, todo: set<int>, claimed: set<int>, comps: seq<Component>, seeds: seq<int>)
  {
    && todo <= g.Keys
    && claimed == UnionAll(comps) && g.Keys - todo <= claimed <= g.Keys
    && SeededCatalog(g, comps, seeds)
  }

  /** A user already claimed is passed over. */
  lemma SkipKeeps(g: Graph, todo: set<int>, claimed: set<int>, comps: seq<Component>, seeds: seq<int>, uid: int)
    requires BuildInv(g, todo, claimed, comps, seeds) && uid in todo && uid in claimed
    ensures BuildInv(g, todo - {uid}, claimed, comps, seeds)
  {
  }

  /** A user not yet claimed adds its whole component. */
  lemma ClaimKeeps(g: Graph, todo: set<int>, claimed: set<int>, comps: seq<Component>, seeds: seq<int>, uid: int)
    requires Valid(g) && BuildInv(g, todo, claimed, comps, seeds) && uid in todo && uid !in claimed
    ensures var c := ComponentOf(g, uid);
            BuildInv(g, todo - {uid}, claimed + c, comps + [Component(c, |c|)], seeds + [uid])
  {
    CatalogStep(g, comps, seeds, uid);
    ComponentHoldsSeed(g, uid);
  }

  /**
   Collect the components: every user not yet claimed seeds a total infection,
   whose uids become the next component.
   */
  method BuildCatalog(g: Graph) returns (comps: seq<Component>)
    requires Valid(g)
    ensures IsCatalog(g, comps)
    ensures forall i :: 0 <= i < |comps| ==> comps[i].count >= 1
  {
    var everInfected: set<int> := {};
    comps := [];
    ghost var seeds: seq<int> := [];
    var todo := g.Keys;
    while todo != {}
      invariant BuildInv(g, todo, everInfected, comps, seeds)
      decreases todo
    {
      ghost var w := Pick(todo);
      var uid :| uid in todo;
      if uid in everInfected {
        SkipKeeps(g, todo, everInfected, comps, seeds, uid);
        todo := todo - {uid};
        continue;
      }
      var newlyInfected := TotalInfection(g, uid);
      ClaimKeeps(g, todo, everInfected, comps, seeds, uid);
      todo := todo - {uid};
      everInfected := everInfected + newlyInfected;
      comps := comps + [Component(newlyInfected, |newlyInfected|)];
      seeds := seeds + [uid];
    }
    SeededIsCatalog(g, comps, seeds);
  }

  /** Sorted from largest to smallest count. */
  ghost predicate NonIncreasing(s: seq<Component>)
  {
    forall i, j :: 0 <= i < j < |s| ==> s[i].count >= s[j].count
  }

  /** In a list sorted largest first a strictly larger entry comes earlier. */
  lemma LargerFirst(s: seq<Component>, i: int, j: int)
    requires NonIncreasing(s) && 0 <= i < |s| && 0 <= j < |s| && s[i].count > s[j].count
    ensures i < j
  {
  }

  lemma PrefixKeepsOrder(s: seq<Component>, n: nat)
    requires NonIncreasing(s) && n <= |s|
    ensures NonIncreasing(s[..n])
  {
    forall i, j | 0 <= i < j < n ensures s[..n][i].count >= s[..n][j].count {
      assert s[..n][i] == s[i] && s[..n][j] == s[j];
    }
  }

  /** Appending an entry no larger than any in a sorted list keeps it sorted. */
  lemma AppendKeepsOrder(s: seq<Component>, x: Component)
    requires NonIncreasing(s) && forall i :: 0 <= i < |s| ==> s[i].count >= x.count
    ensures NonIncreasing(s + [x])
  {
    forall i, j | 0 <= i < j < |s| + 1 ensures (s + [x])[i].count >= (s + [x])[j].count {
      if j < |s| {
        assert (s + [x])[i] == s[i] && (s + [x])[j] == s[j];
      }
    }
  }

  /** In a sorted list every entry is at least as large as the last one. */
  lemma LastIsSmallest(t: seq<Component>)
    requires NonIncreasing(t) && t != []
    ensures forall i :: 0 <= i < |t| ==> t[i].count >= t[|t| - 1].count
  {
  }

  /** Every entry of a rearrangement of a sorted prefix and a larger c is at least the last entry. */
  lemma BoundedByLast(t: seq<Component>, c: Component, r: seq<Component>)
    requires NonIncreasing(t) && t != [] && t[|t| - 1].count < c.count
    requires multiset(r) == multiset(t[..|t| - 1]) + multiset{c}
    ensures forall i :: 0 <= i < |r| ==> r[i].count >= t[|t| - 1].count
  {
    var n := |t| - 1;
    forall i | 0 <= i < |r| ensures r[i].count >= t[n].count {
      assert r[i] in multiset(r);
      if r[i] != c {
        assert r[i] in multiset(t[..n]);
        var j :| 0 <= j < n && t[..n][j] == r[i];
        assert t[j] == r[i];
      }
    }
  }

  /** Insert c into a list sorted by non-increasing count, after every entry at least as large. */
  function Insert(t: seq<Component>, c: Component): seq<Component>
  {
    if t == [] || t[|t| - 1].count >= c.count then t + [c]
    else Insert(t[..|t| - 1], c) + [t[|t| - 1]]
  }

  /** Inserting adds exactly c. */
  lemma {:induction false} InsertAddsOne(t: seq<Component>, c: Component)
    ensures multiset(Insert(t, c)) == multiset(t) + multiset{c}
  {
    if t != [] && t[|t| - 1].count < c.count {
      var n := |t| - 1;
      InsertAddsOne(t[..n], c);
      assert t == t[..n] + [t[n]];
    }
  }

  /** Inserting into a sorted list keeps it sorted. */
  lemma {:induction false} InsertSorted(t: seq<Component>, c: Component)
    requires NonIncreasing(t)
    ensures NonIncreasing(Insert(t, c))
  {
    if t == [] || t[|t| - 1].count >= c.count {
      if t != [] {
        LastIsSmallest(t);
      }
      AppendKeepsOrder(t, c);
    } else {
      var n := |t| - 1;
      PrefixKeepsOrder(t, n);
      InsertSorted(t[..n], c);
      InsertAddsOne(t[..n], c);
      var r' := Insert(t[..n], c);
      BoundedByLast(t, c, r');
      AppendKeepsOrder(r', t[n]);
    }
  }

  /**
   The argsort-and-reverse of the source: the components from largest to
   smallest. How ties are ordered is left open, as it is in the source.
   */
  function SortBySize(s: seq<Component>): (r: seq<Component>)
    ensures NonIncreasing(r)
    ensures multiset(r) == multiset(s)
  {
    if s == [] then []
    else
      var n := |s| - 1;
      assert s == s[..n] + [s[n]];
      InsertSorted(SortBySize(s[..n]), s[n]);
      InsertAddsOne(SortBySize(s[..n]), s[n]);
      Insert(SortBySize(s[..n]), s[n])
  }

  lemma {:induction false} InsertKeepsSums(t: seq<Component>, c: Component)
    ensures UnionAll(Insert(t, c)) == UnionAll(t) + c.uids
    ensures SumCounts(Insert(t, c)) == SumCounts(t) + c.count
  {
    if t == [] {
      assert Insert(t, c) == [] + [c];
      UnionAllPush(t, c);
    } else if t[|t| - 1].count >= c.count {
      assert Insert(t, c) == t + [c];
      UnionAllPush(t, c);
    } else {
      var n := |t| - 1;
      var r' := Insert(t[..n], c);
      assert Insert(t, c) == r' + [t[n]];
      InsertKeepsSums(t[..n], c);
      UnionAllPush(r', t[n]);
      assert t == t[..n] + [t[n]];
      UnionAllPush(t[..n], t[n]);
    }
  }

  lemma {:induction false} InsertKeepsCounts(t: seq<Component>, c: Component)
    requires CountsMatch(t) && c.count == |c.uids|
    ensures CountsMatch(Insert(t, c))
  {
    if t != [] && t[|t| - 1].count < c.count {
      var n := |t| - 1;
      assert CountsMatch(t[..n]) by {
        assert forall i :: 0 <= i < n ==> t[..n][i] == t[i];
      }
      InsertKeepsCounts(t[..n], c);
    }
  }

  lemma {:induction false} InsertKeepsDisjoint(t: seq<Component>, c: Component)
    requires Disjoint(t) && c.uids !! UnionAll(t)
    ensures Disjoint(Insert(t, c))
  {
    if t == [] || t[|t| - 1].count >= c.count {
      assert (t + [c])[..|t|] == t;
    } else {
      var n := |t| - 1;
      var r' := Insert(t[..n], c);
      assert t == t[..n] + [t[n]];
      UnionAllPush(t[..n], t[n]);
      InsertKeepsDisjoint(t[..n], c);
      InsertKeepsSums(t[..n], c);
      assert (r' + [t[n]])[..|r'|] == r';
    }
  }

  /** Sorting keeps the union, the total count, the counts and the disjointness. */
  lemma {:induction false} SortKeeps(s: seq<Component>)
    ensures UnionAll(SortBySize(s)) == UnionAll(s)
    ensures SumCounts(SortBySize(s)) == SumCounts(s)
    ensures CountsMatch(s) ==> CountsMatch(SortBySize(s))
    ensures Disjoint(s) ==> Disjoint(SortBySize(s))
  {
    if s != [] {
      var n := |s| - 1;
      assert s == s[..n] + [s[n]];
      SortKeeps(s[..n]);
      var t := SortBySize(s[..n]);
      InsertKeepsSums(t, s[n]);
      UnionAllPush(s[..n], s[n]);
      if CountsMatch(s) {
        assert CountsMatch(s[..n]) by {
          assert forall i :: 0 <= i < n ==> s[..n][i] == s[i];
        }
        InsertKeepsCounts(t, s[n]);
      }
      if Disjoint(s) {
        InsertKeepsDisjoint(t, s[n]);
      }
    }
  }
}
