/**
 limited_infection: check the arguments, catalog the components, keep whole
 components largest first while they fit, and when the kept total misses the
 tolerance window split the last component that did not fit.
 */
module Packer {
  import opened Wrappers
  import opened Graphs
  import opened Sets
  import opened Catalog
  import opened Refiner

  type Positive = x: int | x > 0 witness 1

  /** num_to_infect or tol as the caller passes it: a count, or a proportion of
      the population (the source's float, here the exact fraction num / den). */
  datatype Amount = Count(count: int) | Fraction(num: int, den: Positive)

  /** The source raises RuntimeError in the first four cases and TypeError in the
      last; NegativeTolerance is raised only by the corrected argument check. */
  datatype Error =
    | TargetNotAProportion
    | ToleranceNotAProportion
    | MoreThanPopulation
    | NegativeTarget
    | NegativeTolerance
    | NothingToUnion

  /** A proportion must lie in [0, 1]; it becomes int(x * n), rounded towards zero. */
  function Resolve(a: Amount, n: nat, err: Error): (r: Result<int, Error>)
    ensures a.Count? ==> r == Ok(a.count)
    ensures a.Fraction? ==> (r.Ok? <==> 0 <= a.num <= a.den)
    ensures a.Fraction? && r.Ok? ==> 0 <= r.value <= n && r.value * a.den <= a.num * n < (r.value + 1) * a.den
    ensures r.Err? ==> r.error == err
  {
    match a
    case Count(c) => Ok(c)
    case Fraction(p, q) =>
      if 0 <= p <= q then
        assert p * n <= q * n;
        Ok(p * n / q)
      else Err(err)
  }

  /** The argument checks of limited_infection as written: the tolerance may be
      any integer. */
  function ValidateArgsAsWritten(target: Amount, tol: Amount, n: nat): Result<(int, int), Error>
  {
    match Resolve(target, n, TargetNotAProportion)
    case Err(e) => Err(e)
    case Ok(t) =>
      match Resolve(tol, n, ToleranceNotAProportion)
      case Err(e) => Err(e)
      case Ok(e) =>
        if t > n then Err(MoreThanPopulation)
        else if t < 0 then Err(NegativeTarget)
        else Ok((t, e))
  }

  /** The same checks, with a negative integer tolerance refused as a negative
      proportion already is. */
  function ValidateArgs(target: Amount, tol: Amount, n: nat): (r: Result<(int, int), Error>)
    ensures r.Ok? ==> 0 <= r.value.0 <= n && r.value.1 >= 0
    ensures r.Ok? <==> ValidateArgsAsWritten(target, tol, n).Ok? && ValidateArgsAsWritten(target, tol, n).value.1 >= 0
    ensures r.Ok? ==> r == ValidateArgsAsWritten(target, tol, n)
  {
    match ValidateArgsAsWritten(target, tol, n)
    case Err(e) => Err(e)
    case Ok((t, e)) => if e < 0 then Err(NegativeTolerance) else Ok((t, e))
  }

  /** As written, a negative integer tolerance is accepted, and then no kept total
      is ever inside the window, so even an exact packing goes on to the split. */
  lemma NegativeToleranceAccepted()
    ensures ValidateArgsAsWritten(Count(4), Count(-1), 10) == Ok((4, -1))
    ensures forall x :: !InWindow(4, -1, x)
    ensures ValidateArgs(Count(4), Count(-1), 10) == Err(NegativeTolerance)
  {
  }

  /** The window check of the source: (num_to_infect - tol) <= x <= (num_to_infect + tol). */
  predicate InWindow(t: int, e: int, x: int)
  {
    t - e <= x <= t + e
  }

  /** After the corrected checks the window always holds the target itself. */
  lemma ValidatedWindowHoldsTarget(target: Amount, tol: Amount, n: nat)
    requires ValidateArgs(target, tol, n).Ok?
    ensures InWindow(ValidateArgs(target, tol, n).value.0, ValidateArgs(target, tol, n).value.1,
                     ValidateArgs(target, tol, n).value.0)
  {
  }

  /** The state of the packing loop: the number infected, comps_to_keep and
      smallest_uninfected_comp (-1 while every component has fitted). */
  datatype Packing = Packing(count: int, kept: seq<nat>, skipped: int)

  /** The packing loop as a function of the components seen so far. */
  function Greedy(s: seq<Component>, target: int): Packing
  {
    if s == [] then Packing(0, [], -1)
    else
      var p := Greedy(s[..|s| - 1], target);
      var i := |s| - 1;
      if p.count + s[i].count > target then Packing(p.count, p.kept, i)
      else Packing(p.count + s[i].count, p.kept + [i], p.skipped)
  }

  /** The loop of limited_infection that adds components while the total does not overshoot. */
  method GreedyPack(s: seq<Component>, target: int) returns (numInfected: int, compsToKeep: seq<nat>, smallestUninfected: int)
    ensures Packing(numInfected, compsToKeep, smallestUninfected) == Greedy(s, target)
  {
    numInfected, compsToKeep, smallestUninfected := 0, [], -1;
    for compI := 0 to |s|
      invariant Packing(numInfected, compsToKeep, smallestUninfected) == Greedy(s[..compI], target)
    {
      assert s[..compI + 1][..compI] == s[..compI];
      if numInfected + s[compI].count > target {
        smallestUninfected := compI;
        continue;
      }
      numInfected := numInfected + s[compI].count;
      compsToKeep := compsToKeep + [compI];
    }
    assert s[..|s|] == s;
  }

  /** Indices below n, strictly increasing. */
  ghost predicate IndicesOk(kept: seq<nat>, n: int)
  {
    && (forall j :: 0 <= j < |kept| ==> kept[j] < n)
    && (forall j, k :: 0 <= j < k < |kept| ==> kept[j] < kept[k])
  }

  /** The total count of the kept components. */
  function SumKept(s: seq<Component>, kept: seq<nat>): int
    requires forall j :: 0 <= j < |kept| ==> kept[j] < |s|
  {
    if kept == [] then 0 else SumKept(s, kept[..|kept| - 1]) + s[kept[|kept| - 1]].count
  }

  lemma SumKeptPrefix(s: seq<Component>, kept: seq<nat>, m: nat)
    requires (forall j :: 0 <= j < |kept| ==> kept[j] < m) && m <= |s|
    ensures SumKept(s[..m], kept) == SumKept(s, kept)
  {
    if kept != [] {
      SumKeptPrefix(s, kept[..|kept| - 1], m);
    }
  }

  /** The packing loop counts the kept components exactly and never overshoots a
      non-negative target. */
  lemma {:induction false} GreedyKept(s: seq<Component>, target: int)
    ensures var p := Greedy(s, target);
            && IndicesOk(p.kept, |s|)
            && p.count == SumKept(s, p.kept)
            && p.count >= 0
            && (target >= 0 ==> p.count <= target)
  {
    if s != [] {
      var n := |s| - 1;
      var p := Greedy(s[..n], target);
      GreedyKept(s[..n], target);
      SumKeptPrefix(s, p.kept, n);
      if p.count + s[n].count <= target {
        var kept := p.kept + [n];
        assert kept[..|kept| - 1] == p.kept;
      }
    }
  }

  /** The packing loop records a skipped component whenever one did not fit, and
      that component would overshoot on top of the final count; with nothing
      skipped the count is the whole population. */
  lemma {:induction false} GreedySkipped(s: seq<Component>, target: int)
    ensures var p := Greedy(s, target);
            && (p.skipped == -1 ==> p.count == SumCounts(s))
            && (p.skipped != -1 ==>
                  0 <= p.skipped < |s| && p.skipped !in p.kept && p.count + s[p.skipped].count > target)
  {
    if s != [] {
      var n := |s| - 1;
      var p := Greedy(s[..n], target);
      GreedySkipped(s[..n], target);
      GreedyKept(s[..n], target);
      if p.skipped != -1 {
        assert s[..n][p.skipped] == s[p.skipped];
      }
    }
  }

  /**
   In the split branch (the kept total is outside a window around a reachable
   target) a component was skipped, and the number still to infect is at least
   one and fewer than that component holds.
   */
  lemma SplitCandidate(s: seq<Component>, t: int, e: int)
    requires 0 <= t <= SumCounts(s) && e >= 0
    requires !InWindow(t, e, Greedy(s, t).count)
    ensures var p := Greedy(s, t);
            && 0 <= p.skipped < |s| && p.skipped !in p.kept
            && 1 <= t - p.count < s[p.skipped].count
  {
    GreedyKept(s, t);
    GreedySkipped(s, t);
  }

  /** set.union of the kept components' uid sets. */
  function KeptUnion(s: seq<Component>, kept: seq<nat>): set<int>
    requires forall j :: 0 <= j < |kept| ==> kept[j] < |s|
  {
    if kept == [] then {} else KeptUnion(s, kept[..|kept| - 1]) + s[kept[|kept| - 1]].uids
  }

  /** set.union(*...) as written: with no set to unite Python raises TypeError. */
  function KeptUnionAsWritten(s: seq<Component>, kept: seq<nat>): (r: Result<set<int>, Error>)
    requires forall j :: 0 <= j < |kept| ==> kept[j] < |s|
    ensures r.Err? <==> kept == []
    ensures r.Ok? ==> r.value == KeptUnion(s, kept)
  {
    if kept == [] then Err(NothingToUnion) else Ok(KeptUnion(s, kept))
  }

  /** A target of 0 keeps no component, so the union as written fails where the
      empty set was meant. */
  lemma NothingKeptFails()
    ensures Greedy([Component({7}, 1)], 0).kept == []
    ensures KeptUnionAsWritten([Component({7}, 1)], []) == Err(NothingToUnion)
    ensures KeptUnion([Component({7}, 1)], []) == {}
  {
  }

  lemma {:induction false} KeptUnionMember(s: seq<Component>, kept: seq<nat>, x: int)
    requires forall j :: 0 <= j < |kept| ==> kept[j] < |s|
    ensures x in KeptUnion(s, kept) <==> exists j :: 0 <= j < |kept| && x in s[kept[j]].uids
  {
    if kept != [] {
      var n := |kept| - 1;
      KeptUnionMember(s, kept[..n], x);
      assert forall j :: 0 <= j < n ==> kept[..n][j] == kept[j];
    }
  }

  /** The kept components of a disjoint catalog hold exactly their total count of uids. */
  lemma {:induction false} KeptUnionSize(s: seq<Component>, kept: seq<nat>)
    requires IndicesOk(kept, |s|) && Disjoint(s) && CountsMatch(s)
    ensures |KeptUnion(s, kept)| == SumKept(s, kept)
  {
    if kept != [] {
      var n := |kept| - 1;
      var last := kept[n];
      assert IndicesOk(kept[..n], |s|);
      KeptUnionSize(s, kept[..n]);
      forall x | x in KeptUnion(s, kept[..n]) ensures x !in s[last].uids {
        KeptUnionMember(s, kept[..n], x);
        var j :| 0 <= j < n && x in s[kept[..n][j]].uids;
        DisjointPairwise(s, kept[j], last);
      }
    }
  }

  /** A component not kept shares no uid with the kept ones. */
  lemma KeptUnionMisses(s: seq<Component>, kept: seq<nat>, i: int)
    requires IndicesOk(kept, |s|) && Disjoint(s) && 0 <= i < |s| && i !in kept
    ensures s[i].uids !! KeptUnion(s, kept)
  {
    forall x | x in KeptUnion(s, kept) && x in s[i].uids ensures false {
      KeptUnionMember(s, kept, x);
      var j :| 0 <= j < |kept| && x in s[kept[j]].uids;
      if kept[j] < i {
        DisjointPairwise(s, kept[j], i);
      } else {
        DisjointPairwise(s, i, kept[j]);
      }
    }
  }

  /** A kept component lies inside the union. */
  lemma KeptUnionHolds(s: seq<Component>, kept: seq<nat>, j: int)
    requires (forall k :: 0 <= k < |kept| ==> kept[k] < |s|) && 0 <= j < |kept|
    ensures s[kept[j]].uids <= KeptUnion(s, kept)
  {
    forall x | x in s[kept[j]].uids ensures x in KeptUnion(s, kept) {
      KeptUnionMember(s, kept, x);
    }
  }

  /** Some but not all of u's component is infected. */
  ghost predicate Partial(g: Graph, u: int, infected: set<int>)
  {
    !(ComponentOf(g, u) <= infected) && !(ComponentOf(g, u) !! infected)
  }

  /** Conflicts are confined to a single component: every other component is
      wholly infected or wholly not. */
  ghost predicate AtMostOneSplit(g: Graph, infected: set<int>)
  {
    forall u, v :: u in g && v in g && Partial(g, u, infected) && Partial(g, v, infected) ==>
      ComponentOf(g, u) == ComponentOf(g, v)
  }

  /** Every user's component is one entry of the catalog. */
  lemma CatalogEntryOf(g: Graph, s: seq<Component>, u: int) returns (i: int)
    requires Valid(g) && AreComponents(g, s) && UnionAll(s) == g.Keys && u in g
    ensures 0 <= i < |s| && ComponentOf(g, u) == s[i].uids && u in s[i].uids
  {
    UnionAllMember(s, u);
    i :| 0 <= i < |s| && u in s[i].uids;
    var w :| w in s[i].uids && s[i].uids == ComponentOf(g, w);
    SameComponent(g, w, u);
  }

  /** With the kept components whole and extra users taken from one other entry k,
      only entry k can be partly infected. */
  lemma OnlySplitEntryPartial(g: Graph, s: seq<Component>, kept: seq<nat>, k: int, extra: set<int>, u: int)
    requires Valid(g) && IsCatalog(g, s) && IndicesOk(kept, |s|) && u in g
    requires extra == {} || (0 <= k < |s| && k !in kept && extra <= s[k].uids)
    ensures Partial(g, u, KeptUnion(s, kept) + extra) ==> extra != {} && ComponentOf(g, u) == s[k].uids
  {
    var i := CatalogEntryOf(g, s, u);
    if j :| 0 <= j < |kept| && kept[j] == i {
      KeptUnionHolds(s, kept, j);
    } else {
      KeptUnionMisses(s, kept, i);
      if extra != {} && i != k {
        if i < k { DisjointPairwise(s, i, k); } else { DisjointPairwise(s, k, i); }
      }
    }
  }

  /** The kept components alone: inside the population, of their total size, and
      no component partly infected. */
  lemma KeptComponentsConfined(g: Graph, s: seq<Component>, kept: seq<nat>)
    requires Valid(g) && IsCatalog(g, s) && IndicesOk(kept, |s|)
    ensures KeptUnion(s, kept) <= g.Keys
    ensures |KeptUnion(s, kept)| == SumKept(s, kept)
    ensures forall u :: u in g ==> !Partial(g, u, KeptUnion(s, kept))
    ensures AtMostOneSplit(g, KeptUnion(s, kept))
  {
    KeptUnionSize(s, kept);
    KeptUnionInKeys(g, s, kept);
    forall u | u in g ensures !Partial(g, u, KeptUnion(s, kept)) {
      OnlySplitEntryPartial(g, s, kept, 0, {}, u);
    }
  }

  /** Every kept uid is a user of the graph. */
  lemma KeptUnionInKeys(g: Graph, s: seq<Component>, kept: seq<nat>)
    requires IsCatalog(g, s) && IndicesOk(kept, |s|)
    ensures KeptUnion(s, kept) <= g.Keys
  {
    forall x | x in KeptUnion(s, kept) ensures x in g.Keys {
      KeptUnionMember(s, kept, x);
      var j :| 0 <= j < |kept| && x in s[kept[j]].uids;
      UnionAllMember(s, x);
    }
  }

  /** The kept components plus part of one skipped entry: a set of the summed size
      with at most that one component partly infected. */
  lemma SplitConfined(g: Graph, s: seq<Component>, kept: seq<nat>, k: int, extra: set<int>)
    requires Valid(g) && IsCatalog(g, s) && IndicesOk(kept, |s|)
    requires 0 <= k < |s| && k !in kept && extra <= s[k].uids
    ensures s[k].uids <= g.Keys
    ensures KeptUnion(s, kept) + extra <= g.Keys
    ensures |KeptUnion(s, kept) + extra| == SumKept(s, kept) + |extra|
    ensures AtMostOneSplit(g, KeptUnion(s, kept) + extra)
  {
    KeptComponentsConfined(g, s, kept);
    forall x | x in s[k].uids ensures x in g.Keys {
      UnionAllMember(s, x);
    }
    KeptUnionMisses(s, kept, k);
    forall u, v | u in g && v in g && Partial(g, u, KeptUnion(s, kept) + extra) && Partial(g, v, KeptUnion(s, kept) + extra)
      ensures ComponentOf(g, u) == ComponentOf(g, v)
    {
      OnlySplitEntryPartial(g, s, kept, k, extra, u);
      OnlySplitEntryPartial(g, s, kept, k, extra, v);
    }
  }

  /** Sorting a catalog gives a catalog. */
  lemma SortedIsCatalog(g: Graph, comps: seq<Component>)
    requires IsCatalog(g, comps)
    ensures IsCatalog(g, SortBySize(comps)) && SumCounts(SortBySize(comps)) == |g.Keys|
  {
    SortKeeps(comps);
    SortedAreComponents(g, comps);
    SumCountsIsSize(comps);
  }

  lemma SortedAreComponents(g: Graph, comps: seq<Component>)
    requires AreComponents(g, comps)
    ensures AreComponents(g, SortBySize(comps))
  {
    var sorted := SortBySize(comps);
    forall i | 0 <= i < |sorted|
      ensures exists u :: u in sorted[i].uids && sorted[i].uids == ComponentOf(g, u)
    {
      assert sorted[i] in multiset(comps);
      var j :| 0 <= j < |comps| && comps[j] == sorted[i];
    }
  }

  /**
   The result of limited_infection described through its steps: `sorted` is the
   catalog sorted largest first, and the result is the union of the components the
   packing loop keeps, plus, when that misses the window, `extra`: a split of the
   last component skipped, of exactly the users still missing.
   */
  ghost predicate Packed(g: Graph, t: int, e: int, infected: set<int>, sorted: seq<Component>, extra: set<int>, start: set<int>)
  {
    && IsCatalog(g, sorted) && NonIncreasing(sorted)
    && var p := Greedy(sorted, t);
       && IndicesOk(p.kept, |sorted|)
       && (InWindow(t, e, p.count) ==> infected == KeptUnion(sorted, p.kept))
       && (!InWindow(t, e, p.count) ==>
             && 0 <= p.skipped < |sorted| && sorted[p.skipped].uids <= g.Keys
             && infected == KeptUnion(sorted, p.kept) + extra
             && SplitOutcome(g, sorted[p.skipped].uids, t - p.count, MaxIter, extra, start))
  }

  /** The split branch of limited_infection: the kept components plus a split of
      the skipped one of exactly the users still missing make t users, with the
      conflicts inside that one component. */
  lemma SplitBranch(g: Graph, t: int, e: int, s: seq<Component>, p: Packing, extra: set<int>, start: set<int>)
    requires Valid(g) && IsCatalog(g, s) && NonIncreasing(s) && SumCounts(s) == |g.Keys|
    requires p == Greedy(s, t) && 0 <= t <= |g.Keys| && e >= 0 && !InWindow(t, e, p.count)
    requires IndicesOk(p.kept, |s|) && 0 <= p.skipped < |s|
    requires SplitOutcome(g, s[p.skipped].uids, t - p.count, MaxIter, extra, start)
    ensures var infected := KeptUnion(s, p.kept) + extra;
            && infected <= g.Keys && |infected| == t && InWindow(t, e, |infected|)
            && AtMostOneSplit(g, infected) && Packed(g, t, e, infected, s, extra, start)
  {
    GreedyKept(s, t);
    SplitCandidate(s, t, e);
    SplitConfined(g, s, p.kept, p.skipped, extra);
  }

  /** The split branch of limited_infection: the kept components plus a split
      of the skipped component of exactly the users still missing. */
  method InfectSplit(g: Graph, t: int, e: int, s: seq<Component>, p: Packing)
    returns (infected: set<int>, ghost extra: set<int>, ghost start: set<int>)
    requires Valid(g) && IsCatalog(g, s) && NonIncreasing(s) && SumCounts(s) == |g.Keys|
    requires p == Greedy(s, t) && 0 <= t <= |g.Keys| && e >= 0 && !InWindow(t, e, p.count)
    requires IndicesOk(p.kept, |s|)
    ensures infected == KeptUnion(s, p.kept) + extra
    ensures infected <= g.Keys && |infected| == t && InWindow(t, e, |infected|)
    ensures AtMostOneSplit(g, infected) && Packed(g, t, e, infected, s, extra, start)
  {
    GreedyKept(s, t);
    SplitCandidate(s, t, e);
    var smallestComp := s[p.skipped].uids;
    var remainingToInfect := t - p.count;
    SplitConfined(g, s, p.kept, p.skipped, {});
    var split, converged;
    split, converged, start := SplitComponent(g, smallestComp, remainingToInfect, MaxIter);
    var more := split.value;
    extra := more;
    SplitBranch(g, t, e, s, p, extra, start);
    infected := KeptUnion(s, p.kept) + more;
  }

  /**
   limited_infection after its argument checks: infect t users, or a number
   within e of t, keeping the conflicting relationships inside at most one
   component. The split never fails on the component it is given.
   */
  method InfectComponents(g: Graph, t: int, e: int)
    returns (infected: set<int>, ghost sorted: seq<Component>, ghost extra: set<int>, ghost start: set<int>)
    requires Valid(g) && 0 <= t <= |g| && e >= 0
    ensures infected <= g.Keys
    ensures InWindow(t, e, |infected|)
    ensures AtMostOneSplit(g, infected)
    ensures |infected| == t || forall u :: u in g ==> !Partial(g, u, infected)
    ensures Packed(g, t, e, infected, sorted, extra, start)
  {
    var comps := BuildCatalog(g);
    var ordered := SortBySize(comps);
    SortedIsCatalog(g, comps);
    sorted := ordered;
    assert |g.Keys| == |g|;

    var numInfected, compsToKeep, smallestUninfected := GreedyPack(ordered, t);
    GreedyKept(ordered, t);
    infected := KeptUnion(ordered, compsToKeep);
    KeptComponentsConfined(g, ordered, compsToKeep);

    if InWindow(t, e, numInfected) {
      extra, start := {}, {};
      return;
    }

    infected, extra, start := InfectSplit(g, t, e, ordered, Packing(numInfected, compsToKeep, smallestUninfected));
  }

  /**
   limited_infection: the argument errors are exactly those of ValidateArgs;
   otherwise the target number of users is infected (or a number within the
   tolerance of it) with the conflicts confined to at most one component.
   */
  method LimitedInfection(g: Graph, target: Amount, tol: Amount)
    returns (r: Result<set<int>, Error>, ghost sorted: seq<Component>, ghost extra: set<int>, ghost start: set<int>)
    requires Valid(g)
    ensures r.Err? <==> ValidateArgs(target, tol, |g|).Err?
    ensures r.Err? ==> r.error == ValidateArgs(target, tol, |g|).error
    ensures r.Ok? ==> r.value <= g.Keys
    ensures r.Ok? ==> InWindow(ValidateArgs(target, tol, |g|).value.0, ValidateArgs(target, tol, |g|).value.1, |r.value|)
    ensures r.Ok? ==> AtMostOneSplit(g, r.value)
    ensures r.Ok? ==> |r.value| == ValidateArgs(target, tol, |g|).value.0 || forall u :: u in g ==> !Partial(g, u, r.value)
    ensures r.Ok? ==> Packed(g, ValidateArgs(target, tol, |g|).value.0, ValidateArgs(target, tol, |g|).value.1, r.value, sorted, extra, start)
  {
    var args := ValidateArgs(target, tol, |g|);
    if args.Err? {
      return Err(args.error), [], {}, {};
    }
    var infected;
    infected, sorted, extra, start := InfectComponents(g, args.value.0, args.value.1);
    r := Ok(infected);
  }
}
