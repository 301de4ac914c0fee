/**
 _split_component and its helpers: a Kernighan-Lin style bisection of one
 component into an infected part of a required size and the rest, by rounds of
 tentative (infected, uninfected) swaps of which the best prefix is kept.
 */
module Refiner {
  import opened Wrappers
  import opened Graphs
  import opened Sets
  import opened Conflicts

  /** The default max_iter of _split_component. */
  const MaxIter: nat := 10000

  /** The loop shared by _get_D_value and _find_num_conflicts: count the
      neighbours of u that are infected and those that are not. */
  method CountConnections(g: Graph, u: int, infected: set<int>) returns (numInfected: nat, numUninfected: nat)
    requires u in g
    ensures numInfected == |Neighbours(g, u) * infected|
    ensures numUninfected == |Neighbours(g, u) - infected|
  {
    numInfected, numUninfected := 0, 0;
    var conns := Neighbours(g, u);
    ghost var seen: set<int> := {};
    while conns != {}
      invariant seen !! conns && seen + conns == Neighbours(g, u)
      invariant numInfected == |seen * infected| && numUninfected == |seen - infected|
      decreases conns
    {
      ghost var w := Pick(conns);
      var conn :| conn in conns;
      CountStep(seen, conn, infected);
      conns := conns - {conn};
      seen := seen + {conn};
      if conn in infected {
        numInfected := numInfected + 1;
      } else {
        numUninfected := numUninfected + 1;
      }
    }
    assert seen == Neighbours(g, u);
  }

  /** Counting one more neighbour adds one to exactly one of the two counts. */
  lemma CountStep(seen: set<int>, conn: int, infected: set<int>)
    requires conn !in seen
    ensures |(seen + {conn}) * infected| == |seen * infected| + (if conn in infected then 1 else 0)
    ensures |(seen + {conn}) - infected| == |seen - infected| + (if conn in infected then 0 else 1)
  {
    if conn in infected {
      assert (seen + {conn}) * infected == seen * infected + {conn};
      assert (seen + {conn}) - infected == seen - infected;
    } else {
      assert (seen + {conn}) * infected == seen * infected;
      assert (seen + {conn}) - infected == (seen - infected) + {conn};
    }
  }

  /** _get_D_value */
  method GetDValue(g: Graph, u: int, infected: set<int>) returns (d: int)
    requires u in g
    ensures d == |Opposite(g, u, infected)| - |SameSide(g, u, infected)|
  {
    var numConnInfected, numConnUninfected := CountConnections(g, u, infected);
    if u in infected {
      d := numConnUninfected as int - numConnInfected;
    } else {
      d := numConnInfected as int - numConnUninfected;
    }
  }

  /** _find_num_conflicts: how many of u's relationships cross the split. */
  method FindNumConflicts(g: Graph, u: int, infected: set<int>) returns (n: nat)
    requires u in g
    ensures n == |Opposite(g, u, infected)|
  {
    var numConnInfected, numConnUninfected := CountConnections(g, u, infected);
    if u in infected {
      n := numConnUninfected;
    } else {
      n := numConnInfected;
    }
  }

  /** The gain of swapping infected a with uninfected b, from the stored D values. */
  function PairGain(g: Graph, d: map<int, int>, a: int, b: int): int
    requires a in d && b in d && b in g
  {
    d[a] + d[b] - 2 * (if Connected(g, a, b) then 1 else 0)
  }

  /** The D-value pass of one step: recompute D for every uid in uids. */
  method ComputeDValues(g: Graph, uids: set<int>, infected: set<int>, d: map<int, int>) returns (d': map<int, int>)
    requires uids <= g.Keys
    ensures forall u :: u in uids ==> u in d' && d'[u] == DValue(g, u, infected)
    ensures forall u :: u in d && u !in uids ==> u in d' && d'[u] == d[u]
    ensures d'.Keys == d.Keys + uids
  {
    d' := d;
    var todo := uids;
    while todo != {}
      invariant todo <= uids
      invariant forall u :: u in uids - todo ==> u in d' && d'[u] == DValue(g, u, infected)
      invariant forall u :: u in d && u !in uids ==> u in d' && d'[u] == d[u]
      invariant d'.Keys == d.Keys + (uids - todo)
      decreases todo
    {
      ghost var w := Pick(todo);
      var uid :| uid in todo;
      todo := todo - {uid};
      var dv := GetDValue(g, uid, infected);
      d' := d'[uid := dv];
    }
  }

  /**
   The pair search of one step: the unlocked infected / uninfected pair of
   largest gain.
   */
  method BestPair(g: Graph, d: map<int, int>, infected: set<int>, locked: set<int>, users: set<int>)
    returns (a: int, b: int, best: int)
    requires users <= g.Keys && infected <= users
    requires users - locked <= d.Keys
    requires infected - locked != {} && users - infected - locked != {}
    ensures a in infected - locked && b in users - infected - locked
    ensures best == PairGain(g, d, a, b)
    ensures forall x, y :: x in infected - locked && y in users - infected - locked ==> PairGain(g, d, x, y) <= best
  {
    var found := false;
    a, b, best := 0, 0, 0;
    var infs := infected - locked;
    var nons := users - infected - locked;
    ghost var done: set<int> := {};
    while infs != {}
      invariant infs <= infected - locked && done == (infected - locked) - infs
      invariant found ==> a in infected - locked && b in nons && best == PairGain(g, d, a, b)
      invariant forall x, y :: x in done && y in nons ==> found && PairGain(g, d, x, y) <= best
      decreases infs
    {
      ghost var w := Pick(infs);
      var inf :| inf in infs;
      infs := infs - {inf};
      var rest := nons;
      while rest != {}
        invariant rest <= nons
        invariant found ==> a in infected - locked && b in nons && best == PairGain(g, d, a, b)
        invariant forall x, y :: x in done && y in nons ==> found && PairGain(g, d, x, y) <= best
        invariant forall y :: y in nons - rest ==> found && PairGain(g, d, inf, y) <= best
        decreases rest
      {
        ghost var w' := Pick(rest);
        var nonInf :| nonInf in rest;
        rest := rest - {nonInf};
        var gValue := PairGain(g, d, inf, nonInf);
        if !found || gValue > best {
          best, a, b, found := gValue, inf, nonInf, true;
        }
      }
      assert nons - rest == nons;
      done := done + {inf};
    }
    assert found by {
      ghost var x := Pick(infected - locked);
      ghost var y := Pick(nons);
      assert x in done && y in nons;
    }
  }

  function Sum(s: seq<int>): int
  {
    if s == [] then 0 else Sum(s[..|s| - 1]) + s[|s| - 1]
  }

  /**
   _find_max_left_justified_subarray: the shortest prefix whose sum is the
   largest of all prefix sums, the empty prefix (sum 0) included.
   */
  method MaxLeftJustifiedPrefix(a: seq<int>) returns (k: nat)
    ensures k <= |a|
    ensures forall j :: 0 <= j <= |a| ==> Sum(a[..j]) <= Sum(a[..k])
    ensures forall j :: 0 <= j < k ==> Sum(a[..j]) < Sum(a[..k])
    ensures k == 0 <==> forall j :: 0 <= j <= |a| ==> Sum(a[..j]) <= 0
  {
    k := 0;
    var maxSum := 0;
    assert a[..0] == [];
    var ii := 0;
    while ii < |a|
      invariant 0 <= ii <= |a| && k <= ii
      invariant maxSum == Sum(a[..k])
      invariant forall j :: 0 <= j <= ii ==> Sum(a[..j]) <= maxSum
      invariant forall j :: 0 <= j < k ==> Sum(a[..j]) < maxSum
    {
      var currentSum := Sum(a[..ii + 1]);
      if currentSum > maxSum {
        maxSum := currentSum;
        k := ii + 1;
      }
      ii := ii + 1;
    }
  }

  /** _toggle_infected: flip the infected status of each uid in turn; a uid
      listed twice flips back. */
  method ToggleInfected(uids: seq<int>, infected: set<int>) returns (r: set<int>)
    ensures forall x :: x in r <==> (x in infected <==> multiset(uids)[x] % 2 == 0)
  {
    r := infected;
    var i := 0;
    while i < |uids|
      invariant 0 <= i <= |uids|
      invariant forall x :: x in r <==> (x in infected <==> multiset(uids[..i])[x] % 2 == 0)
    {
      assert uids[..i + 1] == uids[..i] + [uids[i]];
      var uid := uids[i];
      if uid in r {
        r := r - {uid};
      } else {
        r := r + {uid};
      }
      i := i + 1;
    }
    assert uids[..i] == uids;
  }

  /** Toggling an (infected, uninfected) pair swaps the two. */
  lemma ToggleSwaps(infected: set<int>, r: set<int>, a: int, b: int)
    requires a in infected && b !in infected
    requires forall x :: x in r <==> (x in infected <==> multiset([a, b])[x] % 2 == 0)
    ensures r == Swap(infected, (a, b))
  {
    forall x ensures x in r <==> x in Swap(infected, (a, b)) {
      assert multiset([a, b])[x] == (if x == a then 1 else 0) + (if x == b then 1 else 0);
    }
  }

  /** The split after swapping every pair of ps in order. */
  function ApplyPairs(infected: set<int>, ps: seq<(int, int)>): set<int>
  {
    if ps == [] then infected else Swap(ApplyPairs(infected, ps[..|ps| - 1]), ps[|ps| - 1])
  }

  /** Each pair of ps, at its turn, is one infected user and one uninfected user of users. */
  ghost predicate PairsValid(users: set<int>, infected: set<int>, ps: seq<(int, int)>)
  {
    ps == [] ||
    (var cur := ApplyPairs(infected, ps[..|ps| - 1]);
     var p := ps[|ps| - 1];
     PairsValid(users, infected, ps[..|ps| - 1]) && p.0 in cur && p.1 !in cur && p.1 in users)
  }

  lemma PairsPush(users: set<int>, infected: set<int>, ps: seq<(int, int)>, p: (int, int))
    ensures ApplyPairs(infected, ps + [p]) == Swap(ApplyPairs(infected, ps), p)
    ensures PairsValid(users, infected, ps + [p]) <==>
      PairsValid(users, infected, ps) && p.0 in ApplyPairs(infected, ps) && p.1 !in ApplyPairs(infected, ps) && p.1 in users
  {
    assert (ps + [p])[..|ps|] == ps;
  }

  lemma {:induction false} PairsValidPrefix(users: set<int>, infected: set<int>, ps: seq<(int, int)>, j: nat)
    requires PairsValid(users, infected, ps) && j <= |ps|
    ensures PairsValid(users, infected, ps[..j])
    decreases |ps|
  {
    if j < |ps| {
      var n := |ps| - 1;
      PairsValidPrefix(users, infected, ps[..n], j);
      assert ps[..n][..j] == ps[..j];
    } else {
      assert ps[..j] == ps;
    }
  }

  /** Swapping valid pairs keeps the size of the infected side and keeps it inside users. */
  lemma {:induction false} PairsKeepSize(users: set<int>, infected: set<int>, ps: seq<(int, int)>)
    requires PairsValid(users, infected, ps) && infected <= users
    ensures |ApplyPairs(infected, ps)| == |infected| && ApplyPairs(infected, ps) <= users
  {
    if ps != [] {
      PairsKeepSize(users, infected, ps[..|ps| - 1]);
    }
  }

  /** gv[n] is the gain of the n-th pair of ps, in the split the earlier pairs left. */
  ghost predicate GainsMatch(g: Graph, infected: set<int>, ps: seq<(int, int)>, gv: seq<int>)
  {
    && |ps| == |gv|
    && forall n :: 0 <= n < |ps| ==>
         ps[n].0 in g && ps[n].1 in g && gv[n] == Gain(g, ApplyPairs(infected, ps[..n]), ps[n].0, ps[n].1)
  }

  lemma GainsPush(g: Graph, infected: set<int>, ps: seq<(int, int)>, gv: seq<int>, p: (int, int), v: int)
    requires GainsMatch(g, infected, ps, gv)
    requires p.0 in g && p.1 in g && v == Gain(g, ApplyPairs(infected, ps), p.0, p.1)
    ensures GainsMatch(g, infected, ps + [p], gv + [v])
  {
    var ps', gv' := ps + [p], gv + [v];
    forall n | 0 <= n < |ps'|
      ensures ps'[n].0 in g && ps'[n].1 in g && gv'[n] == Gain(g, ApplyPairs(infected, ps'[..n]), ps'[n].0, ps'[n].1)
    {
      if n < |ps| {
        assert ps'[..n] == ps[..n] && ps'[n] == ps[n] && gv'[n] == gv[n];
      } else {
        assert ps'[..n] == ps;
      }
    }
  }

  /**
   The heart of the method: committing the first k pairs of a pass lowers the
   conflicts of the group by twice the sum of their gains.
   */
  lemma {:induction false} PairsLowerConflicts(g: Graph, users: set<int>, infected: set<int>, ps: seq<(int, int)>, gv: seq<int>, k: nat)
    requires SimpleGroup(g, users) && infected <= users
    requires PairsValid(users, infected, ps) && GainsMatch(g, infected, ps, gv) && k <= |ps|
    ensures ConflictCount(g, users, ApplyPairs(infected, ps[..k])) == ConflictCount(g, users, infected) - 2 * Sum(gv[..k])
  {
    if k == 0 {
      assert ps[..0] == [] && gv[..0] == [];
    } else {
      PairsLowerConflicts(g, users, infected, ps, gv, k - 1);
      PairLowersConflicts(g, users, infected, ps, gv, k - 1);
      SumPush(gv, k - 1);
    }
  }

  lemma SumPush(s: seq<int>, k: nat)
    requires k < |s|
    ensures Sum(s[..k + 1]) == Sum(s[..k]) + s[k]
  {
    assert s[..k + 1][..k] == s[..k];
  }

  /** Committing pair k on top of the pairs before it lowers the conflicts by twice its gain. */
  lemma PairLowersConflicts(g: Graph, users: set<int>, infected: set<int>, ps: seq<(int, int)>, gv: seq<int>, k: nat)
    requires SimpleGroup(g, users) && infected <= users
    requires PairsValid(users, infected, ps) && GainsMatch(g, infected, ps, gv) && k < |ps|
    ensures ConflictCount(g, users, ApplyPairs(infected, ps[..k + 1]))
         == ConflictCount(g, users, ApplyPairs(infected, ps[..k])) - 2 * gv[k]
  {
    var cur := ApplyPairs(infected, ps[..k]);
    var p := ps[k];
    assert ps[..k + 1][..k] == ps[..k];
    assert ApplyPairs(infected, ps[..k + 1]) == Swap(cur, p);
    PairsValidPrefix(users, infected, ps, k + 1);
    PairsValidPrefix(users, infected, ps, k);
    PairsKeepSize(users, infected, ps[..k]);
    SwapChangesConflicts(g, users, cur, p.0, p.1);
  }

  /** The number of users the initial split infects: min(remaining, |users|), and
      one user even when remaining is not positive. */
  function InitialSize(n: nat, remaining: int): (r: nat)
    ensures r <= n && (r == 0 <==> n == 0)
    ensures 1 <= remaining <= n ==> r == remaining
    ensures remaining >= n ==> r == n
  {
    if n == 0 then 0 else if remaining <= 1 then 1 else if remaining <= n then remaining else n
  }

  /**
   The tentative pass of one round: `steps` times, recompute D for the users not
   yet locked, take the best (infected, uninfected) pair among them, lock both and
   swap them in a working copy of the split. Returns the pairs in the order taken
   with their gains.
   */
  method SwapPass(g: Graph, users: set<int>, infected: set<int>, steps: int)
    returns (gPairs: seq<(int, int)>, gValues: seq<int>, scored: set<int>)
    requires users <= g.Keys && infected <= users
    requires steps <= |infected| && steps <= |users| - |infected|
    ensures |gPairs| == |gValues| == (if steps < 0 then 0 else steps)
    ensures PairsValid(users, infected, gPairs)
    ensures steps >= 1 ==> users <= scored
    ensures steps <= 0 ==> scored == {}
    ensures GainsMatch(g, infected, gPairs, gValues)
    ensures |gValues| >= 1 ==> FirstIsBest(g, users, infected, gValues)
  {
    scored := {};
    gValues := [];
    gPairs := [];
    var tempInf := infected;
    var completed: set<int> := {};
    var nn := 0;
    while nn < steps
      invariant 0 <= nn && (nn == 0 || nn <= steps)
      invariant PassInv(users, infected, tempInf, completed, nn, gPairs) && |gValues| == nn
      invariant nn == 0 ==> scored == {}
      invariant nn >= 1 ==> users <= scored
      invariant GainsMatch(g, infected, gPairs, gValues)
      invariant nn >= 1 ==> FirstIsBest(g, users, infected, gValues)
    {
      assert tempInf - completed != {} && users - tempInf - completed != {} by {
        Unlocked(users, tempInf, completed, nn, steps);
      }
      var a, b, best, toggled, scoredNow := SwapStep(g, users, tempInf, completed);
      if nn == 0 {
        FirstStep(users, infected, tempInf, completed, gPairs);
        FirstIsBestStart(g, users, infected, best);
      } else {
        FirstIsBestPush(g, users, infected, gValues, best);
      }
      scored := scored + scoredNow;
      GainsPush(g, infected, gPairs, gValues, (a, b), best);
      assert PassInv(users, infected, toggled, completed + {a, b}, nn + 1, gPairs + [(a, b)]) by {
        PassStep(users, infected, tempInf, completed, nn, gPairs, a, b);
      }
      completed := completed + {a, b};
      gPairs := gPairs + [(a, b)];
      gValues := gValues + [best];
      tempInf := toggled;
      nn := nn + 1;
    }
  }

  /** The first gain of a pass is the best gain of any exchange in the split the pass started from. */
  ghost predicate FirstIsBest(g: Graph, users: set<int>, infected: set<int>, gv: seq<int>)
    requires users <= g.Keys && infected <= users
  {
    |gv| >= 1 && forall x, y :: x in infected && y in users - infected ==> Gain(g, infected, x, y) <= gv[0]
  }

  lemma FirstIsBestStart(g: Graph, users: set<int>, infected: set<int>, best: int)
    requires users <= g.Keys && infected <= users
    requires forall x, y :: x in infected - {} && y in users - infected - {} ==> Gain(g, infected, x, y) <= best
    ensures FirstIsBest(g, users, infected, [] + [best])
  {
    assert ([] + [best])[0] == best;
    assert users - infected - {} == users - infected && infected - {} == infected;
  }

  lemma FirstIsBestPush(g: Graph, users: set<int>, infected: set<int>, gv: seq<int>, v: int)
    requires users <= g.Keys && infected <= users && FirstIsBest(g, users, infected, gv)
    ensures FirstIsBest(g, users, infected, gv + [v])
  {
    assert (gv + [v])[0] == gv[0];
  }

  /** Before the first step nothing is locked and the working split is the start. */
  lemma FirstStep(users: set<int>, infected: set<int>, tempInf: set<int>, completed: set<int>, gPairs: seq<(int, int)>)
    requires PassInv(users, infected, tempInf, completed, 0, gPairs)
    ensures completed == {} && tempInf == infected && gPairs == []
  {
    NothingLocked(users, infected, tempInf, completed, gPairs);
  }

  /** The state of a pass after nn steps: nn users locked on each side, and the
      working split is the start with the nn pairs swapped. */
  ghost predicate PassInv(users: set<int>, infected: set<int>, tempInf: set<int>, completed: set<int>, nn: int, gPairs: seq<(int, int)>)
  {
    && tempInf <= users && |tempInf| == |infected| && completed <= users
    && |tempInf * completed| == nn && |completed - tempInf| == nn
    && |gPairs| == nn
    && PairsValid(users, infected, gPairs) && tempInf == ApplyPairs(infected, gPairs)
  }

  /** Before the first step nothing is locked. */
  lemma NothingLocked(users: set<int>, infected: set<int>, tempInf: set<int>, completed: set<int>, gPairs: seq<(int, int)>)
    requires PassInv(users, infected, tempInf, completed, 0, gPairs)
    ensures completed == {}
  {
    assert completed == (tempInf * completed) + (completed - tempInf);
  }

  lemma PassStep(users: set<int>, infected: set<int>, tempInf: set<int>, completed: set<int>, nn: int, gPairs: seq<(int, int)>, a: int, b: int)
    requires PassInv(users, infected, tempInf, completed, nn, gPairs)
    requires a in tempInf - completed && b in users - tempInf - completed
    ensures PassInv(users, infected, Swap(tempInf, (a, b)), completed + {a, b}, nn + 1, gPairs + [(a, b)])
  {
    PairsPush(users, infected, gPairs, (a, b));
    LockStep(users, tempInf, completed, a, b);
  }

  /** One step of the pass: score the unlocked users, pick the best pair and swap it. */
  method SwapStep(g: Graph, users: set<int>, tempInf: set<int>, completed: set<int>)
    returns (a: int, b: int, best: int, toggled: set<int>, scored: set<int>)
    requires users <= g.Keys && tempInf <= users
    requires tempInf - completed != {} && users - tempInf - completed != {}
    ensures a in tempInf - completed && b in users - tempInf - completed
    ensures toggled == Swap(tempInf, (a, b))
    ensures scored == users - completed
    ensures best == Gain(g, tempInf, a, b)
    ensures forall x, y :: x in tempInf - completed && y in users - tempInf - completed ==> Gain(g, tempInf, x, y) <= best
  {
    var d := ComputeDValues(g, users - completed, tempInf, map[]);
    scored := d.Keys;
    a, b, best := BestPair(g, d, tempInf, completed, users);
    forall x, y | x in tempInf - completed && y in users - tempInf - completed
      ensures Gain(g, tempInf, x, y) <= best
    {
      assert PairGain(g, d, x, y) == Gain(g, tempInf, x, y);
    }
    toggled := ToggleInfected([a, b], tempInf);
    ToggleSwaps(tempInf, toggled, a, b);
  }

  /** While fewer than `steps` pairs are locked, both sides still have an unlocked user. */
  lemma Unlocked(users: set<int>, tempInf: set<int>, completed: set<int>, nn: int, steps: int)
    requires tempInf <= users && completed <= users
    requires |tempInf * completed| == nn && |completed - tempInf| == nn
    requires nn < steps && steps <= |tempInf| && steps <= |users| - |tempInf|
    ensures tempInf - completed != {} && users - tempInf - completed != {}
  {
    SideUnlocked(tempInf, completed, nn);
    assert (users - tempInf) * completed == completed - tempInf;
    SubsetSize(tempInf, users);
    SideUnlocked(users - tempInf, completed, nn);
  }

  /** A side with more users than it has locked still has an unlocked one. */
  lemma SideUnlocked(side: set<int>, completed: set<int>, nn: int)
    requires |side * completed| == nn && nn < |side|
    ensures side - completed != {}
  {
    assert side == (side - completed) + side * completed;
    DisjointUnionSize(side - completed, side * completed);
  }

  /** Locking and swapping one pair adds one locked user on each side. */
  lemma LockStep(users: set<int>, tempInf: set<int>, completed: set<int>, a: int, b: int)
    requires a in tempInf - completed && b in users - tempInf - completed
    ensures Swap(tempInf, (a, b)) * (completed + {a, b}) == tempInf * completed + {b}
    ensures (completed + {a, b}) - Swap(tempInf, (a, b)) == (completed - tempInf) + {a}
    ensures |Swap(tempInf, (a, b))| == |tempInf|
  {
  }

  /** The source's first loop: infect users one by one until `remaining` are
      infected (at least one, at most all). */
  method InitialSplit(users: set<int>, remaining: int) returns (infected: set<int>)
    ensures infected <= users
    ensures |infected| == InitialSize(|users|, remaining)
  {
    infected := {};
    var order := users;
    var userI := 0;
    while order != {}
      invariant order <= users && infected <= users && infected !! order && infected + order == users
      invariant |infected| == userI && (userI == 0 || userI < remaining)
      decreases order
    {
      ghost var w := Pick(order);
      var user :| user in order;
      assert user !in infected;
      order := order - {user};
      infected := infected + {user};
      if userI + 1 >= remaining {
        assert |infected| == userI + 1;
        SubsetSize(infected, users);
        StopSize(|users|, remaining, userI);
        return;
      }
      userI := userI + 1;
    }
    assert infected == users;
    EndSize(|users|, remaining);
  }

  /** The first loop stops after userI + 1 users once that reaches remaining. */
  lemma StopSize(n: nat, remaining: int, userI: nat)
    requires userI + 1 >= remaining && (userI == 0 || userI < remaining) && userI + 1 <= n
    ensures InitialSize(n, remaining) == userI + 1
  {
  }

  /** Or runs out of users first. */
  lemma EndSize(n: nat, remaining: int)
    requires n == 0 || n < remaining
    ensures InitialSize(n, remaining) == n
  {
  }

  /** The commit loop of a round: swap the first k pairs of the pass into the split. */
  method CommitPairs(users: set<int>, infected: set<int>, ps: seq<(int, int)>, k: nat) returns (r: set<int>)
    requires infected <= users && PairsValid(users, infected, ps) && k <= |ps|
    ensures r == ApplyPairs(infected, ps[..k])
    ensures r <= users && |r| == |infected|
  {
    r := infected;
    var gPairI := 0;
    while gPairI < k
      invariant 0 <= gPairI <= k
      invariant r == ApplyPairs(infected, ps[..gPairI])
    {
      PairsValidPrefix(users, infected, ps, gPairI + 1);
      assert ps[..gPairI + 1] == ps[..gPairI] + [ps[gPairI]];
      PairsPush(users, infected, ps[..gPairI], ps[gPairI]);
      var uidsToSwitch := ps[gPairI];
      var toggled := ToggleInfected([uidsToSwitch.0, uidsToSwitch.1], r);
      ToggleSwaps(r, toggled, uidsToSwitch.0, uidsToSwitch.1);
      r := toggled;
      gPairI := gPairI + 1;
    }
    PairsValidPrefix(users, infected, ps, k);
    PairsKeepSize(users, infected, ps[..k]);
  }

  /** When no prefix of a pass gains, neither does its first, best pair: the split
      the pass started from has no gaining exchange. */
  lemma NoGainWhenNoPrefixGains(g: Graph, users: set<int>, infected: set<int>, gv: seq<int>, k: nat)
    requires users <= g.Keys && infected <= users && k <= |gv| && FirstIsBest(g, users, infected, gv)
    requires forall j :: 0 <= j <= |gv| ==> Sum(gv[..j]) <= Sum(gv[..k])
    requires Sum(gv[..k]) <= 0
    ensures NoGainingSwap(g, users, infected)
  {
    assert gv[..1][..0] == [];
    assert Sum(gv[..1]) == gv[0];
  }

  /**
   What a successful split of a non-empty component promises: `remaining` users of
   the component, no more conflicts than the initial split, and either no exchange
   gains or every one of the maxIter rounds removed at least two conflicts.
   */
  ghost predicate SplitOutcome(g: Graph, users: set<int>, remaining: int, maxIter: nat, r: set<int>, start: set<int>)
    requires users <= g.Keys
  {
    && start <= users && |start| == InitialSize(|users|, remaining)
    && r <= users && |r| == remaining
    && (SimpleGroup(g, users) ==>
          && ConflictCount(g, users, r) <= ConflictCount(g, users, start)
          && (NoGainingSwap(g, users, r) || ConflictCount(g, users, r) + 2 * maxIter <= ConflictCount(g, users, start)))
  }

  /** The error of the source's final `del user._d`: some user was never given a D value. */
  datatype SplitError = NoDValue

  /**
   _split_component: infect exactly `remaining` users of the component `users`,
   moved towards fewer conflicts by rounds of gain-ordered swaps. The D values
   are first computed in the first step of the first round, so the source fails
   when no step or no round runs. `converged` is false when max_iter rounds ran
   out (the source's warning).
   */
  method SplitComponent(g: Graph, users: set<int>, remaining: int, maxIter: nat)
    returns (r: Result<set<int>, SplitError>, converged: bool, ghost start: set<int>)
    requires users <= g.Keys
    ensures start <= users && |start| == InitialSize(|users|, remaining)
    ensures r.Ok? <==> users == {} || (maxIter >= 1 && 1 <= remaining < |users|)
    ensures r.Ok? ==> r.value <= users && |r.value| == (if users == {} then 0 else remaining)
    ensures r.Ok? && SimpleGroup(g, users) ==> ConflictCount(g, users, r.value) <= ConflictCount(g, users, start)
    ensures r.Ok? && converged ==> NoGainingSwap(g, users, r.value)
    ensures r.Ok? && !converged && SimpleGroup(g, users) ==>
      ConflictCount(g, users, r.value) + 2 * maxIter <= ConflictCount(g, users, start)
    ensures r.Ok? && SimpleGroup(g, users) && |users| * |users| < 2 * maxIter ==> converged
    ensures r.Ok? && users != {} ==> SplitOutcome(g, users, remaining, maxIter, r.value, start)
  {
    var numUninfected := |users| - remaining;
    var infected := InitialSplit(users, remaining);
    start := infected;
    ghost var size := |infected|;

    var scored: set<int> := {};
    var steps := if remaining < numUninfected then remaining else numUninfected;
    var round := 0;
    converged := false;
    while round < maxIter
      invariant round <= maxIter
      invariant infected <= users && |infected| == size
      invariant round >= 1 && steps >= 1 ==> users <= scored
      invariant !(round >= 1 && steps >= 1) ==> scored == {}
      invariant !converged
      invariant SimpleGroup(g, users) ==> ConflictCount(g, users, infected) + 2 * round <= ConflictCount(g, users, start)
      decreases maxIter - round
    {
      var gPairs, gValues, scoredNow := SwapPass(g, users, infected, steps);
      scored := scored + scoredNow;

      // keep the best prefix of this round's swaps, if it gains anything
      var subarrayLength := MaxLeftJustifiedPrefix(gValues);
      var gMax := Sum(gValues[..subarrayLength]);
      if gMax <= 0 {
        if steps >= 1 {
          NoGainWhenNoPrefixGains(g, users, infected, gValues, subarrayLength);
        }
        converged := true;
        break;
      }
      ghost var before := infected;
      infected := CommitPairs(users, infected, gPairs, subarrayLength);
      if SimpleGroup(g, users) {
        PairsLowerConflicts(g, users, before, gPairs, gValues, subarrayLength);
      }
      round := round + 1;
    }

    if SimpleGroup(g, users) {
      ConflictCountBound(g, users, users, start);
    }
    // `del user._d` for every user
    if !(users <= scored) {
      return Err(NoDValue), converged, start;
    }
    r := Ok(infected);
  }
}
