/**
 The engine's view of the user population: a map from uid to the uids of that
 user's students and coaches. Reachability goes through the undirected union of
 the two relations, and a component is everything reachable from a seed.
 */
module Graphs {

  /** One user as the engine reads it: the uids of its students and of its coaches. */
  datatype Node = Node(students: set<int>, coaches: set<int>)

  type Graph = map<int, Node>

  /** students | coaches, the neighbour set every traversal and count walks over. */
  function Neighbours(g: Graph, u: int): set<int>
    requires u in g
  {
    g[u].students + g[u].coaches
  }

  /** Every neighbour of a user is itself a user of the graph. */
  ghost predicate Closed(g: Graph)
  {
    forall u :: u in g ==> Neighbours(g, u) <= g.Keys
  }

  /** The coach/student relation is symmetric: b is a student of a iff a is a coach of b. */
  ghost predicate Symmetric(g: Graph)
  {
    forall a, b :: a in g && b in g ==> (b in g[a].students <==> a in g[b].coaches)
  }

  ghost predicate Valid(g: Graph)
  {
    Closed(g) && Symmetric(g)
  }

  /** The neighbour relation of a valid graph is undirected. */
  lemma NeighbourSymmetric(g: Graph, a: int, b: int)
    requires Valid(g) && a in g && b in Neighbours(g, a)
    ensures b in g && a in Neighbours(g, b)
  {
  }

  /** p is a walk through the graph along neighbour edges. */
  ghost predicate IsPath(g: Graph, p: seq<int>)
  {
    && |p| > 0
    && (forall i :: 0 <= i < |p| ==> p[i] in g)
    && (forall i :: 0 <= i < |p| - 1 ==> p[i] in g && p[i + 1] in Neighbours(g, p[i]))
  }

  ghost predicate Reachable(g: Graph, s: int, t: int)
  {
    exists p :: IsPath(g, p) && p[0] == s && p[|p| - 1] == t
  }

  /** The connected component of s: every user reachable from s. */
  ghost function ComponentOf(g: Graph, s: int): set<int>
  {
    set t | t in g.Keys && Reachable(g, s, t)
  }

  lemma ReachableRefl(g: Graph, s: int)
    requires s in g
    ensures Reachable(g, s, s)
  {
    assert IsPath(g, [s]);
  }

  /** Extending a walk by one neighbour. */
  lemma ReachableStep(g: Graph, s: int, u: int, v: int)
    requires Closed(g) && Reachable(g, s, u) && u in g && v in Neighbours(g, u)
    ensures Reachable(g, s, v)
  {
    var p :| IsPath(g, p) && p[0] == s && p[|p| - 1] == u;
    var q := p + [v];
    assert forall i :: 0 <= i < |p| ==> q[i] == p[i];
    assert IsPath(g, q);
  }

  function Reverse(p: seq<int>): (r: seq<int>)
    ensures |r| == |p|
    ensures forall i :: 0 <= i < |p| ==> r[i] == p[|p| - 1 - i]
  {
    if p == [] then [] else Reverse(p[1..]) + [p[0]]
  }

  lemma {:induction false} ReachableSymmetric(g: Graph, s: int, t: int)
    requires Valid(g) && Reachable(g, s, t)
    ensures Reachable(g, t, s)
  {
    var p :| IsPath(g, p) && p[0] == s && p[|p| - 1] == t;
    var r := Reverse(p);
    forall i | 0 <= i < |r| - 1
      ensures r[i] in g && r[i + 1] in Neighbours(g, r[i])
    {
      var j := |p| - 2 - i;
      assert r[i] == p[j + 1] && r[i + 1] == p[j];
      NeighbourSymmetric(g, p[j], p[j + 1]);
    }
    assert IsPath(g, r);
  }

  lemma {:induction false} ReachableTransitive(g: Graph, s: int, u: int, t: int)
    requires Reachable(g, s, u) && Reachable(g, u, t)
    ensures Reachable(g, s, t)
  {
    var p :| IsPath(g, p) && p[0] == s && p[|p| - 1] == u;
    var q :| IsPath(g, q) && q[0] == u && q[|q| - 1] == t;
    var r := p + q[1..];
    forall i | 0 <= i < |r| - 1
      ensures r[i] in g && r[i + 1] in Neighbours(g, r[i])
    {
      if i < |p| - 1 {
        assert r[i] == p[i] && r[i + 1] == p[i + 1];
      } else {
        var j := i - |p| + 1;
        assert r[i] == q[j] && r[i + 1] == q[j + 1];
      }
    }
    assert IsPath(g, r);
  }

  /** A set that holds s and is closed under neighbours holds everything reachable from s. */
  lemma {:induction false} ClosedSetHoldsReachable(g: Graph, c: set<int>, s: int, t: int)
    requires s in c && Reachable(g, s, t)
    requires forall u :: u in c ==> u in g && Neighbours(g, u) <= c
    ensures t in c
  {
    var p :| IsPath(g, p) && p[0] == s && p[|p| - 1] == t;
    var i := 0;
    while i < |p| - 1
      invariant 0 <= i < |p| && p[i] in c
    {
      assert p[i + 1] in Neighbours(g, p[i]);
      i := i + 1;
    }
  }

  /** Seeding from any member of a component gives back the same component. */
  lemma SameComponent(g: Graph, a: int, b: int)
    requires Valid(g) && b in ComponentOf(g, a)
    ensures ComponentOf(g, a) == ComponentOf(g, b)
  {
    ReachableSymmetric(g, a, b);
    forall t | t in ComponentOf(g, a) ensures t in ComponentOf(g, b) {
      ReachableTransitive(g, b, a, t);
    }
    forall t | t in ComponentOf(g, b) ensures t in ComponentOf(g, a) {
      ReachableTransitive(g, a, b, t);
    }
  }

  /** Two components are equal or do not meet. */
  lemma ComponentsEqualOrDisjoint(g: Graph, a: int, b: int)
    requires Valid(g)
    ensures ComponentOf(g, a) == ComponentOf(g, b) || ComponentOf(g, a) !! ComponentOf(g, b)
  {
    if t :| t in ComponentOf(g, a) && t in ComponentOf(g, b) {
      SameComponent(g, a, t);
      SameComponent(g, b, t);
    }
  }

  lemma ComponentHoldsSeed(g: Graph, s: int)
    requires s in g
    ensures s in ComponentOf(g, s)
  {
    ReachableRefl(g, s);
  }
}
