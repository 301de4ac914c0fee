/**
 What _split_component minimises: the conflicting relationships of a split, a
 student and a coach on different sides. The D values and pair gains of the
 Kernighan-Lin refinement measure how an exchange changes that number.
 */
module Conflicts {
  import opened Graphs
  import opened Sets

  /** Neighbours of u on the other side of the split from u: its conflicting relationships. */
  function Opposite(g: Graph, u: int, infected: set<int>): set<int>
    requires u in g
  {
    if u in infected then Neighbours(g, u) - infected else Neighbours(g, u) * infected
  }

  /** Neighbours of u on its own side of the split. */
  function SameSide(g: Graph, u: int, infected: set<int>): set<int>
    requires u in g
  {
    if u in infected then Neighbours(g, u) * infected else Neighbours(g, u) - infected
  }

  /** The Kernighan-Lin D value of u: external minus internal connections. */
  function DValue(g: Graph, u: int, infected: set<int>): int
    requires u in g
  {
    |Opposite(g, u, infected)| - |SameSide(g, u, infected)|
  }

  /** D is the conflicts a user has minus the relationships it keeps on its side:
      twice its conflicts less its degree. */
  lemma DValueFromConflicts(g: Graph, u: int, infected: set<int>)
    requires u in g
    ensures DValue(g, u, infected) == 2 * |Opposite(g, u, infected)| - |Neighbours(g, u)|
  {
    var n := Neighbours(g, u);
    assert n == (n - infected) + (n * infected);
    assert (n - infected) !! (n * infected);
  }

  /** _are_connected(a, b): a is a student or a coach of b. */
  predicate Connected(g: Graph, a: int, b: int)
    requires b in g
  {
    a in Neighbours(g, b)
  }

  lemma ConnectedSymmetric(g: Graph, a: int, b: int)
    requires Valid(g) && a in g && b in g
    ensures Connected(g, a, b) <==> Connected(g, b, a)
  {
    if Connected(g, a, b) { NeighbourSymmetric(g, b, a); }
    if Connected(g, b, a) { NeighbourSymmetric(g, a, b); }
  }

  /** Swap pair p = (infected, uninfected) across the split. */
  function Swap(infected: set<int>, p: (int, int)): set<int>
  {
    (infected - {p.0}) + {p.1}
  }

  /** The gain of exchanging infected a with uninfected b: D(a) + D(b) - 2 c(a, b). */
  function Gain(g: Graph, infected: set<int>, a: int, b: int): int
    requires a in g && b in g
  {
    DValue(g, a, infected) + DValue(g, b, infected) - 2 * (if Connected(g, a, b) then 1 else 0)
  }

  /**
   What the gain arithmetic assumes of the users being split: a valid graph,
   every relationship of a member inside the group (a whole component is), and
   nobody their own student or coach.
   */
  ghost predicate SimpleGroup(g: Graph, users: set<int>)
  {
    && Valid(g)
    && users <= g.Keys
    && (forall u :: u in users ==> Neighbours(g, u) <= users)
    && (forall u :: u in users ==> u !in Neighbours(g, u))
  }

  /** The conflicting relationships seen from the users of us: each user paired
      with every neighbour on the other side of the split. A relationship between
      two users of us appears once from each end, as in limited_infection's report. */
  ghost function ConflictPairs(g: Graph, us: set<int>, infected: set<int>): set<(int, int)>
    requires us <= g.Keys
  {
    set u, v | u in us && v in Opposite(g, u, infected) :: (u, v)
  }

  ghost function ConflictCount(g: Graph, us: set<int>, infected: set<int>): nat
    requires us <= g.Keys
  {
    |ConflictPairs(g, us, infected)|
  }

  /** The count is the sum of the users' own conflicts, taken from any member. */
  lemma ConflictCountRemove(g: Graph, us: set<int>, infected: set<int>, x: int)
    requires us <= g.Keys && x in us
    ensures ConflictCount(g, us, infected) == |Opposite(g, x, infected)| + ConflictCount(g, us - {x}, infected)
  {
    var row := set v | v in Opposite(g, x, infected) :: (x, v);
    forall p | p in ConflictPairs(g, us, infected)
      ensures p in ConflictPairs(g, us - {x}, infected) + row
    {
      if p.0 != x {
        assert p.0 in us - {x} && p.1 in Opposite(g, p.0, infected);
      }
    }
    assert ConflictPairs(g, us, infected) == ConflictPairs(g, us - {x}, infected) + row;
    assert ConflictPairs(g, us - {x}, infected) !! row;
    DisjointUnionSize(ConflictPairs(g, us - {x}, infected), row);
    forall p: (int, int) ensures p in row <==> p.0 == x && p.1 in Opposite(g, x, infected) {
      if p.0 == x && p.1 in Opposite(g, x, infected) {
        var v := p.1;
        assert (x, v) in row;
        assert p == (x, v);
      }
    }
    RowSize(x, Opposite(g, x, infected), row);
  }

  /** Each member of us has at most |users| conflicts when its relationships stay
      within users, so the count is at most |us| * |users|. */
  lemma {:induction false} ConflictCountBound(g: Graph, users: set<int>, us: set<int>, infected: set<int>)
    requires us <= users <= g.Keys
    requires forall u :: u in users ==> Neighbours(g, u) <= users
    ensures ConflictCount(g, us, infected) <= |us| * |users|
    decreases us
  {
    if us == {} {
      ConflictCountEmpty(g, infected);
    } else {
      var x := Pick(us);
      ConflictCountRemove(g, us, infected, x);
      ConflictCountBound(g, users, us - {x}, infected);
      SubsetSize(Opposite(g, x, infected), users);
      RemoveOneSize(us, x);
    }
  }

  lemma ConflictCountEmpty(g: Graph, infected: set<int>)
    ensures ConflictCount(g, {}, infected) == 0
  {
    assert ConflictPairs(g, {}, infected) == {};
  }

  /**
   How exchanging a and b changes the conflicts of the users of us, in closed
   form: a and b themselves lose their D value and keep the edge between them;
   every other user gains or loses one conflict per relationship with a or b.
   */
  ghost function SwapDelta(g: Graph, us: set<int>, infected: set<int>, a: int, b: int): int
    requires a in g && b in g
  {
    var na, nb := Neighbours(g, a), Neighbours(g, b);
    |us * (infected * na - {a, b})| - |us * (infected * nb - {a, b})|
    + |us * (nb - infected - {a, b})| - |us * (na - infected - {a, b})|
    + (if a in us then (if b in na then 1 else 0) - DValue(g, a, infected) else 0)
    + (if b in us then (if a in nb then 1 else 0) - DValue(g, b, infected) else 0)
  }

  /** How the part of a set n on the infected side changes when a (infected) and
      b (uninfected) change sides. */
  lemma SwapInside(n: set<int>, infected: set<int>, a: int, b: int)
    requires a in infected && b !in infected
    ensures |n * Swap(infected, (a, b))| == |n * infected| - (if a in n then 1 else 0) + (if b in n then 1 else 0)
  {
    var s' := Swap(infected, (a, b));
    RemoveOneSize(n * infected, a);
    if b in n {
      assert n * s' == ((n * infected) - {a}) + {b};
    } else {
      assert n * s' == (n * infected) - {a};
    }
  }

  /** The same for the part of n on the uninfected side. */
  lemma SwapOutside(n: set<int>, infected: set<int>, a: int, b: int)
    requires a in infected && b !in infected
    ensures |n - Swap(infected, (a, b))| == |n - infected| + (if a in n then 1 else 0) - (if b in n then 1 else 0)
  {
    var s' := Swap(infected, (a, b));
    RemoveOneSize(n - infected, b);
    if a in n {
      assert n - s' == ((n - infected) - {b}) + {a};
    } else {
      assert n - s' == (n - infected) - {b};
    }
  }

  /**
   The change in u's conflicts when a and b are exchanged: a and b lose their D
   value and keep the relationship between them as a conflict; any other user
   gains a conflict with each of a and b that moves away from its side and loses
   one with each that moves to it.
   */
  ghost function VertexChange(g: Graph, infected: set<int>, a: int, b: int, u: int): int
    requires a in g && b in g
  {
    var na, nb := Neighbours(g, a), Neighbours(g, b);
    if u == a then (if b in na then 1 else 0) - DValue(g, a, infected)
    else if u == b then (if a in nb then 1 else 0) - DValue(g, b, infected)
    else
      (if u in infected * na - {a, b} then 1 else 0) - (if u in infected * nb - {a, b} then 1 else 0)
      + (if u in nb - infected - {a, b} then 1 else 0) - (if u in na - infected - {a, b} then 1 else 0)
  }

  lemma VertexDelta(g: Graph, users: set<int>, infected: set<int>, a: int, b: int, u: int)
    requires SimpleGroup(g, users) && infected <= users
    requires a in infected && b in users - infected && u in users
    ensures |Opposite(g, u, Swap(infected, (a, b)))| - |Opposite(g, u, infected)| == VertexChange(g, infected, a, b, u)
  {
    var n := Neighbours(g, u);
    SwapInside(n, infected, a, b);
    SwapOutside(n, infected, a, b);
    if u != a && u != b {
      if a in n { NeighbourSymmetric(g, u, a); }
      if u in Neighbours(g, a) { NeighbourSymmetric(g, a, u); }
      if b in n { NeighbourSymmetric(g, u, b); }
      if u in Neighbours(g, b) { NeighbourSymmetric(g, b, u); }
    }
  }

  /** Every user of us changes by its VertexChange. */
  ghost predicate DeltasHold(g: Graph, us: set<int>, infected: set<int>, a: int, b: int)
    requires us <= g.Keys && a in g && b in g
  {
    forall u :: u in us ==>
      |Opposite(g, u, Swap(infected, (a, b)))| - |Opposite(g, u, infected)| == VertexChange(g, infected, a, b, u)
  }

  lemma GroupDeltasHold(g: Graph, users: set<int>, infected: set<int>, a: int, b: int)
    requires SimpleGroup(g, users) && infected <= users
    requires a in infected && b in users - infected
    ensures DeltasHold(g, users, infected, a, b)
  {
    forall u | u in users
      ensures |Opposite(g, u, Swap(infected, (a, b)))| - |Opposite(g, u, infected)| == VertexChange(g, infected, a, b, u)
    {
      VertexDelta(g, users, infected, a, b, u);
    }
  }

  /** The closed form loses exactly x's change when x leaves us. */
  lemma SwapDeltaStep(g: Graph, us: set<int>, infected: set<int>, a: int, b: int, x: int)
    requires a in g && b in g && a != b && x in us
    ensures SwapDelta(g, us, infected, a, b) == VertexChange(g, infected, a, b, x) + SwapDelta(g, us - {x}, infected, a, b)
  {
    var na, nb := Neighbours(g, a), Neighbours(g, b);
    var ai, bi, bo, ao := infected * na - {a, b}, infected * nb - {a, b}, nb - infected - {a, b}, na - infected - {a, b};
    IntersectStep(us, ai, x);
    IntersectStep(us, bi, x);
    IntersectStep(us, bo, x);
    IntersectStep(us, ao, x);
    if x == a || x == b {
      assert x !in ai && x !in bi && x !in bo && x !in ao;
    } else {
      assert (a in us - {x}) == (a in us) && (b in us - {x}) == (b in us);
    }
  }

  /** Summing the per-user changes over us gives the closed form. */
  lemma {:induction false} SwapDeltaSum(g: Graph, us: set<int>, infected: set<int>, a: int, b: int)
    requires us <= g.Keys && a in g && b in g && a != b && DeltasHold(g, us, infected, a, b)
    ensures ConflictCount(g, us, Swap(infected, (a, b))) - ConflictCount(g, us, infected) == SwapDelta(g, us, infected, a, b)
    decreases us
  {
    if us == {} {
      ConflictCountEmpty(g, infected);
      ConflictCountEmpty(g, Swap(infected, (a, b)));
    } else {
      var x := Pick(us);
      ConflictCountRemove(g, us, infected, x);
      ConflictCountRemove(g, us, Swap(infected, (a, b)), x);
      SwapDeltaSum(g, us - {x}, infected, a, b);
      SwapDeltaStep(g, us, infected, a, b, x);
    }
  }

  /** Over the whole group the closed form is minus twice the gain. */
  lemma SwapDeltaOfGroup(g: Graph, users: set<int>, infected: set<int>, a: int, b: int)
    requires SimpleGroup(g, users) && infected <= users
    requires a in infected && b in users - infected
    ensures SwapDelta(g, users, infected, a, b) == -2 * Gain(g, infected, a, b)
  {
    var na, nb := Neighbours(g, a), Neighbours(g, b);
    assert users * (infected * na - {a, b}) == na * infected;
    assert users * (infected * nb - {a, b}) == (nb * infected) - {a};
    assert users * (nb - infected - {a, b}) == nb - infected;
    assert users * (na - infected - {a, b}) == (na - infected) - {b};
    RemoveOneSize(nb * infected, a);
    RemoveOneSize(na - infected, b);
    ConnectedSymmetric(g, a, b);
  }

  /**
   The Kernighan-Lin identity: exchanging an infected a with an uninfected b
   lowers the conflicts of the group by exactly twice the pair's gain (twice,
   because every relationship is counted from both ends).
   */
  lemma SwapChangesConflicts(g: Graph, users: set<int>, infected: set<int>, a: int, b: int)
    requires SimpleGroup(g, users) && infected <= users
    requires a in infected && b in users - infected
    ensures ConflictCount(g, users, Swap(infected, (a, b))) == ConflictCount(g, users, infected) - 2 * Gain(g, infected, a, b)
  {
    GroupDeltasHold(g, users, infected, a, b);
    SwapDeltaSum(g, users, infected, a, b);
    SwapDeltaOfGroup(g, users, infected, a, b);
  }

  /** No exchange of an infected with an uninfected user of the group has a positive gain. */
  ghost predicate NoGainingSwap(g: Graph, users: set<int>, infected: set<int>)
    requires users <= g.Keys && infected <= users
  {
    forall a, b :: a in infected && b in users - infected ==> Gain(g, infected, a, b) <= 0
  }

  /** A split where no pair gains is a local optimum: no single exchange lowers its conflicts. */
  lemma NoGainIsLocalOptimum(g: Graph, users: set<int>, infected: set<int>)
    requires SimpleGroup(g, users) && infected <= users && NoGainingSwap(g, users, infected)
    ensures forall a, b :: a in infected && b in users - infected ==>
      ConflictCount(g, users, infected) <= ConflictCount(g, users, Swap(infected, (a, b)))
  {
    forall a, b | a in infected && b in users - infected
      ensures ConflictCount(g, users, infected) <= ConflictCount(g, users, Swap(infected, (a, b)))
    {
      SwapChangesConflicts(g, users, infected, a, b);
    }
  }
}
