/**
 total_infection / _infect_coaches_students: flood one connected component from
 a seed. The source recurses; here the recursion is an explicit stack of frames,
 one per active call, each holding the neighbours that call has still to visit.
 */
module Traversal {
  import opened Graphs
  import opened Sets

  /** One active call of the recursive walk: the user it is visiting and the
      neighbours its `for` loop has not reached yet. */
  datatype Frame = Frame(user: int, rest: set<int>)

  /** Every neighbour some active call has still to visit. */
  function Pending(stack: seq<Frame>): set<int>
  {
    if stack == [] then {} else Pending(stack[..|stack| - 1]) + stack[|stack| - 1].rest
  }

  /** The set a call iterates over: `students | coaches - infected`, which Python
      parses as `students | (coaches - infected)`. */
  function ToVisit(g: Graph, u: int, infected: set<int>): (r: set<int>)
    requires u in g
    ensures r <= Neighbours(g, u)
    ensures Neighbours(g, u) <= r + infected
  {
    g[u].students + (g[u].coaches - infected)
  }

  lemma PendingPush(below: seq<Frame>, f: Frame)
    ensures Pending(below + [f]) == Pending(below) + f.rest
  {
    assert (below + [f])[..|below|] == below;
  }

  /** Every infected user's neighbours are infected or still pending in some call. */
  ghost predicate Explored(g: Graph, infected: set<int>, stack: seq<Frame>)
  {
    forall x :: x in infected ==> x in g && Neighbours(g, x) <= infected + Pending(stack)
  }

  ghost predicate FramesOk(g: Graph, infected: set<int>, stack: seq<Frame>)
  {
    forall i :: 0 <= i < |stack| ==>
      stack[i].user in infected && stack[i].user in g && stack[i].rest <= Neighbours(g, stack[i].user)
  }

  /** The call on top of the stack has nothing left to visit and returns. */
  lemma ReturnKeeps(g: Graph, infected: set<int>, stack: seq<Frame>)
    requires stack != [] && stack[|stack| - 1].rest == {}
    requires Explored(g, infected, stack) && FramesOk(g, infected, stack)
    ensures Explored(g, infected, stack[..|stack| - 1]) && FramesOk(g, infected, stack[..|stack| - 1])
  {
  }

  /** The call on top of the stack takes v off its to-visit set and, if v is new,
      infects it and starts a call on it. */
  lemma VisitKeeps(g: Graph, infected: set<int>, stack: seq<Frame>, v: int)
    requires Closed(g) && stack != [] && v in stack[|stack| - 1].rest
    requires Explored(g, infected, stack) && FramesOk(g, infected, stack)
    ensures var top := stack[|stack| - 1];
            var stack' := stack[..|stack| - 1] + [Frame(top.user, top.rest - {v})];
            && v in g
            && FramesOk(g, infected, stack')
            && (v in infected ==> Explored(g, infected, stack'))
            && (v !in infected ==>
                  var stack'' := stack' + [Frame(v, ToVisit(g, v, infected + {v}))];
                  Explored(g, infected + {v}, stack'') && FramesOk(g, infected + {v}, stack''))
  {
    var top := stack[|stack| - 1];
    var below := stack[..|stack| - 1];
    assert stack == below + [top];
    PendingPush(below, top);
    var stack' := below + [Frame(top.user, top.rest - {v})];
    PendingPush(below, Frame(top.user, top.rest - {v}));
    assert stack'[..|below|] == below;
    if v !in infected {
      var f := Frame(v, ToVisit(g, v, infected + {v}));
      PendingPush(stack', f);
      assert (stack' + [f])[..|stack'|] == stack';
    }
  }

  ghost predicate AllReachable(g: Graph, seed: int, infected: set<int>)
  {
    forall x :: x in infected ==> Reachable(g, seed, x)
  }

  function TopRest(stack: seq<Frame>): nat
  {
    if stack == [] then 0 else |stack[|stack| - 1].rest|
  }

  /** Once no call has anything left to visit, the infected set is the whole component. */
  lemma ExploredIsComponent(g: Graph, seed: int, infected: set<int>)
    requires seed in infected && infected <= g.Keys
    requires Explored(g, infected, []) && AllReachable(g, seed, infected)
    ensures infected == ComponentOf(g, seed)
  {
    forall t | t in ComponentOf(g, seed) ensures t in infected {
      ClosedSetHoldsReachable(g, infected, seed, t);
    }
  }

  /** What the walk keeps true between steps. */
  ghost predicate WalkInv(g: Graph, seed: int, infected: set<int>, stack: seq<Frame>)
  {
    && infected <= g.Keys && seed in infected
    && Explored(g, infected, stack) && FramesOk(g, infected, stack)
    && AllReachable(g, seed, infected)
  }

  /** One step of the walk: the call on top of the stack returns, or visits its next neighbour. */
  method WalkStep(g: Graph, ghost seed: int, infected: set<int>, stack: seq<Frame>)
    returns (infected': set<int>, stack': seq<Frame>)
    requires Closed(g) && stack != [] && WalkInv(g, seed, infected, stack)
    ensures WalkInv(g, seed, infected', stack')
    ensures infected <= infected' <= g.Keys
    ensures || |g.Keys - infected'| < |g.Keys - infected|
            || (infected' == infected && |stack'| < |stack|)
            || (infected' == infected && |stack'| == |stack| && TopRest(stack') < TopRest(stack))
  {
    var top := stack[|stack| - 1];
    infected' := infected;
    if top.rest == {} {
      // the call returns
      ReturnKeeps(g, infected, stack);
      stack' := stack[..|stack| - 1];
    } else {
      ghost var w := Pick(top.rest);
      var v :| v in top.rest;
      var popped := stack[..|stack| - 1] + [Frame(top.user, top.rest - {v})];
      VisitKeeps(g, infected, stack, v);
      if v in infected {
        // the graph can be cyclic: v may have been infected since the loop began
        stack' := popped;
        assert TopRest(stack') == |top.rest - {v}| < |top.rest|;
      } else {
        ReachableStep(g, seed, top.user, v);
        assert g.Keys - (infected + {v}) == (g.Keys - infected) - {v};
        infected' := infected + {v};
        stack' := popped + [Frame(v, ToVisit(g, v, infected + {v}))];
      }
    }
  }

  method TotalInfection(g: Graph, seed: int) returns (infected: set<int>)
    requires Closed(g) && seed in g
    ensures seed in infected
    ensures infected == ComponentOf(g, seed)
  {
    infected := {seed};
    ReachableRefl(g, seed);
    var stack := [Frame(seed, ToVisit(g, seed, infected))];
    assert Pending(stack) == ToVisit(g, seed, infected) by {
      PendingPush([], stack[0]);
    }
    while stack != []
      invariant WalkInv(g, seed, infected, stack)
      decreases |g.Keys - infected|, |stack|, TopRest(stack)
    {
      infected, stack := WalkStep(g, seed, infected, stack);
    }
    ExploredIsComponent(g, seed, infected);
  }
}
