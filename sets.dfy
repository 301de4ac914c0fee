/** Small facts about finite sets used by the loops that walk a set in no particular order. */
module Sets {

  /** Any member of a non-empty set: Python's iteration order over a set is unspecified. */
  lemma Pick<T>(s: set<T>) returns (x: T)
    requires s != {}
    ensures x in s
  {
    x :| x in s;
  }

  lemma SubsetSize<T>(a: set<T>, b: set<T>)
    requires a <= b
    ensures |b - a| == |b| - |a|
  {
    assert b == (b - a) + a;
  }

  /** Removing one element shrinks a set by one exactly when it was there. */
  lemma RemoveOneSize<T>(s: set<T>, x: T)
    ensures |s - {x}| == |s| - (if x in s then 1 else 0)
  {
    if x in s {
      assert s == (s - {x}) + {x};
    } else {
      assert s - {x} == s;
    }
  }

  /** The one member of a set of size one. */
  lemma OnlyMember<T>(s: set<T>) returns (x: T)
    requires |s| == 1
    ensures s == {x}
  {
    x :| x in s;
    RemoveOneSize(s, x);
    assert s - {x} == {};
  }

  /** The part of a fixed set t inside s loses x when x leaves s. */
  lemma IntersectStep<T>(s: set<T>, t: set<T>, x: T)
    requires x in s
    ensures |s * t| == |(s - {x}) * t| + (if x in t then 1 else 0)
  {
    assert (s - {x}) * t == (s * t) - {x};
    RemoveOneSize(s * t, x);
  }

  lemma DisjointUnionSize<T>(a: set<T>, b: set<T>)
    requires a !! b
    ensures |a + b| == |a| + |b|
  {
    assert (a + b) - b == a;
  }

  /** A set of pairs whose first element is x and whose second ranges over a has |a| members. */
  lemma {:induction false} RowSize<T, U>(x: T, a: set<U>, row: set<(T, U)>)
    requires forall p :: p in row <==> p.0 == x && p.1 in a
    ensures |row| == |a|
    decreases a
  {
    if a != {} {
      var y := Pick(a);
      RowSize(x, a - {y}, row - {(x, y)});
    } else {
      assert row == {} by {
        forall p | p in row ensures false {
        }
      }
    }
  }
}
