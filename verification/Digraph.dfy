/** Finite directed graphs as successor maps, and reachability along paths.
    Every graph of the artifact build (file dependencies, condensation of components,
    job dependencies, patch predecessors) is one of these. */
module Digraph {

  type Graph<T> = map<T, set<T>>

  ghost function Elements<T>(s: seq<T>): set<T> {
    set x | x in s
  }

  predicate Edge<T(==)>(g: Graph<T>, x: T, y: T) {
    x in g && y in g[x]
  }

  function Successors<T(==)>(g: Graph<T>, x: T): set<T> {
    if x in g then g[x] else {}
  }

  ghost predicate PathFromTo<T>(g: Graph<T>, p: seq<T>, x: T, y: T) {
    && |p| >= 1 && p[0] == x && p[|p| - 1] == y
    && forall i :: 0 <= i < |p| - 1 ==> Edge(g, p[i], p[i + 1])
  }

  /** `y` can be reached from `x` by zero or more edges. */
  ghost predicate Reach<T(!new)>(g: Graph<T>, x: T, y: T) {
    exists p :: PathFromTo(g, p, x, y)
  }

  /** `x` lies on a cycle: one edge out of `x`, then a path back. */
  ghost predicate OnCycle<T(!new)>(g: Graph<T>, x: T) {
    exists z :: Edge(g, x, z) && Reach(g, z, x)
  }

  /** `x` lies on a cycle or leads to one. */
  ghost predicate ReachesCycle<T(!new)>(g: Graph<T>, x: T) {
    exists y :: Reach(g, x, y) && OnCycle(g, y)
  }

  ghost predicate Acyclic<T(!new)>(g: Graph<T>) {
    forall x :: !OnCycle(g, x)
  }

  ghost predicate Closed<T(!new)>(g: Graph<T>, s: set<T>) {
    forall x, y :: x in s && Edge(g, x, y) ==> y in s
  }

  lemma ReachRefl<T(!new)>(g: Graph<T>, x: T)
    ensures Reach(g, x, x)
  {
    assert PathFromTo(g, [x], x, x);
  }

  lemma ReachStep<T(!new)>(g: Graph<T>, x: T, y: T, z: T)
    requires Edge(g, x, y) && Reach(g, y, z)
    ensures Reach(g, x, z)
  {
    var p :| PathFromTo(g, p, y, z);
    assert PathFromTo(g, [x] + p, x, z);
  }

  lemma ReachEdge<T(!new)>(g: Graph<T>, x: T, y: T)
    requires Edge(g, x, y)
    ensures Reach(g, x, y)
  {
    ReachRefl(g, y);
    ReachStep(g, x, y, y);
  }

  lemma ReachTrans<T(!new)>(g: Graph<T>, x: T, y: T, z: T)
    requires Reach(g, x, y) && Reach(g, y, z)
    ensures Reach(g, x, z)
  {
    var p :| PathFromTo(g, p, x, y);
    var q :| PathFromTo(g, q, y, z);
    assert PathFromTo(g, p + q[1..], x, z);
  }

  lemma ReachInLarger<T(!new)>(g: Graph<T>, h: Graph<T>, x: T, y: T)
    requires forall v, w :: Edge(g, v, w) ==> Edge(h, v, w)
    requires Reach(g, x, y)
    ensures Reach(h, x, y)
  {
    var p :| PathFromTo(g, p, x, y);
    assert PathFromTo(h, p, x, y);
  }

  /** A set closed under edges keeps everything reachable from its members. */
  lemma {:induction false} PathStaysClosed<T(!new)>(g: Graph<T>, s: set<T>, p: seq<T>, x: T, y: T)
    requires Closed(g, s) && x in s && PathFromTo(g, p, x, y)
    ensures y in s
    decreases |p|
  {
    if |p| > 1 {
      assert Edge(g, p[0], p[1]);
      assert PathFromTo(g, p[1..], p[1], y);
      PathStaysClosed(g, s, p[1..], p[1], y);
    }
  }

  lemma ClosedReach<T(!new)>(g: Graph<T>, s: set<T>, x: T, y: T)
    requires Closed(g, s) && x in s && Reach(g, x, y)
    ensures y in s
  {
    var p :| PathFromTo(g, p, x, y);
    PathStaysClosed(g, s, p, x, y);
  }

  lemma ReachFirstEdge<T(!new)>(g: Graph<T>, x: T, y: T) returns (z: T)
    requires Reach(g, x, y) && x != y
    ensures Edge(g, x, z) && Reach(g, z, y)
  {
    var p :| PathFromTo(g, p, x, y);
    z := p[1];
    assert Edge(g, p[0], p[1]);
    assert PathFromTo(g, p[1..], z, y);
  }

  ghost predicate HasSuccessorIn<T>(g: Graph<T>, s: set<T>, v: T) {
    exists w :: w in s && Edge(g, v, w)
  }

  ghost predicate NoDeadEnds<T>(g: Graph<T>, s: set<T>) {
    forall v :: v in s ==> HasSuccessorIn(g, s, v)
  }

  ghost function ReachedWithin<T(!new)>(g: Graph<T>, s: set<T>, x: T): set<T> {
    set v | v in s && Reach(g, x, v)
  }

  lemma ReachedWithinHasNoDeadEnds<T(!new)>(g: Graph<T>, s: set<T>, x: T)
    requires NoDeadEnds(g, s)
    ensures NoDeadEnds(g, ReachedWithin(g, s, x))
  {
    forall v | v in ReachedWithin(g, s, x)
      ensures HasSuccessorIn(g, ReachedWithin(g, s, x), v)
    {
      assert HasSuccessorIn(g, s, v);
      var u :| u in s && Edge(g, v, u);
      ReachEdge(g, v, u);
      ReachTrans(g, x, v, u);
      assert u in ReachedWithin(g, s, x);
    }
  }

  /** From a member of a finite set without dead ends one always gets to a cycle. */
  lemma {:induction false} NoDeadEndsLeadsToCycle<T(!new)>(g: Graph<T>, s: set<T>, x: T)
    requires x in s && NoDeadEnds(g, s)
    ensures ReachesCycle(g, x)
    decreases s
  {
    assert HasSuccessorIn(g, s, x);
    var w :| w in s && Edge(g, x, w);
    if Reach(g, w, x) {
      ReachRefl(g, x);
      assert OnCycle(g, x);
    } else {
      ReachRefl(g, w);
      ReachedWithinHasNoDeadEnds(g, s, w);
      NoDeadEndsLeadsToCycle(g, ReachedWithin(g, s, w), w);
      StepToReachesCycle(g, x, w);
    }
  }

  lemma StepToReachesCycle<T(!new)>(g: Graph<T>, x: T, w: T)
    requires Edge(g, x, w) && ReachesCycle(g, w)
    ensures ReachesCycle(g, x)
  {
    var y :| Reach(g, w, y) && OnCycle(g, y);
    ReachStep(g, x, w, y);
  }

  /** `order` lists every vertex after all of its successors. */
  ghost predicate SuccessorsFirst<T(!new)>(g: Graph<T>, order: seq<T>) {
    && (forall i, j :: 0 <= i < j < |order| ==> order[i] != order[j])
    && (forall i :: 0 <= i < |order| ==> forall y :: Edge(g, order[i], y) ==> y in order[..i])
  }

  lemma AppendToOrder<T(!new)>(g: Graph<T>, order: seq<T>, x: T)
    requires SuccessorsFirst(g, order) && x !in order
    requires forall y :: Edge(g, x, y) ==> y in order
    ensures SuccessorsFirst(g, order + [x])
    ensures Elements(order + [x]) == Elements(order) + {x}
  {
    var order' := order + [x];
    forall i, y | 0 <= i < |order'| && Edge(g, order'[i], y) ensures y in order'[..i] {
      if i < |order| {
        assert order'[..i] == order[..i];
      } else {
        assert order'[..i] == order;
      }
    }
  }

  lemma PrefixClosed<T(!new)>(g: Graph<T>, order: seq<T>, n: nat)
    requires SuccessorsFirst(g, order) && n <= |order|
    ensures Closed(g, Elements(order[..n]))
  {
    forall x, y | x in order[..n] && Edge(g, x, y)
      ensures y in order[..n]
    {
      var i :| 0 <= i < n && order[i] == x;
      assert y in order[..i];
      assert order[..i] <= order[..n];
    }
  }

  /** Nothing in a successors-first order leads to a cycle. */
  lemma SuccessorsFirstAvoidsCycles<T(!new)>(g: Graph<T>, order: seq<T>, x: T)
    requires SuccessorsFirst(g, order) && x in order
    ensures !ReachesCycle(g, x)
  {
    if ReachesCycle(g, x) {
      var y :| Reach(g, x, y) && OnCycle(g, y);
      PrefixClosed(g, order, |order|);
      assert order[..|order|] == order;
      ClosedReach(g, Elements(order[..|order|]), x, y);
      var i :| 0 <= i < |order| && order[i] == y;
      var z :| Edge(g, y, z) && Reach(g, z, y);
      PrefixClosed(g, order, i);
      ClosedReach(g, Elements(order[..i]), z, y);
      assert false;
    }
  }

  lemma NoReachingMeansAcyclic<T(!new)>(g: Graph<T>)
    requires forall x :: x in g ==> !ReachesCycle(g, x)
    ensures Acyclic(g)
  {
    forall x ensures !OnCycle(g, x) {
      ReachRefl(g, x);
    }
  }
}
