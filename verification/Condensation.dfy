/** The condensation of a graph by its strongly connected components, and why closures may be
    started from the components nobody points to. */
module Condensation {
  import opened Digraph
  import opened SccSearch

  /** The vertices reachable from `x`. */
  ghost function ReachSet<T(!new)>(g: Graph<T>, vertices: set<T>, x: T): set<T> {
    set y | y in vertices && Reach(g, x, y)
  }

  ghost predicate CondensedEdge<T(!new)>(g: Graph<T>, sccs: seq<seq<T>>, i: nat, j: nat) {
    && i < |sccs| && j < |sccs| && i != j
    && exists x, y :: x in sccs[i] && y in sccs[j] && Edge(g, x, y)
  }

  ghost predicate IsCondensation<T(!new)>(g: Graph<T>, sccs: seq<seq<T>>, dag: Graph<nat>) {
    && (forall i: nat :: i in dag <==> i < |sccs|)
    && (forall i: nat, j: nat :: Edge(dag, i, j) <==> CondensedEdge(g, sccs, i, j))
  }

  ghost predicate Condensed<T(!new)>(g: Graph<T>, vertices: set<T>, sccs: seq<seq<T>>, dag: Graph<nat>) {
    && Closed(g, vertices)
    && IsSccOrder(g, vertices, sccs)
    && IsCondensation(g, sccs, dag)
  }

  lemma InOneComponent<T(!new)>(g: Graph<T>, vertices: set<T>, sccs: seq<seq<T>>, x: T) returns (i: nat)
    requires IsSccOrder(g, vertices, sccs) && x in vertices
    ensures i < |sccs| && x in sccs[i]
  {
    assert Emitted(sccs, x);
    i :| 0 <= i < |sccs| && x in sccs[i];
  }

  lemma ComponentMembers<T(!new)>(g: Graph<T>, vertices: set<T>, sccs: seq<seq<T>>, i: nat, x: T, y: T)
    requires IsSccOrder(g, vertices, sccs) && i < |sccs| && x in sccs[i] && y in sccs[i]
    ensures x in vertices && y in vertices && Reach(g, x, y)
  {
    assert Emitted(sccs, x) && Emitted(sccs, y);
    assert SameComponent(sccs, x, y);
  }

  /** Components the DAG reaches are components the graph reaches. */
  lemma DagReachIsReach<T(!new)>(
    g: Graph<T>, vertices: set<T>, sccs: seq<seq<T>>, dag: Graph<nat>, i: nat, j: nat, x: T, y: T)
    requires Condensed(g, vertices, sccs, dag)
    requires i < |sccs| && x in sccs[i] && Reach(dag, i, j)
    requires j < |sccs| && y in sccs[j]
    ensures Reach(g, x, y)
  {
    var s := set k: nat | k < |sccs| && Reach(g, x, sccs[k][0]);
    forall k: nat, l: nat | k in s && Edge(dag, k, l) ensures l in s {
      assert CondensedEdge(g, sccs, k, l);
      var v, w :| v in sccs[k] && w in sccs[l] && Edge(g, v, w);
      ComponentMembers(g, vertices, sccs, k, sccs[k][0], v);
      ComponentMembers(g, vertices, sccs, l, w, sccs[l][0]);
      ReachStep(g, v, w, sccs[l][0]);
      ReachTrans(g, sccs[k][0], v, sccs[l][0]);
      ReachTrans(g, x, sccs[k][0], sccs[l][0]);
    }
    ComponentMembers(g, vertices, sccs, i, x, sccs[i][0]);
    ClosedReach(dag, s, i, j);
    ComponentMembers(g, vertices, sccs, j, sccs[j][0], y);
    ReachTrans(g, x, sccs[j][0], y);
  }

  lemma ReachIsDagReach<T(!new)>(
    g: Graph<T>, vertices: set<T>, sccs: seq<seq<T>>, dag: Graph<nat>, i: nat, j: nat, x: T, y: T)
    requires Condensed(g, vertices, sccs, dag)
    requires i < |sccs| && x in sccs[i] && j < |sccs| && y in sccs[j]
    requires Reach(g, x, y)
    ensures Reach(dag, i, j)
  {
    var s := set k: nat, v | k < |sccs| && v in sccs[k] && Reach(dag, i, k) :: v;
    forall v, w | v in s && Edge(g, v, w) ensures w in s {
      var k: nat :| k < |sccs| && v in sccs[k] && Reach(dag, i, k);
      ComponentMembers(g, vertices, sccs, k, v, v);
      var l := InOneComponent(g, vertices, sccs, w);
      if l != k {
        assert CondensedEdge(g, sccs, k, l);
        assert Edge(dag, k, l);
        ReachEdge(dag, k, l);
        ReachTrans(dag, i, k, l);
      }
    }
    ReachRefl(dag, i);
    ClosedReach(g, s, x, y);
    var k: nat :| k < |sccs| && y in sccs[k] && Reach(dag, i, k);
    assert k == j;
  }

  /** The union of the components reachable in the DAG is the reach set of any start vertex. */
  lemma ClosureIsReachSet<T(!new)>(
    g: Graph<T>, vertices: set<T>, sccs: seq<seq<T>>, dag: Graph<nat>, i: nat, x: T, closure: set<T>)
    requires Condensed(g, vertices, sccs, dag) && i < |sccs| && x in sccs[i]
    requires forall y :: y in closure <==> exists j: nat :: j < |sccs| && Reach(dag, i, j) && y in sccs[j]
    ensures closure == ReachSet(g, vertices, x)
  {
    forall y ensures y in closure <==> y in ReachSet(g, vertices, x) {
      if y in closure {
        var j: nat :| j < |sccs| && Reach(dag, i, j) && y in sccs[j];
        DagReachIsReach(g, vertices, sccs, dag, i, j, x, y);
        ComponentMembers(g, vertices, sccs, j, y, y);
      }
      if y in ReachSet(g, vertices, x) {
        var j := InOneComponent(g, vertices, sccs, y);
        ReachIsDagReach(g, vertices, sccs, dag, i, j, x, y);
      }
    }
  }

  // ---------------------------------------------------------------- maximal closures

  ghost predicate IsReachSet<T(!new)>(g: Graph<T>, vertices: set<T>, c: set<T>) {
    exists x :: x in vertices && c == ReachSet(g, vertices, x)
  }

  ghost predicate IsMaximalReachSet<T(!new)>(g: Graph<T>, vertices: set<T>, c: set<T>) {
    && IsReachSet(g, vertices, c)
    && forall d :: IsReachSet(g, vertices, d) && c <= d ==> c == d
  }

  ghost predicate IsRoot(dag: Graph<nat>, i: nat) {
    forall h: nat :: !Edge(dag, h, i)
  }

  lemma ReachSetsNest<T(!new)>(g: Graph<T>, vertices: set<T>, x: T, y: T)
    requires y in vertices
    ensures Reach(g, x, y) <==> ReachSet(g, vertices, y) <= ReachSet(g, vertices, x)
  {
    if Reach(g, x, y) {
      forall z | z in ReachSet(g, vertices, y) ensures z in ReachSet(g, vertices, x) {
        ReachTrans(g, x, y, z);
      }
    }
    ReachRefl(g, y);
    assert y in ReachSet(g, vertices, y);
  }

  /** Only the component itself reaches a root component. */
  lemma NobodyElseReachesRoot<T(!new)>(
    g: Graph<T>, vertices: set<T>, sccs: seq<seq<T>>, dag: Graph<nat>, i: nat, x: T, y: T)
    requires Condensed(g, vertices, sccs, dag)
    requires i < |sccs| && x in sccs[i] && IsRoot(dag, i) && y in vertices && Reach(g, y, x)
    ensures y in sccs[i]
  {
    if y !in sccs[i] {
      var outside := set v | v in vertices && v !in sccs[i];
      forall v, w | v in outside && Edge(g, v, w) ensures w in outside {
        if w in sccs[i] {
          var h := InOneComponent(g, vertices, sccs, v);
          var edge := CondensedEdge(g, sccs, h, i);
        }
      }
      ClosedReach(g, outside, y, x);
    }
  }

  lemma RootIsMaximal<T(!new)>(
    g: Graph<T>, vertices: set<T>, sccs: seq<seq<T>>, dag: Graph<nat>, i: nat, x: T)
    requires Condensed(g, vertices, sccs, dag) && i < |sccs| && x in sccs[i] && IsRoot(dag, i)
    ensures IsMaximalReachSet(g, vertices, ReachSet(g, vertices, x))
  {
    ComponentMembers(g, vertices, sccs, i, x, x);
    forall d | IsReachSet(g, vertices, d) && ReachSet(g, vertices, x) <= d
      ensures d == ReachSet(g, vertices, x)
    {
      var y :| y in vertices && d == ReachSet(g, vertices, y);
      ReachSetsNest(g, vertices, y, x);
      NobodyElseReachesRoot(g, vertices, sccs, dag, i, x, y);
      ComponentMembers(g, vertices, sccs, i, x, y);
      ReachSetsNest(g, vertices, x, y);
    }
  }

  /** A component with an incoming edge is strictly inside the closure it is reached from. */
  lemma MaximalIsRoot<T(!new)>(
    g: Graph<T>, vertices: set<T>, sccs: seq<seq<T>>, dag: Graph<nat>, i: nat, x: T)
    requires Condensed(g, vertices, sccs, dag) && i < |sccs| && x in sccs[i]
    requires IsMaximalReachSet(g, vertices, ReachSet(g, vertices, x))
    ensures IsRoot(dag, i)
  {
    forall h: nat ensures !Edge(dag, h, i) {
      if Edge(dag, h, i) {
        assert CondensedEdge(g, sccs, h, i);
        var y := sccs[h][0];
        ComponentMembers(g, vertices, sccs, h, y, y);
        ComponentMembers(g, vertices, sccs, i, x, x);
        ReachEdge(dag, h, i);
        DagReachIsReach(g, vertices, sccs, dag, h, i, y, x);
        ReachSetsNest(g, vertices, y, x);
        assert IsReachSet(g, vertices, ReachSet(g, vertices, y));
        ReachSetsNest(g, vertices, x, y);
      }
    }
  }

  /** The maximal reach sets cover every vertex: a reach set that is not maximal has a larger one. */
  lemma {:induction false} MaximalReachSetsCover<T(!new)>(g: Graph<T>, vertices: set<T>, x: T, from: T)
    returns (c: set<T>)
    requires x in vertices && from in vertices && Reach(g, from, x)
    ensures x in c && IsMaximalReachSet(g, vertices, c)
    decreases vertices - ReachSet(g, vertices, from)
  {
    c := ReachSet(g, vertices, from);
    assert IsReachSet(g, vertices, c);
    if !IsMaximalReachSet(g, vertices, c) {
      var d :| IsReachSet(g, vertices, d) && c <= d && c != d;
      var larger :| larger in vertices && d == ReachSet(g, vertices, larger);
      assert x in d;
      c := MaximalReachSetsCover(g, vertices, x, larger);
    }
  }

  /** A closure is closed under dependencies. */
  lemma ReachSetIsClosed<T(!new)>(g: Graph<T>, vertices: set<T>, x: T)
    requires Closed(g, vertices)
    ensures Closed(g, ReachSet(g, vertices, x))
  {
    forall y, z | y in ReachSet(g, vertices, x) && Edge(g, y, z) ensures z in ReachSet(g, vertices, x) {
      ReachEdge(g, y, z);
      ReachTrans(g, x, y, z);
    }
  }
}
