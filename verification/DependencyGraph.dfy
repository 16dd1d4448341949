/** The artifact dependency graph and its directional closures. */
module DependencyGraph {
  import opened Optional
  import opened Digraph
  import opened Listing
  import opened SccSearch
  import opened Condensation

  type NodeId = string

  datatype ArtifactNode = ArtifactNode(id: NodeId, kind: string)

  datatype UnresolvedArtifactEdge =
    UnresolvedArtifactEdge(sourceId: NodeId, requestedTarget: NodeId, relation: string, reason: string)

  // ---------------------------------------------------------------- steps of the closure computation

  method IndexComponents<T(==)>(sccs: seq<seq<T>>) returns (nodeToScc: map<T, nat>)
    requires Disjoint(sccs)
    ensures forall x :: x in nodeToScc ==> nodeToScc[x] < |sccs| && x in sccs[nodeToScc[x]]
    ensures forall i, x :: 0 <= i < |sccs| && x in sccs[i] ==> x in nodeToScc && nodeToScc[x] == i
  {
    nodeToScc := map[];
    for sccIndex := 0 to |sccs|
      invariant forall x :: x in nodeToScc ==> nodeToScc[x] < sccIndex && x in sccs[nodeToScc[x]]
      invariant forall i, x :: 0 <= i < sccIndex && x in sccs[i] ==> x in nodeToScc
    {
      for n := 0 to |sccs[sccIndex]|
        invariant forall x :: x in nodeToScc ==> nodeToScc[x] <= sccIndex && x in sccs[nodeToScc[x]]
        invariant forall i, x :: 0 <= i < sccIndex && x in sccs[i] ==> x in nodeToScc
        invariant forall m :: 0 <= m < n ==> sccs[sccIndex][m] in nodeToScc
      {
        nodeToScc := nodeToScc[sccs[sccIndex][n] := sccIndex];
      }
    }
  }

  /** The components with an edge into `j`. */
  ghost function Into(dag: Graph<nat>, j: nat): set<nat> {
    set i | i in dag && j in dag[i]
  }

  /** The condensation built so far has only real edges, and `incoming` counts those into each. */
  ghost predicate CondensingOk<T(!new)>(
    g: Graph<T>, sccs: seq<seq<T>>, dag: Graph<nat>, incoming: map<nat, nat>)
  {
    && (forall i: nat :: i in dag <==> i < |sccs|)
    && dag.Keys == incoming.Keys
    && (forall i: nat, j: nat :: Edge(dag, i, j) ==> CondensedEdge(g, sccs, i, j))
    && (forall j: nat :: j in incoming ==> incoming[j] == |Into(dag, j)|)
  }

  ghost predicate EdgeCondensed<T>(nodeToScc: map<T, nat>, dag: Graph<nat>, x: T, y: T) {
    x in nodeToScc && y in nodeToScc && nodeToScc[x] != nodeToScc[y] ==> Edge(dag, nodeToScc[x], nodeToScc[y])
  }

  ghost predicate IndexesComponents<T>(sccs: seq<seq<T>>, nodeToScc: map<T, nat>) {
    && (forall x :: x in nodeToScc ==> nodeToScc[x] < |sccs| && x in sccs[nodeToScc[x]])
    && (forall i, x :: 0 <= i < |sccs| && x in sccs[i] ==> x in nodeToScc && nodeToScc[x] == i)
  }

  function WithEdge(dag: Graph<nat>, from: nat, to: nat): Graph<nat>
    requires from in dag
  {
    dag[from := dag[from] + {to}]
  }

  lemma NewEdge(dag: Graph<nat>, from: nat, to: nat)
    requires from in dag
    ensures forall i: nat, j: nat ::
              Edge(WithEdge(dag, from, to), i, j) <==> Edge(dag, i, j) || (i == from && j == to)
  {
  }

  lemma EndsInRange<T(!new)>(g: Graph<T>, sccs: seq<seq<T>>, from: nat, to: nat)
    requires CondensedEdge(g, sccs, from, to)
    ensures from < |sccs| && to < |sccs|
  {
  }

  /** A new edge between two components raises one incoming count by one. */
  lemma NewEdgeCounted<T(!new)>(
    g: Graph<T>, sccs: seq<seq<T>>, dag: Graph<nat>, incoming: map<nat, nat>, from: nat, to: nat)
    requires CondensingOk(g, sccs, dag, incoming) && CondensedEdge(g, sccs, from, to)
    requires from in dag ==> to !in dag[from]
    ensures from in dag && to in incoming
    ensures CondensingOk(g, sccs, WithEdge(dag, from, to), incoming[to := incoming[to] + 1])
  {
    hide CondensedEdge;
    EndsInRange(g, sccs, from, to);
    NewEdge(dag, from, to);
    var dag', incoming' := WithEdge(dag, from, to), incoming[to := incoming[to] + 1];
    forall j: nat | j in incoming' ensures incoming'[j] == |Into(dag', j)| {
      IntoGrows(dag, from, to, j);
    }
    hide Edge;
  }

  lemma IntoGrows(dag: Graph<nat>, from: nat, to: nat, j: nat)
    requires from in dag && to !in dag[from]
    ensures |Into(WithEdge(dag, from, to), j)| == |Into(dag, j)| + if j == to then 1 else 0
  {
    var dag' := WithEdge(dag, from, to);
    if j == to {
      assert Into(dag', j) == Into(dag, j) + {from};
    } else {
      assert Into(dag', j) == Into(dag, j);
    }
  }

  method CondenseEdge<T(==, !new)>(
    ghost g: Graph<T>, ghost sccs: seq<seq<T>>, nodeToScc: map<T, nat>, source: T, target: T,
    dag: Graph<nat>, incoming: map<nat, nat>) returns (dag': Graph<nat>, incoming': map<nat, nat>)
    requires IndexesComponents(sccs, nodeToScc) && CondensingOk(g, sccs, dag, incoming)
    requires Edge(g, source, target) && source in nodeToScc
    ensures CondensingOk(g, sccs, dag', incoming')
    ensures EdgeCondensed(nodeToScc, dag', source, target)
    ensures forall i: nat, j: nat :: Edge(dag, i, j) ==> Edge(dag', i, j)
  {
    dag', incoming' := dag, incoming;
    var sourceScc := nodeToScc[source];
    if target in nodeToScc {
      var targetScc := nodeToScc[target];
      if sourceScc != targetScc && targetScc !in dag[sourceScc] {
        assert CondensedEdge(g, sccs, sourceScc, targetScc);
        NewEdgeCounted(g, sccs, dag, incoming, sourceScc, targetScc);
        dag' := WithEdge(dag, sourceScc, targetScc);
        NewEdge(dag, sourceScc, targetScc);
        incoming' := incoming[targetScc := incoming[targetScc] + 1];
      }
    }
  }

  method CondenseSource<T(==, !new)>(
    g: Graph<T>, ghost sccs: seq<seq<T>>, nodeToScc: map<T, nat>, source: T,
    dag: Graph<nat>, incoming: map<nat, nat>) returns (dag': Graph<nat>, incoming': map<nat, nat>)
    requires IndexesComponents(sccs, nodeToScc) && CondensingOk(g, sccs, dag, incoming)
    requires source in g && source in nodeToScc
    ensures CondensingOk(g, sccs, dag', incoming')
    ensures forall y :: Edge(g, source, y) ==> EdgeCondensed(nodeToScc, dag', source, y)
    ensures forall i: nat, j: nat :: Edge(dag, i, j) ==> Edge(dag', i, j)
  {
    dag', incoming' := dag, incoming;
    var targets := g[source];
    while targets != {}
      invariant targets <= g[source]
      invariant CondensingOk(g, sccs, dag', incoming')
      invariant forall y :: y in g[source] - targets ==> EdgeCondensed(nodeToScc, dag', source, y)
      invariant forall i: nat, j: nat :: Edge(dag, i, j) ==> Edge(dag', i, j)
      decreases targets
    {
      var target :| target in targets;
      ghost var before := dag';
      dag', incoming' := CondenseEdge(g, sccs, nodeToScc, source, target, dag', incoming');
      forall y | EdgeCondensed(nodeToScc, before, source, y) ensures EdgeCondensed(nodeToScc, dag', source, y) {
      }
      targets := targets - {target};
    }
  }

  /** One component without edges for each index. */
  method NoEdges<T(==, !new)>(ghost g: Graph<T>, sccs: seq<seq<T>>) returns (dag: Graph<nat>, incoming: map<nat, nat>)
    ensures CondensingOk(g, sccs, dag, incoming)
  {
    dag, incoming := map[], map[];
    for i := 0 to |sccs|
      invariant forall h: nat :: h in dag <==> h < i
      invariant forall h: nat :: h in dag ==> dag[h] == {}
      invariant incoming.Keys == dag.Keys && forall h: nat :: h in incoming ==> incoming[h] == 0
    {
      dag, incoming := dag[i := {}], incoming[i := 0];
    }
    forall j: nat ensures Into(dag, j) == {} {
    }
  }

  method Condense<T(==, !new)>(g: Graph<T>, sccs: seq<seq<T>>, nodeToScc: map<T, nat>)
    returns (dag: Graph<nat>, incoming: map<nat, nat>)
    requires IndexesComponents(sccs, nodeToScc)
    ensures IsCondensation(g, sccs, dag)
    ensures incoming.Keys == dag.Keys
    ensures forall j: nat :: j < |sccs| ==> incoming[j] == |Into(dag, j)| && (incoming[j] == 0 <==> IsRoot(dag, j))
  {
    dag, incoming := NoEdges(g, sccs);
    var sources := g.Keys;
    while sources != {}
      invariant sources <= g.Keys
      invariant CondensingOk(g, sccs, dag, incoming)
      invariant forall x, y :: x !in sources && Edge(g, x, y) ==> EdgeCondensed(nodeToScc, dag, x, y)
      decreases sources
    {
      hide CondensingOk, IndexesComponents, EdgeCondensed;
      var source :| source in sources;
      if source in nodeToScc {
        ghost var before := dag;
        dag, incoming := CondenseSource(g, sccs, nodeToScc, source, dag, incoming);
        forall x, y | EdgeCondensed(nodeToScc, before, x, y) ensures EdgeCondensed(nodeToScc, dag, x, y) {
          CondensedStays(nodeToScc, before, dag, x, y);
        }
      } else {
        UnknownSource(nodeToScc, dag, source);
      }
      sources := sources - {source};
    }
    AllCondensed(g, sccs, nodeToScc, dag, incoming);
    AllCounted(g, sccs, dag, incoming);
  }

  lemma CondensedStays<T>(nodeToScc: map<T, nat>, dag: Graph<nat>, dag': Graph<nat>, x: T, y: T)
    requires EdgeCondensed(nodeToScc, dag, x, y)
    requires forall i: nat, j: nat :: Edge(dag, i, j) ==> Edge(dag', i, j)
    ensures EdgeCondensed(nodeToScc, dag', x, y)
  {
  }

  lemma UnknownSource<T(!new)>(nodeToScc: map<T, nat>, dag: Graph<nat>, source: T)
    requires source !in nodeToScc
    ensures forall y :: EdgeCondensed(nodeToScc, dag, source, y)
  {
  }

  lemma RootHasNone(dag: Graph<nat>, j: nat)
    ensures |Into(dag, j)| == 0 <==> IsRoot(dag, j)
  {
    if IsRoot(dag, j) {
      forall i | i in Into(dag, j) ensures false {
        assert Edge(dag, i, j);
      }
      assert Into(dag, j) == {};
    } else {
      var i: nat :| Edge(dag, i, j);
      assert i in Into(dag, j);
    }
  }

  lemma AllCondensed<T(!new)>(
    g: Graph<T>, sccs: seq<seq<T>>, nodeToScc: map<T, nat>, dag: Graph<nat>, incoming: map<nat, nat>)
    requires IndexesComponents(sccs, nodeToScc) && CondensingOk(g, sccs, dag, incoming)
    requires forall x, y :: Edge(g, x, y) ==> EdgeCondensed(nodeToScc, dag, x, y)
    ensures IsCondensation(g, sccs, dag)
  {
    hide Into;
    forall i: nat, j: nat | CondensedEdge(g, sccs, i, j) ensures Edge(dag, i, j) {
      var x, y :| x in sccs[i] && y in sccs[j] && Edge(g, x, y);
      assert EdgeCondensed(nodeToScc, dag, x, y);
    }
  }

  lemma AllCounted<T(!new)>(g: Graph<T>, sccs: seq<seq<T>>, dag: Graph<nat>, incoming: map<nat, nat>)
    requires CondensingOk(g, sccs, dag, incoming)
    ensures forall j: nat :: j < |sccs| ==>
              j in incoming && incoming[j] == |Into(dag, j)| && (incoming[j] == 0 <==> IsRoot(dag, j))
  {
    hide Into, IsRoot, Edge, CondensedEdge;
    forall j: nat | j < |sccs|
      ensures j in incoming && incoming[j] == |Into(dag, j)| && (incoming[j] == 0 <==> IsRoot(dag, j))
    {
      RootHasNone(dag, j);
    }
  }

  /** Breadth-first search over the condensation. */
  method ReachableSccs(dag: Graph<nat>, start: nat) returns (visited: set<nat>)
    requires start in dag && forall i: nat, j: nat :: Edge(dag, i, j) ==> j in dag
    ensures forall j: nat :: j in visited <==> Reach(dag, start, j)
  {
    visited := {start};
    var queue := [start];
    ReachRefl(dag, start);
    while queue != []
      invariant start in visited && visited <= dag.Keys
      invariant forall j :: j in queue ==> j in visited
      invariant forall j :: j in visited ==> Reach(dag, start, j)
      invariant forall i: nat, j: nat :: i in visited && i !in queue && Edge(dag, i, j) ==> j in visited
      decreases dag.Keys - visited, |queue|
    {
      var current := queue[0];
      ghost var visited0, queue0 := visited, queue;
      queue := queue[1..];
      var neighbors := Successors(dag, current);
      while neighbors != {}
        invariant neighbors <= Successors(dag, current)
        invariant visited0 <= visited <= dag.Keys && current in visited
        invariant queue0[1..] <= queue && (visited == visited0 ==> queue == queue0[1..])
        invariant forall j :: j in queue ==> j in visited
        invariant forall j :: j in visited ==> j in visited0 || j in queue
        invariant forall j :: j in visited ==> Reach(dag, start, j)
        invariant forall j: nat :: Edge(dag, current, j) && j !in neighbors ==> j in visited
        decreases neighbors
      {
        var neighbor :| neighbor in neighbors;
        if neighbor !in visited {
          assert Edge(dag, current, neighbor);
          ReachEdge(dag, current, neighbor);
          ReachTrans(dag, start, current, neighbor);
          visited := visited + {neighbor};
          queue := queue + [neighbor];
        }
        neighbors := neighbors - {neighbor};
      }
    }
    forall j: nat | Reach(dag, start, j) ensures j in visited {
      ClosedReach(dag, visited, start, j);
    }
  }

  method CollectNodes<T(==)>(sccs: seq<seq<T>>, reachable: set<nat>) returns (closure: set<T>)
    requires forall j :: j in reachable ==> j < |sccs|
    ensures forall y :: y in closure <==> exists j: nat :: j in reachable && y in sccs[j]
  {
    closure := {};
    var todo := reachable;
    while todo != {}
      invariant todo <= reachable
      invariant forall y :: y in closure <==> exists j: nat :: j in reachable - todo && y in sccs[j]
      decreases todo
    {
      var sccIndex :| sccIndex in todo;
      ghost var before := closure;
      closure := closure + set y | y in sccs[sccIndex];
      forall y ensures y in closure <==> exists j: nat :: j in reachable - (todo - {sccIndex}) && y in sccs[j] {
        if y in before {
          var j: nat :| j in reachable - todo && y in sccs[j];
          assert j in reachable - (todo - {sccIndex});
        }
      }
      todo := todo - {sccIndex};
    }
  }

  // ---------------------------------------------------------------- duplicates

  /** The distinct elements of `s`, in the order of their first occurrence. */
  ghost function FirstOccurrences<T>(s: seq<T>): seq<T> {
    if s == [] then []
    else
      var earlier := s[..|s| - 1];
      if s[|s| - 1] in earlier then FirstOccurrences(earlier) else FirstOccurrences(earlier) + [s[|s| - 1]]
  }

  lemma {:induction false} FirstOccurrencesAreDistinct<T>(s: seq<T>)
    ensures NoRepeats(FirstOccurrences(s))
    ensures forall x :: x in FirstOccurrences(s) <==> x in s
  {
    if s != [] {
      var earlier := s[..|s| - 1];
      assert s == earlier + [s[|s| - 1]];
      FirstOccurrencesAreDistinct(earlier);
    }
  }

  /** The reach set of each start component, in order. */
  ghost function StartClosures<T(!new)>(
    g: Graph<T>, vertices: set<T>, sccs: seq<seq<T>>, starts: seq<nat>): (closures: seq<set<T>>)
    requires forall i :: 0 <= i < |starts| ==> starts[i] < |sccs| && |sccs[starts[i]]| > 0
  {
    seq(|starts|, i requires 0 <= i < |starts| => ReachSet(g, vertices, sccs[starts[i]][0]))
  }

  /** Closes every distinct start and drops closures already listed. */
  method CloseStarts<T(==, !new)>(
    ghost g: Graph<T>, ghost vertices: set<T>, sccs: seq<seq<T>>, dag: Graph<nat>, starts: seq<nat>)
    returns (closures: seq<set<T>>)
    requires Condensed(g, vertices, sccs, dag)
    requires forall i :: 0 <= i < |starts| ==> starts[i] < |sccs|
    ensures closures == FirstOccurrences(StartClosures(g, vertices, sccs, starts))
  {
    closures := [];
    ghost var all := StartClosures(g, vertices, sccs, starts);
    var seenStarts: set<nat> := {};
    for n := 0 to |starts|
      invariant seenStarts == set i | 0 <= i < n :: starts[i]
      invariant closures == FirstOccurrences(all[..n])
    {
      assert all[..n + 1][..n] == all[..n];
      FirstOccurrencesAreDistinct(all[..n]);
      if starts[n] in seenStarts {
        var m :| 0 <= m < n && starts[m] == starts[n];
        assert all[..n][m] == all[n];
      } else {
        seenStarts := seenStarts + {starts[n]};
        assert forall i: nat, j: nat :: Edge(dag, i, j) ==> CondensedEdge(g, sccs, i, j);
        var reachable := ReachableSccs(dag, starts[n]);
        ReachStaysInDag(dag, starts[n]);
        var closure := CollectNodes(sccs, reachable);
        ClosureIsReachSet(g, vertices, sccs, dag, starts[n], sccs[starts[n]][0], closure);
        assert closure == all[n];
        if closure !in closures {
          closures := closures + [closure];
        }
      }
    }
    assert all[..|starts|] == all;
  }

  lemma ReachStaysInDag(dag: Graph<nat>, start: nat)
    requires start in dag && forall i: nat, j: nat :: Edge(dag, i, j) ==> j in dag
    ensures forall j: nat :: Reach(dag, start, j) ==> j in dag
  {
    forall j: nat | Reach(dag, start, j) ensures j in dag {
      ClosedReach(dag, dag.Keys, start, j);
    }
  }

  // ---------------------------------------------------------------- which components are started from

  method KnownSeeds<T(==, !new)>(nodeToScc: map<T, nat>, seeds: seq<T>) returns (starts: seq<nat>, ghost known: seq<T>)
    ensures known == Known(nodeToScc.Keys, seeds)
    ensures |starts| == |known|
    ensures forall i :: 0 <= i < |starts| ==> known[i] in nodeToScc && starts[i] == nodeToScc[known[i]]
  {
    starts, known := [], [];
    for n := 0 to |seeds|
      invariant known == Known(nodeToScc.Keys, seeds[..n])
      invariant |starts| == |known|
      invariant forall i :: 0 <= i < |starts| ==> known[i] in nodeToScc && starts[i] == nodeToScc[known[i]]
    {
      assert seeds[..n + 1][..n] == seeds[..n];
      if seeds[n] in nodeToScc {
        starts, known := starts + [nodeToScc[seeds[n]]], known + [seeds[n]];
      }
    }
    assert seeds[..|seeds|] == seeds;
  }

  /** The seeds that are vertices, in order. */
  ghost function Known<T(!new)>(vertices: set<T>, seeds: seq<T>): (known: seq<T>)
    ensures forall x :: x in known <==> x in seeds && x in vertices
  {
    if seeds == [] then []
    else
      var earlier := Known(vertices, seeds[..|seeds| - 1]);
      assert seeds == seeds[..|seeds| - 1] + [seeds[|seeds| - 1]];
      if seeds[|seeds| - 1] in vertices then earlier + [seeds[|seeds| - 1]] else earlier
  }

  method RootComponents(n: nat, incoming: map<nat, nat>) returns (starts: seq<nat>)
    requires forall i: nat :: i < n ==> i in incoming
    ensures forall k :: 0 <= k < |starts| ==> starts[k] < n
    ensures forall i :: i in starts <==> 0 <= i < n && incoming[i] == 0
  {
    starts := [];
    for i := 0 to n
      invariant forall k :: 0 <= k < |starts| ==> starts[k] < i
      invariant forall j :: j in starts <==> 0 <= j < i && incoming[j] == 0
    {
      if incoming[i] == 0 {
        starts := starts + [i];
      }
    }
  }

  /** The reach sets of `seeds`, in order. */
  ghost function ReachSets<T(!new)>(g: Graph<T>, vertices: set<T>, seeds: seq<T>): seq<set<T>> {
    seq(|seeds|, i requires 0 <= i < |seeds| => ReachSet(g, vertices, seeds[i]))
  }

  lemma SameComponentSameReachSet<T(!new)>(
    g: Graph<T>, vertices: set<T>, sccs: seq<seq<T>>, i: nat, x: T, y: T)
    requires IsSccOrder(g, vertices, sccs) && i < |sccs| && x in sccs[i] && y in sccs[i]
    ensures ReachSet(g, vertices, x) == ReachSet(g, vertices, y)
  {
    ComponentMembers(g, vertices, sccs, i, x, y);
    ComponentMembers(g, vertices, sccs, i, y, x);
    ReachSetsNest(g, vertices, x, y);
    ReachSetsNest(g, vertices, y, x);
  }

  lemma SeedClosures<T(!new)>(
    g: Graph<T>, vertices: set<T>, sccs: seq<seq<T>>, starts: seq<nat>, known: seq<T>)
    requires IsSccOrder(g, vertices, sccs) && |starts| == |known|
    requires forall i :: 0 <= i < |starts| ==> starts[i] < |sccs| && known[i] in sccs[starts[i]]
    ensures StartClosures(g, vertices, sccs, starts) == ReachSets(g, vertices, known)
  {
    forall i | 0 <= i < |starts|
      ensures StartClosures(g, vertices, sccs, starts)[i] == ReachSets(g, vertices, known)[i]
    {
      SameComponentSameReachSet(g, vertices, sccs, starts[i], known[i], sccs[starts[i]][0]);
    }
  }

  /** The roots' closures are exactly the maximal reach sets. */
  lemma RootClosures<T(!new)>(
    g: Graph<T>, vertices: set<T>, sccs: seq<seq<T>>, dag: Graph<nat>, starts: seq<nat>, c: set<T>)
    requires Condensed(g, vertices, sccs, dag)
    requires forall k :: 0 <= k < |starts| ==> starts[k] < |sccs|
    requires forall i :: i in starts <==> 0 <= i < |sccs| && IsRoot(dag, i)
    ensures c in StartClosures(g, vertices, sccs, starts) <==> IsMaximalReachSet(g, vertices, c)
  {
    var all := StartClosures(g, vertices, sccs, starts);
    if c in all {
      var n :| 0 <= n < |all| && all[n] == c;
      assert starts[n] in starts;
      RootIsMaximal(g, vertices, sccs, dag, starts[n], sccs[starts[n]][0]);
    }
    if IsMaximalReachSet(g, vertices, c) {
      var x :| x in vertices && c == ReachSet(g, vertices, x);
      var i := InOneComponent(g, vertices, sccs, x);
      MaximalIsRoot(g, vertices, sccs, dag, i, x);
      var n :| 0 <= n < |starts| && starts[n] == i;
      SameComponentSameReachSet(g, vertices, sccs, i, x, sccs[i][0]);
      assert all[n] == c;
    }
  }

  // ---------------------------------------------------------------- the graph object

  class ArtifactDependencyGraph {
    var order: seq<NodeId>                // node ids in the insertion order of `nodes`
    var nodes: map<NodeId, ArtifactNode>
    var adjacency: Graph<NodeId>
    var unresolvedEdges: seq<UnresolvedArtifactEdge>

    constructor ()
      ensures Valid() && nodes == map[] && adjacency == map[] && unresolvedEdges == []
    {
      order, nodes, adjacency, unresolvedEdges := [], map[], map[], [];
    }

    /** Edges only ever join known nodes. */
    ghost predicate Valid()
      reads this
    {
      && NoRepeats(order)
      && nodes.Keys == Elements(order) == adjacency.Keys
      && Closed(adjacency, nodes.Keys)
    }

    method AddNode(node: ArtifactNode)
      requires Valid()
      modifies this
      ensures Valid()
      ensures nodes == old(nodes)[node.id := node]
      ensures forall x, y :: Edge(adjacency, x, y) <==> old(Edge(adjacency, x, y))
      ensures order == if node.id in old(nodes) then old(order) else old(order) + [node.id]
      ensures unresolvedEdges == old(unresolvedEdges)
    {
      if node.id !in nodes {
        order := order + [node.id];
      }
      nodes := nodes[node.id := node];
      if node.id !in adjacency {
        adjacency := adjacency[node.id := {}];
      }
    }

    /** A dangling target is recorded as unresolved; an unknown source is ignored. */
    method AddEdge(sourceId: NodeId, targetId: NodeId)
      requires Valid()
      modifies this
      ensures Valid() && nodes == old(nodes) && order == old(order)
      ensures forall x, y :: Edge(adjacency, x, y) <==>
                old(Edge(adjacency, x, y)) || (x == sourceId && y == targetId && x in nodes && y in nodes)
      ensures unresolvedEdges == old(unresolvedEdges) +
                if sourceId in nodes && targetId !in nodes
                then [UnresolvedArtifactEdge(sourceId, targetId, "reference", "TARGET_NODE_NOT_FOUND")]
                else []
    {
      if sourceId in nodes && targetId in nodes {
        adjacency := adjacency[sourceId := Successors(adjacency, sourceId) + {targetId}];
      } else if sourceId in nodes {
        unresolvedEdges := unresolvedEdges +
          [UnresolvedArtifactEdge(sourceId, targetId, "reference", "TARGET_NODE_NOT_FOUND")];
      }
    }

    /** Each closure is listed in ascending order, once. */
    method ComputeDirectionalClosures(seedNodes: Option<seq<NodeId>>) returns (subgraphs: seq<seq<NodeId>>)
      requires Valid()
      ensures NoRepeats(SetsOf(subgraphs)) && forall i :: 0 <= i < |subgraphs| ==> Ascending(subgraphs[i])
      ensures seedNodes.None? ==>
                && (forall c :: c in SetsOf(subgraphs) <==> IsMaximalReachSet(adjacency, nodes.Keys, c))
                && (forall x :: x in nodes ==> exists c :: c in SetsOf(subgraphs) && x in c)
      ensures seedNodes.Some? ==>
                SetsOf(subgraphs)
                == FirstOccurrences(ReachSets(adjacency, nodes.Keys, Known(nodes.Keys, seedNodes.value)))
    {
      var sccs := ComputeScc(order, adjacency);
      var nodeToScc := IndexComponents(sccs);
      IndexedAreNodes(adjacency, nodes.Keys, sccs, nodeToScc);
      var dag, incoming := Condense(adjacency, sccs, nodeToScc);
      var closures;
      if seedNodes.Some? {
        closures := CloseSeeds(adjacency, nodes.Keys, sccs, dag, nodeToScc, seedNodes.value);
      } else {
        closures := CloseRoots(adjacency, nodes.Keys, sccs, dag, incoming);
      }
      subgraphs := ListClosures(closures);
    }
  }

  lemma IndexedAreNodes<T(!new)>(g: Graph<T>, vertices: set<T>, sccs: seq<seq<T>>, nodeToScc: map<T, nat>)
    requires IsSccOrder(g, vertices, sccs) && IndexesComponents(sccs, nodeToScc)
    ensures nodeToScc.Keys == vertices
  {
    forall x ensures x in nodeToScc <==> x in vertices {
      assert x in vertices <==> Emitted(sccs, x);
    }
  }

  method CloseSeeds<T(==, !new)>(
    ghost g: Graph<T>, ghost vertices: set<T>, sccs: seq<seq<T>>, dag: Graph<nat>, nodeToScc: map<T, nat>,
    seeds: seq<T>)
    returns (closures: seq<set<T>>)
    requires Condensed(g, vertices, sccs, dag) && IndexesComponents(sccs, nodeToScc) && nodeToScc.Keys == vertices
    ensures NoRepeats(closures)
    ensures closures == FirstOccurrences(ReachSets(g, vertices, Known(vertices, seeds)))
  {
    var starts, known := KnownSeeds(nodeToScc, seeds);
    SeedClosures(g, vertices, sccs, starts, known);
    closures := CloseStarts(g, vertices, sccs, dag, starts);
    FirstOccurrencesAreDistinct(StartClosures(g, vertices, sccs, starts));
  }

  method CloseRoots<T(==, !new)>(
    ghost g: Graph<T>, ghost vertices: set<T>, sccs: seq<seq<T>>, dag: Graph<nat>, incoming: map<nat, nat>)
    returns (closures: seq<set<T>>)
    requires Condensed(g, vertices, sccs, dag) && incoming.Keys == dag.Keys
    requires forall j: nat :: j < |sccs| ==> (incoming[j] == 0 <==> IsRoot(dag, j))
    ensures NoRepeats(closures)
    ensures forall c :: c in closures <==> IsMaximalReachSet(g, vertices, c)
    ensures forall x :: x in vertices ==> exists c :: c in closures && x in c
  {
    var starts := RootComponents(|sccs|, incoming);
    closures := CloseStarts(g, vertices, sccs, dag, starts);
    FirstOccurrencesAreDistinct(StartClosures(g, vertices, sccs, starts));
    forall c ensures c in closures <==> IsMaximalReachSet(g, vertices, c) {
      RootClosures(g, vertices, sccs, dag, starts, c);
    }
    hide IsMaximalReachSet;
    forall x | x in vertices ensures exists c :: c in closures && x in c {
      ReachRefl(g, x);
      var c := MaximalReachSetsCover(g, vertices, x, x);
    }
  }

  ghost function SetsOf<T>(lists: seq<seq<T>>): (sets: seq<set<T>>)
    ensures |sets| == |lists| && forall i :: 0 <= i < |sets| ==> sets[i] == Elements(lists[i])
  {
    seq(|lists|, i requires 0 <= i < |lists| => Elements(lists[i]))
  }

  method ListClosures(closures: seq<set<NodeId>>) returns (subgraphs: seq<seq<NodeId>>)
    ensures SetsOf(subgraphs) == closures
    ensures forall i :: 0 <= i < |subgraphs| ==> Ascending(subgraphs[i])
  {
    subgraphs := [];
    for n := 0 to |closures|
      invariant |subgraphs| == n
      invariant forall i :: 0 <= i < n ==> Elements(subgraphs[i]) == closures[i] && Ascending(subgraphs[i])
    {
      SortedLists(closures[n]);
      subgraphs := subgraphs + [Sorted(closures[n])];
    }
  }
}
