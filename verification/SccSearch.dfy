/** Tarjan's strongly connected components with an explicit stack and low-links.
    The search state is one mutable object, as the enclosing function's variables are in the
    program; the proofs are about the immutable snapshot of that state. */
module SccSearch {
  import opened Digraph

  datatype Snapshot<T> = Snapshot(
    index: nat,
    indices: map<T, nat>,
    lowlink: map<T, nat>,
    stack: seq<T>,
    sccs: seq<seq<T>>)

  function Min(a: nat, b: nat): nat {
    if a <= b then a else b
  }

  // ---------------------------------------------------------------- emitted components

  ghost predicate Emitted<T>(sccs: seq<seq<T>>, x: T) {
    exists i :: 0 <= i < |sccs| && x in sccs[i]
  }

  ghost predicate NoRepeats<T>(c: seq<T>) {
    forall i, j :: 0 <= i < j < |c| ==> c[i] != c[j]
  }

  ghost predicate MutuallyReachable<T(!new)>(g: Graph<T>, c: seq<T>) {
    forall x, y :: x in c && y in c ==> Reach(g, x, y)
  }

  /** Every edge out of component `i` ends in component `i` or in an earlier one. */
  ghost predicate EdgesGoBack<T(!new)>(g: Graph<T>, sccs: seq<seq<T>>, i: nat)
    requires i < |sccs|
  {
    forall x, y :: x in sccs[i] && Edge(g, x, y) ==> Emitted(sccs[..i + 1], y)
  }

  ghost predicate Disjoint<T>(sccs: seq<seq<T>>) {
    forall i, j, x :: 0 <= i < j < |sccs| && x in sccs[i] ==> x !in sccs[j]
  }

  ghost predicate ComponentsOk<T(!new)>(g: Graph<T>, sccs: seq<seq<T>>) {
    && (forall i :: 0 <= i < |sccs| ==>
          |sccs[i]| > 0 && NoRepeats(sccs[i]) && MutuallyReachable(g, sccs[i]) && EdgesGoBack(g, sccs, i))
    && Disjoint(sccs)
  }

  lemma AppendComponent<T(!new)>(g: Graph<T>, sccs: seq<seq<T>>, c: seq<T>)
    requires ComponentsOk(g, sccs)
    requires |c| > 0 && NoRepeats(c) && MutuallyReachable(g, c)
    requires forall x :: x in c ==> !Emitted(sccs, x)
    requires forall x, y :: x in c && Edge(g, x, y) ==> y in c || Emitted(sccs, y)
    ensures ComponentsOk(g, sccs + [c])
    ensures forall x :: Emitted(sccs + [c], x) <==> Emitted(sccs, x) || x in c
  {
    var all := sccs + [c];
    assert all[|sccs|] == c;
    forall x ensures Emitted(all, x) <==> Emitted(sccs, x) || x in c {
      if Emitted(sccs, x) {
        var i :| 0 <= i < |sccs| && x in sccs[i];
        assert x in all[i];
      }
    }
    assert all[..|sccs| + 1] == all;
    forall i | 0 <= i < |all| ensures EdgesGoBack(g, all, i) {
      if i < |sccs| {
        assert EdgesGoBack(g, sccs, i);
        assert all[..i + 1] == sccs[..i + 1];
      }
    }
  }

  // ---------------------------------------------------------------- the search invariant

  ghost predicate Visited<T>(s: Snapshot<T>, x: T) {
    x in s.indices
  }

  ghost predicate IndicesOk<T(!new)>(vertices: set<T>, s: Snapshot<T>) {
    && AllIndexed(s.indices, s.stack)
    && (forall x :: x in s.indices ==> s.indices[x] < s.index && x in s.lowlink && x in vertices)
    && (forall x :: Visited(s, x) <==> x in s.stack || Emitted(s.sccs, x))
    && (forall x :: x in s.stack ==> !Emitted(s.sccs, x))
    && (forall i, j :: 0 <= i < j < |s.stack| ==> s.indices[s.stack[i]] < s.indices[s.stack[j]])
  }

  /** `y` at stack position `j` reaches some active vertex at or below `j`. */
  ghost predicate ReachesActive<T(!new)>(g: Graph<T>, s: Snapshot<T>, active: set<T>, j: nat)
    requires j < |s.stack|
  {
    exists i :: 0 <= i <= j && s.stack[i] in active && Reach(g, s.stack[j], s.stack[i])
  }

  ghost predicate StackOk<T(!new)>(g: Graph<T>, s: Snapshot<T>, active: set<T>) {
    && (forall x :: x in active ==> x in s.stack)
    && (forall i, j :: 0 <= i <= j < |s.stack| ==> Reach(g, s.stack[i], s.stack[j]))
    && (forall j :: 0 <= j < |s.stack| ==> ReachesActive(g, s, active, j))
  }

  /** Only active vertices may still have unvisited successors. */
  ghost predicate FinishedExplored<T(!new)>(g: Graph<T>, s: Snapshot<T>, active: set<T>) {
    forall x, y :: x in s.indices && x !in active && Edge(g, x, y) ==> y in s.indices
  }

  ghost predicate Inv<T(!new)>(g: Graph<T>, vertices: set<T>, s: Snapshot<T>, active: set<T>) {
    && IndicesOk(vertices, s)
    && StackOk(g, s, active)
    && FinishedExplored(g, s, active)
    && ComponentsOk(g, s.sccs)
  }

  /** What one call to StrongConnect never takes back. */
  ghost predicate Extends<T(!new)>(s: Snapshot<T>, t: Snapshot<T>) {
    && s.index <= t.index
    && s.stack <= t.stack
    && s.sccs <= t.sccs
    && (forall x :: x in s.indices ==> x in t.indices && t.indices[x] == s.indices[x])
    && (forall x :: x in s.indices && x in s.lowlink ==> x in t.lowlink && t.lowlink[x] == s.lowlink[x])
  }

  // ---------------------------------------------------------------- low-links

  ghost predicate AllIndexed<T>(indices: map<T, nat>, stack: seq<T>) {
    forall i :: 0 <= i < |stack| ==> stack[i] in indices
  }

  /** No edge from stack positions `k..` back below `k` leads under index `low`;
      edges of position `k` itself into `todo` have not been looked at yet. */
  ghost predicate LowBound<T(!new)>(
    g: Graph<T>, indices: map<T, nat>, stack: seq<T>, k: nat, low: nat, todo: set<T>)
    requires AllIndexed(indices, stack)
  {
    forall i, j :: k <= i < |stack| && 0 <= j < k && Edge(g, stack[i], stack[j])
                   && (i == k ==> stack[j] !in todo)
      ==> low <= indices[stack[j]]
  }

  /** `low` is the index of a stack entry, below position `bound`, that `v` reaches. */
  ghost predicate LowWitness<T(!new)>(
    g: Graph<T>, indices: map<T, nat>, stack: seq<T>, v: T, low: nat, bound: nat)
    requires AllIndexed(indices, stack)
  {
    exists j :: 0 <= j < bound && j < |stack| && indices[stack[j]] == low && Reach(g, v, stack[j])
  }

  /** `low` is a sound low-link for `v`, the vertex at stack position `k`. */
  ghost predicate LowOk<T(!new)>(
    g: Graph<T>, indices: map<T, nat>, stack: seq<T>, k: nat, v: T, low: nat, todo: set<T>)
    requires AllIndexed(indices, stack)
  {
    && k < |stack| && stack[k] == v
    && low <= indices[v]
    && LowBound(g, indices, stack, k, low, todo)
    && LowWitness(g, indices, stack, v, low, k + 1)
  }

  /** The result of StrongConnect for `v` started in `s`. */
  ghost predicate Connected<T(!new)>(g: Graph<T>, s: Snapshot<T>, t: Snapshot<T>, v: T)
    requires AllIndexed(t.indices, t.stack)
  {
    && v in t.indices && v in t.lowlink
    && s.index <= t.indices[v] && t.lowlink[v] <= t.indices[v]
    && LowBound(g, t.indices, t.stack, |s.stack|, t.lowlink[v], {})
    && ((t.stack == s.stack && t.lowlink[v] == t.indices[v])
        || LowWitness(g, t.indices, t.stack, v, t.lowlink[v], |s.stack|))
  }

  /** The state inside StrongConnect(v), started in `s`, with successors `todo` not yet looked at. */
  ghost predicate Exploring<T(!new)>(
    g: Graph<T>, vertices: set<T>, s: Snapshot<T>, t: Snapshot<T>, active: set<T>, v: T, todo: set<T>)
  {
    && Inv(g, vertices, t, active + {v})
    && Extends(s, t)
    && v !in s.indices
    && v in t.indices && v in t.lowlink && t.indices[v] == s.index < t.index
    && (forall y :: Edge(g, v, y) && y !in todo ==> y in t.indices)
    && LowOk(g, t.indices, t.stack, |s.stack|, v, t.lowlink[v], todo)
  }

  ghost function Entered<T>(s: Snapshot<T>, v: T): Snapshot<T> {
    Snapshot(s.index + 1, s.indices[v := s.index], s.lowlink[v := s.index], s.stack + [v], s.sccs)
  }

  lemma StackReachesEntered<T(!new)>(g: Graph<T>, s: Snapshot<T>, active: set<T>, v: T)
    requires StackOk(g, s, active)
    requires forall a :: a in active ==> Reach(g, a, v)
    ensures StackOk(g, Entered(s, v), active + {v})
  {
    var t := Entered(s, v);
    forall j | 0 <= j < |s.stack|
      ensures Reach(g, s.stack[j], v) && ReachesActive(g, t, active + {v}, j)
    {
      assert ReachesActive(g, s, active, j);
      var i :| 0 <= i <= j && s.stack[i] in active && Reach(g, s.stack[j], s.stack[i]);
      assert t.stack[i] == s.stack[i] && t.stack[j] == s.stack[j];
      ReachTrans(g, s.stack[j], s.stack[i], v);
    }
    ReachRefl(g, v);
    assert t.stack[|s.stack|] == v;
    assert ReachesActive(g, t, active + {v}, |s.stack|);
  }

  lemma EnterIndices<T(!new)>(vertices: set<T>, s: Snapshot<T>, v: T)
    requires IndicesOk(vertices, s) && v in vertices && v !in s.indices
    ensures IndicesOk(vertices, Entered(s, v))
  {
    var t := Entered(s, v);
    assert !Visited(s, v);
    forall x ensures Visited(t, x) <==> x in t.stack || Emitted(t.sccs, x) {
      assert Visited(s, x) <==> x in s.stack || Emitted(s.sccs, x);
    }
  }

  lemma Enter<T(!new)>(g: Graph<T>, vertices: set<T>, s: Snapshot<T>, active: set<T>, v: T)
    requires Inv(g, vertices, s, active)
    requires v in vertices && v !in s.indices
    requires forall a :: a in active ==> Reach(g, a, v)
    ensures Exploring(g, vertices, s, Entered(s, v), active, v, Successors(g, v))
  {
    var t := Entered(s, v);
    EnterIndices(vertices, s, v);
    StackReachesEntered(g, s, active, v);
    EnteredLow(g, vertices, s, v);
    EnterExtends(vertices, s, v);
    hide IndicesOk, StackOk, ComponentsOk, LowOk, Extends, Reach;
    assert FinishedExplored(g, t, active + {v});
  }

  lemma EnterExtends<T(!new)>(vertices: set<T>, s: Snapshot<T>, v: T)
    requires IndicesOk(vertices, s) && v !in s.indices
    ensures Extends(s, Entered(s, v))
  {
  }

  lemma EnteredLow<T(!new)>(g: Graph<T>, vertices: set<T>, s: Snapshot<T>, v: T)
    requires IndicesOk(vertices, s) && v !in s.indices
    ensures AllIndexed(Entered(s, v).indices, Entered(s, v).stack)
    ensures var t := Entered(s, v);
            LowOk(g, t.indices, t.stack, |s.stack|, v, t.lowlink[v], Successors(g, v))
  {
    var t := Entered(s, v);
    ReachRefl(g, v);
    assert t.stack[|s.stack|] == v;
    assert LowWitness(g, t.indices, t.stack, v, s.index, |s.stack| + 1);
  }

  ghost function WithLow<T>(t: Snapshot<T>, v: T, low: nat): Snapshot<T> {
    t.(lowlink := t.lowlink[v := low])
  }

  lemma LowlinkIrrelevant<T(!new)>(g: Graph<T>, vertices: set<T>, t: Snapshot<T>, active: set<T>, v: T, low: nat)
    requires Inv(g, vertices, t, active)
    ensures Inv(g, vertices, WithLow(t, v, low), active)
  {
    var u := WithLow(t, v, low);
    forall x ensures Visited(u, x) <==> x in u.stack || Emitted(u.sccs, x) {
      assert Visited(t, x) <==> x in t.stack || Emitted(t.sccs, x);
    }
    forall j | 0 <= j < |u.stack| ensures ReachesActive(g, u, active, j) {
      assert ReachesActive(g, t, active, j);
    }
  }

  /** A successor that is neither new nor on the stack changes nothing. */
  lemma SkipEmitted<T(!new)>(
    g: Graph<T>, vertices: set<T>, s: Snapshot<T>, t: Snapshot<T>, active: set<T>, v: T, todo: set<T>, w: T)
    requires Exploring(g, vertices, s, t, active, v, todo)
    requires w in t.indices && w !in t.stack
    ensures Exploring(g, vertices, s, t, active, v, todo - {w})
  {
  }

  /** Positions on the stack are ordered by index. */
  lemma LowerIndexIsLower<T(!new)>(vertices: set<T>, s: Snapshot<T>, i: nat, j: nat)
    requires IndicesOk(vertices, s) && i < |s.stack| && j < |s.stack|
    requires s.indices[s.stack[i]] <= s.indices[s.stack[j]]
    ensures i <= j
  {
  }

  lemma WitnessStacked<T(!new)>(
    g: Graph<T>, vertices: set<T>, t: Snapshot<T>, k: nat, v: T, low: nat, w: T)
    requires IndicesOk(vertices, t) && k < |t.stack| && t.stack[k] == v
    requires w in t.indices && w in t.stack && Edge(g, v, w)
    requires low <= t.indices[v] && LowWitness(g, t.indices, t.stack, v, low, k + 1)
    ensures LowWitness(g, t.indices, t.stack, v, Min(low, t.indices[w]), k + 1)
  {
    var j :| 0 <= j < |t.stack| && t.stack[j] == w;
    if t.indices[w] < low {
      LowerIndexIsLower(vertices, t, j, k);
      ReachEdge(g, v, w);
    }
  }

  lemma LowStacked<T(!new)>(
    g: Graph<T>, vertices: set<T>, t: Snapshot<T>, k: nat, v: T, low: nat, todo: set<T>, w: T)
    requires IndicesOk(vertices, t) && LowOk(g, t.indices, t.stack, k, v, low, todo)
    requires w in t.indices && w in t.stack && Edge(g, v, w)
    ensures LowOk(g, t.indices, t.stack, k, v, Min(low, t.indices[w]), todo - {w})
  {
    WitnessStacked(g, vertices, t, k, v, low, w);
  }

  lemma LookAtStacked<T(!new)>(
    g: Graph<T>, vertices: set<T>, s: Snapshot<T>, t: Snapshot<T>, active: set<T>, v: T, todo: set<T>, w: T)
    requires Exploring(g, vertices, s, t, active, v, todo)
    requires w in t.indices && w in t.stack && Edge(g, v, w)
    ensures Exploring(g, vertices, s, WithLow(t, v, Min(t.lowlink[v], t.indices[w])), active, v, todo - {w})
  {
    LowlinkIrrelevant(g, vertices, t, active + {v}, v, Min(t.lowlink[v], t.indices[w]));
    LowStacked(g, vertices, t, |s.stack|, v, t.lowlink[v], todo, w);
  }

  lemma BoundReturned<T(!new)>(
    g: Graph<T>, t: Snapshot<T>, u: Snapshot<T>, k: nat, low: nat, todo: set<T>, w: T)
    requires AllIndexed(t.indices, t.stack) && AllIndexed(u.indices, u.stack) && Extends(t, u)
    requires k < |t.stack| && LowBound(g, t.indices, t.stack, k, low, todo)
    requires w !in t.indices && Connected(g, t, u, w)
    ensures LowBound(g, u.indices, u.stack, k, Min(low, u.lowlink[w]), todo - {w})
  {
    var low' := Min(low, u.lowlink[w]);
    forall i, j | k <= i < |u.stack| && 0 <= j < k && Edge(g, u.stack[i], u.stack[j])
                  && (i == k ==> u.stack[j] !in todo - {w})
      ensures low' <= u.indices[u.stack[j]]
    {
      assert u.stack[j] == t.stack[j];
      if i < |t.stack| {
        assert u.stack[i] == t.stack[i];
      }
    }
  }

  lemma WitnessReturned<T(!new)>(
    g: Graph<T>, vertices: set<T>, t: Snapshot<T>, u: Snapshot<T>, k: nat, v: T, low: nat, w: T)
    requires IndicesOk(vertices, t) && IndicesOk(vertices, u) && Extends(t, u)
    requires k < |t.stack| && t.stack[k] == v
    requires low <= t.indices[v] && LowWitness(g, t.indices, t.stack, v, low, k + 1)
    requires Edge(g, v, w) && Connected(g, t, u, w)
    ensures LowWitness(g, u.indices, u.stack, v, Min(low, u.lowlink[w]), k + 1)
  {
    if low <= u.lowlink[w] {
      var j :| 0 <= j < k + 1 && j < |t.stack| && t.indices[t.stack[j]] == low && Reach(g, v, t.stack[j]);
      assert u.stack[j] == t.stack[j];
    } else {
      var j :| 0 <= j < |t.stack| && j < |u.stack|
               && u.indices[u.stack[j]] == u.lowlink[w] && Reach(g, w, u.stack[j]);
      assert u.stack[k] == v;
      LowerIndexIsLower(vertices, u, j, k);
      ReachStep(g, v, w, u.stack[j]);
    }
  }

  lemma ExtendsTrans<T(!new)>(s: Snapshot<T>, t: Snapshot<T>, u: Snapshot<T>)
    requires Extends(s, t) && Extends(t, u)
    ensures Extends(s, u)
  {
  }

  lemma LowReturned<T(!new)>(
    g: Graph<T>, vertices: set<T>, t: Snapshot<T>, u: Snapshot<T>, k: nat, v: T, low: nat, todo: set<T>, w: T)
    requires IndicesOk(vertices, t) && IndicesOk(vertices, u) && Extends(t, u)
    requires v in t.indices && LowOk(g, t.indices, t.stack, k, v, low, todo)
    requires w !in t.indices && Edge(g, v, w) && Connected(g, t, u, w)
    ensures LowOk(g, u.indices, u.stack, k, v, Min(low, u.lowlink[w]), todo - {w})
  {
    assert u.stack[k] == t.stack[k];
    BoundReturned(g, t, u, k, low, todo, w);
    WitnessReturned(g, vertices, t, u, k, v, low, w);
  }

  /** Coming back from the recursive call for successor `w`. */
  lemma ReturnFromSuccessor<T(!new)>(
    g: Graph<T>, vertices: set<T>, s: Snapshot<T>, t: Snapshot<T>, u: Snapshot<T>,
    active: set<T>, v: T, todo: set<T>, w: T)
    requires Exploring(g, vertices, s, t, active, v, todo)
    requires w !in t.indices && Edge(g, v, w)
    requires Inv(g, vertices, u, active + {v}) && Extends(t, u) && Connected(g, t, u, w)
    ensures v in u.lowlink
    ensures Exploring(g, vertices, s, WithLow(u, v, Min(u.lowlink[v], u.lowlink[w])), active, v, todo - {w})
  {
    hide ComponentsOk, StackOk, FinishedExplored, LowBound, LowWitness, Reach;
    LowReturned(g, vertices, t, u, |s.stack|, v, t.lowlink[v], todo, w);
    LowlinkIrrelevant(g, vertices, u, active + {v}, v, Min(u.lowlink[v], u.lowlink[w]));
    ExtendsTrans(s, t, u);
  }

  // ---------------------------------------------------------------- leaving StrongConnect

  /** When `v` reaches below itself, everything above it still reaches an older active vertex. */
  lemma StillReachesActive<T(!new)>(
    g: Graph<T>, s: Snapshot<T>, active: set<T>, k: nat, v: T, z: nat, j: nat)
    requires StackOk(g, s, active + {v})
    requires z < k < |s.stack| && s.stack[k] == v && NoRepeats(s.stack)
    requires Reach(g, v, s.stack[z]) && j < |s.stack|
    ensures ReachesActive(g, s, active, j)
  {
    hide Reach;
    assert ReachesActive(g, s, active + {v}, j);
    var i :| 0 <= i <= j && s.stack[i] in active + {v} && Reach(g, s.stack[j], s.stack[i]);
    if s.stack[i] !in active {
      assert i == k;
      assert ReachesActive(g, s, active + {v}, z);
      var i' :| 0 <= i' <= z && s.stack[i'] in active + {v} && Reach(g, s.stack[z], s.stack[i']);
      ReachTrans(g, s.stack[j], v, s.stack[z]);
      ReachTrans(g, s.stack[j], s.stack[z], s.stack[i']);
    }
  }

  lemma StackHasNoRepeats<T(!new)>(vertices: set<T>, s: Snapshot<T>)
    requires IndicesOk(vertices, s)
    ensures NoRepeats(s.stack)
  {
  }

  lemma LeaveOnStack<T(!new)>(
    g: Graph<T>, vertices: set<T>, s: Snapshot<T>, t: Snapshot<T>, active: set<T>, v: T)
    requires Exploring(g, vertices, s, t, active, v, {})
    requires forall x :: x in active ==> x in s.stack
    requires t.lowlink[v] != t.indices[v]
    ensures Inv(g, vertices, t, active) && Connected(g, s, t, v)
  {
    var k := |s.stack|;
    var z :| 0 <= z < k + 1 && z < |t.stack| && t.indices[t.stack[z]] == t.lowlink[v] && Reach(g, v, t.stack[z]);
    StackHasNoRepeats(vertices, t);
    forall j | 0 <= j < |t.stack| ensures ReachesActive(g, t, active, j) {
      StillReachesActive(g, t, active, k, v, z, j);
    }
  }

  ghost function Popped<T>(t: Snapshot<T>, k: nat, c: seq<T>): Snapshot<T>
    requires k <= |t.stack|
  {
    t.(stack := t.stack[..k], sccs := t.sccs + [c])
  }

  /** The vertices from `v` upwards on the stack all reach each other. */
  lemma PoppedMutuallyReach<T(!new)>(
    g: Graph<T>, t: Snapshot<T>, active: set<T>, k: nat, v: T, i: nat, j: nat)
    requires StackOk(g, t, active + {v}) && NoRepeats(t.stack)
    requires k <= i < |t.stack| && k <= j < |t.stack| && t.stack[k] == v
    requires forall a :: a in active ==> Reach(g, a, v) && a in t.stack[..k]
    ensures Reach(g, t.stack[i], t.stack[j])
  {
    assert ReachesActive(g, t, active + {v}, i);
    var h :| 0 <= h <= i && t.stack[h] in active + {v} && Reach(g, t.stack[i], t.stack[h]);
    if t.stack[h] == v {
      ReachRefl(g, v);
    }
    ReachTrans(g, t.stack[i], t.stack[h], v);
    ReachTrans(g, t.stack[i], v, t.stack[j]);
  }

  /** No edge leaves a finished root component except into emitted components. */
  lemma PoppedEdges<T(!new)>(
    g: Graph<T>, vertices: set<T>, t: Snapshot<T>, active: set<T>, k: nat, v: T, i: nat, y: T)
    requires IndicesOk(vertices, t) && FinishedExplored(g, t, active + {v})
    requires k <= i < |t.stack| && t.stack[k] == v
    requires forall a :: a in active ==> a in t.stack[..k]
    requires LowBound(g, t.indices, t.stack, k, t.indices[v], {})
    requires forall z :: Edge(g, v, z) ==> z in t.indices
    requires Edge(g, t.stack[i], y)
    ensures y in t.stack[k..] || Emitted(t.sccs, y)
  {
    StackHasNoRepeats(vertices, t);
    if i != k {
      assert t.stack[i] !in active + {v};
    }
    assert Visited(t, y);
    if y in t.stack {
      var j :| 0 <= j < |t.stack| && t.stack[j] == y;
      assert j >= k;
      assert t.stack[k..][j - k] == y;
    }
  }

  lemma PopIndices<T(!new)>(vertices: set<T>, t: Snapshot<T>, k: nat, c: seq<T>)
    requires IndicesOk(vertices, t) && k <= |t.stack|
    requires forall x :: x in c <==> x in t.stack[k..]
    requires forall x :: Emitted(t.sccs + [c], x) <==> Emitted(t.sccs, x) || x in c
    ensures IndicesOk(vertices, Popped(t, k, c))
  {
    var u := Popped(t, k, c);
    StackHasNoRepeats(vertices, t);
    assert t.stack == t.stack[..k] + t.stack[k..];
    forall x ensures Visited(u, x) <==> x in u.stack || Emitted(u.sccs, x) {
      assert Visited(t, x) <==> x in t.stack || Emitted(t.sccs, x);
    }
  }

  lemma PopStack<T(!new)>(g: Graph<T>, t: Snapshot<T>, active: set<T>, k: nat, v: T, c: seq<T>)
    requires StackOk(g, t, active + {v}) && NoRepeats(t.stack)
    requires k < |t.stack| && t.stack[k] == v
    requires forall a :: a in active ==> a in t.stack[..k]
    ensures StackOk(g, Popped(t, k, c), active)
  {
    var u := Popped(t, k, c);
    forall j | 0 <= j < k ensures ReachesActive(g, u, active, j) {
      assert ReachesActive(g, t, active + {v}, j);
      var i :| 0 <= i <= j && t.stack[i] in active + {v} && Reach(g, t.stack[j], t.stack[i]);
      assert u.stack[i] == t.stack[i];
    }
  }

  lemma EmittedComponentOk<T(!new)>(
    g: Graph<T>, vertices: set<T>, t: Snapshot<T>, active: set<T>, k: nat, v: T, c: seq<T>)
    requires Inv(g, vertices, t, active + {v})
    requires k < |t.stack| && t.stack[k] == v
    requires forall a :: a in active ==> Reach(g, a, v) && a in t.stack[..k]
    requires LowBound(g, t.indices, t.stack, k, t.indices[v], {})
    requires forall z :: Edge(g, v, z) ==> z in t.indices
    requires NoRepeats(c) && forall x :: x in c <==> x in t.stack[k..]
    ensures ComponentsOk(g, t.sccs + [c])
    ensures forall x :: Emitted(t.sccs + [c], x) <==> Emitted(t.sccs, x) || x in c
  {
    StackHasNoRepeats(vertices, t);
    assert t.stack[k..][0] == v && v in c;
    forall x, y | x in c && y in c ensures Reach(g, x, y) {
      var i :| k <= i < |t.stack| && t.stack[i] == x;
      var j :| k <= j < |t.stack| && t.stack[j] == y;
      PoppedMutuallyReach(g, t, active, k, v, i, j);
    }
    forall x, y | x in c && Edge(g, x, y) ensures y in c || Emitted(t.sccs, y) {
      var i :| k <= i < |t.stack| && t.stack[i] == x;
      PoppedEdges(g, vertices, t, active, k, v, i, y);
    }
    AppendComponent(g, t.sccs, c);
  }

  /** Emitting the component of a root restores the invariant without `v` being active. */
  lemma EmitComponent<T(!new)>(
    g: Graph<T>, vertices: set<T>, s: Snapshot<T>, t: Snapshot<T>, active: set<T>, v: T, c: seq<T>)
    requires Exploring(g, vertices, s, t, active, v, {})
    requires forall a :: a in active ==> Reach(g, a, v) && a in s.stack
    requires t.lowlink[v] == t.indices[v]
    requires NoRepeats(c) && forall x :: x in c <==> x in t.stack[|s.stack|..]
    ensures Inv(g, vertices, Popped(t, |s.stack|, c), active)
    ensures Extends(s, Popped(t, |s.stack|, c))
    ensures Connected(g, s, Popped(t, |s.stack|, c), v)
  {
    var k := |s.stack|;
    assert t.stack[..k] == s.stack;
    EmittedComponentOk(g, vertices, t, active, k, v, c);
    StackHasNoRepeats(vertices, t);
    PopIndices(vertices, t, k, c);
    PopStack(g, t, active, k, v, c);
  }

  // ---------------------------------------------------------------- the search itself

  class Search<T(==, !new)> {
    const adjacency: Graph<T>
    var index: nat
    var indices: map<T, nat>
    var lowlink: map<T, nat>
    var onStack: set<T>
    var stack: seq<T>
    var sccs: seq<seq<T>>

    constructor (adjacency: Graph<T>)
      ensures this.adjacency == adjacency
      ensures View() == Snapshot(0, map[], map[], [], []) && onStack == {}
    {
      this.adjacency := adjacency;
      index, indices, lowlink, onStack, stack, sccs := 0, map[], map[], {}, [], [];
    }

    ghost function View(): Snapshot<T>
      reads this
    {
      Snapshot(index, indices, lowlink, stack, sccs)
    }

    ghost predicate Valid(vertices: set<T>, active: set<T>)
      reads this
    {
      Inv(adjacency, vertices, View(), active) && onStack == Elements(stack)
    }

    /** Pops the stack down to and including `vertex`. */
    method PopComponent(vertex: T, ghost k: nat) returns (component: seq<T>)
      requires k < |stack| && stack[k] == vertex && NoRepeats(stack) && onStack == Elements(stack)
      modifies this`stack, this`onStack
      ensures stack == old(stack)[..k] && onStack == Elements(stack)
      ensures NoRepeats(component) && forall x :: x in component <==> x in old(stack)[k..]
    {
      ghost var before := stack;
      component := [];
      var popped := false;
      while !popped
        invariant popped ==> |stack| == k
        invariant !popped ==> k < |stack|
        invariant stack == before[..|stack|] && |stack| <= |before|
        invariant onStack == Elements(stack)
        invariant |component| == |before| - |stack|
        invariant forall i :: 0 <= i < |component| ==> component[i] == before[|before| - 1 - i]
        decreases |stack|, !popped
      {
        var target := stack[|stack| - 1];
        stack := stack[..|stack| - 1];
        onStack := onStack - {target};
        component := component + [target];
        popped := target == vertex;
      }
      forall x ensures x in component <==> x in before[k..] {
        if x in before[k..] {
          var i :| k <= i < |before| && before[i] == x;
          assert component[|before| - 1 - i] == x;
        }
      }
    }

    method Push(vertex: T, ghost vertices: set<T>, ghost active: set<T>)
      requires Valid(vertices, active) && vertex in vertices && vertex !in indices
      requires forall a :: a in active ==> Reach(adjacency, a, vertex)
      modifies this
      ensures Exploring(adjacency, vertices, old(View()), View(), active, vertex, Successors(adjacency, vertex))
      ensures onStack == Elements(stack)
    {
      Enter(adjacency, vertices, View(), active, vertex);
      indices := indices[vertex := index];
      lowlink := lowlink[vertex := index];
      index := index + 1;
      stack := stack + [vertex];
      onStack := onStack + {vertex};
      assert View() == Entered(old(View()), vertex);
    }

    /** One successor: recurse into a new one, take the index of a stacked one, skip the rest. */
    method LookAt(
      vertex: T, target: T, ghost vertices: set<T>, ghost active: set<T>, ghost s: Snapshot<T>, ghost todo: set<T>)
      requires Exploring(adjacency, vertices, s, View(), active, vertex, todo)
      requires onStack == Elements(stack)
      requires Closed(adjacency, vertices) && vertex in vertices && Edge(adjacency, vertex, target)
      requires forall a :: a in active ==> Reach(adjacency, a, vertex)
      modifies this
      ensures Exploring(adjacency, vertices, s, View(), active, vertex, todo - {target})
      ensures onStack == Elements(stack)
      decreases vertices - indices.Keys, 1
    {
      ghost var t := View();
      if target !in indices {
        ReachActiveStep(adjacency, active, vertex, target);
        StrongConnect(target, vertices, active + {vertex});
        ReturnFromSuccessor(adjacency, vertices, s, t, View(), active, vertex, todo, target);
        lowlink := lowlink[vertex := Min(lowlink[vertex], lowlink[target])];
      } else if target in onStack {
        LookAtStacked(adjacency, vertices, s, t, active, vertex, todo, target);
        lowlink := lowlink[vertex := Min(lowlink[vertex], indices[target])];
      } else {
        SkipEmitted(adjacency, vertices, s, t, active, vertex, todo, target);
      }
    }

    method EmitIfRoot(vertex: T, ghost vertices: set<T>, ghost active: set<T>, ghost s: Snapshot<T>)
      requires Exploring(adjacency, vertices, s, View(), active, vertex, {})
      requires onStack == Elements(stack)
      requires forall a :: a in active ==> Reach(adjacency, a, vertex) && a in s.stack
      modifies this
      ensures Valid(vertices, active)
      ensures Extends(s, View()) && Connected(adjacency, s, View(), vertex)
    {
      ghost var t := View();
      if lowlink[vertex] == indices[vertex] {
        StackHasNoRepeats(vertices, t);
        var component := PopComponent(vertex, |s.stack|);
        sccs := sccs + [component];
        EmitComponent(adjacency, vertices, s, t, active, vertex, component);
        assert View() == Popped(t, |s.stack|, component);
      } else {
        LeaveOnStack(adjacency, vertices, s, t, active, vertex);
      }
    }

    method StrongConnect(vertex: T, ghost vertices: set<T>, ghost active: set<T>)
      requires Valid(vertices, active) && vertex in vertices && vertex !in indices
      requires Closed(adjacency, vertices)
      requires forall a :: a in active ==> Reach(adjacency, a, vertex)
      modifies this
      ensures Valid(vertices, active)
      ensures Extends(old(View()), View()) && Connected(adjacency, old(View()), View(), vertex)
      decreases vertices - indices.Keys, 0
    {
      ghost var s := View();
      assert forall a :: a in active ==> a in s.stack;
      hide ComponentsOk, StackOk, IndicesOk, FinishedExplored, LowBound, LowWitness, Reach;
      Push(vertex, vertices, active);
      var todo := Successors(adjacency, vertex);
      while todo != {}
        invariant todo <= Successors(adjacency, vertex)
        invariant Exploring(adjacency, vertices, s, View(), active, vertex, todo)
        invariant onStack == Elements(stack)
        decreases todo
      {
        var target :| target in todo;
        LookAt(vertex, target, vertices, active, s, todo);
        todo := todo - {target};
      }
      EmitIfRoot(vertex, vertices, active, s);
    }
  }

  lemma ReachActiveStep<T(!new)>(g: Graph<T>, active: set<T>, v: T, w: T)
    requires forall a :: a in active ==> Reach(g, a, v)
    requires Edge(g, v, w)
    ensures forall a :: a in active + {v} ==> Reach(g, a, w)
  {
    ReachEdge(g, v, w);
    forall a | a in active ensures Reach(g, a, w) {
      ReachTrans(g, a, v, w);
    }
  }

  // ---------------------------------------------------------------- the result

  ghost predicate SameComponent<T>(sccs: seq<seq<T>>, x: T, y: T) {
    exists i :: 0 <= i < |sccs| && x in sccs[i] && y in sccs[i]
  }

  /** `sccs` lists the strongly connected components of the graph on `vertices`,
      each one after every component it has an edge into. */
  ghost predicate IsSccOrder<T(!new)>(g: Graph<T>, vertices: set<T>, sccs: seq<seq<T>>) {
    && (forall x :: x in vertices <==> Emitted(sccs, x))
    && (forall i :: 0 <= i < |sccs| ==> |sccs[i]| > 0 && NoRepeats(sccs[i]))
    && Disjoint(sccs)
    && (forall x, y :: x in vertices && y in vertices ==>
          (SameComponent(sccs, x, y) <==> Reach(g, x, y) && Reach(g, y, x)))
    && (forall i, j, x, y :: 0 <= i < |sccs| && 0 <= j < |sccs| && x in sccs[i] && y in sccs[j] && Edge(g, x, y)
          ==> j <= i)
  }

  ghost function EmittedSet<T>(sccs: seq<seq<T>>): set<T> {
    set i, x | 0 <= i < |sccs| && x in sccs[i] :: x
  }

  lemma EdgeOrder<T(!new)>(g: Graph<T>, sccs: seq<seq<T>>, i: nat, j: nat, x: T, y: T)
    requires ComponentsOk(g, sccs) && i < |sccs| && j < |sccs|
    requires x in sccs[i] && y in sccs[j] && Edge(g, x, y)
    ensures j <= i
  {
    assert EdgesGoBack(g, sccs, i);
    assert Emitted(sccs[..i + 1], y);
    var h :| 0 <= h < |sccs[..i + 1]| && y in sccs[..i + 1][h];
    assert y in sccs[h];
  }

  /** Reaching goes back in emission order, because every prefix is closed under edges. */
  lemma ReachOrder<T(!new)>(g: Graph<T>, sccs: seq<seq<T>>, i: nat, j: nat, x: T, y: T)
    requires ComponentsOk(g, sccs) && i < |sccs| && j < |sccs|
    requires x in sccs[i] && y in sccs[j] && Reach(g, x, y)
    ensures j <= i
  {
    var before := sccs[..i + 1];
    var s := EmittedSet(before);
    forall v, w | v in s && Edge(g, v, w) ensures w in s {
      var h :| 0 <= h < |before| && v in before[h];
      assert EdgesGoBack(g, sccs, h) && v in sccs[h];
      var h' :| 0 <= h' < |sccs[..h + 1]| && w in sccs[..h + 1][h'];
      assert w in before[h'];
    }
    assert x in before[i];
    ClosedReach(g, s, x, y);
    var h :| 0 <= h < |before| && y in before[h];
    assert y in sccs[h];
  }

  lemma ComponentsAreSccs<T(!new)>(g: Graph<T>, vertices: set<T>, sccs: seq<seq<T>>)
    requires ComponentsOk(g, sccs)
    requires forall x :: x in vertices <==> Emitted(sccs, x)
    ensures IsSccOrder(g, vertices, sccs)
  {
    forall x, y | x in vertices && y in vertices
      ensures SameComponent(sccs, x, y) <==> Reach(g, x, y) && Reach(g, y, x)
    {
      assert Emitted(sccs, x) && Emitted(sccs, y);
      var i :| 0 <= i < |sccs| && x in sccs[i];
      var j :| 0 <= j < |sccs| && y in sccs[j];
      if Reach(g, x, y) && Reach(g, y, x) {
        ReachOrder(g, sccs, i, j, x, y);
        ReachOrder(g, sccs, j, i, y, x);
      }
      if SameComponent(sccs, x, y) {
        var h :| 0 <= h < |sccs| && x in sccs[h] && y in sccs[h];
        assert MutuallyReachable(g, sccs[h]);
      }
    }
    forall i, j, x, y | 0 <= i < |sccs| && 0 <= j < |sccs| && x in sccs[i] && y in sccs[j] && Edge(g, x, y)
      ensures j <= i
    {
      EdgeOrder(g, sccs, i, j, x, y);
    }
  }

  lemma NothingActiveMeansEmptyStack<T(!new)>(g: Graph<T>, s: Snapshot<T>)
    requires StackOk(g, s, {})
    ensures s.stack == []
  {
    var bottomReaches := |s.stack| > 0 && ReachesActive(g, s, {}, 0);
  }

  lemma StartInvariant<T(!new)>(g: Graph<T>, vertices: set<T>)
    ensures Inv(g, vertices, Snapshot(0, map[], map[], [], []), {})
  {
    assert ComponentsOk(g, []);
  }

  method ComputeScc<T(==, !new)>(nodes: seq<T>, adjacency: Graph<T>) returns (sccs: seq<seq<T>>)
    requires Closed(adjacency, Elements(nodes))
    ensures IsSccOrder(adjacency, Elements(nodes), sccs)
  {
    var search := new Search(adjacency);
    ghost var vertices := Elements(nodes);
    StartInvariant(adjacency, vertices);
    for n := 0 to |nodes|
      invariant search.adjacency == adjacency && search.Valid(vertices, {})
      invariant forall i :: 0 <= i < n ==> nodes[i] in search.indices
    {
      if nodes[n] !in search.indices {
        search.StrongConnect(nodes[n], vertices, {});
      }
    }
    sccs := search.sccs;
    NothingActiveMeansEmptyStack(adjacency, search.View());
    forall x ensures x in vertices <==> Emitted(sccs, x) {
      assert Visited(search.View(), x) <==> x in search.stack || Emitted(sccs, x);
    }
    ComponentsAreSccs(adjacency, vertices, sccs);
  }
}
