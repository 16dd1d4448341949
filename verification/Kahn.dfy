/** The cycle check on the job graph: repeatedly emit a job whose producers are all emitted. */
module Kahn {
  import opened Digraph

  /** Jobs are numbered `0..n`; an edge goes from a job to a producer it depends on. */
  ghost predicate JobsBelow(deps: Graph<nat>, n: nat) {
    && (forall i: nat :: i in deps <==> i < n)
    && (forall i: nat, p: nat :: Edge(deps, i, p) ==> p < n)
  }

  ghost predicate IsTranspose(deps: Graph<nat>, outgoing: Graph<nat>, n: nat) {
    && (forall i: nat :: i in outgoing <==> i < n)
    && (forall i: nat, p: nat :: Edge(outgoing, p, i) <==> Edge(deps, i, p))
  }

  /** How many producers of job `i` are outside `done`. */
  ghost function OpenCount(deps: Graph<nat>, i: nat, done: set<nat>): nat
    requires i in deps
  {
    |deps[i] - done|
  }

  lemma OpenCountStep(deps: Graph<nat>, i: nat, done: set<nat>, p: nat)
    requires i in deps && p !in done
    ensures OpenCount(deps, i, done + {p}) == OpenCount(deps, i, done) - if Edge(deps, i, p) then 1 else 0
  {
    if p in deps[i] {
      assert deps[i] - done == (deps[i] - (done + {p})) + {p};
    } else {
      assert deps[i] - (done + {p}) == deps[i] - done;
    }
  }

  lemma OpenCountZero(deps: Graph<nat>, i: nat, done: set<nat>)
    requires i in deps
    ensures OpenCount(deps, i, done) == 0 <==> deps[i] <= done
  {
    assert forall p :: p in deps[i] && p !in done ==> p in deps[i] - done;
  }

  /** `indegree` counts the producers outside `done`. */
  ghost predicate CountsOpen(deps: Graph<nat>, n: nat, indegree: map<nat, int>, done: set<nat>) {
    && (forall i: nat :: i in indegree <==> i < n)
    && (forall i: nat :: i < n ==> i in deps && indegree[i] == OpenCount(deps, i, done))
  }

  /** Some consumers of `p` (those in `todo`) have not been told yet that `p` is done. */
  ghost predicate CountsOpenExcept(
    deps: Graph<nat>, n: nat, indegree: map<nat, int>, done: set<nat>, p: nat, todo: set<nat>)
  {
    && (forall i: nat :: i in indegree <==> i < n)
    && (forall i: nat :: i < n ==>
          i in deps && indegree[i] == OpenCount(deps, i, if i in todo then done else done + {p}))
  }

  lemma CountsSplit(deps: Graph<nat>, n: nat, indegree: map<nat, int>, done: set<nat>, p: nat, todo: set<nat>)
    requires CountsOpen(deps, n, indegree, done) && p !in done
    requires forall i: nat :: i < n && Edge(deps, i, p) ==> i in todo
    ensures CountsOpenExcept(deps, n, indegree, done, p, todo)
  {
    forall i: nat | i < n ensures i in deps && indegree[i] == OpenCount(deps, i, if i in todo then done else done + {p}) {
      OpenCountStep(deps, i, done, p);
    }
  }

  lemma TellOne(deps: Graph<nat>, n: nat, indegree: map<nat, int>, done: set<nat>, p: nat, todo: set<nat>, i: nat)
    requires CountsOpenExcept(deps, n, indegree, done, p, todo) && p !in done
    requires JobsBelow(deps, n) && i in todo && Edge(deps, i, p)
    ensures i in indegree && indegree[i] > 0
    ensures CountsOpenExcept(deps, n, indegree[i := indegree[i] - 1], done, p, todo - {i})
  {
    hide OpenCount;
    OpenCountStep(deps, i, done, p);
  }

  lemma AllTold(deps: Graph<nat>, n: nat, indegree: map<nat, int>, done: set<nat>, p: nat)
    requires CountsOpenExcept(deps, n, indegree, done, p, {})
    ensures CountsOpen(deps, n, indegree, done + {p})
  {
  }

  /** Tell every consumer in `consumers` that `p` is done; `freed` are those with nothing left open. */
  method Release(deps: Graph<nat>, n: nat, indegree: map<nat, int>, ghost done: set<nat>, p: nat, consumers: set<nat>)
    returns (indegree': map<nat, int>, freed: set<nat>)
    requires JobsBelow(deps, n) && p < n && p !in done
    requires CountsOpen(deps, n, indegree, done)
    requires forall i: nat :: i in consumers <==> Edge(deps, i, p)
    ensures CountsOpen(deps, n, indegree', done + {p})
    ensures forall i: nat :: i in freed <==> Edge(deps, i, p) && indegree'[i] == 0
  {
    hide OpenCount;
    indegree', freed := indegree, {};
    var todo := consumers;
    CountsSplit(deps, n, indegree, done, p, todo);
    while todo != {}
      invariant todo <= consumers
      invariant CountsOpenExcept(deps, n, indegree', done, p, todo)
      invariant forall i: nat :: i in freed <==> i in consumers - todo && indegree'[i] == 0
      decreases todo
    {
      var dependent :| dependent in todo;
      TellOne(deps, n, indegree', done, p, todo, dependent);
      indegree' := indegree'[dependent := indegree'[dependent] - 1];
      if indegree'[dependent] == 0 {
        freed := freed + {dependent};
      }
      todo := todo - {dependent};
    }
    AllTold(deps, n, indegree', done, p);
  }

  method Transpose(deps: Graph<nat>, n: nat) returns (outgoing: Graph<nat>)
    requires JobsBelow(deps, n)
    ensures IsTranspose(deps, outgoing, n)
  {
    outgoing := map[];
    for p := 0 to n
      invariant forall q: nat :: q in outgoing <==> q < p
      invariant forall q: nat, i: nat :: Edge(outgoing, q, i) <==> q < p && Edge(deps, i, q)
    {
      outgoing := outgoing[p := set i: nat | i in deps && p in deps[i]];
    }
  }

  ghost predicate ReadyIsExact(n: nat, indegree: map<nat, int>, emitted: set<nat>, ready: set<nat>) {
    && emitted !! ready
    && (forall i :: i in emitted || i in ready ==> i < n)
    && (forall i: nat :: i < n ==> i in indegree && (indegree[i] == 0 <==> i in emitted || i in ready))
  }

  lemma EmitKeepsOrder(
    deps: Graph<nat>, n: nat, indegree: map<nat, int>, order: seq<nat>, ready: set<nat>, job: nat)
    requires JobsBelow(deps, n) && CountsOpen(deps, n, indegree, Elements(order))
    requires ReadyIsExact(n, indegree, Elements(order), ready)
    requires SuccessorsFirst(deps, order) && job in ready
    ensures job < n && job !in Elements(order)
    ensures SuccessorsFirst(deps, order + [job])
    ensures Elements(order + [job]) == Elements(order) + {job}
  {
    OpenCountZero(deps, job, Elements(order));
    hide OpenCount;
    AppendToOrder(deps, order, job);
  }

  /** Jobs whose count never dropped to zero keep each other waiting. */
  lemma LeftoverReachesCycle(deps: Graph<nat>, n: nat, indegree: map<nat, int>, done: set<nat>, i: nat)
    requires JobsBelow(deps, n) && CountsOpen(deps, n, indegree, done)
    requires forall j: nat :: j < n && j !in done ==> indegree[j] != 0
    requires i < n && i !in done
    ensures ReachesCycle(deps, i)
  {
    var left := set j: nat | j < n && j !in done;
    forall j | j in left ensures HasSuccessorIn(deps, left, j) {
      OpenCountZero(deps, j, done);
      var p :| p in deps[j] - done;
      assert Edge(deps, j, p);
    }
    NoDeadEndsLeadsToCycle(deps, left, i);
  }

  lemma StartCounts(deps: Graph<nat>, n: nat, indegree: map<nat, int>, ready: set<nat>)
    requires JobsBelow(deps, n)
    requires indegree.Keys == deps.Keys && forall i :: i in deps ==> indegree[i] == |deps[i]|
    requires forall i :: i in ready <==> i in indegree && indegree[i] == 0
    ensures CountsOpen(deps, n, indegree, Elements([])) && SuccessorsFirst(deps, [])
    ensures ReadyIsExact(n, indegree, Elements([]), ready)
  {
    forall i | i in deps ensures indegree[i] == OpenCount(deps, i, Elements([])) {
      assert deps[i] - Elements([]) == deps[i];
    }
  }

  lemma ReleaseKeepsReady(
    deps: Graph<nat>, n: nat, before: map<nat, int>, after: map<nat, int>,
    done: set<nat>, ready: set<nat>, p: nat, freed: set<nat>)
    requires JobsBelow(deps, n) && p in ready
    requires CountsOpen(deps, n, before, done) && CountsOpen(deps, n, after, done + {p})
    requires ReadyIsExact(n, before, done, ready)
    requires forall i: nat :: i in freed <==> Edge(deps, i, p) && after[i] == 0
    ensures ReadyIsExact(n, after, done + {p}, ready - {p} + freed)
  {
    hide OpenCount;
    forall i: nat | i < n
      ensures after[i] >= 0 && after[i] == before[i] - if Edge(deps, i, p) then 1 else 0
    {
      OpenCountStep(deps, i, done, p);
    }
  }

  lemma CountBelow(n: nat, s: set<nat>)
    requires forall i: nat :: i in s <==> i < n
    ensures |s| == n
  {
    if n > 0 {
      CountBelow(n - 1, s - {n - 1});
    } else {
      assert s == {};
    }
  }

  lemma CountElements<T>(order: seq<T>)
    requires forall i, j :: 0 <= i < j < |order| ==> order[i] != order[j]
    ensures |Elements(order)| == |order|
  {
    if order != [] {
      var earlier := order[..|order| - 1];
      CountElements(earlier);
      assert Elements(order) == Elements(earlier) + {order[|order| - 1]};
    }
  }

  lemma EmittedOrCyclic(deps: Graph<nat>, n: nat, indegree: map<nat, int>, order: seq<nat>, i: nat)
    requires JobsBelow(deps, n) && CountsOpen(deps, n, indegree, Elements(order)) && i < n
    requires ReadyIsExact(n, indegree, Elements(order), {}) && SuccessorsFirst(deps, order)
    ensures indegree[i] > 0 <==> ReachesCycle(deps, i)
    ensures indegree[i] > 0 <==> i !in Elements(order)
  {
    hide SuccessorsFirst, ReachesCycle, OpenCount;
    if i in order {
      SuccessorsFirstAvoidsCycles(deps, order, i);
    } else {
      LeftoverReachesCycle(deps, n, indegree, Elements(order), i);
    }
  }

  lemma CountPartition(n: nat, a: set<nat>, b: set<nat>)
    requires forall i: nat :: i < n <==> i in a || i in b
    requires a !! b
    ensures |a| + |b| == n
  {
    CountBelow(n, a + b);
  }

  function ProducerCounts(deps: Graph<nat>): map<nat, int> {
    map i | i in deps :: |deps[i]|
  }

  function WithoutProducers(indegree: map<nat, int>): set<nat> {
    set i | i in indegree && indegree[i] == 0
  }

  function Waiting(indegree: map<nat, int>): set<nat> {
    set i | i in indegree && indegree[i] > 0
  }

  /** What holds between two emissions. */
  ghost predicate Emitting(deps: Graph<nat>, n: nat, indegree: map<nat, int>, order: seq<nat>, ready: set<nat>) {
    && CountsOpen(deps, n, indegree, Elements(order))
    && ReadyIsExact(n, indegree, Elements(order), ready)
    && SuccessorsFirst(deps, order)
  }

  lemma ReadyIsNew(deps: Graph<nat>, n: nat, indegree: map<nat, int>, order: seq<nat>, ready: set<nat>, jobId: nat)
    requires JobsBelow(deps, n) && Emitting(deps, n, indegree, order, ready) && jobId in ready
    ensures jobId in deps && jobId !in Elements(order)
  {
    hide OpenCount, SuccessorsFirst;
  }

  lemma CyclicIsRest(deps: Graph<nat>, n: nat, indegree: map<nat, int>, order: seq<nat>)
    requires JobsBelow(deps, n) && Emitting(deps, n, indegree, order, {})
    ensures forall i: nat :: i in Waiting(indegree) <==> i < n && ReachesCycle(deps, i)
    ensures |order| + |Waiting(indegree)| == n
  {
    hide ReachesCycle, OpenCount, SuccessorsFirst;
    var cyclic := Waiting(indegree);
    forall i: nat
      ensures i in cyclic <==> i < n && ReachesCycle(deps, i)
      ensures i < n <==> i in Elements(order) || i in cyclic
      ensures !(i in Elements(order) && i in cyclic)
    {
      if i < n {
        EmittedOrCyclic(deps, n, indegree, order, i);
      }
    }
    EmittedOnce(deps, order);
    CountPartition(n, Elements(order), cyclic);
  }

  lemma EmittedOnce(deps: Graph<nat>, order: seq<nat>)
    requires SuccessorsFirst(deps, order)
    ensures |Elements(order)| == |order|
  {
    CountElements(order);
  }

  /** Emits one ready job and releases its dependents. */
  method EmitOne(
    deps: Graph<nat>, n: nat, outgoing: Graph<nat>, indegree: map<nat, int>, ready: set<nat>,
    ghost order: seq<nat>, jobId: nat)
    returns (indegree': map<nat, int>, ready': set<nat>)
    requires JobsBelow(deps, n) && IsTranspose(deps, outgoing, n) && jobId in ready
    requires Emitting(deps, n, indegree, order, ready)
    ensures Emitting(deps, n, indegree', order + [jobId], ready')
  {
    EmitKeepsOrder(deps, n, indegree, order, ready, jobId);
    hide OpenCount, SuccessorsFirst, Elements, CountsOpen, ReadyIsExact;
    var freed;
    indegree', freed := Release(deps, n, indegree, Elements(order), jobId, outgoing[jobId]);
    ReleaseKeepsReady(deps, n, indegree, indegree', Elements(order), ready, jobId, freed);
    ready' := ready - {jobId} + freed;
  }

  /** Returns how many jobs could be emitted and which could not. */
  method EmitAll(deps: Graph<nat>, n: nat) returns (emitted: nat, cyclic: set<nat>)
    requires JobsBelow(deps, n)
    ensures forall i: nat :: i in cyclic <==> i < n && ReachesCycle(deps, i)
    ensures emitted + |cyclic| == n
  {
    hide Emitting, Elements, ReachesCycle, JobsBelow, IsTranspose, ProducerCounts, WithoutProducers, Waiting,
         Unemitted;
    var outgoing := Transpose(deps, n);
    var indegree := ProducerCounts(deps);
    var ready := WithoutProducers(indegree);
    emitted := 0;
    ghost var order: seq<nat> := [];
    StartEmitting(deps, n);
    while ready != {}
      invariant Emitting(deps, n, indegree, order, ready) && emitted == |order|
      decreases Unemitted(deps, order)
    {
      var jobId :| jobId in ready;
      ReadyIsNew(deps, n, indegree, order, ready, jobId);
      OneFewer(deps, order, jobId);
      indegree, ready := EmitOne(deps, n, outgoing, indegree, ready, order, jobId);
      emitted := emitted + 1;
      order := order + [jobId];
    }
    cyclic := Waiting(indegree);
    CyclicIsRest(deps, n, indegree, order);
  }

  lemma StartEmitting(deps: Graph<nat>, n: nat)
    requires JobsBelow(deps, n)
    ensures Emitting(deps, n, ProducerCounts(deps), [], WithoutProducers(ProducerCounts(deps)))
  {
    StartCounts(deps, n, ProducerCounts(deps), WithoutProducers(ProducerCounts(deps)));
  }

  ghost function Unemitted(deps: Graph<nat>, order: seq<nat>): set<nat> {
    deps.Keys - Elements(order)
  }

  lemma OneFewer(deps: Graph<nat>, order: seq<nat>, jobId: nat)
    requires jobId in deps && jobId !in Elements(order)
    ensures Unemitted(deps, order + [jobId]) < Unemitted(deps, order)
  {
    assert jobId in Unemitted(deps, order) && jobId !in Unemitted(deps, order + [jobId]);
  }
}
