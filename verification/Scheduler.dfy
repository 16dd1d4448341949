/** The two-stage scheduler of the artifact graph: every job is generated, then validated, and a
    consumer becomes ready only when all of its producers are validated. */
module Scheduler {
  import opened Digraph
  import opened Kahn

  /** A snapshot of the scheduler. Jobs are their input positions `0..n`.
      `counted` are the validated jobs whose consumers have been told; `log` lists validated jobs
      in validation order. */
  datatype State = State(
    pending: set<nat>,
    ready: multiset<nat>,
    indegree: map<nat, int>,
    generating: set<nat>,
    validating: set<nat>,
    validated: set<nat>,
    counted: set<nat>,
    log: seq<nat>)

  /** Every job is in exactly one stage. */
  ghost predicate StagesOk(n: nat, s: State) {
    && (forall i: nat :: i < n <==> i in s.pending || i in s.generating || i in s.validating || i in s.validated)
    && (forall i :: i in s.pending ==> i !in s.generating && i !in s.validating && i !in s.validated)
    && (forall i :: i in s.generating ==> i !in s.validating && i !in s.validated)
    && (forall i :: i in s.validating ==> i !in s.validated)
  }

  /** The heap holds, once each, the pending jobs with no open producer. */
  ghost predicate ReadyOk(n: nat, s: State) {
    forall i: nat :: s.ready[i] == if i in s.pending && i in s.indegree && s.indegree[i] == 0 then 1 else 0
  }

  /** Jobs start only after all their producers are validated. */
  ghost predicate StartedOk(deps: Graph<nat>, s: State) {
    forall i: nat, p: nat :: (i in s.generating || i in s.validating || i in s.validated) && Edge(deps, i, p)
      ==> p in s.counted
  }

  ghost predicate LogOk(deps: Graph<nat>, s: State) {
    && SuccessorsFirst(deps, s.log)
    && Elements(s.log) == s.validated
    && s.counted <= s.validated
  }

  ghost predicate Inv(deps: Graph<nat>, n: nat, workers: nat, s: State) {
    && JobsBelow(deps, n)
    && StagesOk(n, s)
    && CountsOpen(deps, n, s.indegree, s.counted)
    && ReadyOk(n, s)
    && StartedOk(deps, s)
    && LogOk(deps, s)
    && |s.generating| <= workers
  }

  /** At the head of the event loop every validation has been counted and no slot is wasted. */
  ghost predicate AtLoopHead(deps: Graph<nat>, n: nat, workers: nat, s: State) {
    && Inv(deps, n, workers, s)
    && s.counted == s.validated
    && (|s.generating| == workers || s.ready == multiset{})
  }

  ghost function Remaining(s: State): nat {
    3 * |s.pending| + 2 * |s.generating| + |s.validating|
  }

  // ---------------------------------------------------------------- one lemma per step

  lemma TakenOut(s: set<nat>, i: nat)
    requires i in s
    ensures |s - {i}| == |s| - 1
  {
  }

  lemma PutIn(s: set<nat>, i: nat)
    requires i !in s
    ensures |s + {i}| == |s| + 1
  {
  }

  /** A job on the heap is pending and all its producers are counted. */
  lemma ReadyJob(deps: Graph<nat>, n: nat, s: State, i: nat)
    requires JobsBelow(deps, n) && StagesOk(n, s) && CountsOpen(deps, n, s.indegree, s.counted) && ReadyOk(n, s)
    requires i in s.ready
    ensures i in s.pending && i < n && s.ready[i] == 1
    ensures forall p: nat :: Edge(deps, i, p) ==> p in s.counted
  {
    OpenCountZero(deps, i, s.counted);
  }

  ghost function Start(s: State, i: nat): State {
    s.(pending := s.pending - {i}, ready := s.ready - multiset{i}, generating := s.generating + {i})
  }

  lemma StartKeepsStages(deps: Graph<nat>, n: nat, s: State, i: nat)
    requires StagesOk(n, s) && StartedOk(deps, s) && i in s.pending && i < n
    requires forall p: nat :: Edge(deps, i, p) ==> p in s.counted
    ensures StagesOk(n, Start(s, i)) && StartedOk(deps, Start(s, i))
  {
  }

  lemma StartKeepsReady(n: nat, s: State, i: nat)
    requires ReadyOk(n, s) && i in s.ready
    ensures ReadyOk(n, Start(s, i))
  {
  }

  lemma StartCosts(s: State, i: nat)
    requires i in s.pending && i !in s.generating
    ensures Remaining(Start(s, i)) < Remaining(s)
    ensures |Start(s, i).generating| == |s.generating| + 1
  {
    TakenOut(s.pending, i);
    PutIn(s.generating, i);
  }

  lemma StartKeeps(deps: Graph<nat>, n: nat, workers: nat, s: State, i: nat)
    requires Inv(deps, n, workers, s) && i in s.ready && |s.generating| < workers
    ensures Inv(deps, n, workers, Start(s, i)) && Remaining(Start(s, i)) < Remaining(s)
    ensures |Start(s, i).generating| == |s.generating| + 1
  {
    ReadyJob(deps, n, s, i);
    StartCosts(s, i);
    hide OpenCount, CountsOpen, StartedOk, ReadyOk, SuccessorsFirst, Elements, Remaining;
    StartKeepsStages(deps, n, s, i);
    StartKeepsReady(n, s, i);
  }

  ghost function ToValidation(s: State, i: nat): State {
    s.(generating := s.generating - {i}, validating := s.validating + {i})
  }

  lemma ToValidationKeepsStages(deps: Graph<nat>, n: nat, s: State, i: nat)
    requires StagesOk(n, s) && StartedOk(deps, s) && i in s.generating
    ensures StagesOk(n, ToValidation(s, i)) && StartedOk(deps, ToValidation(s, i))
    ensures |ToValidation(s, i).generating| < |s.generating| && Remaining(ToValidation(s, i)) < Remaining(s)
  {
    TakenOut(s.generating, i);
    PutIn(s.validating, i);
  }

  lemma ToValidationKeeps(deps: Graph<nat>, n: nat, workers: nat, s: State, i: nat)
    requires Inv(deps, n, workers, s) && i in s.generating
    ensures Inv(deps, n, workers, ToValidation(s, i)) && Remaining(ToValidation(s, i)) < Remaining(s)
  {
    hide OpenCount, CountsOpen, StartedOk, SuccessorsFirst, Elements, Remaining;
    ToValidationKeepsStages(deps, n, s, i);
  }

  ghost function Validate(s: State, i: nat): State {
    s.(validating := s.validating - {i}, validated := s.validated + {i}, log := s.log + [i])
  }

  lemma ValidateKeepsLog(deps: Graph<nat>, s: State, i: nat)
    requires LogOk(deps, s) && StartedOk(deps, s) && i in s.validating && i !in s.validated
    ensures LogOk(deps, Validate(s, i))
  {
    assert i !in Elements(s.log);
    assert forall p: nat :: Edge(deps, i, p) ==> p in Elements(s.log);
    AppendToOrder(deps, s.log, i);
  }

  lemma ValidateKeepsStages(deps: Graph<nat>, n: nat, s: State, i: nat)
    requires StagesOk(n, s) && StartedOk(deps, s) && i in s.validating
    ensures StagesOk(n, Validate(s, i)) && StartedOk(deps, Validate(s, i))
    ensures Remaining(Validate(s, i)) < Remaining(s)
  {
    TakenOut(s.validating, i);
  }

  lemma ValidateKeeps(deps: Graph<nat>, n: nat, workers: nat, s: State, i: nat)
    requires Inv(deps, n, workers, s) && i in s.validating
    ensures Inv(deps, n, workers, Validate(s, i)) && Remaining(Validate(s, i)) < Remaining(s)
  {
    ValidateKeepsLog(deps, s, i);
    hide OpenCount, CountsOpen, LogOk, StartedOk, Remaining;
    ValidateKeepsStages(deps, n, s, i);
  }

  // ---------------------------------------------------------------- where a run can end

  /** Nothing is running and nothing is ready: the pending jobs are exactly those on or behind a cycle. */
  lemma StuckMeansCycle(deps: Graph<nat>, n: nat, workers: nat, s: State, i: nat)
    requires AtLoopHead(deps, n, workers, s) && workers > 0
    requires s.generating == {} && s.validating == {} && i < n
    ensures i in s.pending <==> ReachesCycle(deps, i)
  {
    if i in s.pending {
      forall j: nat | j < n && j !in s.counted ensures s.indegree[j] != 0 {
        assert s.ready[j] == 0;
      }
      LeftoverReachesCycle(deps, n, s.indegree, s.counted, i);
    } else {
      SuccessorsFirstAvoidsCycles(deps, s.log, i);
    }
  }

  lemma FinishedMeansAcyclic(deps: Graph<nat>, n: nat, workers: nat, s: State)
    requires AtLoopHead(deps, n, workers, s)
    requires s.pending == {} && s.generating == {} && s.validating == {}
    ensures Acyclic(deps)
  {
    forall i: nat | i < n ensures !ReachesCycle(deps, i) {
      assert i in s.validated;
      SuccessorsFirstAvoidsCycles(deps, s.log, i);
    }
    NoReachingMeansAcyclic(deps);
  }

  // ---------------------------------------------------------------- counting a validation

  ghost function Count(s: State, p: nat, indegree: map<nat, int>, ready: multiset<nat>): State {
    s.(indegree := indegree, counted := s.counted + {p}, ready := ready)
  }

  /** The heap after pushing the consumers of `p`, among `told`, that have nothing left open. */
  ghost predicate Pushed(before: multiset<nat>, after: multiset<nat>, indegree: map<nat, int>, told: set<nat>) {
    forall i: nat :: after[i] == before[i] + if i in told && i in indegree && indegree[i] == 0 then 1 else 0
  }

  /** A consumer of an uncounted job is still pending with an open producer. */
  lemma ConsumerWaits(deps: Graph<nat>, n: nat, s: State, p: nat, i: nat)
    requires JobsBelow(deps, n) && StagesOk(n, s) && StartedOk(deps, s)
    requires CountsOpen(deps, n, s.indegree, s.counted) && p !in s.counted && Edge(deps, i, p)
    ensures i < n && i in s.pending && s.indegree[i] > 0
  {
    OpenCountZero(deps, i, s.counted);
  }

  lemma CountKeepsReady(
    deps: Graph<nat>, n: nat, s: State, p: nat, indegree: map<nat, int>, ready: multiset<nat>, dependents: set<nat>)
    requires JobsBelow(deps, n) && StagesOk(n, s) && StartedOk(deps, s) && ReadyOk(n, s)
    requires CountsOpen(deps, n, s.indegree, s.counted) && p !in s.counted
    requires CountsOpen(deps, n, indegree, s.counted + {p})
    requires forall i: nat :: i in dependents <==> Edge(deps, i, p)
    requires Pushed(s.ready, ready, indegree, dependents)
    ensures ReadyOk(n, Count(s, p, indegree, ready))
  {
    hide OpenCount;
    var t := Count(s, p, indegree, ready);
    forall i: nat
      ensures t.ready[i] == if i in t.pending && i in t.indegree && t.indegree[i] == 0 then 1 else 0
    {
      if i < n {
        OpenCountStep(deps, i, s.counted, p);
        if Edge(deps, i, p) {
          ConsumerWaits(deps, n, s, p, i);
        }
      }
    }
  }

  lemma CountKeeps(
    deps: Graph<nat>, n: nat, workers: nat, s: State, p: nat, indegree: map<nat, int>, ready: multiset<nat>,
    dependents: set<nat>)
    requires Inv(deps, n, workers, s) && p in s.validated && p !in s.counted
    requires CountsOpen(deps, n, indegree, s.counted + {p})
    requires forall i: nat :: i in dependents <==> Edge(deps, i, p)
    requires Pushed(s.ready, ready, indegree, dependents)
    ensures Inv(deps, n, workers, Count(s, p, indegree, ready))
    ensures Remaining(Count(s, p, indegree, ready)) == Remaining(s)
  {
    hide OpenCount, CountsOpen, ReadyOk, SuccessorsFirst, Elements, Pushed;
    CountKeepsReady(deps, n, s, p, indegree, ready, dependents);
  }

  lemma NothingPushed(heap: multiset<nat>, indegree: map<nat, int>)
    ensures Pushed(heap, heap, indegree, {})
  {
  }

  lemma PushOne(
    before: multiset<nat>, after: multiset<nat>, indegree: map<nat, int>, told: set<nat>, i: nat, count: int)
    requires Pushed(before, after, indegree, told) && i !in told
    ensures Pushed(
              before, if count == 0 then after + multiset{i} else after, indegree[i := count], told + {i})
  {
  }

  /** Lowers the count of one consumer of `producerId`; at zero it goes on the heap. */
  method NotifyDependent(
    ghost deps: Graph<nat>, ghost n: nat, indegree: map<nat, int>, readyHeap: multiset<nat>,
    ghost counted: set<nat>, ghost producerId: nat, dependentId: nat, ghost todo: set<nat>)
    returns (corrupt: bool, indegree': map<nat, int>, readyHeap': multiset<nat>)
    requires JobsBelow(deps, n) && CountsOpenExcept(deps, n, indegree, counted, producerId, todo)
    requires producerId !in counted && dependentId in todo && Edge(deps, dependentId, producerId)
    ensures !corrupt
    ensures dependentId in indegree && indegree' == indegree[dependentId := indegree[dependentId] - 1]
    ensures CountsOpenExcept(deps, n, indegree', counted, producerId, todo - {dependentId})
    ensures readyHeap' == if indegree'[dependentId] == 0 then readyHeap + multiset{dependentId} else readyHeap
  {
    TellOne(deps, n, indegree, counted, producerId, todo, dependentId);
    indegree', readyHeap' := indegree[dependentId := indegree[dependentId] - 1], readyHeap;
    if indegree'[dependentId] < 0 {
      return true, indegree', readyHeap';
    }
    if indegree'[dependentId] == 0 {
      readyHeap' := readyHeap' + multiset{dependentId};
    }
    corrupt := false;
  }

  /** Lowers the count of every consumer of `producerId` and pushes those that reach zero. */
  method NotifyDependents(
    ghost deps: Graph<nat>, ghost n: nat, indegree: map<nat, int>, readyHeap: multiset<nat>,
    ghost counted: set<nat>, ghost producerId: nat, dependents: set<nat>)
    returns (corrupt: bool, indegree': map<nat, int>, readyHeap': multiset<nat>)
    requires JobsBelow(deps, n) && CountsOpen(deps, n, indegree, counted) && producerId !in counted
    requires forall i: nat :: i in dependents <==> Edge(deps, i, producerId)
    ensures !corrupt
    ensures CountsOpen(deps, n, indegree', counted + {producerId})
    ensures Pushed(readyHeap, readyHeap', indegree', dependents)
  {
    corrupt, indegree', readyHeap' := false, indegree, readyHeap;
    var todo := dependents;
    ghost var told: set<nat> := {};
    CountsSplit(deps, n, indegree, counted, producerId, todo);
    NothingPushed(readyHeap, indegree);
    hide OpenCount, CountsOpen, CountsOpenExcept, Pushed;
    while todo != {}
      invariant forall i :: i in dependents <==> i in told || i in todo
      invariant forall i :: i in told ==> i !in todo
      invariant CountsOpenExcept(deps, n, indegree', counted, producerId, todo)
      invariant Pushed(readyHeap, readyHeap', indegree', told)
      invariant !corrupt
      decreases todo
    {
      var dependentId :| dependentId in todo;
      ghost var indegree0, readyHeap0 := indegree', readyHeap';
      corrupt, indegree', readyHeap' :=
        NotifyDependent(deps, n, indegree', readyHeap', counted, producerId, dependentId, todo);
      if corrupt {
        return;
      }
      PushOne(readyHeap, readyHeap0, indegree0, told, dependentId, indegree'[dependentId]);
      todo := todo - {dependentId};
      told := told + {dependentId};
    }
    AllTold(deps, n, indegree', counted, producerId);
    assert told == dependents;
  }

  lemma SmallestFrom(m: multiset<nat>, x: nat) returns (smallest: nat)
    requires x in m
    ensures smallest in m && forall j :: j in m ==> smallest <= j
  {
    if y :| y in m && y < x {
      smallest := SmallestFrom(m, y);
    } else {
      smallest := x;
    }
  }

  /** Between `s` and `t` some jobs were started, each one lower than every job still on the heap. */
  ghost predicate Submitted(s: State, t: State) {
    && t == s.(pending := t.pending, ready := t.ready, generating := t.generating)
    && s.generating <= t.generating
    && t.pending == s.pending - (t.generating - s.generating)
    && (forall i :: i in s.ready <==> i in t.generating - s.generating || i in t.ready)
    && (forall i, j :: i in t.generating - s.generating && j in t.ready ==> i < j)
    && Remaining(t) <= Remaining(s)
  }

  lemma SubmittedRefl(s: State)
    ensures Submitted(s, s)
  {
  }

  lemma SubmittedStep(s: State, t: State, i: nat)
    requires Submitted(s, t) && i in t.pending && i !in t.generating && t.ready[i] == 1
    requires forall j :: j in t.ready ==> i <= j
    requires Remaining(Start(t, i)) <= Remaining(t)
    ensures Submitted(s, Start(t, i))
  {
    hide Remaining;
    var u := Start(t, i);
    var started, started' := t.generating - s.generating, u.generating - s.generating;
    assert forall j :: j in started' <==> j in started || j == i;
    assert forall j :: j in t.ready <==> j == i || j in u.ready;
    assert u.pending == s.pending - started';
  }

  lemma SubmitLowest(deps: Graph<nat>, n: nat, workers: nat, s: State, t: State, i: nat)
    requires Submitted(s, t) && Inv(deps, n, workers, t)
    requires i in t.ready && (forall j :: j in t.ready ==> i <= j) && |t.generating| < workers
    ensures i in t.pending
    ensures Submitted(s, Start(t, i)) && Inv(deps, n, workers, Start(t, i))
  {
    ReadyJob(deps, n, t, i);
    assert i !in t.generating;
    StartKeeps(deps, n, workers, t, i);
    hide Inv, Remaining, Submitted;
    SubmittedStep(s, t, i);
  }

  ghost function InitialState(deps: Graph<nat>): State {
    State(deps.Keys, multiset(WithoutProducers(ProducerCounts(deps))), ProducerCounts(deps), {}, {}, {}, {}, [])
  }

  lemma InitialCounts(deps: Graph<nat>, n: nat)
    requires JobsBelow(deps, n)
    ensures var s := InitialState(deps); CountsOpen(deps, n, s.indegree, s.counted) && LogOk(deps, s)
  {
    StartCounts(deps, n, ProducerCounts(deps), WithoutProducers(ProducerCounts(deps)));
    assert Elements<nat>([]) == {};
  }

  lemma InitialReady(deps: Graph<nat>, n: nat)
    ensures ReadyOk(n, InitialState(deps))
  {
  }

  lemma InitialStages(deps: Graph<nat>, n: nat)
    requires JobsBelow(deps, n)
    ensures StagesOk(n, InitialState(deps)) && StartedOk(deps, InitialState(deps))
  {
  }

  lemma InitialStateOk(deps: Graph<nat>, n: nat, workers: nat)
    requires JobsBelow(deps, n)
    ensures Inv(deps, n, workers, InitialState(deps))
  {
    hide JobsBelow, StagesOk, CountsOpen, ReadyOk, StartedOk, LogOk;
    InitialCounts(deps, n);
    InitialReady(deps, n);
    InitialStages(deps, n);
  }

  // ---------------------------------------------------------------- the event loop's state

  /** The shared variables of the event loop. */
  class EventLoop {
    const n: nat
    const deps: Graph<nat>
    const dependents: Graph<nat>
    const generationWorkers: nat
    var pending: set<nat>
    var readyHeap: multiset<nat>
    var indegree: map<nat, int>
    var generating: set<nat>
    var validating: set<nat>
    var validated: set<nat>
    ghost var counted: set<nat>
    ghost var log: seq<nat>

    ghost function View(): State
      reads this
    {
      State(pending, readyHeap, indegree, generating, validating, validated, counted, log)
    }

    ghost predicate Valid()
      reads this
    {
      Inv(deps, n, generationWorkers, View()) && IsTranspose(deps, dependents, n)
    }

    constructor (n: nat, deps: Graph<nat>, dependents: Graph<nat>, generationWorkers: nat)
      requires JobsBelow(deps, n) && IsTranspose(deps, dependents, n)
      ensures Valid() && this.n == n && this.deps == deps && this.generationWorkers == generationWorkers
      ensures generating == {} && validating == {} && validated == {} && counted == {}
    {
      this.n, this.deps, this.dependents, this.generationWorkers := n, deps, dependents, generationWorkers;
      pending := deps.Keys;
      indegree := ProducerCounts(deps);
      readyHeap := multiset(WithoutProducers(ProducerCounts(deps)));
      generating, validating, validated, counted, log := {}, {}, {}, {}, [];
      new;
      InitialStateOk(deps, n, generationWorkers);
      hide Inv, IsTranspose;
      assert View() == InitialState(deps);
    }

    /** Starts the ready job with the lowest input position. */
    method SubmitOne(ghost before: State)
      requires Valid() && Submitted(before, View())
      requires |generating| < generationWorkers && readyHeap != multiset{}
      modifies this`pending, this`readyHeap, this`generating
      ensures Valid() && Submitted(before, View()) && readyHeap < old(readyHeap)
    {
      hide Inv, Submitted, Remaining;
      ghost var x :| x in readyHeap;
      ghost var lowest := SmallestFrom(readyHeap, x);
      var jobId :| jobId in readyHeap && forall j :: j in readyHeap ==> jobId <= j;
      ghost var t := View();
      SubmitLowest(deps, n, generationWorkers, before, t, jobId);
      readyHeap := readyHeap - multiset{jobId};
      if jobId in pending {
        pending := pending - {jobId};
        generating := generating + {jobId};
      }
      assert View() == Start(t, jobId);
    }

    /** Fills free generation slots, lowest input position first. */
    method SubmitReady()
      requires Valid()
      modifies this`pending, this`readyHeap, this`generating
      ensures Valid() && Submitted(old(View()), View())
      ensures |generating| >= generationWorkers || readyHeap == multiset{}
    {
      ghost var before := View();
      SubmittedRefl(before);
      hide Inv, Submitted, IsTranspose;
      while |generating| < generationWorkers && readyHeap != multiset{}
        invariant Valid() && Submitted(before, View())
        decreases readyHeap
      {
        SubmitOne(before);
      }
    }

    method FinishGeneration(jobId: nat)
      requires Valid() && jobId in generating
      modifies this`generating, this`validating
      ensures Valid() && View() == ToValidation(old(View()), jobId)
      ensures Remaining(View()) < old(Remaining(View()))
    {
      hide Inv, Remaining;
      ToValidationKeeps(deps, n, generationWorkers, View(), jobId);
      generating := generating - {jobId};
      validating := validating + {jobId};
    }

    method FinishValidation(jobId: nat)
      requires Valid() && jobId in validating
      modifies this`validating, this`validated, this`log
      ensures Valid() && View() == Validate(old(View()), jobId)
      ensures Remaining(View()) < old(Remaining(View()))
    {
      hide Inv, Remaining;
      ValidateKeeps(deps, n, generationWorkers, View(), jobId);
      validating := validating - {jobId};
      validated := validated + {jobId};
      log := log + [jobId];
    }

    /** Tells the consumers of a validated job; `corrupt` reports a count below zero. */
    method CountValidated(producerId: nat) returns (corrupt: bool)
      requires Valid() && producerId < n && producerId in validated && producerId !in counted
      modifies this`indegree, this`readyHeap, this`counted
      ensures !corrupt
      ensures Valid() && counted == old(counted) + {producerId}
      ensures Remaining(View()) == old(Remaining(View()))
    {
      ghost var s := View();
      hide OpenCount, CountsOpen, ReadyOk, StagesOk, StartedOk, LogOk, Pushed, Remaining;
      corrupt, indegree, readyHeap :=
        NotifyDependents(deps, n, indegree, readyHeap, counted, producerId, dependents[producerId]);
      if corrupt {
        return;
      }
      CountKeeps(deps, n, generationWorkers, s, producerId, indegree, readyHeap, dependents[producerId]);
      counted := counted + {producerId};
      assert View() == Count(s, producerId, indegree, readyHeap);
    }

    /** Applies all completions of one batch as one readiness update. */
    method CountBatch(newlyValidated: set<nat>) returns (corrupt: bool)
      requires Valid() && newlyValidated <= validated && newlyValidated !! counted
      modifies this`indegree, this`readyHeap, this`counted
      ensures !corrupt
      ensures Valid() && counted == old(counted) + newlyValidated
      ensures Remaining(View()) == old(Remaining(View()))
    {
      var todo := newlyValidated;
      while todo != {}
        invariant Valid() && todo <= newlyValidated
        invariant counted == old(counted) + (newlyValidated - todo)
        invariant Remaining(View()) == old(Remaining(View()))
        decreases todo
      {
        hide Inv, Remaining;
        var producerId :| producerId in todo;
        corrupt := CountValidated(producerId);
        if corrupt {
          return;
        }
        todo := todo - {producerId};
      }
      corrupt := false;
    }
  }
}
