/** Running an artifact graph: start-up checks, the event loop, and what a finished run guarantees. */
module GraphExecutor {
  import opened Optional
  import opened Digraph
  import opened Kahn
  import opened Scheduler
  import opened ArtifactPorts
  import opened ArtifactJobs

  datatype Receipt = Receipt(status: string, contents: string)

  /** What the artifact checks will find: whether the receipt names the job's version context, whether
      the file it materialized exists, and whether the host's validator approves. */
  datatype Checks = Checks(contextMatches: bool, outputExists: bool, approved: bool)

  /** What executing a job will do: raise, or publish ports and return a receipt to be checked. */
  datatype Work =
    | Raises
    | Finishes(published: seq<TypedPort>, receipt: Receipt, checks: Checks)

  datatype Failure =
    | Raised
    | RequiredPortMissing
    | PublishRejected(error: PortError)
    | ReceiptContextMismatch
    | JobFailed
    | OutputPortMissing
    | OutputFileMissing
    | ValidationFailed

  datatype Outcome =
    | Pass(completedJobs: seq<string>, receipts: seq<Receipt>)
    | DuplicateId
    | DuplicateProduct
    | MissingProducers(missing: set<nat>)
    | Deadlock(blocked: set<nat>)
    | WorkFailed(job: nat, failure: Failure)
    | IndegreeCorrupt

  // ---------------------------------------------------------------- the graph that is run

  /** Job `i` needs a port that job `p` lists, by the exact name, among its products. */
  ghost predicate RunDependsOn(jobs: seq<ArtifactJob>, i: nat, p: nat) {
    && i < |jobs| && p < |jobs|
    && exists name :: name in jobs[i].needs && name in jobs[p].produces
  }

  ghost function RunDependenciesOf(jobs: seq<ArtifactJob>, i: nat): set<nat> {
    set p: nat | p < |jobs| && RunDependsOn(jobs, i, p)
  }

  ghost function RunGraph(jobs: seq<ArtifactJob>): Graph<nat> {
    map i: nat | i < |jobs| :: RunDependenciesOf(jobs, i)
  }

  ghost predicate DistinctIds(jobs: seq<ArtifactJob>) {
    forall i, j :: 0 <= i < j < |jobs| ==> jobs[i].jobId != jobs[j].jobId
  }

  function IdSet(jobs: seq<ArtifactJob>): set<string> {
    set i | 0 <= i < |jobs| :: jobs[i].jobId
  }

  /** There are as many ids as jobs exactly when no two jobs share one. */
  lemma {:induction false} AsManyIdsAsJobs(jobs: seq<ArtifactJob>)
    ensures |IdSet(jobs)| <= |jobs|
    ensures |IdSet(jobs)| == |jobs| <==> DistinctIds(jobs)
  {
    if jobs != [] {
      var n := |jobs| - 1;
      var front, last := jobs[..n], jobs[n].jobId;
      AsManyIdsAsJobs(front);
      assert IdSet(jobs) == IdSet(front) + {last};
      if last in IdSet(front) {
        assert IdSet(jobs) == IdSet(front);
        var i :| 0 <= i < n && front[i].jobId == last;
        assert jobs[i].jobId == jobs[n].jobId;
      } else {
        forall i, j | 0 <= i < j < |jobs| && DistinctIds(front) ensures jobs[i].jobId != jobs[j].jobId {
          assert front[i].jobId == jobs[i].jobId && front[i].jobId in IdSet(front);
          assert j < n ==> front[j] == jobs[j];
        }
        if DistinctIds(jobs) {
          forall i, j | 0 <= i < j < n ensures front[i].jobId != front[j].jobId {
            assert jobs[i].jobId != jobs[j].jobId;
          }
        }
      }
    }
  }

  /** No port name is listed by two jobs. */
  ghost predicate DistinctProducts(jobs: seq<ArtifactJob>, n: nat)
    requires n <= |jobs|
  {
    forall i, j, name :: 0 <= i < j < n && name in jobs[i].produces ==> name !in jobs[j].produces
  }

  ghost predicate Produced(jobs: seq<ArtifactJob>, name: string) {
    exists p :: 0 <= p < |jobs| && name in jobs[p].produces
  }

  /** Job `i` needs a port that no job produces and that was not supplied from outside. */
  ghost predicate LacksInput(jobs: seq<ArtifactJob>, ports: PortTable, i: nat) {
    i < |jobs| && exists name :: name in jobs[i].needs && !Produced(jobs, name) && name !in ports
  }

  // ---------------------------------------------------------------- start-up checks

  ghost predicate IndexExact(jobs: seq<ArtifactJob>, n: nat, producers: map<string, nat>)
    requires n <= |jobs|
  {
    && (forall name :: name in producers ==> producers[name] < n && name in jobs[producers[name]].produces)
    && (forall k, name :: 0 <= k < n && name in jobs[k].produces ==> name in producers && producers[name] == k)
  }

  method ProducerIndex(jobs: seq<ArtifactJob>) returns (conflict: bool, producers: map<string, nat>)
    ensures conflict <==> !DistinctProducts(jobs, |jobs|)
    ensures !conflict ==> IndexExact(jobs, |jobs|, producers)
  {
    producers, conflict := map[], false;
    var i := 0;
    assert IndexExact(jobs, 0, producers) && DistinctProducts(jobs, 0);
    while i < |jobs| && !conflict
      invariant i <= |jobs|
      invariant conflict ==> !DistinctProducts(jobs, |jobs|)
      invariant !conflict ==> IndexExact(jobs, i, producers) && DistinctProducts(jobs, i)
    {
      ghost var before := producers;
      conflict, producers := Enter(jobs[i].produces, i, producers);
      IndexStep(jobs, i, before, producers, conflict);
      i := i + 1;
    }
  }

  lemma IndexStep(
    jobs: seq<ArtifactJob>, i: nat, before: map<string, nat>, after: map<string, nat>, conflict: bool)
    requires i < |jobs| && IndexExact(jobs, i, before) && DistinctProducts(jobs, i)
    requires conflict <==> exists name :: name in jobs[i].produces && name in before
    requires !conflict ==>
               && (forall name :: name in after <==> name in before || name in jobs[i].produces)
               && (forall name :: name in after ==>
                     after[name] == if name in jobs[i].produces then i else before[name])
    ensures conflict ==> !DistinctProducts(jobs, |jobs|)
    ensures !conflict ==> IndexExact(jobs, i + 1, after) && DistinctProducts(jobs, i + 1)
  {
    if conflict {
      var name :| name in jobs[i].produces && name in before;
      assert name in jobs[before[name]].produces;
    } else {
      IndexGrows(jobs, i, before, after);
      ProductsStayDistinct(jobs, i, before);
    }
  }

  lemma IndexGrows(jobs: seq<ArtifactJob>, i: nat, before: map<string, nat>, after: map<string, nat>)
    requires i < |jobs| && IndexExact(jobs, i, before)
    requires forall name :: name in jobs[i].produces ==> name !in before
    requires forall name :: name in after <==> name in before || name in jobs[i].produces
    requires forall name :: name in after ==> after[name] == if name in jobs[i].produces then i else before[name]
    ensures IndexExact(jobs, i + 1, after)
  {
  }

  lemma ProductsStayDistinct(jobs: seq<ArtifactJob>, i: nat, before: map<string, nat>)
    requires i < |jobs| && IndexExact(jobs, i, before) && DistinctProducts(jobs, i)
    requires forall name :: name in jobs[i].produces ==> name !in before
    ensures DistinctProducts(jobs, i + 1)
  {
  }

  lemma IndexedIsProduced(jobs: seq<ArtifactJob>, producers: map<string, nat>, name: string)
    requires IndexExact(jobs, |jobs|, producers)
    ensures name in producers <==> Produced(jobs, name)
  {
  }

  method FindMissingInputs(jobs: seq<ArtifactJob>, producers: map<string, nat>, ports: PortTable)
    returns (missing: set<nat>)
    requires IndexExact(jobs, |jobs|, producers)
    ensures forall i: nat :: i in missing <==> LacksInput(jobs, ports, i)
  {
    forall name ensures name in producers <==> Produced(jobs, name) {
      IndexedIsProduced(jobs, producers, name);
    }
    missing := {};
    for i := 0 to |jobs|
      invariant forall j: nat :: j in missing <==> j < i && LacksInput(jobs, ports, j)
    {
      var needs := jobs[i].needs;
      if exists k :: 0 <= k < |needs| && needs[k] !in producers && needs[k] !in ports {
        missing := missing + {i};
      }
    }
  }

  method RunDependencies(jobs: seq<ArtifactJob>, producers: map<string, nat>) returns (dependencyIds: Graph<nat>)
    requires IndexExact(jobs, |jobs|, producers)
    ensures dependencyIds == RunGraph(jobs)
  {
    dependencyIds := map[];
    for i := 0 to |jobs|
      invariant forall j: nat :: j in dependencyIds <==> j < i
      invariant forall j: nat :: j in dependencyIds ==> dependencyIds[j] == RunDependenciesOf(jobs, j)
    {
      var needs := jobs[i].needs;
      var required := set k | 0 <= k < |needs| && needs[k] in producers :: producers[needs[k]];
      RequiredExact(jobs, producers, i, required);
      dependencyIds := dependencyIds[i := required];
    }
  }

  lemma RequiredExact(jobs: seq<ArtifactJob>, producers: map<string, nat>, i: nat, required: set<nat>)
    requires i < |jobs| && IndexExact(jobs, |jobs|, producers)
    requires required == set k | 0 <= k < |jobs[i].needs| && jobs[i].needs[k] in producers :: producers[jobs[i].needs[k]]
    ensures required == RunDependenciesOf(jobs, i)
  {
    var needs := jobs[i].needs;
    forall p: nat ensures p in required <==> p in RunDependenciesOf(jobs, i) {
      if p in required {
        var k :| 0 <= k < |needs| && needs[k] in producers && producers[needs[k]] == p;
        assert needs[k] in jobs[p].produces;
      }
      if RunDependsOn(jobs, i, p) {
        var name :| name in needs && name in jobs[p].produces;
        var k :| 0 <= k < |needs| && needs[k] == name;
        assert producers[needs[k]] == p;
      }
    }
  }

  lemma RunGraphBelow(jobs: seq<ArtifactJob>)
    ensures JobsBelow(RunGraph(jobs), |jobs|)
  {
  }

  // ---------------------------------------------------------------- one worker

  /** Every entry of `after` was there before or is one of `published`. */
  ghost predicate OnlyAdds(before: PortTable, published: seq<TypedPort>, after: PortTable) {
    forall name :: name in after ==>
      (name in before && after[name] == before[name])
      || (exists k :: 0 <= k < |published| && published[k].name == name && after[name] == published[k])
  }

  /** `port` can be published into `ports` under `context`. */
  ghost predicate Publishable(ports: PortTable, context: string, port: TypedPort) {
    && port.name != "" && port.value != "" && !Foreign(context, port)
    && (port.name in ports ==> ports[port.name] == port)
  }

  /** With `ports` in the registry, the `k`-th port is refused with `error`. */
  ghost predicate RefusedAt(
    before: PortTable, context: string, published: seq<TypedPort>, k: nat, ports: PortTable, error: PortError)
  {
    && k < |published| && OnlyAdds(before, published, ports)
    && !Publishable(ports, context, published[k]) && error == WhyRejected(context, published[k])
  }

  /** Publishing `published` into a table that started as `before` can be refused with `error`. */
  ghost predicate RefusedWith(before: PortTable, context: string, published: seq<TypedPort>, error: PortError) {
    exists k: nat, ports :: RefusedAt(before, context, published, k, ports, error)
  }

  ghost predicate Refusable(before: PortTable, context: string, published: seq<TypedPort>) {
    exists error :: RefusedWith(before, context, published, error)
  }

  ghost predicate AllPublished(published: seq<TypedPort>, ports: PortTable) {
    forall k :: 0 <= k < |published| ==> published[k].name in ports
  }

  method PublishAll(published: seq<TypedPort>, registry: PortRegistry) returns (error: Option<PortError>)
    requires registry.Valid()
    modifies registry`ports
    ensures registry.Valid() && Grows(old(registry.ports), registry.ports)
    ensures OnlyAdds(old(registry.ports), published, registry.ports)
    ensures error.None? ==> AllPublished(published, registry.ports)
    ensures error.Some? ==> RefusedWith(old(registry.ports), registry.contextId, published, error.value)
  {
    error := None;
    var k := 0;
    while k < |published| && error.None?
      invariant k <= |published|
      invariant registry.Valid() && Grows(old(registry.ports), registry.ports)
      invariant OnlyAdds(old(registry.ports), published, registry.ports)
      invariant error.None? ==> AllPublished(published[..k], registry.ports)
      invariant error.Some? ==> RefusedWith(old(registry.ports), registry.contextId, published, error.value)
    {
      ghost var before := registry.ports;
      error := registry.Publish(published[k]);
      if error.Some? {
        assert RefusedAt(old(registry.ports), registry.contextId, published, k, before, error.value);
      }
      k := k + 1;
    }
    assert published[..|published|] == published;
  }

  ghost predicate NeedsMet(job: ArtifactJob, ports: PortTable) {
    forall name :: name in job.needs ==> name in ports
  }

  ghost predicate ProductsPublished(job: ArtifactJob, ports: PortTable) {
    forall name :: name in job.produces ==> name in ports
  }

  /** Reads the required ports, then runs the job's work. */
  method ExecuteOne(job: ArtifactJob, work: Work, registry: PortRegistry) returns (failure: Option<Failure>)
    requires registry.Valid()
    modifies registry`ports
    ensures registry.Valid() && Grows(old(registry.ports), registry.ports)
    ensures failure == Some(RequiredPortMissing) <==> !NeedsMet(job, old(registry.ports))
    ensures OnlyAdds(old(registry.ports), if work.Finishes? then work.published else [], registry.ports)
    ensures failure.None? ==> work.Finishes? && AllPublished(work.published, registry.ports)
    ensures failure.Some? && failure.value != RequiredPortMissing ==>
              match failure.value
              case Raised => work.Raises?
              case PublishRejected(error) =>
                work.Finishes? && RefusedWith(old(registry.ports), registry.contextId, work.published, error)
              case _ => false
  {
    if exists k :: 0 <= k < |job.needs| && !registry.Has(job.needs[k]) {
      return Some(RequiredPortMissing);
    }
    if work.Raises? {
      return Some(Raised);
    }
    var error := PublishAll(work.published, registry);
    failure := if error.Some? then Some(PublishRejected(error.value)) else None;
  }

  ghost predicate Approved(work: Work)
    requires work.Finishes?
  {
    work.checks.contextMatches && work.receipt.status == "PASS" && work.checks.outputExists && work.checks.approved
  }

  /** The first check that fails, in the order they are made. */
  ghost predicate FirstComplaint(job: ArtifactJob, work: Work, ports: PortTable, failure: Failure)
    requires work.Finishes?
  {
    var checks := work.checks;
    match failure
    case ReceiptContextMismatch => !checks.contextMatches
    case JobFailed => checks.contextMatches && work.receipt.status != "PASS"
    case OutputPortMissing =>
      checks.contextMatches && work.receipt.status == "PASS" && !ProductsPublished(job, ports)
    case OutputFileMissing =>
      checks.contextMatches && work.receipt.status == "PASS" && ProductsPublished(job, ports) && !checks.outputExists
    case ValidationFailed =>
      && checks.contextMatches && work.receipt.status == "PASS" && ProductsPublished(job, ports)
      && checks.outputExists && !checks.approved
    case _ => false
  }

  method ValidateCompletedJob(job: ArtifactJob, work: Work, ports: PortTable) returns (failure: Option<Failure>)
    requires work.Finishes?
    ensures failure.None? <==> Approved(work) && ProductsPublished(job, ports)
    ensures failure.Some? ==> FirstComplaint(job, work, ports, failure.value)
  {
    if !work.checks.contextMatches {
      return Some(ReceiptContextMismatch);
    }
    if work.receipt.status != "PASS" {
      return Some(JobFailed);
    }
    if exists k :: 0 <= k < |job.produces| && job.produces[k] !in ports {
      return Some(OutputPortMissing);
    }
    if !work.checks.outputExists {
      return Some(OutputFileMissing);
    }
    failure := if work.checks.approved then None else Some(ValidationFailed);
  }

  // ---------------------------------------------------------------- whose work succeeds

  /** Nothing about this job's own work can fail, given what was in the registry at the start. */
  ghost predicate GoodWork(job: ArtifactJob, work: Work, initial: PortTable, context: string) {
    && work.Finishes? && Approved(work)
    && (forall name :: name in job.produces ==>
          name in initial || exists k :: 0 <= k < |work.published| && work.published[k].name == name)
    && (forall k :: 0 <= k < |work.published| ==> Publishable(initial, context, work.published[k]))
  }

  /** Ports published under one name are equal, whichever jobs publish them. */
  ghost predicate Agree(work: seq<Work>) {
    forall i, k, j, l ::
      && 0 <= i < |work| && work[i].Finishes? && 0 <= k < |work[i].published|
      && 0 <= j < |work| && work[j].Finishes? && 0 <= l < |work[j].published|
      && work[i].published[k].name == work[j].published[l].name
      ==> work[i].published[k] == work[j].published[l]
  }

  ghost predicate AllSucceed(jobs: seq<ArtifactJob>, work: seq<Work>, initial: PortTable, context: string)
    requires |work| == |jobs|
  {
    && (forall i :: 0 <= i < |jobs| ==> GoodWork(jobs[i], work[i], initial, context))
    && Agree(work)
  }

  /** Every entry was there initially or was published by some job. */
  ghost predicate PortsFrom(initial: PortTable, work: seq<Work>, ports: PortTable) {
    forall name :: name in ports ==>
      (name in initial && ports[name] == initial[name])
      || (exists i, k :: 0 <= i < |work| && work[i].Finishes? && 0 <= k < |work[i].published|
                         && work[i].published[k].name == name && ports[name] == work[i].published[k])
  }

  /** Why the work of job `i` failed: it raised, one of its ports was refused by a table that holds only
      initial ports and ports some job published, or it failed the first of the checks named. */
  ghost predicate CauseIsRight(
    jobs: seq<ArtifactJob>, work: seq<Work>, initial: PortTable, context: string, i: nat, failure: Failure)
  {
    && i < |jobs| && i < |work|
    && match failure
       case Raised => work[i].Raises?
       case RequiredPortMissing => true
       case PublishRejected(error) =>
         work[i].Finishes? && exists k: nat, ports ::
           && k < |work[i].published| && PortsFrom(initial, work, ports)
           && !Publishable(ports, context, work[i].published[k]) && error == WhyRejected(context, work[i].published[k])
       case _ => work[i].Finishes? && exists ports ::
           && Grows(initial, ports) && AllPublished(work[i].published, ports)
           && FirstComplaint(jobs[i], work[i], ports, failure)
  }

  lemma RefusalIsCause(
    jobs: seq<ArtifactJob>, work: seq<Work>, initial: PortTable, context: string, before: PortTable, i: nat,
    error: PortError)
    requires i < |jobs| == |work| && work[i].Finishes? && PortsFrom(initial, work, before)
    requires RefusedWith(before, context, work[i].published, error)
    ensures CauseIsRight(jobs, work, initial, context, i, PublishRejected(error))
  {
    var k: nat, ports :| RefusedAt(before, context, work[i].published, k, ports, error);
    PortsFromStep(initial, work, before, ports, i);
  }

  lemma PortsFromStep(initial: PortTable, work: seq<Work>, before: PortTable, after: PortTable, i: nat)
    requires PortsFrom(initial, work, before) && i < |work|
    requires OnlyAdds(before, if work[i].Finishes? then work[i].published else [], after)
    ensures PortsFrom(initial, work, after)
  {
  }

  lemma GoodPortPublishable(
    jobs: seq<ArtifactJob>, work: seq<Work>, initial: PortTable, context: string, ports: PortTable, i: nat,
    k: nat, table: PortTable)
    requires |work| == |jobs| && AllSucceed(jobs, work, initial, context) && PortsFrom(initial, work, ports)
    requires i < |jobs| && work[i].Finishes? && k < |work[i].published|
    requires OnlyAdds(ports, work[i].published, table)
    ensures Publishable(table, context, work[i].published[k])
  {
    assert GoodWork(jobs[i], work[i], initial, context);
    PortsFromStep(initial, work, ports, table, i);
    var port := work[i].published[k];
    assert Publishable(initial, context, port);
    if port.name in table && !(port.name in initial && table[port.name] == initial[port.name]) {
      var j, l :| 0 <= j < |work| && work[j].Finishes? && 0 <= l < |work[j].published|
                  && work[j].published[l].name == port.name && table[port.name] == work[j].published[l];
    }
  }

  /** Work that succeeds is never refused, however far the other jobs have got. */
  lemma NeverRefused(
    jobs: seq<ArtifactJob>, work: seq<Work>, initial: PortTable, context: string, ports: PortTable, i: nat)
    requires |work| == |jobs| && AllSucceed(jobs, work, initial, context) && PortsFrom(initial, work, ports)
    requires i < |jobs|
    ensures work[i].Finishes? && !Refusable(ports, context, work[i].published)
  {
    assert GoodWork(jobs[i], work[i], initial, context);
    hide Publishable, PortsFrom, AllSucceed, GoodWork, WhyRejected;
    var published := work[i].published;
    forall k: nat, table, error ensures !RefusedAt(ports, context, published, k, table, error) {
      if k < |published| && OnlyAdds(ports, published, table) {
        GoodPortPublishable(jobs, work, initial, context, ports, i, k, table);
      }
    }
  }

  // ---------------------------------------------------------------- what holds during a run

  ghost predicate Finished(job: ArtifactJob, work: Work, ports: PortTable) {
    work.Finishes? && Approved(work) && ProductsPublished(job, ports)
  }

  /** Validated jobs have their products in the registry and their receipt in `results`;
      jobs in validation have published; the registry has only grown. */
  ghost predicate RunOk(
    jobs: seq<ArtifactJob>, work: seq<Work>, initial: PortTable, s: State, ports: PortTable, results: map<nat, Receipt>)
  {
    && |work| == |jobs|
    && (forall i: nat :: i in s.validated ==>
          i < |jobs| && Finished(jobs[i], work[i], ports)
          && i in results && results[i] == work[i].receipt)
    && (forall i: nat :: i in s.validating ==>
          i < |jobs| && work[i].Finishes? && AllPublished(work[i].published, ports))
    && Grows(initial, ports)
    && PortsFrom(initial, work, ports)
  }

  /** Every needed port is produced by some job or supplied from outside. */
  ghost predicate InputsCovered(jobs: seq<ArtifactJob>, initial: PortTable) {
    forall i: nat :: !LacksInput(jobs, initial, i)
  }

  lemma NeedHasProducer(jobs: seq<ArtifactJob>, initial: PortTable, i: nat, name: string) returns (p: nat)
    requires InputsCovered(jobs, initial) && i < |jobs| && name in jobs[i].needs && name !in initial
    ensures p < |jobs| && name in jobs[p].produces && Edge(RunGraph(jobs), i, p)
  {
    assert !LacksInput(jobs, initial, i);
    assert Produced(jobs, name);
    p :| p < |jobs| && name in jobs[p].produces;
    assert RunDependsOn(jobs, i, p);
  }

  lemma ProducerIsValidated(deps: Graph<nat>, n: nat, workers: nat, s: State, i: nat, p: nat)
    requires Inv(deps, n, workers, s) && Edge(deps, i, p)
    requires i in s.generating || i in s.validating || i in s.validated
    ensures p in s.validated
  {
  }

  lemma ValidatedHasProducts(
    jobs: seq<ArtifactJob>, work: seq<Work>, initial: PortTable, s: State, ports: PortTable,
    results: map<nat, Receipt>, p: nat)
    requires RunOk(jobs, work, initial, s, ports, results) && p in s.validated
    ensures p < |jobs| && ProductsPublished(jobs[p], ports)
  {
  }

  lemma StartedInRange(deps: Graph<nat>, n: nat, workers: nat, s: State, i: nat)
    requires Inv(deps, n, workers, s) && (i in s.generating || i in s.validating || i in s.validated)
    ensures i < n
  {
  }

  /** A started job finds every port it requires: its producers are validated, hence published. */
  lemma StartedJobHasInputs(
    jobs: seq<ArtifactJob>, work: seq<Work>, initial: PortTable, workers: nat, s: State, ports: PortTable,
    results: map<nat, Receipt>, i: nat)
    requires Inv(RunGraph(jobs), |jobs|, workers, s) && RunOk(jobs, work, initial, s, ports, results)
    requires InputsCovered(jobs, initial)
    requires i in s.generating || i in s.validating || i in s.validated
    ensures i < |jobs| && NeedsMet(jobs[i], ports)
  {
    StartedInRange(RunGraph(jobs), |jobs|, workers, s, i);
    assert Grows(initial, ports);
    forall name | name in jobs[i].needs ensures name in ports {
      if name !in initial {
        var p := NeedHasProducer(jobs, initial, i, name);
        ProducerIsValidated(RunGraph(jobs), |jobs|, workers, s, i, p);
        ValidatedHasProducts(jobs, work, initial, s, ports, results, p);
      }
    }
  }

  lemma ValidationGrows(
    jobs: seq<ArtifactJob>, work: seq<Work>, initial: PortTable, s: State, before: PortTable, after: PortTable,
    results: map<nat, Receipt>)
    requires RunOk(jobs, work, initial, s, before, results) && Grows(before, after)
    requires PortsFrom(initial, work, after)
    ensures RunOk(jobs, work, initial, s, after, results)
  {
    GrowsTrans(initial, before, after);
    forall i: nat | i in s.validating ensures AllPublished(work[i].published, after) {
      forall k | 0 <= k < |work[i].published| ensures work[i].published[k].name in after {
        assert work[i].published[k].name in before;
      }
    }
  }

  lemma MovesToValidation(
    jobs: seq<ArtifactJob>, work: seq<Work>, initial: PortTable, s: State, ports: PortTable,
    results: map<nat, Receipt>, i: nat)
    requires RunOk(jobs, work, initial, s, ports, results) && i < |jobs|
    requires work[i].Finishes? && AllPublished(work[i].published, ports)
    ensures RunOk(jobs, work, initial, ToValidation(s, i), ports, results)
  {
    hide AllPublished, PortsFrom, Grows;
  }

  lemma GenerationFinished(
    jobs: seq<ArtifactJob>, work: seq<Work>, initial: PortTable, s: State, before: PortTable, after: PortTable,
    results: map<nat, Receipt>, i: nat)
    requires RunOk(jobs, work, initial, s, before, results) && Grows(before, after) && i < |jobs|
    requires work[i].Finishes? && OnlyAdds(before, work[i].published, after) && AllPublished(work[i].published, after)
    ensures RunOk(jobs, work, initial, ToValidation(s, i), after, results)
  {
    RunCovers(jobs, work, initial, s, before, results);
    hide RunOk, AllPublished, OnlyAdds, Grows;
    PortsFromStep(initial, work, before, after, i);
    ValidationGrows(jobs, work, initial, s, before, after, results);
    MovesToValidation(jobs, work, initial, s, after, results, i);
  }

  lemma RunCovers(
    jobs: seq<ArtifactJob>, work: seq<Work>, initial: PortTable, s: State, ports: PortTable, results: map<nat, Receipt>)
    requires RunOk(jobs, work, initial, s, ports, results)
    ensures |work| == |jobs| && PortsFrom(initial, work, ports)
  {
  }

  lemma ValidationFinished(
    jobs: seq<ArtifactJob>, work: seq<Work>, initial: PortTable, s: State, ports: PortTable,
    results: map<nat, Receipt>, i: nat)
    requires RunOk(jobs, work, initial, s, ports, results) && i < |jobs| && Finished(jobs[i], work[i], ports)
    ensures RunOk(jobs, work, initial, Validate(s, i), ports, results[i := work[i].receipt])
  {
  }

  /** The event loop and the registry agree on how far the run has got. */
  ghost predicate Running(
    jobs: seq<ArtifactJob>, work: seq<Work>, initial: PortTable, context: string,
    loop: EventLoop, registry: PortRegistry, results: map<nat, Receipt>)
    reads loop, registry
  {
    && loop.Valid() && loop.deps == RunGraph(jobs) && loop.n == |jobs|
    && registry.Valid() && registry.contextId == context
    && InputsCovered(jobs, initial)
    && RunOk(jobs, work, initial, loop.View(), registry.ports, results)
  }

  lemma RunningUnfolds(
    jobs: seq<ArtifactJob>, work: seq<Work>, initial: PortTable, context: string,
    loop: EventLoop, registry: PortRegistry, results: map<nat, Receipt>)
    requires Running(jobs, work, initial, context, loop, registry, results)
    ensures loop.Valid() && loop.deps == RunGraph(jobs) && loop.n == |jobs| && InputsCovered(jobs, initial)
    ensures |work| == |jobs| && RunOk(jobs, work, initial, loop.View(), registry.ports, results)
    ensures registry.Valid() && registry.contextId == context
  {
  }

  lemma StaysRunning(
    jobs: seq<ArtifactJob>, work: seq<Work>, initial: PortTable, context: string,
    loop: EventLoop, registry: PortRegistry, results: map<nat, Receipt>)
    requires loop.Valid() && loop.deps == RunGraph(jobs) && loop.n == |jobs| && InputsCovered(jobs, initial)
    requires RunOk(jobs, work, initial, loop.View(), registry.ports, results)
    requires registry.Valid() && registry.contextId == context
    ensures Running(jobs, work, initial, context, loop, registry, results)
  {
  }

  lemma ValidatingIsFinished(
    jobs: seq<ArtifactJob>, work: seq<Work>, initial: PortTable, s: State, ports: PortTable,
    results: map<nat, Receipt>, i: nat)
    requires RunOk(jobs, work, initial, s, ports, results) && i in s.validating
    ensures i < |jobs| == |work| && work[i].Finishes?
  {
  }

  lemma GoodWorkIsApproved(
    jobs: seq<ArtifactJob>, work: seq<Work>, initial: PortTable, context: string, s: State, ports: PortTable,
    results: map<nat, Receipt>, i: nat)
    requires RunOk(jobs, work, initial, s, ports, results) && i in s.validating
    requires AllSucceed(jobs, work, initial, context)
    ensures Finished(jobs[i], work[i], ports)
  {
    assert GoodWork(jobs[i], work[i], initial, context);
    assert AllPublished(work[i].published, ports);
  }

  /** One finished generation: publish, then hand the receipt to validation. */
  method CompleteGeneration(
    jobs: seq<ArtifactJob>, work: seq<Work>, ghost initial: PortTable, ghost context: string,
    loop: EventLoop, registry: PortRegistry, ghost results: map<nat, Receipt>, jobId: nat)
    returns (failure: Option<Failure>)
    requires Running(jobs, work, initial, context, loop, registry, results) && jobId in loop.generating
    modifies loop, registry
    ensures failure.None? ==>
              && Running(jobs, work, initial, context, loop, registry, results)
              && loop.View() == ToValidation(old(loop.View()), jobId)
              && Remaining(loop.View()) < old(Remaining(loop.View()))
    ensures failure.Some? ==> failure.value != RequiredPortMissing
                              && !AllSucceed(jobs, work, initial, context)
                              && CauseIsRight(jobs, work, initial, context, jobId, failure.value)
  {
    ghost var s, before := loop.View(), registry.ports;
    StartedJobHasInputs(jobs, work, initial, loop.generationWorkers, s, before, results, jobId);
    failure := ExecuteOne(jobs[jobId], work[jobId], registry);
    if failure.None? {
      loop.FinishGeneration(jobId);
      GenerationFinished(jobs, work, initial, s, before, registry.ports, results, jobId);
    } else {
      if failure.value.PublishRejected? {
        RefusalIsCause(jobs, work, initial, context, before, jobId, failure.value.error);
      }
      if AllSucceed(jobs, work, initial, context) {
        NeverRefused(jobs, work, initial, context, before, jobId);
      }
    }
  }

  /** One finished validation: accept the job's products and receipt. */
  method CompleteValidation(
    jobs: seq<ArtifactJob>, work: seq<Work>, ghost initial: PortTable, ghost context: string,
    loop: EventLoop, registry: PortRegistry, results: map<nat, Receipt>, jobId: nat)
    returns (failure: Option<Failure>, results': map<nat, Receipt>)
    requires Running(jobs, work, initial, context, loop, registry, results) && jobId in loop.validating
    modifies loop
    ensures failure.None? ==>
              && Running(jobs, work, initial, context, loop, registry, results')
              && loop.View() == Validate(old(loop.View()), jobId)
              && Remaining(loop.View()) < old(Remaining(loop.View()))
    ensures failure.Some? ==> failure.value != RequiredPortMissing
                              && !AllSucceed(jobs, work, initial, context)
                              && CauseIsRight(jobs, work, initial, context, jobId, failure.value)
  {
    ghost var s := loop.View();
    RunningUnfolds(jobs, work, initial, context, loop, registry, results);
    ValidatingIsFinished(jobs, work, initial, s, registry.ports, results, jobId);
    hide Running, Inv, Remaining, InputsCovered, AllSucceed, RunOk, RunGraph, Validate, Approved, FirstComplaint,
         ProductsPublished, Finished, CauseIsRight;
    results' := results;
    failure := ValidateCompletedJob(jobs[jobId], work[jobId], registry.ports);
    if failure.None? {
      ApprovedIsFinished(jobs[jobId], work[jobId], registry.ports);
      ValidationFinished(jobs, work, initial, s, registry.ports, results, jobId);
      loop.FinishValidation(jobId);
      results' := results[jobId := work[jobId].receipt];
      StaysRunning(jobs, work, initial, context, loop, registry, results');
    } else {
      ComplaintIsCause(jobs, work, initial, context, s, registry.ports, results, jobId, failure.value);
    }
  }

  lemma ApprovedIsFinished(job: ArtifactJob, work: Work, ports: PortTable)
    requires work.Finishes? && Approved(work) && ProductsPublished(job, ports)
    ensures Finished(job, work, ports)
  {
  }

  lemma ComplaintIsCause(
    jobs: seq<ArtifactJob>, work: seq<Work>, initial: PortTable, context: string, s: State, ports: PortTable,
    results: map<nat, Receipt>, i: nat, failure: Failure)
    requires RunOk(jobs, work, initial, s, ports, results) && i in s.validating && i < |jobs| && work[i].Finishes?
    requires FirstComplaint(jobs[i], work[i], ports, failure)
    ensures CauseIsRight(jobs, work, initial, context, i, failure) && failure != RequiredPortMissing
    ensures !AllSucceed(jobs, work, initial, context)
  {
    assert AllPublished(work[i].published, ports) && Grows(initial, ports);
    if AllSucceed(jobs, work, initial, context) {
      GoodWorkIsApproved(jobs, work, initial, context, s, ports, results, i);
    }
  }

  // ---------------------------------------------------------------- batches and the loop

  ghost predicate BlockedIsRight(jobs: seq<ArtifactJob>, blocked: set<nat>) {
    && blocked != {}
    && forall i: nat :: i in blocked <==> i < |jobs| && ReachesCycle(RunGraph(jobs), i)
  }

  /** Why the event loop may stop early: a deadlock of exactly the jobs on or behind a cycle,
      or work that does not succeed. A required port is never the reason. */
  ghost predicate StopIsRight(
    jobs: seq<ArtifactJob>, work: seq<Work>, initial: PortTable, context: string, outcome: Outcome)
    requires |work| == |jobs|
  {
    match outcome
    case Deadlock(blocked) => BlockedIsRight(jobs, blocked)
    case WorkFailed(job, failure) =>
      && job < |jobs| && failure != RequiredPortMissing && !AllSucceed(jobs, work, initial, context)
      && CauseIsRight(jobs, work, initial, context, job, failure)
    case _ => false
  }

  /** Jobs of the batch not looked at yet are still where they were. */
  ghost predicate StillActive(s: State, todo: set<nat>) {
    forall j :: j in todo ==> j in s.generating || j in s.validating
  }

  /** `newly` are the validated jobs whose consumers have not been told yet. */
  ghost predicate Uncounted(s: State, newly: set<nat>) {
    s.validated == s.counted + newly && s.counted !! newly
  }

  lemma GenerationBookkeeping(s: State, todo: set<nat>, newly: set<nat>, j: nat)
    requires StillActive(s, todo) && Uncounted(s, newly)
    ensures StillActive(ToValidation(s, j), todo - {j}) && Uncounted(ToValidation(s, j), newly)
  {
  }

  lemma ValidationBookkeeping(n: nat, s: State, todo: set<nat>, newly: set<nat>, j: nat)
    requires StillActive(s, todo) && Uncounted(s, newly) && StagesOk(n, s) && j in s.validating
    ensures StillActive(Validate(s, j), todo - {j}) && Uncounted(Validate(s, j), newly + {j})
  {
  }

  /** Handles one completed future of a batch. */
  method CompleteOne(
    jobs: seq<ArtifactJob>, work: seq<Work>, ghost initial: PortTable, ghost context: string,
    loop: EventLoop, registry: PortRegistry, results: map<nat, Receipt>, newlyValidated: set<nat>, jobId: nat,
    ghost todo: set<nat>)
    returns (failure: Option<Failure>, results': map<nat, Receipt>, newlyValidated': set<nat>)
    requires Running(jobs, work, initial, context, loop, registry, results)
    requires StillActive(loop.View(), todo) && jobId in todo && Uncounted(loop.View(), newlyValidated)
    modifies loop, registry
    ensures failure.None? ==>
              && Running(jobs, work, initial, context, loop, registry, results')
              && StillActive(loop.View(), todo - {jobId}) && Uncounted(loop.View(), newlyValidated')
              && Remaining(loop.View()) < old(Remaining(loop.View()))
    ensures failure.Some? ==> StopIsRight(jobs, work, initial, context, WorkFailed(jobId, failure.value))
  {
    ghost var s := loop.View();
    assert StagesOk(loop.n, s) && jobId < |jobs|;
    results', newlyValidated' := results, newlyValidated;
    if jobId in loop.generating {
      GenerationBookkeeping(s, todo, newlyValidated, jobId);
      failure := CompleteGeneration(jobs, work, initial, context, loop, registry, results, jobId);
    } else {
      ValidationBookkeeping(loop.n, s, todo, newlyValidated, jobId);
      failure, results' := CompleteValidation(jobs, work, initial, context, loop, registry, results, jobId);
      newlyValidated' := newlyValidated + {jobId};
    }
  }

  /** Handles a batch of completed futures in any order; the first failure is raised. */
  method CompleteBatch(
    jobs: seq<ArtifactJob>, work: seq<Work>, ghost initial: PortTable, ghost context: string,
    loop: EventLoop, registry: PortRegistry, results: map<nat, Receipt>, done: set<nat>)
    returns (failed: Option<Outcome>, results': map<nat, Receipt>, newlyValidated: set<nat>)
    requires Running(jobs, work, initial, context, loop, registry, results)
    requires StillActive(loop.View(), done) && done != {} && Uncounted(loop.View(), {})
    modifies loop, registry
    ensures failed.None? ==>
              && Running(jobs, work, initial, context, loop, registry, results')
              && Uncounted(loop.View(), newlyValidated)
              && Remaining(loop.View()) < old(Remaining(loop.View()))
    ensures failed.Some? ==> StopIsRight(jobs, work, initial, context, failed.value)
  {
    assert |work| == |jobs|;
    failed, results', newlyValidated := None, results, {};
    ghost var remaining0 := Remaining(loop.View());
    var todo := done;
    while todo != {} && failed.None?
      invariant failed.None? ==>
                  && Running(jobs, work, initial, context, loop, registry, results')
                  && StillActive(loop.View(), todo) && Uncounted(loop.View(), newlyValidated)
                  && Remaining(loop.View()) <= remaining0
                  && (todo != done ==> Remaining(loop.View()) < remaining0)
      invariant failed.Some? ==> StopIsRight(jobs, work, initial, context, failed.value)
      decreases todo
    {
      var jobId :| jobId in todo;
      var failure;
      failure, results', newlyValidated :=
        CompleteOne(jobs, work, initial, context, loop, registry, results', newlyValidated, jobId, todo);
      if failure.Some? {
        failed := Some(WorkFailed(jobId, failure.value));
      }
      todo := todo - {jobId};
    }
  }

  lemma RunOkCarriesOver(
    jobs: seq<ArtifactJob>, work: seq<Work>, initial: PortTable, s: State, t: State, ports: PortTable,
    results: map<nat, Receipt>)
    requires RunOk(jobs, work, initial, s, ports, results)
    requires t.validated == s.validated && t.validating == s.validating
    ensures RunOk(jobs, work, initial, t, ports, results)
  {
  }

  /** Counting the batch and refilling the slots brings the loop back to its head. */
  method Refill(
    jobs: seq<ArtifactJob>, work: seq<Work>, ghost initial: PortTable, ghost context: string,
    loop: EventLoop, registry: PortRegistry, ghost results: map<nat, Receipt>, newlyValidated: set<nat>)
    returns (corrupt: bool)
    requires Running(jobs, work, initial, context, loop, registry, results)
    requires Uncounted(loop.View(), newlyValidated)
    modifies loop
    ensures !corrupt && Running(jobs, work, initial, context, loop, registry, results)
    ensures AtLoopHead(loop.deps, loop.n, loop.generationWorkers, loop.View())
    ensures Remaining(loop.View()) <= old(Remaining(loop.View()))
  {
    ghost var s := loop.View();
    assert |s.generating| <= loop.generationWorkers;
    corrupt := loop.CountBatch(newlyValidated);
    if !corrupt {
      loop.SubmitReady();
    }
    RunOkCarriesOver(jobs, work, initial, s, loop.View(), registry.ports, results);
    SlotsNeverExceeded(loop.deps, loop.n, loop.generationWorkers, loop.View());
  }

  lemma SlotsNeverExceeded(deps: Graph<nat>, n: nat, workers: nat, s: State)
    requires Inv(deps, n, workers, s)
    ensures |s.generating| <= workers
  {
  }

  lemma StuckIsBlocked(jobs: seq<ArtifactJob>, workers: nat, s: State)
    requires AtLoopHead(RunGraph(jobs), |jobs|, workers, s) && workers > 0
    requires s.generating == {} && s.validating == {} && s.pending != {}
    ensures BlockedIsRight(jobs, s.pending)
  {
    assert StagesOk(|jobs|, s);
    forall i: nat | i < |jobs| ensures i in s.pending <==> ReachesCycle(RunGraph(jobs), i) {
      StuckMeansCycle(RunGraph(jobs), |jobs|, workers, s, i);
    }
  }

  /** Some running futures complete, in any combination; then the slots are refilled. */
  method Advance(
    jobs: seq<ArtifactJob>, work: seq<Work>, ghost initial: PortTable, ghost context: string,
    loop: EventLoop, registry: PortRegistry, results: map<nat, Receipt>)
    returns (stopped: Option<Outcome>, results': map<nat, Receipt>)
    requires Running(jobs, work, initial, context, loop, registry, results)
    requires AtLoopHead(loop.deps, loop.n, loop.generationWorkers, loop.View())
    requires loop.generating + loop.validating != {}
    modifies loop, registry
    ensures stopped.None? ==>
              && Running(jobs, work, initial, context, loop, registry, results')
              && AtLoopHead(loop.deps, loop.n, loop.generationWorkers, loop.View())
              && Remaining(loop.View()) < old(Remaining(loop.View()))
    ensures stopped.Some? ==> StopIsRight(jobs, work, initial, context, stopped.value)
  {
    assert Uncounted(loop.View(), {});
    var active := loop.generating + loop.validating;
    var done: set<nat> :| done != {} && done <= active;
    assert StillActive(loop.View(), done);
    var newlyValidated;
    stopped, results', newlyValidated := CompleteBatch(jobs, work, initial, context, loop, registry, results, done);
    if stopped.None? {
      var corrupt := Refill(jobs, work, initial, context, loop, registry, results', newlyValidated);
      if corrupt {
        stopped := Some(IndegreeCorrupt);
      }
    }
  }

  /** One turn of the event loop. */
  method Turn(
    jobs: seq<ArtifactJob>, work: seq<Work>, ghost initial: PortTable, ghost context: string,
    loop: EventLoop, registry: PortRegistry, results: map<nat, Receipt>)
    returns (stopped: Option<Outcome>, results': map<nat, Receipt>)
    requires Running(jobs, work, initial, context, loop, registry, results)
    requires AtLoopHead(loop.deps, loop.n, loop.generationWorkers, loop.View())
    requires loop.pending != {} || loop.generating != {} || loop.validating != {}
    requires loop.generationWorkers > 0
    modifies loop, registry
    ensures stopped.None? ==>
              && Running(jobs, work, initial, context, loop, registry, results')
              && AtLoopHead(loop.deps, loop.n, loop.generationWorkers, loop.View())
              && Remaining(loop.View()) < old(Remaining(loop.View()))
    ensures stopped.Some? ==> StopIsRight(jobs, work, initial, context, stopped.value)
  {
    RunningUnfolds(jobs, work, initial, context, loop, registry, results);
    if loop.generating == {} && loop.validating == {} {
      StuckIsBlocked(jobs, loop.generationWorkers, loop.View());
      stopped, results' := Some(Deadlock(loop.pending)), results;
    } else {
      stopped, results' := Advance(jobs, work, initial, context, loop, registry, results);
    }
  }

  // ---------------------------------------------------------------- how a run may end

  ghost predicate StartsUp(jobs: seq<ArtifactJob>, initial: PortTable) {
    DistinctIds(jobs) && DistinctProducts(jobs, |jobs|) && InputsCovered(jobs, initial)
  }

  /** A job that needs one of its own products. */
  ghost predicate NeedsItself(job: ArtifactJob, initial: PortTable) {
    exists name :: name in job.needs && name in job.produces && name !in initial
  }

  /** Every job is finished, its own receipt stands at its place, and every port is an initial one or one
      that some job published. */
  ghost predicate PassIsRight(
    jobs: seq<ArtifactJob>, work: seq<Work>, initial: PortTable, ports: PortTable,
    completedJobs: seq<string>, receipts: seq<Receipt>)
  {
    && |work| == |jobs| == |completedJobs| == |receipts|
    && (forall i :: 0 <= i < |jobs| ==>
          && completedJobs[i] == jobs[i].jobId
          && Finished(jobs[i], work[i], ports) && receipts[i] == work[i].receipt)
    && Grows(initial, ports) && PortsFrom(initial, work, ports)
  }

  /** The only ways a run may end, for every list of jobs, all their work and every completion order. */
  ghost predicate OutcomeIsRight(
    jobs: seq<ArtifactJob>, work: seq<Work>, initial: PortTable, context: string, ports: PortTable, outcome: Outcome)
    requires |work| == |jobs|
  {
    match outcome
    case DuplicateId => !DistinctIds(jobs)
    case DuplicateProduct => DistinctIds(jobs) && !DistinctProducts(jobs, |jobs|)
    case MissingProducers(missing) =>
      && DistinctIds(jobs) && DistinctProducts(jobs, |jobs|)
      && missing != {} && forall i: nat :: i in missing <==> LacksInput(jobs, initial, i)
    case Pass(completedJobs, receipts) =>
      && StartsUp(jobs, initial)
      && (if |jobs| == 1 then !NeedsItself(jobs[0], initial) else Acyclic(RunGraph(jobs)))
      && PassIsRight(jobs, work, initial, ports, completedJobs, receipts)
    case Deadlock(blocked) =>
      && StartsUp(jobs, initial)
      && |jobs| >= 2 && BlockedIsRight(jobs, blocked)
    case WorkFailed(job, failure) =>
      && StartsUp(jobs, initial) && job < |jobs|
      && if failure == RequiredPortMissing
         then |jobs| == 1 && NeedsItself(jobs[job], initial)
         else (|jobs| == 1 ==> !NeedsItself(jobs[0], initial))
              && !AllSucceed(jobs, work, initial, context) && CauseIsRight(jobs, work, initial, context, job, failure)
    case IndegreeCorrupt => false
  }

  lemma AllValidated(deps: Graph<nat>, n: nat, workers: nat, s: State)
    requires AtLoopHead(deps, n, workers, s)
    requires s.pending == {} && s.generating == {} && s.validating == {}
    ensures forall i: nat :: i < n ==> i in s.validated
  {
  }

  function JobIds(jobs: seq<ArtifactJob>): (ids: seq<string>)
    ensures |ids| == |jobs|
  {
    seq(|jobs|, i requires 0 <= i < |jobs| => jobs[i].jobId)
  }

  /** The receipts in input order. */
  function ReceiptsOf(results: map<nat, Receipt>, n: nat): (receipts: seq<Receipt>)
    requires forall i: nat :: i < n ==> i in results
    ensures |receipts| == n
  {
    seq(n, i requires 0 <= i < n => results[i])
  }

  lemma ValidatedIsFinished(
    jobs: seq<ArtifactJob>, work: seq<Work>, initial: PortTable, s: State, ports: PortTable,
    results: map<nat, Receipt>, i: nat)
    requires RunOk(jobs, work, initial, s, ports, results) && i in s.validated
    ensures i < |jobs| && Finished(jobs[i], work[i], ports) && i in results && results[i] == work[i].receipt
  {
  }

  /** Everything validated: the receipts are the workers' own, in input order. */
  lemma FinishedRunIsRight(
    jobs: seq<ArtifactJob>, work: seq<Work>, initial: PortTable, s: State, ports: PortTable,
    results: map<nat, Receipt>)
    requires RunOk(jobs, work, initial, s, ports, results)
    requires forall i: nat :: i < |jobs| ==> i in s.validated
    ensures forall i: nat :: i < |jobs| ==> i in results
    ensures PassIsRight(jobs, work, initial, ports, JobIds(jobs), ReceiptsOf(results, |jobs|))
  {
    forall i: nat | i < |jobs|
      ensures Finished(jobs[i], work[i], ports) && i in results && results[i] == work[i].receipt
    {
      ValidatedIsFinished(jobs, work, initial, s, ports, results, i);
    }
    hide PortsFrom, Finished;
  }

  method RunLoop(
    jobs: seq<ArtifactJob>, work: seq<Work>, ghost initial: PortTable, ghost context: string,
    loop: EventLoop, registry: PortRegistry)
    returns (outcome: Outcome)
    requires Running(jobs, work, initial, context, loop, registry, map[])
    requires AtLoopHead(loop.deps, loop.n, loop.generationWorkers, loop.View())
    requires loop.generationWorkers > 0
    modifies loop, registry
    ensures |work| == |jobs|
    ensures match outcome
            case Pass(completedJobs, receipts) =>
              && Acyclic(RunGraph(jobs))
              && PassIsRight(jobs, work, initial, registry.ports, completedJobs, receipts)
            case _ => StopIsRight(jobs, work, initial, context, outcome)
    ensures outcome.Pass? ==> registry.Valid() && registry.contextId == context
  {
    hide StopIsRight, PassIsRight, AtLoopHead, Remaining, Acyclic, RunGraph;
    RunningUnfolds(jobs, work, initial, context, loop, registry, map[]);
    hide Running;
    var results: map<nat, Receipt> := map[];
    var stopped: Option<Outcome> := None;
    while stopped.None? && (loop.pending != {} || loop.generating != {} || loop.validating != {})
      invariant stopped.None? ==>
                  && Running(jobs, work, initial, context, loop, registry, results)
                  && AtLoopHead(loop.deps, loop.n, loop.generationWorkers, loop.View())
      invariant stopped.Some? ==> StopIsRight(jobs, work, initial, context, stopped.value)
      decreases stopped.None?, Remaining(loop.View())
    {
      stopped, results := Turn(jobs, work, initial, context, loop, registry, results);
    }
    if stopped.Some? {
      StopIsNoPass(jobs, work, initial, context, stopped.value);
      return stopped.value;
    }
    EverythingValidated(jobs, work, initial, context, loop, registry, results);
    outcome := Pass(JobIds(jobs), ReceiptsOf(results, |jobs|));
  }

  /** The loop has run out of jobs: the graph had no cycle and every receipt is there. */
  lemma EverythingValidated(
    jobs: seq<ArtifactJob>, work: seq<Work>, initial: PortTable, context: string,
    loop: EventLoop, registry: PortRegistry, results: map<nat, Receipt>)
    requires Running(jobs, work, initial, context, loop, registry, results)
    requires AtLoopHead(loop.deps, loop.n, loop.generationWorkers, loop.View())
    requires loop.pending == {} && loop.generating == {} && loop.validating == {}
    ensures Acyclic(RunGraph(jobs)) && registry.Valid() && registry.contextId == context
    ensures forall i: nat :: i < |jobs| ==> i in results
    ensures PassIsRight(jobs, work, initial, registry.ports, JobIds(jobs), ReceiptsOf(results, |jobs|))
  {
    RunningUnfolds(jobs, work, initial, context, loop, registry, results);
    FinishedMeansAcyclic(loop.deps, loop.n, loop.generationWorkers, loop.View());
    AllValidated(loop.deps, loop.n, loop.generationWorkers, loop.View());
    FinishedRunIsRight(jobs, work, initial, loop.View(), registry.ports, results);
  }

  lemma StopIsNoPass(
    jobs: seq<ArtifactJob>, work: seq<Work>, initial: PortTable, context: string, outcome: Outcome)
    requires |work| == |jobs| && StopIsRight(jobs, work, initial, context, outcome)
    ensures !outcome.Pass?
  {
  }

  // ---------------------------------------------------------------- running a graph

  /** A lone job is executed without an event loop. */
  method RunSingle(job: ArtifactJob, work: Work, registry: PortRegistry) returns (outcome: Outcome)
    requires registry.Valid() && InputsCovered([job], registry.ports)
    modifies registry`ports
    ensures registry.Valid()
    ensures match outcome
            case Pass(completedJobs, receipts) =>
              && !NeedsItself(job, old(registry.ports))
              && PassIsRight([job], [work], old(registry.ports), registry.ports, completedJobs, receipts)
            case WorkFailed(j, failure) =>
              && j == 0
              && if failure == RequiredPortMissing then NeedsItself(job, old(registry.ports))
                 else !NeedsItself(job, old(registry.ports))
                      && !AllSucceed([job], [work], old(registry.ports), registry.contextId)
                      && CauseIsRight([job], [work], old(registry.ports), registry.contextId, 0, failure)
            case _ => false
  {
    ghost var initial := registry.ports;
    var failure := ExecuteOne(job, work, registry);
    if failure.None? {
      failure := ValidateCompletedJob(job, work, registry.ports);
      if failure.None? {
        PortsFromStep(initial, [work], initial, registry.ports, 0);
        return Pass([job.jobId], [work.receipt]);
      }
      SingleNotApproved(job, work, initial, registry.contextId, registry.ports, failure.value);
    } else if failure.value == RequiredPortMissing {
      OnlyOwnProductMissing(job, initial);
    } else {
      SingleRefused(job, work, initial, registry.contextId, failure.value);
    }
    outcome := WorkFailed(0, failure.value);
  }

  lemma SingleNotApproved(
    job: ArtifactJob, work: Work, initial: PortTable, context: string, ports: PortTable, failure: Failure)
    requires work.Finishes? && AllPublished(work.published, ports) && Grows(initial, ports)
    requires !(Approved(work) && ProductsPublished(job, ports)) && FirstComplaint(job, work, ports, failure)
    ensures !AllSucceed([job], [work], initial, context)
    ensures CauseIsRight([job], [work], initial, context, 0, failure) && failure != RequiredPortMissing
  {
    assert [job][0] == job && [work][0] == work;
    assert AllSucceed([job], [work], initial, context) ==> GoodWork([job][0], [work][0], initial, context);
  }

  lemma OnlyOwnProductMissing(job: ArtifactJob, initial: PortTable)
    requires InputsCovered([job], initial) && !NeedsMet(job, initial)
    ensures NeedsItself(job, initial)
  {
    var name :| name in job.needs && name !in initial;
    assert !LacksInput([job], initial, 0);
    assert [job][0] == job;
    assert Produced([job], name);
  }

  lemma SingleRefused(job: ArtifactJob, work: Work, initial: PortTable, context: string, failure: Failure)
    requires match failure
             case Raised => work.Raises?
             case PublishRejected(error) => work.Finishes? && RefusedWith(initial, context, work.published, error)
             case _ => false
    ensures !AllSucceed([job], [work], initial, context)
    ensures CauseIsRight([job], [work], initial, context, 0, failure)
  {
    assert [job][0] == job && [work][0] == work;
    assert PortsFrom(initial, [work], initial);
    if failure.PublishRejected? {
      RefusalIsCause([job], [work], initial, context, initial, 0, failure.error);
    }
    if AllSucceed([job], [work], initial, context) {
      NeverRefused([job], [work], initial, context, initial, 0);
    }
  }

  /** The state before the first turn. */
  method StartLoop(
    jobs: seq<ArtifactJob>, work: seq<Work>, producers: map<string, nat>, generationWorkers: nat,
    registry: PortRegistry)
    returns (loop: EventLoop)
    requires |work| == |jobs| && registry.Valid() && IndexExact(jobs, |jobs|, producers)
    requires InputsCovered(jobs, registry.ports)
    ensures fresh(loop) && loop.generationWorkers == generationWorkers
    ensures Running(jobs, work, registry.ports, registry.contextId, loop, registry, map[])
    ensures AtLoopHead(loop.deps, loop.n, loop.generationWorkers, loop.View())
  {
    var dependencyIds := RunDependencies(jobs, producers);
    RunGraphBelow(jobs);
    var dependents := Transpose(dependencyIds, |jobs|);
    loop := new EventLoop(|jobs|, dependencyIds, dependents, generationWorkers);
    loop.SubmitReady();
  }

  /** So many generations at a time exceed neither the jobs nor the configured number nor the native slots. */
  ghost predicate MayRun(w: nat, jobCount: nat, configured: nat, nativeSlots: Option<nat>) {
    w <= jobCount && w <= configured && (nativeSlots.Some? ==> w <= nativeSlots.value)
  }

  /** At least one generation runs at a time; never more than jobs, configuration or native slots allow. */
  function GenerationParallelism(jobCount: nat, configured: nat, nativeSlots: Option<nat>): (workers: nat)
    ensures 1 <= workers
    ensures jobCount >= 1 && configured >= 1 ==> workers <= jobCount && workers <= configured
    ensures nativeSlots.Some? && nativeSlots.value >= 1 ==> workers <= nativeSlots.value
    ensures forall w: nat :: MayRun(w, jobCount, configured, nativeSlots) ==> w <= workers
    ensures MayRun(workers, jobCount, configured, nativeSlots) || workers == 1
  {
    var limit := if jobCount <= configured then jobCount else configured;
    var slots := if nativeSlots.Some? && nativeSlots.value < limit then nativeSlots.value else limit;
    if slots >= 1 then slots else 1
  }

  method ExecuteArtifactGraph(
    jobs: seq<ArtifactJob>, work: seq<Work>, configuredWorkers: nat, nativeSlots: Option<nat>, registry: PortRegistry)
    returns (outcome: Outcome)
    requires |work| == |jobs| && registry.Valid()
    modifies registry
    ensures OutcomeIsRight(jobs, work, old(registry.ports), old(registry.contextId), registry.ports, outcome)
    ensures outcome.Pass? ==> registry.Valid() && registry.contextId == old(registry.contextId)
  {
    AsManyIdsAsJobs(jobs);
    if |IdSet(jobs)| != |jobs| {
      return DuplicateId;
    }
    if jobs == [] {
      return Pass([], []);
    }
    var conflict, producers := ProducerIndex(jobs);
    if conflict {
      return DuplicateProduct;
    }
    var missing := FindMissingInputs(jobs, producers, registry.ports);
    if missing != {} {
      return MissingProducers(missing);
    }
    if |jobs| == 1 {
      assert jobs == [jobs[0]] && work == [work[0]];
      outcome := RunSingle(jobs[0], work[0], registry);
    } else {
      var workers := GenerationParallelism(|jobs|, configuredWorkers, nativeSlots);
      var loop := StartLoop(jobs, work, producers, workers, registry);
      outcome := RunLoop(jobs, work, registry.ports, registry.contextId, loop, registry);
    }
  }
}
