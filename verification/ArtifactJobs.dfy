/** Artifact jobs and the structural check every job graph passes before production. */
module ArtifactJobs {
  import opened Optional
  import opened PyString
  import opened Digraph
  import opened Kahn

  datatype ExecutorType = Template | PythonGenerator | Model | Deterministic

  datatype ArtifactJob = ArtifactJob(
    jobId: string,
    ownerModule: string,
    contextId: string,
    canonicalLeaf: string,
    implementationId: string,
    executorType: ExecutorType,
    templateId: string,
    targetPath: string,
    operation: string,
    needs: seq<string>,                       // `requires`: names of input ports
    produces: seq<string>,                    // names of output ports
    requiredPorts: seq<map<string, string>>)  // typed descriptions of some input ports

  datatype JobError =
    | IdRequired | OwnerRequired | ContextRequired | CanonicalLeafRequired | ImplementationRequired
    | TemplateRequired | TargetRequired | GeneratorTemplateForbidden | GeneratorImplementationInvalid
    | ForeignOwner | DuplicateJobId
    | PortEmpty | RequireDuplicate | ProduceDuplicate | SelfDependency
    | RequiredPortFields | RequiredPortEmpty | RequiredPortKind | RequiredPortNotRequired | RequiredPortDuplicate
    | DuplicateProducer

  /** How the check ends; jobs are named by their input position. */
  datatype Verdict =
    | JobRejected(index: nat, error: JobError)
    | MissingProducer(missing: set<nat>)
    | UnknownProducerId                       // an uncaught KeyError in the program
    | CycleFound(cyclic: set<nat>)
    | Accepted

  const PORT_KINDS := {
    "REGISTRY_ID", "JAVA_SYMBOL", "TEXTURE_REF", "MODEL_REF", "CLIENT_ITEM_REF",
    "SCREEN_HANDLER_TYPE", "PAYLOAD_TYPE", "TRANSLATION_KEY", "GENERIC"}

  const GENERATOR_PREFIX := "python_generator:"

  // ---------------------------------------------------------------- checks on one job

  function Stripped(names: seq<string>): (stripped: seq<string>)
    ensures |stripped| == |names|
  {
    seq(|names|, i requires 0 <= i < |names| => Strip(names[i]))
  }

  predicate HasDuplicate(names: seq<string>) {
    exists i, j :: 0 <= i < j < |names| && names[i] == names[j]
  }

  function FieldError(job: ArtifactJob, allowedOwners: set<string>): Option<JobError> {
    if Strip(job.jobId) == "" then Some(IdRequired)
    else if Strip(job.ownerModule) == "" then Some(OwnerRequired)
    else if Strip(job.contextId) == "" then Some(ContextRequired)
    else if Strip(job.canonicalLeaf) == "" then Some(CanonicalLeafRequired)
    else if Strip(job.implementationId) == "" then Some(ImplementationRequired)
    else if job.executorType == Template && Strip(job.templateId) == "" then Some(TemplateRequired)
    else if job.executorType == Template && (Strip(job.targetPath) == "" || Strip(job.operation) == "")
    then Some(TargetRequired)
    else if job.executorType == PythonGenerator && Strip(job.templateId) != "" then Some(GeneratorTemplateForbidden)
    else if job.executorType == PythonGenerator && !(GENERATOR_PREFIX <= job.implementationId)
    then Some(GeneratorImplementationInvalid)
    else if allowedOwners != {} && Strip(job.ownerModule) !in allowedOwners then Some(ForeignOwner)
    else None
  }

  function PortNameError(job: ArtifactJob): Option<JobError> {
    var needs, produces := Stripped(job.needs), Stripped(job.produces);
    if "" in needs || "" in produces then Some(PortEmpty)
    else if HasDuplicate(needs) then Some(RequireDuplicate)
    else if HasDuplicate(produces) then Some(ProduceDuplicate)
    else if exists i :: 0 <= i < |needs| && needs[i] in produces then Some(SelfDependency)
    else None
  }

  function Field(port: map<string, string>, name: string): string {
    if name in port then Strip(port[name]) else ""
  }

  function RequiredPortError(ports: seq<map<string, string>>, needs: seq<string>, seen: set<string>): Option<JobError> {
    if ports == [] then None
    else
      var port := ports[0];
      var name, kind, targetType := Field(port, "name"), Field(port, "kind"), Field(port, "target_type");
      if port.Keys != {"name", "kind", "target_type"} then Some(RequiredPortFields)
      else if name == "" || kind == "" || targetType == "" then Some(RequiredPortEmpty)
      else if kind !in PORT_KINDS then Some(RequiredPortKind)
      else if name !in needs then Some(RequiredPortNotRequired)
      else if name in seen then Some(RequiredPortDuplicate)
      else RequiredPortError(ports[1..], needs, seen + {name})
  }

  // ---------------------------------------------------------------- what the graph means

  /** `job` produces the port `name`, surrounding white space ignored. */
  predicate Makes(job: ArtifactJob, name: string) {
    name in Stripped(job.produces)
  }

  ghost predicate DependsOn(jobs: seq<ArtifactJob>, i: nat, p: nat) {
    && i < |jobs| && p < |jobs|
    && exists name :: name in jobs[i].needs && Makes(jobs[p], name)
  }

  ghost function DependenciesOf(jobs: seq<ArtifactJob>, i: nat): set<nat> {
    set p: nat | p < |jobs| && DependsOn(jobs, i, p)
  }

  /** From each job to the jobs producing what it needs. */
  ghost function JobGraph(jobs: seq<ArtifactJob>): Graph<nat> {
    map i: nat | i < |jobs| :: DependenciesOf(jobs, i)
  }

  ghost predicate SameIdBefore(jobs: seq<ArtifactJob>, i: nat)
    requires i < |jobs|
  {
    exists k :: 0 <= k < i && Strip(jobs[k].jobId) == Strip(jobs[i].jobId)
  }

  ghost predicate SameProductBefore(jobs: seq<ArtifactJob>, i: nat)
    requires i < |jobs|
  {
    exists k, name :: 0 <= k < i && Makes(jobs[k], name) && Makes(jobs[i], name)
  }

  /** The first complaint about job `i`, given that the jobs before it passed. */
  ghost function JobFault(jobs: seq<ArtifactJob>, owners: set<string>, i: nat): Option<JobError>
    requires i < |jobs|
  {
    var job := jobs[i];
    var ports := RequiredPortError(job.requiredPorts, Stripped(job.needs), {});
    if FieldError(job, owners).Some? then FieldError(job, owners)
    else if SameIdBefore(jobs, i) then Some(DuplicateJobId)
    else if PortNameError(job).Some? then PortNameError(job)
    else if ports.Some? then ports
    else if SameProductBefore(jobs, i) then Some(DuplicateProducer)
    else None
  }

  ghost predicate JobsFine(jobs: seq<ArtifactJob>, owners: set<string>, n: nat)
    requires n <= |jobs|
  {
    forall i: nat :: i < n ==> JobFault(jobs, owners, i) == None
  }

  ghost predicate NobodyMakes(jobs: seq<ArtifactJob>, name: string) {
    forall p :: 0 <= p < |jobs| ==> !Makes(jobs[p], name)
  }

  /** Job `i` needs a port, by its exact name, that nobody produces. */
  ghost predicate LacksProducer(jobs: seq<ArtifactJob>, i: nat) {
    i < |jobs| && exists name :: name in jobs[i].needs && NobodyMakes(jobs, name)
  }

  ghost predicate UnlistedId(jobs: seq<ArtifactJob>, p: nat)
    requires p < |jobs|
  {
    forall k :: 0 <= k < |jobs| ==> jobs[k].jobId != Strip(jobs[p].jobId)
  }

  ghost predicate NeedsUnlistedId(jobs: seq<ArtifactJob>, i: nat)
    requires i < |jobs|
  {
    exists p: nat :: p < |jobs| && DependsOn(jobs, i, p) && UnlistedId(jobs, p)
  }

  /** Some consumer's producer has an id that is not, stripped, the exact id of a job. */
  ghost predicate PaddedProducerId(jobs: seq<ArtifactJob>) {
    exists i: nat :: i < |jobs| && NeedsUnlistedId(jobs, i)
  }

  ghost predicate StructurallySound(jobs: seq<ArtifactJob>, owners: set<string>) {
    && JobsFine(jobs, owners, |jobs|)
    && (forall i: nat :: !LacksProducer(jobs, i))
    && !PaddedProducerId(jobs)
  }

  /** The verdict demanded for every input. */
  ghost predicate VerdictIsRight(jobs: seq<ArtifactJob>, owners: set<string>, verdict: Verdict) {
    match verdict
    case JobRejected(i, error) =>
      i < |jobs| && JobsFine(jobs, owners, i) && JobFault(jobs, owners, i) == Some(error)
    case MissingProducer(missing) =>
      && JobsFine(jobs, owners, |jobs|)
      && missing != {}
      && forall i: nat :: i in missing <==> LacksProducer(jobs, i)
    case UnknownProducerId =>
      && JobsFine(jobs, owners, |jobs|)
      && (forall i: nat :: !LacksProducer(jobs, i))
      && PaddedProducerId(jobs)
    case CycleFound(cyclic) =>
      && StructurallySound(jobs, owners)
      && cyclic != {}
      && forall i: nat :: i in cyclic <==> i < |jobs| && ReachesCycle(JobGraph(jobs), i)
    case Accepted =>
      StructurallySound(jobs, owners) && Acyclic(JobGraph(jobs))
  }

  // ---------------------------------------------------------------- the check

  function AllowedOwners(moduleIds: seq<string>): set<string> {
    set i | 0 <= i < |moduleIds| && Strip(moduleIds[i]) != "" :: Strip(moduleIds[i])
  }

  /** `producers` maps every port made by the first `n` jobs to its one maker. */
  ghost predicate ProducersExact(jobs: seq<ArtifactJob>, n: nat, producers: map<string, nat>)
    requires n <= |jobs|
  {
    && (forall name :: name in producers ==> producers[name] < n && Makes(jobs[producers[name]], name))
    && (forall k: nat, name :: k < n && Makes(jobs[k], name) ==> name in producers && producers[name] == k)
  }

  /** Enters every name for job `i`; stops at one another job already has. */
  method Enter(produces: seq<string>, i: nat, producers: map<string, nat>)
    returns (conflict: bool, producers': map<string, nat>)
    requires forall name :: name in producers ==> producers[name] < i
    ensures conflict <==> exists name :: name in produces && name in producers
    ensures !conflict ==>
              && (forall name :: name in producers' <==> name in producers || name in produces)
              && (forall name :: name in producers' ==> producers'[name] == if name in produces then i else producers[name])
  {
    producers' := producers;
    ghost var entered: set<string> := {};
    for n := 0 to |produces|
      invariant forall name :: name in entered <==> exists m :: 0 <= m < n && produces[m] == name
      invariant producers'.Keys == producers.Keys + entered
      invariant forall name :: name in producers' ==>
                  producers'[name] == if name in entered then i else producers[name]
      invariant entered !! producers.Keys
    {
      var port := produces[n];
      if port in producers' && producers'[port] != i {
        return true, producers';
      }
      producers' := producers'[port := i];
      entered := entered + {port};
    }
    conflict := false;
  }

  method RecordProducts(ghost jobs: seq<ArtifactJob>, i: nat, produces: seq<string>, producers: map<string, nat>)
    returns (conflict: bool, producers': map<string, nat>)
    requires i < |jobs| && produces == Stripped(jobs[i].produces) && ProducersExact(jobs, i, producers)
    ensures conflict <==> SameProductBefore(jobs, i)
    ensures !conflict ==> ProducersExact(jobs, i + 1, producers')
  {
    hide ProducersExact, SameProductBefore, Stripped;
    assert forall name :: name in producers ==> producers[name] < i by { MakersBefore(jobs, i, producers); }
    conflict, producers' := Enter(produces, i, producers);
    ConflictMeansSameProduct(jobs, i, producers);
    if !conflict {
      assert forall name :: Makes(jobs[i], name) <==> name in produces;
      ProducersGrow(jobs, i, produces, producers, producers');
    }
  }

  lemma MakersBefore(jobs: seq<ArtifactJob>, i: nat, producers: map<string, nat>)
    requires i <= |jobs| && ProducersExact(jobs, i, producers)
    ensures forall name :: name in producers ==> producers[name] < i
  {
  }

  lemma ConflictMeansSameProduct(jobs: seq<ArtifactJob>, i: nat, producers: map<string, nat>)
    requires i < |jobs| && ProducersExact(jobs, i, producers)
    ensures SameProductBefore(jobs, i) <==> exists name :: name in Stripped(jobs[i].produces) && name in producers
  {
    assert forall name :: Makes(jobs[i], name) <==> name in Stripped(jobs[i].produces);
    hide Makes, Stripped;
    if name :| name in Stripped(jobs[i].produces) && name in producers {
      assert Makes(jobs[producers[name]], name) && Makes(jobs[i], name);
    }
  }

  lemma ProducersGrow(
    jobs: seq<ArtifactJob>, i: nat, made: seq<string>, before: map<string, nat>, after: map<string, nat>)
    requires i < |jobs| && ProducersExact(jobs, i, before)
    requires forall name :: Makes(jobs[i], name) <==> name in made
    requires forall name :: name in made ==> name !in before
    requires forall name :: name in after <==> name in before || name in made
    requires forall name :: name in after ==> after[name] == if name in made then i else before[name]
    ensures ProducersExact(jobs, i + 1, after)
  {
    hide Makes;
    forall k: nat, name | k < i + 1 && Makes(jobs[k], name) ensures name in after && after[name] == k {
      if k < i {
        assert name in before && before[name] == k;
      }
    }
  }

  ghost predicate SeenExact(jobs: seq<ArtifactJob>, n: nat, seen: set<string>)
    requires n <= |jobs|
  {
    forall id :: id in seen <==> exists k :: 0 <= k < n && Strip(jobs[k].jobId) == id
  }

  method CheckJob(
    jobs: seq<ArtifactJob>, i: nat, owners: set<string>, seenJobs: set<string>, producers: map<string, nat>)
    returns (fault: Option<JobError>, producers': map<string, nat>)
    requires i < |jobs| && SeenExact(jobs, i, seenJobs) && ProducersExact(jobs, i, producers)
    ensures fault == JobFault(jobs, owners, i)
    ensures fault.None? ==> ProducersExact(jobs, i + 1, producers')
  {
    hide Strip, HasDuplicate;
    var job := jobs[i];
    producers' := producers;
    fault := FieldError(job, owners);
    if fault.Some? {
      return;
    }
    if Strip(job.jobId) in seenJobs {
      return Some(DuplicateJobId), producers;
    }
    fault := PortNameError(job);
    if fault.Some? {
      return;
    }
    fault := RequiredPortError(job.requiredPorts, Stripped(job.needs), {});
    if fault.Some? {
      return;
    }
    var conflict;
    conflict, producers' := RecordProducts(jobs, i, Stripped(job.produces), producers);
    if conflict {
      fault := Some(DuplicateProducer);
    }
  }

  /** Per-job checks in input order; stops at the first fault. */
  method CheckJobs(jobs: seq<ArtifactJob>, owners: set<string>)
    returns (rejected: Option<Verdict>, producers: map<string, nat>)
    ensures rejected.Some? ==> rejected.value.JobRejected? && VerdictIsRight(jobs, owners, rejected.value)
    ensures rejected.None? ==> JobsFine(jobs, owners, |jobs|) && ProducersExact(jobs, |jobs|, producers)
  {
    hide JobFault, Strip;
    producers := map[];
    var seenJobs: set<string> := {};
    for i := 0 to |jobs|
      invariant JobsFine(jobs, owners, i)
      invariant SeenExact(jobs, i, seenJobs) && ProducersExact(jobs, i, producers)
    {
      var fault;
      fault, producers := CheckJob(jobs, i, owners, seenJobs, producers);
      if fault.Some? {
        return Some(JobRejected(i, fault.value)), producers;
      }
      seenJobs := seenJobs + {Strip(jobs[i].jobId)};
    }
    rejected := None;
  }

  lemma LacksProducerMeansUnlisted(jobs: seq<ArtifactJob>, producers: map<string, nat>, i: nat)
    requires ProducersExact(jobs, |jobs|, producers) && i < |jobs|
    ensures LacksProducer(jobs, i) <==> exists k :: 0 <= k < |jobs[i].needs| && jobs[i].needs[k] !in producers
  {
    hide Makes;
    forall k | 0 <= k < |jobs[i].needs|
      ensures jobs[i].needs[k] !in producers <==> NobodyMakes(jobs, jobs[i].needs[k])
    {
      var name := jobs[i].needs[k];
      if name in producers {
        assert Makes(jobs[producers[name]], name);
      }
    }
  }

  method FindMissing(jobs: seq<ArtifactJob>, producers: map<string, nat>) returns (missing: set<nat>)
    requires ProducersExact(jobs, |jobs|, producers)
    ensures forall i: nat :: i in missing <==> LacksProducer(jobs, i)
  {
    hide Makes, ProducersExact;
    missing := {};
    for i := 0 to |jobs|
      invariant forall j: nat :: j in missing <==> j < i && LacksProducer(jobs, j)
    {
      LacksProducerMeansUnlisted(jobs, producers, i);
      if exists k :: 0 <= k < |jobs[i].needs| && jobs[i].needs[k] !in producers {
        missing := missing + {i};
      }
    }
  }

  method Dependencies(jobs: seq<ArtifactJob>, producers: map<string, nat>) returns (dependencies: Graph<nat>)
    requires ProducersExact(jobs, |jobs|, producers)
    requires forall i: nat :: !LacksProducer(jobs, i)
    ensures dependencies == JobGraph(jobs)
  {
    hide Makes;
    dependencies := map[];
    for i := 0 to |jobs|
      invariant forall j: nat :: j in dependencies <==> j < i
      invariant forall j: nat :: j in dependencies ==> dependencies[j] == DependenciesOf(jobs, j)
    {
      var needs := jobs[i].needs;
      assert !LacksProducer(jobs, i);
      forall name | name in needs ensures name in producers {
      }
      var required := set k | 0 <= k < |needs| :: producers[needs[k]];
      forall p: nat ensures p in required <==> p in DependenciesOf(jobs, i) {
        if p in required {
          var k :| 0 <= k < |needs| && producers[needs[k]] == p;
          assert Makes(jobs[p], needs[k]);
        }
        if DependsOn(jobs, i, p) {
          var name :| name in needs && Makes(jobs[p], name);
          var k :| 0 <= k < |needs| && needs[k] == name;
          assert producers[needs[k]] == p;
        }
      }
      dependencies := dependencies[i := required];
    }
  }

  /** Every producer id is looked up among the exact job ids. */
  method HasPaddedProducerId(jobs: seq<ArtifactJob>, dependencies: Graph<nat>) returns (padded: bool)
    requires dependencies == JobGraph(jobs)
    ensures padded <==> PaddedProducerId(jobs)
  {
    var ids := set k | 0 <= k < |jobs| :: jobs[k].jobId;
    for i := 0 to |jobs|
      invariant forall j: nat :: j < i ==> !NeedsUnlistedId(jobs, j)
    {
      UnlistedAmong(jobs, dependencies[i], i, ids);
      if exists p :: p in dependencies[i] && Strip(jobs[p].jobId) !in ids {
        return true;
      }
    }
    padded := false;
  }

  lemma UnlistedAmong(jobs: seq<ArtifactJob>, required: set<nat>, i: nat, ids: set<string>)
    requires i < |jobs| && required == DependenciesOf(jobs, i)
    requires ids == set k | 0 <= k < |jobs| :: jobs[k].jobId
    ensures NeedsUnlistedId(jobs, i) <==> exists p :: p in required && Strip(jobs[p].jobId) !in ids
  {
    hide Strip, DependsOn;
    forall p | p in required ensures Strip(jobs[p].jobId) !in ids <==> UnlistedId(jobs, p) {
    }
  }

  lemma JobGraphBelow(jobs: seq<ArtifactJob>)
    ensures JobsBelow(JobGraph(jobs), |jobs|)
  {
    hide DependsOn;
  }

  lemma NobodyOnCycle(g: Graph<nat>, n: nat, cyclic: set<nat>)
    requires JobsBelow(g, n) && |cyclic| == 0
    requires forall i: nat :: i in cyclic <==> i < n && ReachesCycle(g, i)
    ensures Acyclic(g)
  {
    assert cyclic == {};
    NoReachingMeansAcyclic(g);
  }

  method ValidateArtifactJobGraph(jobs: seq<ArtifactJob>, moduleIds: seq<string>) returns (verdict: Verdict)
    ensures VerdictIsRight(jobs, AllowedOwners(moduleIds), verdict)
  {
    hide AllowedOwners, JobsFine, LacksProducer, PaddedProducerId, JobGraph, ReachesCycle, Acyclic, ProducersExact;
    var owners := AllowedOwners(moduleIds);
    var rejected, producers := CheckJobs(jobs, owners);
    if rejected.Some? {
      return rejected.value;
    }
    var missing := FindMissing(jobs, producers);
    if missing != {} {
      return MissingProducer(missing);
    }
    var dependencies := Dependencies(jobs, producers);
    var padded := HasPaddedProducerId(jobs, dependencies);
    if padded {
      return UnknownProducerId;
    }
    JobGraphBelow(jobs);
    var emitted, cyclic := EmitAll(dependencies, |jobs|);
    if emitted != |jobs| {
      return CycleFound(cyclic);
    }
    NobodyOnCycle(dependencies, |jobs|, cyclic);
    verdict := Accepted;
  }
}
