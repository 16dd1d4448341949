/** The rules a single artifact job has to keep, stated on its fields, and the order in which the structural
    check complains about them. */
module JobRules {
  import opened Optional
  import opened PyString
  import opened Digraph
  import opened ArtifactJobs

  // ---------------------------------------------------------------- the rules

  /** Complaints in the order of the checks. */
  function Order(e: JobError): nat {
    match e
    case IdRequired => 0
    case OwnerRequired => 1
    case ContextRequired => 2
    case CanonicalLeafRequired => 3
    case ImplementationRequired => 4
    case TemplateRequired => 5
    case TargetRequired => 6
    case GeneratorTemplateForbidden => 7
    case GeneratorImplementationInvalid => 8
    case ForeignOwner => 9
    case DuplicateJobId => 10
    case PortEmpty => 11
    case RequireDuplicate => 12
    case ProduceDuplicate => 13
    case SelfDependency => 14
    case RequiredPortFields => 15
    case RequiredPortEmpty => 16
    case RequiredPortKind => 17
    case RequiredPortNotRequired => 18
    case RequiredPortDuplicate => 19
    case DuplicateProducer => 20
  }

  /** Two names are the same up to white space around them. */
  ghost predicate Same(a: string, b: string) {
    Strip(a) == Strip(b)
  }

  /** Modules are named, and the owner is none of them. */
  ghost predicate OwnerIsForeign(owner: string, moduleIds: seq<string>) {
    && (exists k :: 0 <= k < |moduleIds| && !Blank(moduleIds[k]))
    && forall k :: 0 <= k < |moduleIds| && !Blank(moduleIds[k]) ==> !Same(moduleIds[k], owner)
  }

  ghost predicate FieldBreaks(job: ArtifactJob, moduleIds: seq<string>, e: JobError) {
    match e
    case IdRequired => Blank(job.jobId)
    case OwnerRequired => Blank(job.ownerModule)
    case ContextRequired => Blank(job.contextId)
    case CanonicalLeafRequired => Blank(job.canonicalLeaf)
    case ImplementationRequired => Blank(job.implementationId)
    case TemplateRequired => job.executorType.Template? && Blank(job.templateId)
    case TargetRequired => job.executorType.Template? && (Blank(job.targetPath) || Blank(job.operation))
    case GeneratorTemplateForbidden => job.executorType.PythonGenerator? && !Blank(job.templateId)
    case GeneratorImplementationInvalid =>
      job.executorType.PythonGenerator? && !("python_generator:" <= job.implementationId)
    case ForeignOwner => OwnerIsForeign(job.ownerModule, moduleIds)
    case _ => false
  }

  ghost predicate SomeBlank(names: seq<string>) {
    exists k :: 0 <= k < |names| && Blank(names[k])
  }

  ghost predicate SomeTwice(names: seq<string>) {
    exists i, j :: 0 <= i < j < |names| && Same(names[i], names[j])
  }

  ghost predicate SomeShared(a: seq<string>, b: seq<string>) {
    exists i, j :: 0 <= i < |a| && 0 <= j < |b| && Same(a[i], b[j])
  }

  ghost predicate NameBreaks(job: ArtifactJob, e: JobError) {
    match e
    case PortEmpty => SomeBlank(job.needs) || SomeBlank(job.produces)
    case RequireDuplicate => SomeTwice(job.needs)
    case ProduceDuplicate => SomeTwice(job.produces)
    case SelfDependency => SomeShared(job.needs, job.produces)
    case _ => false
  }

  ghost predicate FieldMissing(port: map<string, string>, field: string) {
    field !in port || Blank(port[field])
  }

  ghost predicate IsPortKind(kind: string) {
    kind in {"REGISTRY_ID", "JAVA_SYMBOL", "TEXTURE_REF", "MODEL_REF", "CLIENT_ITEM_REF", "SCREEN_HANDLER_TYPE",
             "PAYLOAD_TYPE", "TRANSLATION_KEY", "GENERIC"}
  }

  ghost predicate SameNamed(port: map<string, string>, other: map<string, string>) {
    "name" in port && "name" in other && Same(port["name"], other["name"])
  }

  /** What is wrong with the `k`-th descriptor of a required port. */
  ghost predicate PortBreaks(job: ArtifactJob, k: nat, e: JobError)
    requires k < |job.requiredPorts|
  {
    var port := job.requiredPorts[k];
    match e
    case RequiredPortFields => port.Keys != {"name", "kind", "target_type"}
    case RequiredPortEmpty =>
      FieldMissing(port, "name") || FieldMissing(port, "kind") || FieldMissing(port, "target_type")
    case RequiredPortKind => "kind" in port && !IsPortKind(Strip(port["kind"]))
    case RequiredPortNotRequired =>
      "name" in port && forall n :: 0 <= n < |job.needs| ==> !Same(job.needs[n], port["name"])
    case RequiredPortDuplicate => exists m: nat :: m < k && SameNamed(job.requiredPorts[m], port)
    case _ => false
  }

  ghost predicate PortFine(job: ArtifactJob, k: nat)
    requires k < |job.requiredPorts|
  {
    forall e :: !PortBreaks(job, k, e)
  }

  /** The `k`-th descriptor is the first at fault, and this is its first fault. */
  ghost predicate PortAtFault(job: ArtifactJob, k: nat, e: JobError) {
    && k < |job.requiredPorts| && PortBreaks(job, k, e)
    && (forall f :: Order(f) < Order(e) ==> !PortBreaks(job, k, f))
    && forall m: nat :: m < k ==> PortFine(job, m)
  }

  /** Of the descriptors of required ports, the first at fault has this fault. */
  ghost predicate DescriptorBreaks(job: ArtifactJob, e: JobError) {
    exists k: nat :: PortAtFault(job, k, e)
  }

  /** Job `i` breaks this rule. */
  ghost predicate Breaks(jobs: seq<ArtifactJob>, moduleIds: seq<string>, i: nat, e: JobError)
    requires i < |jobs|
  {
    var job := jobs[i];
    match e
    case DuplicateJobId => exists k: nat :: k < i && Same(jobs[k].jobId, job.jobId)
    case DuplicateProducer => exists k: nat :: k < i && SomeShared(jobs[k].produces, job.produces)
    case _ =>
      if Order(e) < 10 then FieldBreaks(job, moduleIds, e)
      else if Order(e) < 15 then NameBreaks(job, e)
      else DescriptorBreaks(job, e)
  }

  /** The first rule job `i` breaks. */
  ghost predicate BreaksFirst(jobs: seq<ArtifactJob>, moduleIds: seq<string>, i: nat, e: JobError)
    requires i < |jobs|
  {
    Breaks(jobs, moduleIds, i, e) && forall f :: Order(f) < Order(e) ==> !Breaks(jobs, moduleIds, i, f)
  }

  // ---------------------------------------------------------------- fields and names

  lemma ForeignExactly(job: ArtifactJob, moduleIds: seq<string>)
    ensures OwnerIsForeign(job.ownerModule, moduleIds)
            <==> AllowedOwners(moduleIds) != {} && Strip(job.ownerModule) !in AllowedOwners(moduleIds)
  {
    hide Strip, Blank;
    var owners := AllowedOwners(moduleIds);
    forall k | 0 <= k < |moduleIds| ensures !Blank(moduleIds[k]) <==> Strip(moduleIds[k]) != "" {
      StripEmptyExactly(moduleIds[k]);
    }
    if owners != {} {
      var o :| o in owners;
      var k :| 0 <= k < |moduleIds| && Strip(moduleIds[k]) == o && o != "";
      assert !Blank(moduleIds[k]);
    }
    if k :| 0 <= k < |moduleIds| && !Blank(moduleIds[k]) {
      assert Strip(moduleIds[k]) in owners;
    }
  }

  lemma FieldsChecked(job: ArtifactJob, moduleIds: seq<string>)
    ensures match FieldError(job, AllowedOwners(moduleIds))
            case None => forall f :: !FieldBreaks(job, moduleIds, f)
            case Some(e) =>
              && Order(e) < 10 && FieldBreaks(job, moduleIds, e)
              && forall f :: Order(f) < Order(e) ==> !FieldBreaks(job, moduleIds, f)
  {
    hide Strip, Blank, OwnerIsForeign, AllowedOwners;
    ForeignExactly(job, moduleIds);
    StripEmptyExactly(job.jobId);
    StripEmptyExactly(job.ownerModule);
    StripEmptyExactly(job.contextId);
    StripEmptyExactly(job.canonicalLeaf);
    StripEmptyExactly(job.implementationId);
    StripEmptyExactly(job.templateId);
    StripEmptyExactly(job.targetPath);
    StripEmptyExactly(job.operation);
  }

  lemma MemberStripped(names: seq<string>, name: string)
    ensures name in Stripped(names) <==> exists k :: 0 <= k < |names| && Strip(names[k]) == name
  {
    hide Strip;
    if k :| 0 <= k < |names| && Strip(names[k]) == name {
      assert Stripped(names)[k] == name;
    }
  }

  lemma BlankStripped(names: seq<string>)
    ensures "" in Stripped(names) <==> SomeBlank(names)
  {
    hide Strip, Blank, Stripped;
    MemberStripped(names, "");
    forall k | 0 <= k < |names| ensures Blank(names[k]) <==> Strip(names[k]) == "" {
      StripEmptyExactly(names[k]);
    }
  }

  lemma TwiceStripped(names: seq<string>)
    ensures HasDuplicate(Stripped(names)) <==> SomeTwice(names)
  {
    hide Strip;
    if i, j :| 0 <= i < j < |names| && Same(names[i], names[j]) {
      assert Stripped(names)[i] == Stripped(names)[j];
    }
    if HasDuplicate(Stripped(names)) {
      var i, j :| 0 <= i < j < |names| && Stripped(names)[i] == Stripped(names)[j];
      assert Same(names[i], names[j]);
    }
  }

  lemma SharedStripped(a: seq<string>, b: seq<string>)
    ensures (exists i :: 0 <= i < |a| && Stripped(a)[i] in Stripped(b)) <==> SomeShared(a, b)
  {
    hide Strip;
    forall i | 0 <= i < |a|
      ensures Stripped(a)[i] in Stripped(b) <==> exists j :: 0 <= j < |b| && Same(a[i], b[j])
    {
      MemberStripped(b, Strip(a[i]));
      if j :| 0 <= j < |b| && Strip(b[j]) == Strip(a[i]) {
        assert Same(a[i], b[j]);
      }
    }
  }

  lemma NamesChecked(job: ArtifactJob)
    ensures match PortNameError(job)
            case None => forall f :: !NameBreaks(job, f)
            case Some(e) =>
              10 < Order(e) < 15 && NameBreaks(job, e) && forall f :: Order(f) < Order(e) ==> !NameBreaks(job, f)
  {
    hide Stripped, HasDuplicate, SomeBlank, SomeTwice, SomeShared;
    BlankStripped(job.needs);
    BlankStripped(job.produces);
    TwiceStripped(job.needs);
    TwiceStripped(job.produces);
    SharedStripped(job.needs, job.produces);
  }

  // ---------------------------------------------------------------- descriptors of required ports

  /** The names of the first `k` descriptors, white space around them ignored. */
  ghost predicate SeenNames(job: ArtifactJob, k: nat, seen: set<string>)
    requires k <= |job.requiredPorts|
  {
    forall name :: name in seen <==>
      exists m: nat :: m < k && "name" in job.requiredPorts[m] && Strip(job.requiredPorts[m]["name"]) == name
  }

  lemma FieldIsMissing(port: map<string, string>, field: string)
    ensures Field(port, field) == "" <==> FieldMissing(port, field)
  {
    if field in port {
      StripEmptyExactly(port[field]);
    }
  }

  lemma NamedInNeeds(needs: seq<string>, name: string)
    ensures Strip(name) in Stripped(needs) <==> exists n :: 0 <= n < |needs| && Same(needs[n], name)
  {
    hide Strip;
    MemberStripped(needs, Strip(name));
    if n :| 0 <= n < |needs| && Strip(needs[n]) == Strip(name) {
      assert Same(needs[n], name);
    }
  }

  lemma SeenTwice(job: ArtifactJob, k: nat, seen: set<string>)
    requires k < |job.requiredPorts| && SeenNames(job, k, seen) && "name" in job.requiredPorts[k]
    ensures Strip(job.requiredPorts[k]["name"]) in seen <==> PortBreaks(job, k, RequiredPortDuplicate)
  {
    hide Strip;
    var ports := job.requiredPorts;
    if Strip(ports[k]["name"]) in seen {
      var m: nat :| m < k && "name" in ports[m] && Strip(ports[m]["name"]) == Strip(ports[k]["name"]);
      assert SameNamed(ports[m], ports[k]);
    }
  }

  lemma SeenGrows(job: ArtifactJob, k: nat, seen: set<string>)
    requires k < |job.requiredPorts| && SeenNames(job, k, seen) && "name" in job.requiredPorts[k]
    ensures SeenNames(job, k + 1, seen + {Strip(job.requiredPorts[k]["name"])})
  {
    hide Strip;
  }

  /** The first complaint about one descriptor. */
  ghost predicate OnePort(job: ArtifactJob, k: nat, e: JobError)
    requires k < |job.requiredPorts|
  {
    PortBreaks(job, k, e) && forall f :: Order(f) < Order(e) ==> !PortBreaks(job, k, f)
  }

  /** What the check of one descriptor finds. */
  function PortFault(port: map<string, string>, needs: seq<string>, seen: set<string>): Option<JobError> {
    RequiredPortError([port], needs, seen)
  }

  lemma PortFaultUnfolds(port: map<string, string>, needs: seq<string>, seen: set<string>)
    ensures var name, kind, targetType := Field(port, "name"), Field(port, "kind"), Field(port, "target_type");
            PortFault(port, needs, seen)
            == if port.Keys != {"name", "kind", "target_type"} then Some(RequiredPortFields)
               else if name == "" || kind == "" || targetType == "" then Some(RequiredPortEmpty)
               else if kind !in PORT_KINDS then Some(RequiredPortKind)
               else if name !in needs then Some(RequiredPortNotRequired)
               else if name in seen then Some(RequiredPortDuplicate)
               else None
  {
    hide Field;
    var ports := [port];
    assert ports[0] == port && ports[1..] == [];
    assert RequiredPortError([], needs, seen + {Field(port, "name")}).None?;
  }

  lemma OnePortChecked(job: ArtifactJob, k: nat, seen: set<string>)
    requires k < |job.requiredPorts| && SeenNames(job, k, seen)
    ensures match PortFault(job.requiredPorts[k], Stripped(job.needs), seen)
            case None => PortFine(job, k)
            case Some(e) => OnePort(job, k, e)
  {
    hide Strip, Stripped, SeenNames, FieldMissing, PortFault;
    var port := job.requiredPorts[k];
    PortFaultUnfolds(port, Stripped(job.needs), seen);
    FieldIsMissing(port, "name");
    FieldIsMissing(port, "kind");
    FieldIsMissing(port, "target_type");
    if "name" in port {
      NamedInNeeds(job.needs, port["name"]);
      SeenTwice(job, k, seen);
    }
  }

  lemma NextDescriptor(ports: seq<map<string, string>>, needs: seq<string>, seen: set<string>, k: nat)
    requires k < |ports|
    ensures var fault := PortFault(ports[k], needs, seen);
            && (fault.Some? ==> RequiredPortError(ports[k..], needs, seen) == fault)
            && (fault.None? ==>
                  && "name" in ports[k]
                  && RequiredPortError(ports[k..], needs, seen)
                     == RequiredPortError(ports[k + 1..], needs, seen + {Strip(ports[k]["name"])}))
  {
    hide Strip, PortFault;
    var rest := ports[k..];
    assert rest[0] == ports[k] && rest[1..] == ports[k + 1..];
    PortFaultUnfolds(ports[k], needs, seen);
  }

  lemma {:induction false} DescriptorsChecked(job: ArtifactJob, k: nat, seen: set<string>)
    requires k <= |job.requiredPorts| && SeenNames(job, k, seen) && forall m: nat :: m < k ==> PortFine(job, m)
    ensures match RequiredPortError(job.requiredPorts[k..], Stripped(job.needs), seen)
            case None => forall m: nat :: m < |job.requiredPorts| ==> PortFine(job, m)
            case Some(e) => exists m: nat :: PortAtFault(job, m, e)
    decreases |job.requiredPorts| - k
  {
    hide Strip, Stripped, SeenNames, PortBreaks, PortFault, PortFine;
    if k < |job.requiredPorts| {
      OnePortChecked(job, k, seen);
      NextDescriptor(job.requiredPorts, Stripped(job.needs), seen, k);
      var fault := PortFault(job.requiredPorts[k], Stripped(job.needs), seen);
      if fault.None? {
        SeenGrows(job, k, seen);
        DescriptorsChecked(job, k + 1, seen + {Strip(job.requiredPorts[k]["name"])});
      } else {
        assert PortAtFault(job, k, fault.value);
      }
    }
  }

  lemma PortsChecked(job: ArtifactJob)
    ensures match RequiredPortError(job.requiredPorts, Stripped(job.needs), {})
            case None => forall m: nat :: m < |job.requiredPorts| ==> PortFine(job, m)
            case Some(e) => exists m: nat :: PortAtFault(job, m, e)
  {
    hide PortBreaks, Strip, Stripped, RequiredPortError;
    assert job.requiredPorts[0..] == job.requiredPorts;
    DescriptorsChecked(job, 0, {});
  }

  lemma NobodyAtFault(job: ArtifactJob)
    requires forall m: nat :: m < |job.requiredPorts| ==> PortFine(job, m)
    ensures forall k: nat, e :: !PortAtFault(job, k, e)
  {
    hide PortBreaks;
    forall k: nat, e ensures !PortAtFault(job, k, e) {
      if k < |job.requiredPorts| {
        assert PortFine(job, k);
      }
    }
  }

  /** At most one descriptor is the first at fault, with one first fault. */
  lemma OneFaultOnly(job: ArtifactJob, k: nat, e: JobError, m: nat, f: JobError)
    requires PortAtFault(job, k, e) && PortAtFault(job, m, f)
    ensures e == f
  {
    hide PortBreaks, Order;
    assert k < m ==> PortFine(job, k);
    assert m < k ==> PortFine(job, m);
    OrderIsStrict(e, f);
  }

  lemma OrderIsStrict(e: JobError, f: JobError)
    ensures Order(e) == Order(f) <==> e == f
  {
  }

  // ---------------------------------------------------------------- the first fault

  ghost predicate DescriptorRule(e: JobError) {
    15 <= Order(e) < 20
  }

  lemma AtFaultIsDescriptor(job: ArtifactJob, k: nat, e: JobError)
    requires PortAtFault(job, k, e)
    ensures DescriptorRule(e)
  {
  }

  lemma SameIdExactly(jobs: seq<ArtifactJob>, i: nat)
    requires i < |jobs|
    ensures SameIdBefore(jobs, i) <==> exists k: nat :: k < i && Same(jobs[k].jobId, jobs[i].jobId)
  {
    hide Strip;
    if k: nat :| k < i && Same(jobs[k].jobId, jobs[i].jobId) {
      assert Strip(jobs[k].jobId) == Strip(jobs[i].jobId);
    }
    if SameIdBefore(jobs, i) {
      var k :| 0 <= k < i && Strip(jobs[k].jobId) == Strip(jobs[i].jobId);
      assert Same(jobs[k].jobId, jobs[i].jobId);
    }
  }

  lemma BothMake(a: ArtifactJob, b: ArtifactJob)
    ensures (exists name :: Makes(a, name) && Makes(b, name)) <==> SomeShared(a.produces, b.produces)
  {
    hide Strip, Stripped;
    if name :| Makes(a, name) && Makes(b, name) {
      MemberStripped(a.produces, name);
      MemberStripped(b.produces, name);
      var i :| 0 <= i < |a.produces| && Strip(a.produces[i]) == name;
      var j :| 0 <= j < |b.produces| && Strip(b.produces[j]) == name;
      assert Same(a.produces[i], b.produces[j]);
    }
    if SomeShared(a.produces, b.produces) {
      var i, j :| 0 <= i < |a.produces| && 0 <= j < |b.produces| && Same(a.produces[i], b.produces[j]);
      MemberStripped(a.produces, Strip(a.produces[i]));
      MemberStripped(b.produces, Strip(a.produces[i]));
      assert Makes(a, Strip(a.produces[i])) && Makes(b, Strip(a.produces[i]));
    }
  }

  lemma SameProductExactly(jobs: seq<ArtifactJob>, i: nat)
    requires i < |jobs|
    ensures SameProductBefore(jobs, i) <==> exists k: nat :: k < i && SomeShared(jobs[k].produces, jobs[i].produces)
  {
    hide Makes, SomeShared;
    forall k: nat | k < i
      ensures SomeShared(jobs[k].produces, jobs[i].produces) <==> exists name :: Makes(jobs[k], name) && Makes(jobs[i], name)
    {
      BothMake(jobs[k], jobs[i]);
    }
  }

  lemma DescriptorsDecide(job: ArtifactJob)
    ensures match RequiredPortError(job.requiredPorts, Stripped(job.needs), {})
            case None => forall f :: !DescriptorBreaks(job, f)
            case Some(e) =>
              && DescriptorRule(e) && DescriptorBreaks(job, e)
              && forall f :: DescriptorBreaks(job, f) ==> f == e
  {
    hide RequiredPortError, PortAtFault, PortFine, Stripped;
    PortsChecked(job);
    var ports := RequiredPortError(job.requiredPorts, Stripped(job.needs), {});
    if ports.None? {
      NobodyAtFault(job);
    } else {
      var m: nat :| PortAtFault(job, m, ports.value);
      AtFaultIsDescriptor(job, m, ports.value);
      forall f | DescriptorBreaks(job, f) ensures f == ports.value {
        var k: nat :| PortAtFault(job, k, f);
        OneFaultOnly(job, k, f, m, ports.value);
      }
    }
  }

  lemma FaultIsFirst(jobs: seq<ArtifactJob>, moduleIds: seq<string>, i: nat)
    requires i < |jobs|
    ensures match JobFault(jobs, AllowedOwners(moduleIds), i)
            case None => forall f :: !Breaks(jobs, moduleIds, i, f)
            case Some(e) => BreaksFirst(jobs, moduleIds, i, e)
  {
    hide FieldError, PortNameError, RequiredPortError, AllowedOwners, DescriptorBreaks, SameIdBefore, SameProductBefore,
         SomeShared, Same, Strip, Stripped, Blank, FieldBreaks, NameBreaks;
    FieldsChecked(jobs[i], moduleIds);
    NamesChecked(jobs[i]);
    DescriptorsDecide(jobs[i]);
    SameIdExactly(jobs, i);
    SameProductExactly(jobs, i);
  }

  /** The fault the check finds in job `i` is the first rule that job breaks, and it finds none exactly when
      the job breaks no rule. */
  lemma FaultExactly(jobs: seq<ArtifactJob>, moduleIds: seq<string>, i: nat, e: JobError)
    requires i < |jobs|
    ensures JobFault(jobs, AllowedOwners(moduleIds), i) == Some(e) <==> BreaksFirst(jobs, moduleIds, i, e)
    ensures JobFault(jobs, AllowedOwners(moduleIds), i).None? <==> forall f :: !Breaks(jobs, moduleIds, i, f)
  {
    hide JobFault, AllowedOwners, Breaks, Order;
    FaultIsFirst(jobs, moduleIds, i);
    var fault := JobFault(jobs, AllowedOwners(moduleIds), i);
    if fault.Some? {
      OrderIsStrict(e, fault.value);
    }
  }

  // ---------------------------------------------------------------- what the verdict tells

  ghost predicate Distinct(names: seq<string>) {
    forall i, j :: 0 <= i < j < |names| ==> !Same(names[i], names[j])
  }

  ghost predicate AllNamed(names: seq<string>) {
    forall k :: 0 <= k < |names| ==> !Blank(names[k])
  }

  /** The executor's own fields, by what kind of job it is. */
  ghost predicate ExecutorSound(job: ArtifactJob) {
    match job.executorType
    case Template => !Blank(job.templateId) && !Blank(job.targetPath) && !Blank(job.operation)
    case PythonGenerator => Blank(job.templateId) && "python_generator:" <= job.implementationId
    case _ => true
  }

  ghost predicate DescriptorSound(job: ArtifactJob, port: map<string, string>) {
    && port.Keys == {"name", "kind", "target_type"}
    && !Blank(port["name"]) && !Blank(port["kind"]) && !Blank(port["target_type"])
    && IsPortKind(Strip(port["kind"]))
    && exists n :: 0 <= n < |job.needs| && Same(job.needs[n], port["name"])
  }

  /** Everything demanded of one job by itself. */
  ghost predicate JobSound(job: ArtifactJob, moduleIds: seq<string>) {
    && !Blank(job.jobId) && !Blank(job.ownerModule) && !Blank(job.contextId) && !Blank(job.canonicalLeaf)
    && !Blank(job.implementationId) && ExecutorSound(job)
    && (SomeNamed(moduleIds) ==> NamedIn(job.ownerModule, moduleIds))
    && AllNamed(job.needs) && AllNamed(job.produces) && Distinct(job.needs) && Distinct(job.produces)
    && (forall i, j :: 0 <= i < |job.needs| && 0 <= j < |job.produces| ==> !Same(job.needs[i], job.produces[j]))
    && (forall k :: 0 <= k < |job.requiredPorts| ==> DescriptorSound(job, job.requiredPorts[k]))
    && (forall i, j :: 0 <= i < j < |job.requiredPorts| ==> !SameNamed(job.requiredPorts[i], job.requiredPorts[j]))
  }

  ghost predicate SomeNamed(names: seq<string>) {
    exists k :: 0 <= k < |names| && !Blank(names[k])
  }

  ghost predicate NamedIn(name: string, names: seq<string>) {
    exists k :: 0 <= k < |names| && !Blank(names[k]) && Same(names[k], name)
  }

  lemma FieldsSound(job: ArtifactJob, moduleIds: seq<string>)
    requires forall e :: !FieldBreaks(job, moduleIds, e)
    ensures !Blank(job.jobId) && !Blank(job.ownerModule) && !Blank(job.contextId) && !Blank(job.canonicalLeaf)
    ensures !Blank(job.implementationId) && ExecutorSound(job)
    ensures SomeNamed(moduleIds) ==> NamedIn(job.ownerModule, moduleIds)
  {
    hide Blank, Same;
    forall e ensures !FieldBreaks(job, moduleIds, e) {
    }
    assert !FieldBreaks(job, moduleIds, IdRequired) && !FieldBreaks(job, moduleIds, OwnerRequired);
    assert !FieldBreaks(job, moduleIds, ContextRequired) && !FieldBreaks(job, moduleIds, CanonicalLeafRequired);
    assert !FieldBreaks(job, moduleIds, ImplementationRequired) && !FieldBreaks(job, moduleIds, TemplateRequired);
    assert !FieldBreaks(job, moduleIds, TargetRequired) && !FieldBreaks(job, moduleIds, GeneratorTemplateForbidden);
    assert !FieldBreaks(job, moduleIds, GeneratorImplementationInvalid) && !FieldBreaks(job, moduleIds, ForeignOwner);
  }

  lemma NamesSound(job: ArtifactJob)
    requires forall e :: !NameBreaks(job, e)
    ensures AllNamed(job.needs) && AllNamed(job.produces) && Distinct(job.needs) && Distinct(job.produces)
    ensures forall i, j :: 0 <= i < |job.needs| && 0 <= j < |job.produces| ==> !Same(job.needs[i], job.produces[j])
  {
    hide Blank, Same;
    assert !NameBreaks(job, PortEmpty) && !NameBreaks(job, RequireDuplicate);
    assert !NameBreaks(job, ProduceDuplicate) && !NameBreaks(job, SelfDependency);
  }

  lemma DescriptorFine(job: ArtifactJob, k: nat)
    requires k < |job.requiredPorts| && PortFine(job, k)
    ensures DescriptorSound(job, job.requiredPorts[k])
    ensures forall m :: 0 <= m < k ==> !SameNamed(job.requiredPorts[m], job.requiredPorts[k])
  {
    hide Blank, Same;
    assert !PortBreaks(job, k, RequiredPortFields) && !PortBreaks(job, k, RequiredPortEmpty);
    assert !PortBreaks(job, k, RequiredPortKind) && !PortBreaks(job, k, RequiredPortNotRequired);
    assert !PortBreaks(job, k, RequiredPortDuplicate);
  }

  /** A job no rule is broken by is sound by itself. */
  lemma UnbrokenIsSound(jobs: seq<ArtifactJob>, moduleIds: seq<string>, i: nat)
    requires i < |jobs| && JobFault(jobs, AllowedOwners(moduleIds), i).None?
    ensures JobSound(jobs[i], moduleIds)
  {
    hide Blank, Same, FieldBreaks, NameBreaks, PortBreaks, DescriptorSound, AllowedOwners, RequiredPortError, Stripped,
         ExecutorSound, FieldError, PortNameError, SomeNamed, NamedIn, Distinct, AllNamed;
    FieldsChecked(jobs[i], moduleIds);
    NamesChecked(jobs[i]);
    PortsChecked(jobs[i]);
    FieldsSound(jobs[i], moduleIds);
    NamesSound(jobs[i]);
    forall k: nat | k < |jobs[i].requiredPorts|
      ensures DescriptorSound(jobs[i], jobs[i].requiredPorts[k])
      ensures forall m :: 0 <= m < k ==> !SameNamed(jobs[i].requiredPorts[m], jobs[i].requiredPorts[k])
    {
      DescriptorFine(jobs[i], k);
    }
  }

  /** Every job of an accepted graph is sound by itself, and no two share an id or a product. */
  lemma AcceptedJobsAreSound(jobs: seq<ArtifactJob>, moduleIds: seq<string>, i: nat)
    requires VerdictIsRight(jobs, AllowedOwners(moduleIds), Accepted) && i < |jobs|
    ensures JobSound(jobs[i], moduleIds)
    ensures forall k: nat :: k < i ==>
              !Same(jobs[k].jobId, jobs[i].jobId) && !SomeShared(jobs[k].produces, jobs[i].produces)
  {
    hide JobSound, AllowedOwners, RequiredPortError, Stripped, FieldError, PortNameError, SomeShared, Same,
         LacksProducer, PaddedProducerId, Acyclic;
    assert JobFault(jobs, AllowedOwners(moduleIds), i) == None;
    UnbrokenIsSound(jobs, moduleIds, i);
    SameIdExactly(jobs, i);
    SameProductExactly(jobs, i);
  }

  /** A rejection names the first job that breaks a rule, and the first rule it breaks. */
  lemma RejectionNamesFirstFault(jobs: seq<ArtifactJob>, moduleIds: seq<string>, verdict: Verdict, i: nat, e: JobError)
    requires VerdictIsRight(jobs, AllowedOwners(moduleIds), verdict)
    ensures verdict == JobRejected(i, e)
            <==> && i < |jobs| && BreaksFirst(jobs, moduleIds, i, e)
                 && forall k: nat, f :: k < i ==> !Breaks(jobs, moduleIds, k, f)
  {
    hide JobFault, AllowedOwners, Breaks, BreaksFirst, LacksProducer, PaddedProducerId, Acyclic, ReachesCycle;
    forall k: nat, f | k < |jobs|
      ensures JobFault(jobs, AllowedOwners(moduleIds), k) == Some(f) <==> BreaksFirst(jobs, moduleIds, k, f)
      ensures JobFault(jobs, AllowedOwners(moduleIds), k).None? ==> !Breaks(jobs, moduleIds, k, f)
      ensures Breaks(jobs, moduleIds, k, f) ==> JobFault(jobs, AllowedOwners(moduleIds), k).Some?
    {
      FaultExactly(jobs, moduleIds, k, f);
    }
    forall k: nat | k < |jobs| && forall f :: !Breaks(jobs, moduleIds, k, f)
      ensures JobFault(jobs, AllowedOwners(moduleIds), k).None?
    {
      FaultExactly(jobs, moduleIds, k, IdRequired);
    }
    if i < |jobs| && BreaksFirst(jobs, moduleIds, i, e) {
      FirstIsBroken(jobs, moduleIds, i, e);
    }
  }

  lemma FirstIsBroken(jobs: seq<ArtifactJob>, moduleIds: seq<string>, i: nat, e: JobError)
    requires i < |jobs| && BreaksFirst(jobs, moduleIds, i, e)
    ensures Breaks(jobs, moduleIds, i, e)
  {
  }
}
