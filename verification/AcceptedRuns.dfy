/** How the structural check and the executor fit together. */
module AcceptedRuns {
  import opened Optional
  import opened PyString
  import opened Digraph
  import opened ArtifactPorts
  import opened ArtifactJobs
  import opened GraphExecutor

  /** When all work succeeds, two or more jobs pass exactly when their graph is acyclic and
      otherwise deadlock, whatever the completion order and the number of workers. */
  lemma SuccessfulWorkDecides(
    jobs: seq<ArtifactJob>, work: seq<Work>, initial: PortTable, context: string, ports: PortTable, outcome: Outcome)
    requires |work| == |jobs| >= 2 && OutcomeIsRight(jobs, work, initial, context, ports, outcome)
    requires StartsUp(jobs, initial) && AllSucceed(jobs, work, initial, context)
    ensures outcome.Pass? <==> Acyclic(RunGraph(jobs))
    ensures outcome.Deadlock? <==> !Acyclic(RunGraph(jobs))
  {
    if outcome.Deadlock? {
      var i :| i in outcome.blocked;
      assert ReachesCycle(RunGraph(jobs), i);
    }
  }

  /** A lone job whose work succeeds passes exactly when it does not need its own product. */
  lemma LoneJobDecides(
    jobs: seq<ArtifactJob>, work: seq<Work>, initial: PortTable, context: string, ports: PortTable, outcome: Outcome)
    requires |work| == |jobs| == 1 && OutcomeIsRight(jobs, work, initial, context, ports, outcome)
    requires StartsUp(jobs, initial)
    ensures NeedsItself(jobs[0], initial) <==> outcome == WorkFailed(0, RequiredPortMissing)
    ensures AllSucceed(jobs, work, initial, context) ==> (outcome.Pass? <==> !NeedsItself(jobs[0], initial))
  {
  }

  // ---------------------------------------------------------------- accepted graphs

  /** A needed port that its producer lists only with surrounding white space and that
      was not supplied from outside. */
  ghost predicate PaddedSupply(jobs: seq<ArtifactJob>, initial: PortTable, i: nat, p: nat, name: string) {
    && i < |jobs| && p < |jobs| && name in jobs[i].needs && name !in initial
    && Makes(jobs[p], name) && name !in jobs[p].produces
  }

  lemma ListedIsMade(job: ArtifactJob, name: string)
    requires name in job.produces
    ensures Makes(job, Strip(name))
  {
    var k :| 0 <= k < |job.produces| && job.produces[k] == name;
    assert Stripped(job.produces)[k] == Strip(name);
  }

  lemma MadeIsStripped(job: ArtifactJob, name: string)
    requires Makes(job, name)
    ensures Strip(name) == name
  {
    var k :| 0 <= k < |job.produces| && Stripped(job.produces)[k] == name;
    StripIdempotent(job.produces[k]);
  }

  /** In an accepted graph needed names carry no white space, so listing one is making it. */
  lemma NeededAndListedIsMade(jobs: seq<ArtifactJob>, owners: set<string>, i: nat, p: nat, name: string)
    requires StructurallySound(jobs, owners)
    requires i < |jobs| && p < |jobs| && name in jobs[i].needs && name in jobs[p].produces
    ensures Makes(jobs[p], name)
  {
    assert !LacksProducer(jobs, i);
    assert !NobodyMakes(jobs, name);
    var q :| 0 <= q < |jobs| && Makes(jobs[q], name);
    MadeIsStripped(jobs[q], name);
    ListedIsMade(jobs[p], name);
  }

  lemma OneMaker(jobs: seq<ArtifactJob>, owners: set<string>, p: nat, q: nat, name: string)
    requires JobsFine(jobs, owners, |jobs|) && p < q < |jobs|
    ensures !(Makes(jobs[p], name) && Makes(jobs[q], name))
  {
    assert JobFault(jobs, owners, q) == None;
  }

  lemma AcceptedIdsDiffer(jobs: seq<ArtifactJob>, owners: set<string>)
    requires JobsFine(jobs, owners, |jobs|)
    ensures DistinctIds(jobs)
  {
    forall i, j | 0 <= i < j < |jobs| ensures jobs[i].jobId != jobs[j].jobId {
      assert JobFault(jobs, owners, j) == None;
    }
  }

  lemma AcceptedProductsDiffer(jobs: seq<ArtifactJob>, owners: set<string>)
    requires JobsFine(jobs, owners, |jobs|)
    ensures DistinctProducts(jobs, |jobs|)
  {
    forall i, j, name | 0 <= i < j < |jobs| && name in jobs[i].produces ensures name !in jobs[j].produces {
      ListedIsMade(jobs[i], name);
      if name in jobs[j].produces {
        ListedIsMade(jobs[j], name);
      }
      OneMaker(jobs, owners, i, j, Strip(name));
    }
  }

  lemma CycleInLarger<T(!new)>(g: Graph<T>, h: Graph<T>, x: T)
    requires forall v, w :: Edge(g, v, w) ==> Edge(h, v, w)
    requires OnCycle(g, x)
    ensures OnCycle(h, x)
  {
    var z :| Edge(g, x, z) && Reach(g, z, x);
    ReachInLarger(g, h, z, x);
  }

  lemma SubgraphAcyclic<T(!new)>(g: Graph<T>, h: Graph<T>)
    requires forall v, w :: Edge(g, v, w) ==> Edge(h, v, w)
    requires Acyclic(h)
    ensures Acyclic(g)
  {
    forall x ensures !OnCycle(g, x) {
      if OnCycle(g, x) {
        CycleInLarger(g, h, x);
      }
    }
  }

  /** The graph that is run has no edge the checked graph lacks. */
  lemma RunGraphInJobGraph(jobs: seq<ArtifactJob>, owners: set<string>, i: nat, p: nat)
    requires StructurallySound(jobs, owners) && Edge(RunGraph(jobs), i, p)
    ensures Edge(JobGraph(jobs), i, p)
  {
    assert RunDependsOn(jobs, i, p);
    var name :| name in jobs[i].needs && name in jobs[p].produces;
    NeededAndListedIsMade(jobs, owners, i, p, name);
    assert DependsOn(jobs, i, p);
  }

  lemma MissingMeansPadded(jobs: seq<ArtifactJob>, owners: set<string>, initial: PortTable, i: nat)
    returns (p: nat, name: string)
    requires StructurallySound(jobs, owners) && LacksInput(jobs, initial, i)
    ensures PaddedSupply(jobs, initial, i, p, name)
  {
    name :| name in jobs[i].needs && !Produced(jobs, name) && name !in initial;
    assert !LacksProducer(jobs, i);
    assert !NobodyMakes(jobs, name);
    p :| p < |jobs| && Makes(jobs[p], name);
  }

  lemma PaddedMeansMissing(
    jobs: seq<ArtifactJob>, owners: set<string>, initial: PortTable, i: nat, p: nat, name: string)
    requires StructurallySound(jobs, owners) && PaddedSupply(jobs, initial, i, p, name)
    ensures LacksInput(jobs, initial, i)
  {
    forall q | 0 <= q < |jobs| ensures name !in jobs[q].produces {
      if name in jobs[q].produces {
        NeededAndListedIsMade(jobs, owners, i, q, name);
        if q < p {
          OneMaker(jobs, owners, q, p, name);
        } else if p < q {
          OneMaker(jobs, owners, p, q, name);
        }
      }
    }
    assert !Produced(jobs, name);
  }

  lemma OwnProductIsFault(job: ArtifactJob, name: string)
    requires name in job.needs && name in job.produces
    ensures PortNameError(job).Some?
  {
    hide Strip;
    ListedIsMade(job, name);
    var k :| 0 <= k < |job.needs| && job.needs[k] == name;
    assert Stripped(job.needs)[k] in Stripped(job.produces);
  }

  /** An accepted job never needs its own product. */
  lemma AcceptedNeverNeedsItself(jobs: seq<ArtifactJob>, owners: set<string>, initial: PortTable, i: nat)
    requires JobsFine(jobs, owners, |jobs|) && i < |jobs|
    ensures !NeedsItself(jobs[i], initial)
  {
    assert JobFault(jobs, owners, i) == None;
    hide Strip, PortNameError;
    if name :| name in jobs[i].needs && name in jobs[i].produces {
      OwnProductIsFault(jobs[i], name);
    }
  }

  /** An accepted graph never fails to start for duplicates and never deadlocks. It fails to start for a
      missing producer exactly when some needed name is listed only with surrounding white space. */
  lemma AcceptedGraphRuns(
    jobs: seq<ArtifactJob>, owners: set<string>, work: seq<Work>, initial: PortTable, context: string,
    ports: PortTable, outcome: Outcome)
    requires VerdictIsRight(jobs, owners, Accepted)
    requires |work| == |jobs| && OutcomeIsRight(jobs, work, initial, context, ports, outcome)
    ensures outcome.Pass? || outcome.WorkFailed? || outcome.MissingProducers?
    ensures outcome.MissingProducers? <==> exists i: nat, p: nat, name :: PaddedSupply(jobs, initial, i, p, name)
    ensures outcome.WorkFailed? ==> outcome.failure != RequiredPortMissing
  {
    forall i: nat | i < |jobs| ensures !NeedsItself(jobs[i], initial) {
      AcceptedNeverNeedsItself(jobs, owners, initial, i);
    }
    AcceptedIdsDiffer(jobs, owners);
    AcceptedProductsDiffer(jobs, owners);
    forall i: nat, p: nat | Edge(RunGraph(jobs), i, p) ensures Edge(JobGraph(jobs), i, p) {
      RunGraphInJobGraph(jobs, owners, i, p);
    }
    SubgraphAcyclic(RunGraph(jobs), JobGraph(jobs));
    if outcome.MissingProducers? {
      var i :| i in outcome.missing;
      var p, name := MissingMeansPadded(jobs, owners, initial, i);
    } else if i: nat, p: nat, name :| PaddedSupply(jobs, initial, i, p, name) {
      PaddedMeansMissing(jobs, owners, initial, i, p, name);
    }
  }

  // ---------------------------------------------------------------- names with surrounding white space

  function Plain(id: string, needs: seq<string>, produces: seq<string>): ArtifactJob {
    ArtifactJob(id, "m", "x", "l", "i", Deterministic, "", "", "", needs, produces, [])
  }

  lemma ShortNames()
    ensures Strip("a") == "a" && Strip(" a") == "a" && Strip("p") == "p" && Strip(" p") == "p"
    ensures Strip("c") == "c" && Strip("m") == "m" && Strip("x") == "x" && Strip("l") == "l" && Strip("i") == "i"
  {
    assert " a"[1..] == "a" && " p"[1..] == "p";
  }

  lemma PlainFields(id: string, needs: seq<string>, produces: seq<string>)
    requires Strip(id) != ""
    ensures FieldError(Plain(id, needs, produces), {}) == None
  {
    ShortNames();
    hide Strip;
  }

  /** A consumer of port "a" and a producer of it, under the names given. */
  function ConsumerAndProducer(producerId: string, port: string): seq<ArtifactJob> {
    [Plain("c", ["a"], []), Plain(producerId, [], [port])]
  }

  lemma PairPorts(producerId: string, port: string)
    requires Strip(port) == "a"
    ensures var jobs := ConsumerAndProducer(producerId, port);
            && PortNameError(jobs[0]) == None && PortNameError(jobs[1]) == None
            && (forall name :: !Makes(jobs[0], name))
            && (forall name :: Makes(jobs[1], name) <==> name == "a")
  {
    ShortNames();
    var jobs := ConsumerAndProducer(producerId, port);
    hide Strip;
    assert Stripped(jobs[0].needs) == ["a"] && Stripped(jobs[0].produces) == [];
    assert Stripped(jobs[1].needs) == [] && Stripped(jobs[1].produces) == ["a"];
  }

  lemma PairFine(producerId: string, port: string)
    requires Strip(port) == "a" && Strip(producerId) == "p"
    ensures JobsFine(ConsumerAndProducer(producerId, port), {}, 2)
  {
    var jobs := ConsumerAndProducer(producerId, port);
    ShortNames();
    PairPorts(producerId, port);
    PlainFields("c", ["a"], []);
    PlainFields(producerId, [], [port]);
    PairDiffers(producerId, port);
    hide Strip, Makes, PortNameError, FieldError, SameIdBefore, SameProductBefore, Stripped;
    forall i: nat | i < 2 ensures JobFault(jobs, {}, i) == None {
    }
  }

  lemma PairDiffers(producerId: string, port: string)
    requires Strip(port) == "a" && Strip(producerId) == "p"
    ensures var jobs := ConsumerAndProducer(producerId, port);
            forall i: nat :: i < 2 ==> !SameIdBefore(jobs, i) && !SameProductBefore(jobs, i)
  {
    hide Strip, Makes, Stripped;
    ShortNames();
    PairPorts(producerId, port);
    var jobs := ConsumerAndProducer(producerId, port);
    assert jobs[0].jobId == "c" && jobs[1].jobId == producerId && "c"[0] != "p"[0];
    forall i: nat | i < 2 ensures !SameIdBefore(jobs, i) && !SameProductBefore(jobs, i) {
    }
  }

  lemma PairDependsOnce(producerId: string, port: string)
    requires Strip(port) == "a"
    ensures var jobs := ConsumerAndProducer(producerId, port);
            && (forall x: nat, y: nat :: DependsOn(jobs, x, y) <==> x == 0 && y == 1)
            && forall i: nat :: !LacksProducer(jobs, i)
  {
    PairPorts(producerId, port);
    var jobs := ConsumerAndProducer(producerId, port);
    hide Strip, Makes;
    assert "a" in jobs[0].needs && Makes(jobs[1], "a");
    assert !NobodyMakes(jobs, "a");
    forall i: nat | i < 2 ensures !LacksProducer(jobs, i) {
      if i == 0 {
        assert forall name :: name in jobs[0].needs ==> name == "a";
      } else {
        assert jobs[1].needs == [];
      }
    }
  }

  lemma PairAcyclic(producerId: string, port: string)
    requires Strip(port) == "a"
    ensures Acyclic(JobGraph(ConsumerAndProducer(producerId, port)))
  {
    PairDependsOnce(producerId, port);
    var g := JobGraph(ConsumerAndProducer(producerId, port));
    hide Strip, DependsOn;
    assert forall x: nat, y: nat :: Edge(g, x, y) ==> x == 0 && y == 1;
    forall x: nat ensures !OnCycle(g, x) {
      if z: nat :| Edge(g, x, z) && Reach(g, z, x) {
        var w := ReachFirstEdge(g, z, x);
      }
    }
  }

  lemma PairPadded(producerId: string, port: string)
    requires Strip(port) == "a" && Strip(producerId) == "p"
    ensures PaddedProducerId(ConsumerAndProducer(producerId, port)) <==> producerId != "p"
  {
    hide Strip, DependsOn;
    var jobs := ConsumerAndProducer(producerId, port);
    ShortNames();
    PairDependsOnce(producerId, port);
    assert jobs[0].jobId == "c" && jobs[1].jobId == producerId;
    assert "p"[0] != "c"[0];
    assert UnlistedId(jobs, 1) <==> producerId != "p";
    assert NeedsUnlistedId(jobs, 0) <==> UnlistedId(jobs, 1);
  }

  lemma PairSound(producerId: string, port: string)
    requires Strip(port) == "a" && Strip(producerId) == "p"
    ensures JobsFine(ConsumerAndProducer(producerId, port), {}, 2)
    ensures forall i: nat :: !LacksProducer(ConsumerAndProducer(producerId, port), i)
  {
    PairFine(producerId, port);
    PairDependsOnce(producerId, port);
  }

  /** The structural check accepts these jobs and the executor refuses to start them. */
  lemma PaddedJobsAcceptedButNotStarted()
    ensures var jobs := ConsumerAndProducer("p", " a");
            VerdictIsRight(jobs, {}, Accepted) && LacksInput(jobs, map[], 0)
  {
    hide Strip, JobsFine, LacksProducer, PaddedProducerId, Acyclic, JobGraph, LacksInput, ConsumerAndProducer;
    ShortNames();
    PairSound("p", " a");
    PairPadded("p", " a");
    PairAcyclic("p", " a");
    PairLength("p", " a");
    OtherNameLacksInput("p", " a");
  }

  lemma PairLength(producerId: string, port: string)
    ensures |ConsumerAndProducer(producerId, port)| == 2
  {
  }

  lemma OtherNameLacksInput(producerId: string, port: string)
    requires |port| != 1
    ensures LacksInput(ConsumerAndProducer(producerId, port), map[], 0)
  {
    var jobs := ConsumerAndProducer(producerId, port);
    assert "a" in jobs[0].needs && !Produced(jobs, "a");
  }

  /** With a producer id that has surrounding white space, the check fails on its own lookup. */
  lemma PaddedIdBreaksCheck()
    ensures VerdictIsRight(ConsumerAndProducer(" p", "a"), {}, UnknownProducerId)
  {
    hide Strip, JobsFine, LacksProducer, PaddedProducerId, ConsumerAndProducer;
    ShortNames();
    PairSound(" p", "a");
    PairPadded(" p", "a");
    PairLength(" p", "a");
    assert |"p"| != |" p"|;
  }

  // ---------------------------------------------------------------- a job that needs its own product

  /** A lone job that needs its own product starts up and can only fail for the port it never gets. */
  lemma LoneJobNeedsItself()
    ensures var jobs := [Plain("c", ["a"], ["a"])];
            StartsUp(jobs, map[]) && NeedsItself(jobs[0], map[]) && !Acyclic(RunGraph(jobs))
  {
    var jobs := [Plain("c", ["a"], ["a"])];
    assert "a" in jobs[0].needs && "a" in jobs[0].produces;
    assert Produced(jobs, "a");
    assert RunDependsOn(jobs, 0, 0);
    assert Edge(RunGraph(jobs), 0, 0);
    ReachRefl(RunGraph(jobs), 0);
    assert OnCycle(RunGraph(jobs), 0);
  }
}
