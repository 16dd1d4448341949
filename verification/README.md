# Artifact build graph: a verified model

The repository turns a mod request into *artifact jobs*. Each job needs and produces named ports, writes one
target file, and may share that file with other jobs. The code proves the job graph sound, runs it in parallel,
merges each job's output into shared files, and later proves that the written bytes still hold every
contribution. This project models that code and proves what it promises.

| files | part of the system |
|---|---|
| `Digraph`, `Listing`, `SccSearch`, `Condensation`, `DependencyGraph` | Tarjan's components with explicit stack and low-links, the condensation, and directional closures |
| `PyString`, `Kahn`, `ArtifactJobs`, `JobRules` | the structural check of a job graph, with every error in the order the code reports it |
| `ArtifactPorts`, `Scheduler`, `GraphExecutor`, `AcceptedRuns` | the typed-port table and the two-stage event-driven scheduler |
| `PatchChain`, `Checkpoint`, `CheckpointRuns` | the certificate over content hashes, the durable checkpoint ledger, and whole runs on it |
| `JsonMerge`, `JsonFiles`, `JavaPatch`, `JavaMask`, `JavaTokens`, `JavaType`, `BraceScan`, `JavaMember`, `JavaInsert`, `JavaSplice` | composing contributions into JSON and Java files |
| `RecordSet`, `RecordRules` | the resumable bounded record set |
| `Lines`, `TailReader` | the backward chunked reader of the repair-experience file |

How it is modelled:

- Objects that the program updates in place are classes (`Search`, `ArtifactDependencyGraph`, `PortRegistry`,
  `EventLoop`, `Store`, `JsonResource`, `JavaFile`, `Progress`); loops over variables are methods with
  invariants, proved against functions and predicates that say what they must compute.
- Worker threads are steps. One turn of the event loop takes any non-empty batch of completions, in any order,
  so every statement about a run holds for every interleaving and every number of workers. What a job's work
  will do is an input (`Work`, `Execution`, `Author`), and so is every answer of a model.
- Jobs are named by their input position; the executor's two id tables and its heap of (position, id) pairs
  are tables and a multiset of positions.
- The disk is three maps: path to content hash, path to record, job to record. One record write is atomic, and
  an execution may crash before the first or between the two writes. Hashes stand for contents.
- Sets are visited in an arbitrary order wherever the program iterates over a Python set.
- Components and closures are listed in the program's order, and each closure in ascending order of its names.
- Whether a record-set run may be cancelled is an input; when it may, it can end at any of the program's polls.
- In the masker a pending backslash is part of the literal states, so `MaskInPlace` keeps one state variable
  where the program keeps a state and a flag.

Where the code does less than its documentation suggests, the code is kept and the gap is stated:

- The structural check strips port names of producers but then looks up raw names, so it accepts graphs the
  executor refuses to start. `AcceptedRuns.AcceptedGraphRuns` gives the exact condition and
  `AcceptedRuns.PaddedJobsAcceptedButNotStarted` an instance. When another job depends on a job whose id has
  surrounding white space, the check itself fails with an unhandled lookup error (`UnknownProducerId`,
  instance `AcceptedRuns.PaddedIdBreaksCheck`); a padded id that nobody depends on does no harm.
- A single job bypasses the deadlock test, so one that needs its own product starts and fails for a missing port
  instead (`AcceptedRuns.LoneJobDecides` says exactly when, `AcceptedRuns.LoneJobNeedsItself` is an instance);
  the structural check accepts no such job (`AcceptedRuns.AcceptedNeverNeedsItself`).
- JSON values are compared with `==`, under which `1`, `1.0` and `true` are equal, so such fragments merge and the
  later value stays (`JsonFiles.OneAndTrueBlur`). `JsonFiles.OrderIrrelevantExactly` says exactly for which files and
  fragments the order does not matter, `JsonFiles.MergeCommutesExactly` the same for two documents, and
  `JsonFiles.MergeIsJoinExactly` when the merge is the one under structural equality.
- The anchor of a Java patch is counted without overlaps, so an anchor that overlaps itself can occur twice and
  pass as unique. `JavaPatch.AmbiguityTestIsExact`, `JavaPatch.GoesBeforeExactly` and
  `JavaPatch.AccumulateExactly` say exactly for which anchors the promises hold.
- A crash before the path record is written leaves new bytes without evidence: with an earlier record the rerun
  stops for drift, without one the job is executed twice (`CheckpointRuns.RerunAfterCrash`).
- Inserting a member keeps the outer type closed by its own brace exactly for self-contained members; nothing
  checks that before the insertion (`JavaSplice.InsertMovesClose`, instance `JavaSplice.LoneBraceClosesEarly`).

The record-set count is saved before it is range-checked. That is harmless: the answer to the count request is
always validated against its response schema first
(`minecraft_mod_ai/fixed_template_generation.py`, lines 453-458), so only a checkpoint written elsewhere can hold a count out of
range, and `RecordSet.ForeignCountIsRefused` says what happens to one.

Verify with `dafny verify dfyconfig.toml` (Dafny 4.11).

## Model

| member | source | states |
|---|---|---|
| `SccSearch.Search.constructor` | minecraft_mod_ai/artifact_dependency_graph.py:623-628 | The search starts with nothing visited, an empty stack and no component. |
| `SccSearch.Search.PopComponent` | minecraft_mod_ai/artifact_dependency_graph.py:649-655 | Popping down to a vertex returns exactly the stack segment from it on, without repeats, and leaves the rest of the stack. |
| `SccSearch.Search.Push` | minecraft_mod_ai/artifact_dependency_graph.py:632-636 | Entering a new vertex establishes the state of exploring it with all its edges still to be looked at. |
| `SccSearch.Search.LookAt` | minecraft_mod_ai/artifact_dependency_graph.py:638-643 | Looking at one edge, whether to a new, a stacked or an emitted vertex, keeps that state with one edge fewer to look at: the low-link bounds and is witnessed by the edges seen. |
| `SccSearch.Search.EmitIfRoot` | minecraft_mod_ai/artifact_dependency_graph.py:645-655 | A finished vertex either closes a component or stays on the stack; either way the whole search invariant holds again and nothing settled is taken back. |
| `SccSearch.Search.StrongConnect` | minecraft_mod_ai/artifact_dependency_graph.py:630-655 | One recursive call keeps the whole search invariant, takes nothing back that was settled before, and returns a low-link that bounds and is witnessed by the edges left open. |
| `SccSearch.LeaveOnStack` | minecraft_mod_ai/artifact_dependency_graph.py:645-648 | A vertex with a low-link other than its index may be left on the stack: everything on the stack still reaches an active vertex. |
| `SccSearch.EmitComponent` | minecraft_mod_ai/artifact_dependency_graph.py:645-655 | The stack segment above a root is mutually reachable and all its edges lead into itself or into components already emitted. |
| `SccSearch.ComponentsAreSccs` | minecraft_mod_ai/artifact_dependency_graph.py:620-659 | A partition with that order has two nodes in one component exactly when each reaches the other. |
| `SccSearch.ComputeScc` | minecraft_mod_ai/artifact_dependency_graph.py:620-659 | The components partition the nodes, two nodes share one exactly when each reaches the other, and an edge between two components leads to one emitted earlier. |
| `DependencyGraph.IndexComponents` | minecraft_mod_ai/artifact_dependency_graph.py:673-676 | Every node is indexed by the one component that holds it. |
| `DependencyGraph.Condense` | minecraft_mod_ai/artifact_dependency_graph.py:678-694 | The condensation has an edge between two different components exactly when some node edge joins them, and an incoming count is the number of components that lead into that one. |
| `DependencyGraph.ReachableSccs` | minecraft_mod_ai/artifact_dependency_graph.py:696-705 | The breadth-first search visits exactly the components reachable in the condensation. |
| `Condensation.DagReachIsReach` | minecraft_mod_ai/artifact_dependency_graph.py:678-705 | A path of the condensation is a path between any members of its two ends. |
| `Condensation.ReachIsDagReach` | minecraft_mod_ai/artifact_dependency_graph.py:678-705 | A path between two nodes is a path of the condensation between their components. |
| `Condensation.ClosureIsReachSet` | minecraft_mod_ai/artifact_dependency_graph.py:721-726 | The nodes of all components reachable from one are exactly what any of its members reaches. |
| `Condensation.RootIsMaximal` | minecraft_mod_ai/artifact_dependency_graph.py:716-719 | A component without incoming edges has an inclusion-maximal reach set. |
| `Condensation.MaximalIsRoot` | minecraft_mod_ai/artifact_dependency_graph.py:716-719 | An inclusion-maximal reach set belongs to a component without incoming edges, so skipping the others loses nothing. |
| `Condensation.NobodyElseReachesRoot` | minecraft_mod_ai/artifact_dependency_graph.py:716-719 | No node outside a root component reaches it. |
| `Condensation.MaximalReachSetsCover` | minecraft_mod_ai/artifact_dependency_graph.py:661-671 | Every node lies in some maximal reach set. |
| `Condensation.ReachSetIsClosed` | minecraft_mod_ai/artifact_dependency_graph.py:661-671 | A reach set is closed under edges. |
| `DependencyGraph.FirstOccurrencesAreDistinct` | minecraft_mod_ai/artifact_dependency_graph.py:721-729 | Dropping later repeats keeps every closure once. |
| `DependencyGraph.CloseStarts` | minecraft_mod_ai/artifact_dependency_graph.py:721-729 | Skipping repeated starts and repeated closures yields the start components' reach sets, each at its first occurrence. |
| `DependencyGraph.SeedClosures` | minecraft_mod_ai/artifact_dependency_graph.py:710-715 | A seed's component has the reach set of the seed itself. |
| `DependencyGraph.RootClosures` | minecraft_mod_ai/artifact_dependency_graph.py:716-719 | The closures started from zero-incoming components are exactly the maximal reach sets. |
| `DependencyGraph.CloseSeeds` | minecraft_mod_ai/artifact_dependency_graph.py:710-729 | Starting from the known seeds gives the seeds' reach sets, each at its first occurrence. |
| `DependencyGraph.CloseRoots` | minecraft_mod_ai/artifact_dependency_graph.py:716-729 | Starting from the components without incoming edges gives exactly the maximal reach sets, each once, and they cover every node. |
| `Listing.SortedLists` | minecraft_mod_ai/artifact_dependency_graph.py:726 | The listing of a closure is ascending and names exactly its members. |
| `Listing.BeforeExactly` | minecraft_mod_ai/artifact_dependency_graph.py:726 | The order is that of the first difference: the name that ends there or has the smaller character comes first. |
| `Listing.AscendingIsUnique` | minecraft_mod_ai/artifact_dependency_graph.py:726-729 | Two ascending listings of the same members are equal, so comparing listings is comparing closures. |
| `DependencyGraph.ListClosures` | minecraft_mod_ai/artifact_dependency_graph.py:726-729 | Every closure is listed in ascending order and nothing else changes. |
| `DependencyGraph.ArtifactDependencyGraph.constructor` | minecraft_mod_ai/artifact_dependency_graph.py:243-263 | A new graph has no nodes, edges or unresolved references. |
| `DependencyGraph.ArtifactDependencyGraph.AddNode` | minecraft_mod_ai/artifact_dependency_graph.py:357-359 | Adding a node keeps the edges, keeps every edge between known nodes, and keeps the insertion order of nodes known before. |
| `DependencyGraph.ArtifactDependencyGraph.AddEdge` | minecraft_mod_ai/artifact_dependency_graph.py:361-372 | An edge is added exactly between known nodes; a dangling target is recorded as unresolved and an unknown source ignored. |
| `DependencyGraph.ArtifactDependencyGraph.ComputeDirectionalClosures` | minecraft_mod_ai/artifact_dependency_graph.py:661-731 | Every closure is listed in ascending order. Without seeds the closures are exactly the inclusion-maximal reach sets, each once, together covering every node; with seeds they are the known seeds' reach sets at their first occurrences. |
| `PyString.StripIdempotent` | minecraft_mod_ai/artifact_job.py:264-265 | Stripping a stripped name changes nothing. |
| `PyString.StripExactly` | minecraft_mod_ai/artifact_job.py:264-265 | Stripping leaves exactly the text between the white space at its ends. |
| `PyString.SpacesListed` | minecraft_mod_ai/artifact_job.py:264-265 | The twenty-nine characters that count as white space, one by one. |
| `ArtifactJobs.RecordProducts` | minecraft_mod_ai/artifact_job.py:345-351 | A product is refused exactly when an earlier job makes it; otherwise the table names the one maker of every product so far. |
| `ArtifactJobs.CheckJob` | minecraft_mod_ai/artifact_job.py:263-351 | A job is rejected with its first fault in the order of the checks, or passes and is entered. |
| `ArtifactJobs.CheckJobs` | minecraft_mod_ai/artifact_job.py:260-351 | The first faulty job in input order is reported; otherwise every product has exactly one maker. |
| `JobRules.FaultExactly` | minecraft_mod_ai/artifact_job.py:263-351 | The fault found in a job is the first rule it breaks, each rule stated on the job's own fields and the jobs before it; there is none exactly when the job breaks no rule. |
| `ArtifactJobs.FindMissing` | minecraft_mod_ai/artifact_job.py:353-363 | The jobs reported are exactly those needing a port, by its exact name, that nobody makes. |
| `ArtifactJobs.Dependencies` | minecraft_mod_ai/artifact_job.py:365-371 | The dependency table is the producer graph of the jobs. |
| `ArtifactJobs.HasPaddedProducerId` | minecraft_mod_ai/artifact_job.py:372-382 | The lookup of a producer among the exact job ids fails exactly when some consumer's producer has an id with surrounding white space. |
| `Kahn.Transpose` | minecraft_mod_ai/artifact_job.py:372-382 | The outgoing table is the exact transpose of the dependencies. |
| `Kahn.Release` | minecraft_mod_ai/artifact_job.py:393-397 | Each dependent loses one open producer; those left without one become ready. |
| `Kahn.LeftoverReachesCycle` | minecraft_mod_ai/artifact_job.py:398-404 | When nothing is ready, every job not emitted leads to a cycle. |
| `Kahn.EmittedOrCyclic` | minecraft_mod_ai/artifact_job.py:390-403 | At the end a job has open producers exactly when it was not emitted and exactly when it lies on or behind a cycle. |
| `Kahn.EmitOne` | minecraft_mod_ai/artifact_job.py:390-397 | Emitting one ready job keeps the counts exact, the emission order topological and the ready set complete. |
| `Kahn.EmitAll` | minecraft_mod_ai/artifact_job.py:376-404 | The jobs left over are exactly those on a cycle or transitively depending on one, and with the emitted ones they account for every job. |
| `ArtifactJobs.ValidateArtifactJobGraph` | minecraft_mod_ai/artifact_job.py:247-405 | For every input the verdict is the right one: first faulty job, jobs without producer, unknown producer id, exactly the jobs on or behind a cycle, or acceptance, which holds exactly for sound acyclic graphs. |
| `JobRules.AcceptedJobsAreSound` | minecraft_mod_ai/artifact_job.py:250-351 | Every job of an accepted graph has its fields filled in, an owner among the modules when there are any, the fields its executor needs, non-blank distinct port names, and descriptors of required ports with exactly three fields, a known kind and distinct names among its needs; no two jobs share an id or a product. |
| `JobRules.RejectionNamesFirstFault` | minecraft_mod_ai/artifact_job.py:260-351 | A job is rejected for a rule exactly when it is the first job that breaks one and that is the first it breaks. |
| `ArtifactPorts.PortRegistry.constructor` | minecraft_mod_ai/artifact_ports.py:88-91 | A new registry has no ports and no context. |
| `ArtifactPorts.PortRegistry.BindContext` | minecraft_mod_ai/artifact_ports.py:93-99 | A context is bound exactly when it is non-empty, agrees with one bound before and with every port; a refusal changes nothing. |
| `ArtifactPorts.PortRegistry.Publish` | minecraft_mod_ai/artifact_ports.py:101-115 | A port is accepted exactly when it is named, non-empty, of the bound context and not a different port under a taken name; no name is ever removed or rebound. |
| `Scheduler.EventLoop.constructor` | minecraft_mod_ai/artifact_graph_executor.py:354-381 | The first state: nothing has run, indegree counts producers not yet validated and the heap holds the jobs without any. |
| `Scheduler.InitialStateOk` | minecraft_mod_ai/artifact_graph_executor.py:354-381 | Counting every job's producers and putting those without any on the heap gives a state that satisfies the scheduler invariant. |
| `Scheduler.StartKeeps` | minecraft_mod_ai/artifact_graph_executor.py:386-410 | Starting a ready job keeps the invariant, uses one slot and lowers the remaining work. |
| `Scheduler.ToValidationKeeps` | minecraft_mod_ai/artifact_graph_executor.py:465-484 | A finished generation keeps the invariant and lowers the remaining work. |
| `Scheduler.ValidateKeeps` | minecraft_mod_ai/artifact_graph_executor.py:485-490 | A finished validation keeps the invariant, in particular that validated jobs come after their producers, and lowers the remaining work. |
| `Scheduler.ConsumerWaits` | minecraft_mod_ai/artifact_graph_executor.py:492-506 | A consumer of a producer not yet counted has a positive indegree and waits, so a count can never fall below zero. |
| `Scheduler.NotifyDependent` | minecraft_mod_ai/artifact_graph_executor.py:496-506 | One consumer's count drops by one; corruption is never reported and the consumer enters the heap exactly at zero. |
| `Scheduler.NotifyDependents` | minecraft_mod_ai/artifact_graph_executor.py:494-506 | All consumers of a producer are told once; afterwards counts again equal the producers not yet counted. |
| `Scheduler.SubmitLowest` | minecraft_mod_ai/artifact_graph_executor.py:386-410 | Starting the lowest ready position keeps the order: every job started is lower than every job left on the heap. |
| `Scheduler.StuckMeansCycle` | minecraft_mod_ai/artifact_graph_executor.py:422-433 | With nothing running, exactly the jobs on or behind a cycle are pending. |
| `Scheduler.FinishedMeansAcyclic` | minecraft_mod_ai/artifact_graph_executor.py:421-422 | When every job is validated the graph has no cycle. |
| `Scheduler.EventLoop.SubmitReady` | minecraft_mod_ai/artifact_graph_executor.py:386-410 | Afterwards all slots are busy or no job is ready; only lowest ready positions were started and nothing else changed. |
| `Scheduler.EventLoop.FinishGeneration` | minecraft_mod_ai/artifact_graph_executor.py:467-484 | One job moves from generation to validation. |
| `Scheduler.EventLoop.FinishValidation` | minecraft_mod_ai/artifact_graph_executor.py:485-490 | One job moves from validation to validated. |
| `Scheduler.EventLoop.CountValidated` | minecraft_mod_ai/artifact_graph_executor.py:494-506 | The consumers of one validated job are told; the count is never corrupt. |
| `Scheduler.EventLoop.CountBatch` | minecraft_mod_ai/artifact_graph_executor.py:492-506 | A whole batch of validations is told, in any order, and the count is never corrupt. |
| `GraphExecutor.ProducerIndex` | minecraft_mod_ai/artifact_graph_executor.py:29-40 | A conflict is reported exactly when two jobs list one product; otherwise every product is indexed by its one job. |
| `GraphExecutor.AsManyIdsAsJobs` | minecraft_mod_ai/artifact_graph_executor.py:296-297 | There are as many ids as jobs exactly when no two jobs share one. |
| `GraphExecutor.FindMissingInputs` | minecraft_mod_ai/artifact_graph_executor.py:315-325 | The jobs reported are exactly those needing a port that no job lists and that was not supplied. |
| `GraphExecutor.RunDependencies` | minecraft_mod_ai/artifact_graph_executor.py:356-366 | The dependency table is the graph of exact-name producers. |
| `GraphExecutor.PublishAll` | minecraft_mod_ai/artifact_ports.py:101-115 | Publishing a job's ports only adds them, and a refusal means one of them was not publishable. |
| `GraphExecutor.ExecuteOne` | minecraft_mod_ai/artifact_graph_executor.py:196-212 | The missing-port failure occurs exactly when a required port is absent; any other failure comes from the job's own work. |
| `GraphExecutor.ValidateCompletedJob` | minecraft_mod_ai/artifact_graph_executor.py:215-271 | A receipt is accepted exactly when it names the job's context, its status is PASS, every declared product is published, its file exists and the host validator approves; otherwise the first check that fails is reported. |
| `GraphExecutor.NeverRefused` | minecraft_mod_ai/artifact_ports.py:101-115 | Work that is good in itself and agrees with the other jobs' ports is never refused, however far the others have got. |
| `GraphExecutor.StartedJobHasInputs` | minecraft_mod_ai/artifact_graph_executor.py:386-410 | Whenever a job has started, every port it requires is in the registry. |
| `GraphExecutor.CompleteGeneration` | minecraft_mod_ai/artifact_graph_executor.py:467-484 | A finished generation keeps the run invariant; it fails only when that job's work raised or one of its ports is refused, never for a missing port. |
| `GraphExecutor.CompleteValidation` | minecraft_mod_ai/artifact_graph_executor.py:485-490 | A finished validation keeps the run invariant: validated jobs have their products published and their own receipt recorded; it fails only for the first check that job's receipt does not pass. |
| `GraphExecutor.CompleteBatch` | minecraft_mod_ai/artifact_graph_executor.py:464-490 | Any non-empty batch of completions, handled in any order, keeps the run invariant and strictly lowers the remaining work. |
| `GraphExecutor.Refill` | minecraft_mod_ai/artifact_graph_executor.py:492-509 | After counting and refilling, the loop head holds again: all validations counted and no slot wasted. |
| `GraphExecutor.StuckIsBlocked` | minecraft_mod_ai/artifact_graph_executor.py:423-433 | With nothing running, the jobs reported as blocked are exactly those on or behind a cycle. |
| `GraphExecutor.Turn` | minecraft_mod_ai/artifact_graph_executor.py:421-509 | Every turn of the loop either ends the run for a right reason or strictly lowers 3 x pending + 2 x generating + validating. |
| `GraphExecutor.FinishedRunIsRight` | minecraft_mod_ai/artifact_graph_executor.py:519-530 | The receipts listed are the jobs' own, in input order, with every product published and every port in the registry an initial one or one some job published. |
| `GraphExecutor.RunLoop` | minecraft_mod_ai/artifact_graph_executor.py:418-530 | Every run ends; it passes only when the graph is acyclic, every product is published and the registry holds nothing but initial ports and ports the jobs' own work published, of the one bound context, and stops early only for a deadlock or for the cause named of the job named. |
| `GraphExecutor.RunSingle` | minecraft_mod_ai/artifact_graph_executor.py:327-352 | A lone job is run without a deadlock test; it lacks a required port exactly when it needs its own product, and otherwise passes or fails by its own work. |
| `GraphExecutor.StartLoop` | minecraft_mod_ai/artifact_graph_executor.py:354-420 | The state before the first turn satisfies the loop-head invariant. |
| `GraphExecutor.GenerationParallelism` | minecraft_mod_ai/artifact_graph_executor.py:166-187 | At least one worker; never more than jobs, configuration or native slots when those are positive. |
| `GraphExecutor.ExecuteArtifactGraph` | minecraft_mod_ai/artifact_graph_executor.py:274-530 | For all jobs, work and completion orders the outcome is right: start-up errors exactly when due, PASS with receipts in input order, all products published and every port an initial one or one a job published in one unchanged context, a deadlock only of two or more jobs and of exactly those on or behind a cycle, otherwise the named job's own failing work for the cause reported, a corrupt indegree never. |
| `AcceptedRuns.SuccessfulWorkDecides` | minecraft_mod_ai/artifact_graph_executor.py:354-518 | When all work succeeds, two or more jobs pass exactly when the producer graph is acyclic and deadlock exactly when it is not. |
| `AcceptedRuns.LoneJobDecides` | minecraft_mod_ai/artifact_graph_executor.py:327-352 | A lone job that starts lacks a port exactly when it needs its own product; when its work succeeds it passes exactly when it does not. |
| `AcceptedRuns.LoneJobNeedsItself` | minecraft_mod_ai/artifact_graph_executor.py:327-352 | A lone job that needs its own product starts although its producer graph is cyclic. |
| `AcceptedRuns.AcceptedNeverNeedsItself` | minecraft_mod_ai/artifact_job.py:306-310 | A job of an accepted graph never needs its own product. |
| `AcceptedRuns.RunGraphInJobGraph` | minecraft_mod_ai/artifact_job.py:345-371 | The graph that is run has no edge that the checked graph lacks. |
| `AcceptedRuns.AcceptedGraphRuns` | minecraft_mod_ai/artifact_job.py:260-405 | A graph the structural check accepts never fails for duplicates and never deadlocks; it lacks a producer exactly when a needed name is listed only with surrounding white space. |
| `AcceptedRuns.PaddedJobsAcceptedButNotStarted` | minecraft_mod_ai/artifact_job.py:298-299 | Two concrete jobs that the check accepts and the executor refuses to start, because one lists its product with a leading blank. |
| `AcceptedRuns.PaddedIdBreaksCheck` | minecraft_mod_ai/artifact_job.py:372-382 | Two concrete jobs on which the check fails with an unhandled lookup, because a producer that is depended on has an id with a leading blank. |
| `PatchChain.CollectPredecessors` | minecraft_mod_ai/artifact_java_materialization.py:19-25 | The table links each version to the versions that well-formed patches produced it from. |
| `PatchChain.LinkExactly` | minecraft_mod_ai/artifact_java_materialization.py:21-25 | Exactly the java_patch rows with both hashes, the first one proper, link two versions. |
| `PatchChain.WellFormedExactly` | minecraft_mod_ai/artifact_java_materialization.py:16-17 | A proper hash is sixty-four of the sixteen lower-case hexadecimal digits. |
| `PatchChain.VerifyJavaPatchChain` | minecraft_mod_ai/artifact_java_materialization.py:8-33 | Terminates and answers true exactly when every receipt names a proper hash that reaches the final bytes through patches. |
| `PatchChain.ExpandVersion` | minecraft_mod_ai/artifact_java_materialization.py:91-101 | Expanding one version adds its patches and their base versions, and reports corruption only for a patch without a base. |
| `PatchChain.ReadJavaPatchHistory` | minecraft_mod_ai/artifact_java_materialization.py:55-102 | For a record of the given hash it returns exactly the patches, with multiplicity, in the ancestry of that hash; it refuses exactly a history with a baseless patch there; any other record yields nothing. |
| `PatchChain.PatchRowsInOrder` | minecraft_mod_ai/artifact_java_materialization.py:91-101 | The patches of some versions are exactly the java_patch rows that result in one of them, in their order. |
| `PatchChain.HistoryNeverHurts` | minecraft_mod_ai/artifact_java_materialization.py:85-102 | Adding the pruned history never turns a verified chain into an unverified one. |
| `PatchChain.NothingPruned` | minecraft_mod_ai/artifact_java_materialization.py:85-102 | A history that survives to the current hash as a whole is returned as a whole. |
| `PatchChain.PatchCarriesOn` | minecraft_mod_ai/artifact_java_materialization.py:8-33 | After one more patch of the current bytes every version that survived still does. |
| `PatchChain.PatchKeepsHistoryOk` | minecraft_mod_ai/artifact_java_materialization.py:8-33 | The history extended by that patch survives to the new bytes as a whole. |
| `PatchChain.LineageVerifies` | minecraft_mod_ai/artifact_java_materialization.py:8-33 | Receipts of versions that survive through the history verify together with it. |
| `Checkpoint.Store.constructor` | minecraft_mod_ai/artifact_job_checkpoint.py:29-42 | A store starts with the given files and no records. |
| `Checkpoint.Store.OutsideEdit` | minecraft_mod_ai/artifact_job_checkpoint.py:92-93 | Outside edits change files but never make a record disagree with its checkpoint. |
| `Checkpoint.Store.ReadJobRecord` | minecraft_mod_ai/artifact_job_checkpoint.py:63-74 | The target's own record wins over the jobs index; it is corrupt exactly when it is about another path or other bytes than its checkpoint, which never occurs in a ledger the program wrote. |
| `Checkpoint.Store.HistoryFor` | minecraft_mod_ai/artifact_job_checkpoint.py:286-296 | The history stored with a commit certifies the whole lineage of the new bytes and holds no patch twice; a commit that is not a patch resets it to empty. |
| `Checkpoint.Store.Publish` | minecraft_mod_ai/artifact_job_checkpoint.py:297-305 | The path record is written before the index; a crash between the two keeps the ledger valid. |
| `Checkpoint.DecideIsRight` | minecraft_mod_ai/artifact_job_checkpoint.py:190-235 | An earlier result is reused exactly when it still stands; a job is executed exactly when it is not reused and replacing the bytes is admitted; otherwise it stops for changed approved inputs, a source without proof or drift, each exactly when due. |
| `Checkpoint.ProvenIsBacked` | minecraft_mod_ai/artifact_job_checkpoint.py:196-202 | A changed source is admitted exactly when it exists and has the hash published for it, or the verified one when nothing is published. |
| `Checkpoint.PatchEdgeExactly` | minecraft_mod_ai/artifact_java_materialization.py:36-52 | A checkpoint contributes a patch edge exactly when it passed, for this path, with a materialized patch of this path from the bytes before it to the bytes after it. |
| `Checkpoint.Store.RunAndCommit` | minecraft_mod_ai/artifact_job_checkpoint.py:236-306 | An execution is committed exactly when it returns, leaves the bytes its receipt names and does not crash; every other end has its one cause. The whole new state is given for each end: a commit changes the target, its record, the job's entry and the target's lineage, a crash before the index all of these but the entry, and any other end nothing but the target's bytes. |
| `Checkpoint.Store.Commit` | minecraft_mod_ai/artifact_job_checkpoint.py:266-306 | The re-read record never differs, the history is never corrupt, the commit succeeds exactly without a crash, and what a commit or a crash leaves of the ledger is given in full. |
| `Checkpoint.Store.ExecuteCheckpointedJob` | minecraft_mod_ai/artifact_job_checkpoint.py:186-306 | A receipt is reused exactly when inputs, implementation and published bytes are unchanged; it is then the prior one, which an earlier execution of that job produced. A job is executed exactly when that is not so and replacing the bytes is admitted (no drift, same approved inputs, proven sources, owned bytes); under other inputs than before, only with the same approved ones and every source as it was, as published or as verified. Every end has its exact cause, leaves the ledger as given for it, and keeps all old evidence unless a new receipt is published. |
| `Checkpoint.FreshLineage` | minecraft_mod_ai/artifact_job_checkpoint.py:286-304 | A commit that is not a patch starts a lineage of its own version with an empty history. |
| `Checkpoint.FirstPatchLineage` | minecraft_mod_ai/artifact_job_checkpoint.py:292-296 | A patch of an unrecorded file starts a lineage certified by that one edge. |
| `Checkpoint.NextPatchLineage` | minecraft_mod_ai/artifact_job_checkpoint.py:292-296 | A patch of the recorded bytes extends the lineage and its certificate. |
| `Checkpoint.LineageCertifies` | minecraft_mod_ai/artifact_graph_executor.py:129-144 | Receipts of any versions in the lineage, with the stored history, verify for the recorded bytes. |
| `Checkpoint.Store.SourceVerified` | minecraft_mod_ai/artifact_graph_executor.py:129-144 | Receipts of the lineage are verified against the current bytes; a missing file never is; bytes the record does not name rest on the receipts alone. |
| `Checkpoint.Store.RunNext` | minecraft_mod_ai/artifact_job_checkpoint.py:186-306 | One job on a Java file is committed exactly when it runs, and a patch of the current bytes keeps the lineage. |
| `Checkpoint.Store.RunShard` | minecraft_mod_ai/artifact_job_checkpoint.py:186-306 | Jobs run one after the other on one Java file, all but the first patching, complete exactly when each runs on what the ones before it leave; then the last job's bytes are recorded and every receipt is in the lineage. |
| `Checkpoint.NewJobsRun` | minecraft_mod_ai/artifact_job_checkpoint.py:186-306 | Jobs the ledger has never seen all run exactly when the file is as published and the first job's output matches. |
| `Checkpoint.RunShardAndVerify` | minecraft_mod_ai/artifact_graph_executor.py:129-144 | After any first commit and then only patches, without crashes, the final bytes verify with the stored history and all receipts, whenever every job runs in its turn. |
| `CheckpointRuns.RunStep` | minecraft_mod_ai/artifact_job_checkpoint.py:186-306 | One execution or outside edit: its end has the exact cause, and the files and the ledger it leaves are given in full. |
| `CheckpointRuns.StepKeepsLineage` | minecraft_mod_ai/artifact_job_checkpoint.py:286-304 | Only a step that publishes a record for a Java file changes the lineage of that file: a patch adds its version, any other record starts anew. |
| `CheckpointRuns.TraceKeepsLineage` | minecraft_mod_ai/artifact_job_checkpoint.py:286-304 | Through any steps (jobs on any targets, reuses, refusals, failures, crashes, outside edits) everything published for a Java file since its last record that was not a patch is in the lineage of its recorded bytes. |
| `CheckpointRuns.ChainExactly` | minecraft_mod_ai/artifact_job_checkpoint.py:286-304 | The receipts meant are exactly those of the rows published with nothing but patches published after them. |
| `CheckpointRuns.RunSteps` | minecraft_mod_ai/artifact_job_checkpoint.py:186-306 | Running any steps goes from world to world, each step ending as it must. |
| `CheckpointRuns.RunStepsAndVerify` | minecraft_mod_ai/artifact_graph_executor.py:129-144 | After any steps at all, any selection of the receipts published for a Java file since its last record that was not a patch verifies with the stored history, as long as the file has its recorded bytes. |
| `CheckpointRuns.RerunAfterCrash` | minecraft_mod_ai/artifact_job_checkpoint.py:297-306 | After a crash between the two records a rerun returns the first receipt without executing anything. After a crash before both, it refuses the new bytes as drift if others are on record, and otherwise executes the job a second time. |
| `CheckpointRuns.RerunWithChanges` | minecraft_mod_ai/artifact_job_checkpoint.py:190-202 | A checkpoint remembers what the job was run under: the same job under other inputs is refused exactly when the approved ones differ, or when a source it reads has neither the hash of the first run nor a proven one. |
| `JsonFiles.MergeKeepsBoth` | minecraft_mod_ai/artifact_materializer.py:151-165 | A successful merge holds every path of both sides: the added value where it gives one, and otherwise a value the program takes for the existing one. |
| `JsonFiles.MergeIsLeast` | minecraft_mod_ai/artifact_materializer.py:151-165 | Whatever holds both sides holds their merge, so the merge adds nothing, and it fails only when no document holds both. |
| `JsonFiles.MergeIdempotent` | minecraft_mod_ai/artifact_materializer.py:151-165 | Merging a document with itself changes nothing, and merging the same fragment a second time changes nothing. |
| `JsonFiles.MergeAssociates` | minecraft_mod_ai/artifact_materializer.py:151-165 | The program's merge is associative on all documents, failures and blurred values included. |
| `JsonFiles.DeepMergeDicts` | minecraft_mod_ai/artifact_materializer.py:151-165 | The merge loop, comparing as the program does, computes the merge and reports a conflict exactly when there is none. |
| `JsonFiles.MergeIsJoinExactly` | minecraft_mod_ai/artifact_materializer.py:151-165 | The program's merge is the structural join exactly when it fails or no two values at one place look equal without being equal. |
| `JsonFiles.MergeCommutesExactly` | minecraft_mod_ai/artifact_materializer.py:151-165 | Two documents merge to the same in both orders exactly when they conflict or nothing is blurred in that way. |
| `JsonFiles.OneAndTrueBlur` | minecraft_mod_ai/artifact_materializer.py:157-163 | The number 1 and the value true merge in both orders and the later one stays. |
| `JsonFiles.LooksEqualByKind` | minecraft_mod_ai/artifact_materializer.py:157-163 | Numbers and truth values compare by numeric value, whatever their kind; any other value is equal only to one of its kind. |
| `JsonFiles.PlainNeverBlurs` | minecraft_mod_ai/artifact_materializer.py:151-165 | Documents without booleans and floating-point numbers are never blurred. |
| `JsonFiles.MergeInTurnSucceeds` | minecraft_mod_ai/artifact_materializer.py:151-205 | Merging fragments in turn succeeds exactly when any two of the documents merge, the existing one included. |
| `JsonFiles.SuccessIgnoresOrder` | minecraft_mod_ai/artifact_materializer.py:151-205 | For every file and all fragments, whether they all merge does not depend on their order. |
| `JsonFiles.OrderIrrelevantExactly` | minecraft_mod_ai/artifact_materializer.py:151-205 | For every file and all fragments, the outcome is the same in every order if and only if the merges fail or no two of the fragments blur; the existing file plays no part in it. |
| `JsonFiles.ExistingExactly` | minecraft_mod_ai/artifact_materializer.py:179-190 | No file and a blank one count as an empty object; any other file must hold an object, which is taken as it is. |
| `JsonFiles.JsonResource.MaterializeJsonMerge` | minecraft_mod_ai/artifact_materializer.py:168-205 | A file becomes the merge with the fragment; a corrupt file or a conflict leaves it untouched. |
| `JsonFiles.JsonResource.MaterializeFragments` | minecraft_mod_ai/artifact_materializer.py:168-205 | Fragments merged in turn all succeed exactly when their joint merge exists, and the file is then that merge. |
| `JavaPatch.CountedOnce` | minecraft_mod_ai/artifact_materializer.py:122-128 | The anchor counts once exactly when it occurs and does not occur again after its leftmost occurrence ends. |
| `JavaPatch.CountsPlaces` | minecraft_mod_ai/artifact_materializer.py:122-128 | The count is that of the occurrences met from the left, each the first one after the end of the one before. |
| `JavaPatch.BorderlessCountsAll` | minecraft_mod_ai/artifact_materializer.py:122-128 | For an anchor that cannot overlap itself, counting once is occurring once. |
| `JavaPatch.BorderCountsOnce` | minecraft_mod_ai/artifact_materializer.py:122-128 | An anchor that overlaps itself occurs twice, yet counts once, in a text built from it. |
| `JavaPatch.AmbiguityTestIsExact` | minecraft_mod_ai/artifact_materializer.py:122-128 | The ambiguity test admits only texts where the anchor occurs once exactly when the anchor does not overlap itself. |
| `JavaPatch.PatchTextIsRight` | minecraft_mod_ai/artifact_materializer.py:122-136 | An anchor is reported missing exactly when it occurs nowhere and ambiguous exactly when it occurs again after its leftmost occurrence ends; an accepted one is replaced where it stands first, by the trimmed patch, which stands on a line of its own before it if it is kept. |
| `JavaPatch.JavaFile.MaterializeJavaPatch` | minecraft_mod_ai/artifact_materializer.py:105-148 | A missing file and every refusal leave the file as it was; otherwise the file holds the patched text. |
| `JavaPatch.AcceptedOnlyAdds` | minecraft_mod_ai/artifact_materializer.py:130-136 | For every anchor: an accepted patch that keeps it only adds a line, directly before its leftmost occurrence. |
| `JavaPatch.GoesBeforeExactly` | minecraft_mod_ai/artifact_materializer.py:122-136 | Accepted patches land before the anchor meant, in every text, exactly when the anchor does not overlap itself. |
| `JavaPatch.AccumulateExactly` | minecraft_mod_ai/artifact_materializer.py:122-136 | Accepted patches pile up in order before the anchor and touch nothing else, in every text, exactly when the anchor does not overlap itself. |
| `JavaMask.MaskedKeepsPositions` | minecraft_mod_ai/_source_edit_scalar_protocol_contract_core.py:440-494 | Masking keeps the length, and every character stays or becomes a blank. |
| `JavaMask.MaskedIsPlain` | minecraft_mod_ai/_source_edit_scalar_protocol_contract_core.py:440-494 | Masked text has no quote and no comment opener. |
| `JavaMask.MaskIdempotent` | minecraft_mod_ai/_source_edit_scalar_protocol_contract_core.py:440-494 | Masking masked text changes nothing. |
| `JavaMask.MaskSplits` | minecraft_mod_ai/_source_edit_scalar_protocol_contract_core.py:440-494 | Across a lexeme boundary the mask of the whole is the masks of the parts, the second from the state the first ended in. |
| `JavaMask.CleanCut` | minecraft_mod_ai/_source_edit_scalar_protocol_contract_core.py:450-459 | A cut is a lexeme boundary unless a slash or star stands on both sides. |
| `JavaMask.TurnIsLexeme` | minecraft_mod_ai/_source_edit_scalar_protocol_contract_core.py:446-493 | One turn of the loop consumes exactly one lexeme and reaches its state. |
| `JavaMask.MaskInPlace` | minecraft_mod_ai/_source_edit_scalar_protocol_contract_core.py:440-494 | The in-place loop over a character array computes the mask, with which the token lemmas below deal. |
| `JavaTokens.LiteralEnds` | minecraft_mod_ai/_source_edit_scalar_protocol_contract_core.py:479-492 | A literal is blanked up to and including the first matching quote with an even number of backslashes before it, and what follows is program text. |
| `JavaTokens.LineCommentEnds` | minecraft_mod_ai/_source_edit_scalar_protocol_contract_core.py:467-471 | A line comment is blanked up to the first line feed, where program text goes on. |
| `JavaTokens.BlockCommentEnds` | minecraft_mod_ai/_source_edit_scalar_protocol_contract_core.py:472-479 | A block comment is blanked, line feeds aside, up to and including the first star and slash after its opener. |
| `JavaTokens.TokensAreUnique` | minecraft_mod_ai/_source_edit_scalar_protocol_contract_core.py:440-494 | A text can be read in only one way as program characters, comments and literals, each ending by position alone as stated. |
| `JavaTokens.MaskFollowsTokens` | minecraft_mod_ai/_source_edit_scalar_protocol_contract_core.py:440-494 | Masking leaves exactly what these tokens leave, and ends as program text exactly when the last token is closed. |
| `JavaTokens.KeptExactlyOfProgram` | minecraft_mod_ai/_source_edit_scalar_protocol_contract_core.py:440-494 | A visible character survives exactly when it is a program character, outside every comment and literal. |
| `JavaType.TypeOpensAtDeclaration` | minecraft_mod_ai/_source_edit_scalar_protocol_contract_core.py:87-89 | An opening is reported at a position exactly when a keyword at a word edge, white space, an identifier and no semicolon or brace lead from there to it. |
| `JavaType.LeftmostDeclarationOpens` | minecraft_mod_ai/_source_edit_scalar_protocol_contract_core.py:87-89 | The opening found is that of the leftmost declaration, and there is none only if nothing is declared. |
| `JavaType.OpeningStays` | minecraft_mod_ai/_source_edit_scalar_protocol_contract_core.py:87-89 | The opening of the outer type depends only on the text up to that brace. |
| `BraceScan.ScanFindsMatch` | minecraft_mod_ai/_source_edit_scalar_protocol_contract_core.py:505-516 | The depth counter stops exactly at the first brace that balances the count of braces, and otherwise ends at that count. |
| `BraceScan.NetCounts` | minecraft_mod_ai/_source_edit_scalar_protocol_contract_core.py:505-516 | The net depth is the number of opening braces less the number of closing ones. |
| `BraceScan.ScanSplits` | minecraft_mod_ai/_source_edit_scalar_protocol_contract_core.py:505-516 | A scan that closes ignores what follows; one that does not goes on from its depth. |
| `JavaInsert.CountDepth` | minecraft_mod_ai/_source_edit_scalar_protocol_contract_core.py:505-516 | The depth loop returns the matching brace or reports that there is none. |
| `JavaInsert.OuterTypeClose` | minecraft_mod_ai/_source_edit_scalar_protocol_contract_core.py:497-516 | With comments and literals blanked by position, the closing brace is the first that balances the braces from the opening of the leftmost type declaration; no declaration or no balance is reported exactly when there is none. |
| `JavaInsert.CloseIsOfProgram` | minecraft_mod_ai/_source_edit_scalar_protocol_contract_core.py:497-516 | The closing brace found is a program character, never part of a comment or literal. |
| `JavaMember.CleanMember` | minecraft_mod_ai/_source_edit_scalar_protocol_contract_core.py:559-571 | The member's code is its lines without import and package lines, stripped. |
| `JavaMember.MemberLinesInOrder` | minecraft_mod_ai/_source_edit_scalar_protocol_contract_core.py:559-571 | The lines kept are exactly those that start neither with import nor with package, in their order. |
| `JavaMember.CodeHasNoImports` | minecraft_mod_ai/_source_edit_scalar_protocol_contract_core.py:559-571 | No line of the member's code, after joining and stripping, starts with import or package. |
| `JavaMember.FormatMember` | minecraft_mod_ai/_source_edit_scalar_protocol_contract_core.py:589-592 | The block is the code with every non-empty line indented by four and the end stripped. |
| `JavaMember.JoinThenSplit` | minecraft_mod_ai/_source_edit_scalar_protocol_contract_core.py:571-592 | Lines joined by line feeds split again into the same lines, unless the last one is empty. |
| `JavaMember.BlockKeepsLines` | minecraft_mod_ai/_source_edit_scalar_protocol_contract_core.py:589-592 | The lines of the inserted block are the lines of the member's code in order, each non-empty one indented by four. |
| `JavaMember.BlockShows` | minecraft_mod_ai/_source_edit_scalar_protocol_contract_core.py:559-594 | The block shows the member's own lines in their order, each non-empty one four blanks in: all that start neither with import nor package, except blank ones at either end; the first and the last lose their outer white space. |
| `JavaMember.NoCodeNoBlock` | minecraft_mod_ai/_source_edit_scalar_protocol_contract_core.py:589-594 | A member without a visible line of code gives no block. |
| `JavaInsert.InsertIsRight` | minecraft_mod_ai/_source_edit_scalar_protocol_contract_core.py:550-597 | What is inserted directly before the closing brace is those lines, set off from the text before by as many line feeds as it lacks to end with two. |
| `JavaInsert.InsertJavaMember` | minecraft_mod_ai/_source_edit_scalar_protocol_contract_core.py:550-597 | A blank member is refused, and so is a text whose outer type does not close; otherwise the member's lines, indented and set off, go directly before the closing brace, and nothing else changes. |
| `JavaSplice.PrefixIsInside` | minecraft_mod_ai/_source_edit_scalar_protocol_contract_core.py:586-588 | The text before the closing brace ends in program text directly inside the outer type. |
| `JavaSplice.RestDecides` | minecraft_mod_ai/_source_edit_scalar_protocol_contract_core.py:497-516 | From inside the outer type, what follows alone decides where the type closes. |
| `JavaSplice.CloseMovesExactly` | minecraft_mod_ai/_source_edit_scalar_protocol_contract_core.py:586-597 | The closing brace is the old one, moved by the inserted length, if and only if the inserted text lexes back to code and balances its own braces. |
| `JavaSplice.InsertMovesClose` | minecraft_mod_ai/_source_edit_scalar_protocol_contract_core.py:550-597 | For a member: the same brace closes the type, moved by the inserted length, if and only if the member's block is self-contained; masking then splits into prefix, block and suffix. |
| `JavaSplice.InsertsKeepOrder` | minecraft_mod_ai/_source_edit_scalar_protocol_contract_core.py:550-597 | Repeated insertions of self-contained members all stay inside the type, in order, before the original closing brace. |
| `JavaSplice.LoneBraceClosesEarly` | minecraft_mod_ai/_source_edit_scalar_protocol_contract_core.py:586-597 | With a lone closing brace as member the insertion is made and that brace then closes the type, in every text. |
| `JavaSplice.OneBlankLineBetween` | minecraft_mod_ai/_source_edit_scalar_protocol_contract_core.py:595-596 | After a first member every further one is set off by exactly one blank line. |
| `RecordSet.CompleteExactly` | minecraft_mod_ai/bounded_record_template.py:115-163 | A complete set is from the minimum to sixteen records, each admitted by the schema, without blank required text and, for content entities, with an id; no two have the same id, or for other templates the same content. |
| `RecordRules.FaultExactly` | minecraft_mod_ai/bounded_record_template.py:115-163 | A record is refused as invalid, as lacking its id or as a duplicate of an earlier one exactly when it is that. |
| `RecordSet.AdmitExtends` | minecraft_mod_ai/bounded_record_template.py:127-136 | A record without fault extends the set and adds its key to those taken. |
| `RecordSet.AdmitSaved` | minecraft_mod_ai/bounded_record_template.py:264-272 | The loop over saved records reports the first fault, if any. |
| `RecordSet.ReadSaved` | minecraft_mod_ai/bounded_record_template.py:197-275 | A saved checkpoint is fresh exactly when absent, a count exactly when it is that count alone, and a set exactly when it is the checkpoint of that complete set; anything else is rejected. |
| `RecordRules.RejectionExactly` | minecraft_mod_ai/bounded_record_template.py:197-272 | A saved checkpoint is refused for its shape, its count, its length or the fault of its first bad record exactly when it has that fault and none checked before it. |
| `RecordSet.CompleteMeansFullCheckpoint` | minecraft_mod_ai/bounded_record_template.py:236-272 | Exactly the checkpoint of a complete set is taken over as that set. |
| `RecordSet.CountMeansCountCheckpoint` | minecraft_mod_ai/bounded_record_template.py:274-275 | Exactly a checkpoint of that count alone is taken over as the count. |
| `RecordSet.Progress.StoreStaged` | minecraft_mod_ai/bounded_record_template.py:358-361 | Staged progress is filed under its record keys, the last write to each key staying; it leaves every record set's progress alone, and a cancelled run has done some of the writes in order. |
| `RecordSet.AuthoringFinishes` | minecraft_mod_ai/bounded_record_template.py:305-361 | Authoring finishes with these records exactly when they are as many as asked for, each the author's own answer, valid and with keys of their own. |
| `RecordSet.AuthoringFails` | minecraft_mod_ai/bounded_record_template.py:311-361 | Authoring fails for a reason exactly when the first answer not admitted is missing or faulty for that reason. |
| `RecordSet.AuthorRecords` | minecraft_mod_ai/bounded_record_template.py:305-361 | Unless cancelled, the loop comes to what authoring comes to, asking once for each ordinal up to the end or the first refused answer; a durable run files exactly the progress staged with the records accepted, in order, and any other run nothing. |
| `RecordSet.AuthorSet` | minecraft_mod_ai/bounded_record_template.py:299-370 | A count out of range authors nothing; a finished set is complete and saved whole; a failed one leaves what was saved. |
| `RecordSet.RunBoundedRecordTemplate` | minecraft_mod_ai/bounded_record_template.py:168-377 | Every run does what its saved state allows: a bad checkpoint or minimum is refused, a full one returned without any request, a saved count kept, a fresh count saved before authoring; any result is a set as promised, the progress filed is that of the accepted records, and other sets' progress is untouched. |
| `RecordSet.FreshRunIsDecided` | minecraft_mod_ai/bounded_record_template.py:276-370 | A fresh run that nobody cancels finishes exactly with the author's records if they are valid and distinct, fails otherwise for the first refused answer, and leaves the set or the count saved. |
| `RecordRules.FreshRunExactly` | minecraft_mod_ai/bounded_record_template.py:276-370 | The same on the records themselves: it finishes exactly with the author's own records that are meaningful, identified and all different, and fails for a reason exactly when after some such records the next answer is missing or has that fault. |
| `RecordRules.CountAsked` | minecraft_mod_ai/bounded_record_template.py:276-303 | A fresh run asks for the count once and fails there exactly when the answer is missing or no count from the minimum to sixteen. |
| `RecordSet.RunsStayResumable` | minecraft_mod_ai/bounded_record_template.py:197-370 | Runs never lock themselves out: from a resumable state every run, cancelled or failed, leaves a resumable one. |
| `RecordSet.ForeignCountIsRefused` | minecraft_mod_ai/bounded_record_template.py:294-303 | A saved count is refused as out of range exactly when it is, which only a checkpoint written elsewhere can be, and is then left as it is. |
| `RecordSet.RunThenResume` | minecraft_mod_ai/bounded_record_template.py:168-377 | A second run returns a finished set as it was without asking, and keeps a saved count whatever the model would answer now. |
| `Lines.SplitAfterLineFeed` | minecraft_mod_ai/agentic_optimization_contract.py:87 | Bytes cut just after a line feed split into the lines of the two parts. |
| `Lines.LineFeedsEndLines` | minecraft_mod_ai/agentic_optimization_contract.py:87 | There are at least as many lines as line feeds. |
| `Lines.SplitsAtEndings` | minecraft_mod_ai/agentic_optimization_contract.py:87 | Splitting gives exactly the lines: each runs to the next line-ending character, a carriage return with its line feed ends one line only, and the next starts right after. |
| `Lines.CountIsMultiplicity` | minecraft_mod_ai/agentic_optimization_contract.py:83 | Counting line feeds gives their number. |
| `Lines.LastLinesOfSuffix` | minecraft_mod_ai/agentic_optimization_contract.py:75-87 | A suffix with more than the wanted number of line feeds has the same last lines as the whole file, wherever it was cut. |
| `TailReader.ReadTail` | minecraft_mod_ai/agentic_optimization_contract.py:75-83 | The chunk loop returns a suffix that reaches the start or holds more line feeds than rows wanted, and reads no full chunk more than that takes. |
| `TailReader.DecodeRows` | minecraft_mod_ai/agentic_optimization_contract.py:86-95 | Rows are decoded in order and lines that do not decode are skipped. |
| `TailReader.RecentRows` | minecraft_mod_ai/agentic_optimization_contract.py:69-95 | For any file and any limit the chunked reader returns what splitting the whole file at once would; no limit or no file gives no rows. |
| `TailReader.RecentRowsExactly` | minecraft_mod_ai/agentic_optimization_contract.py:69-95 | What is read back: of the lines of the whole file, the last so many or all if there are fewer, those that decode, in order. |
| `TailReader.AppendedRowIsLast` | minecraft_mod_ai/agentic_optimization_contract.py:150-151 | A row appended with its line feed to complete lines is the last one read back. |

## Left out

- Threads, futures, work-unit deadlines, timeouts, cancellation budgets and pool shutdown: completions are steps, and every wait is assumed to return a non-empty batch.
- Ports published in the middle of a job's work: the model publishes a job's ports when its generation completes; the registry only grows, so a started job's inputs stay present either way.
- Several workers checking their required ports at the same moment: the check is made when the generation completes, and `GraphExecutor.StartedJobHasInputs` shows that it already holds when the job starts.
- Version contexts of jobs (`resolved_version_context.py`), except for the context bound to the registry; whether a receipt names its job's context, whether its file exists and what the host validator says are inputs (`Checks`).
- The maps of Java source ports given to consumers and the wiring of start-up classes after a run; their chain check is `Checkpoint.Store.SourceVerified`.
- Filesystem details: symbolic links, path resolution, temporary files, `fsync`, permissions, and the envelope digest of a record file.
- Checkpoint.Store.ExecuteCheckpointedJob: does not model restoring ports from a reused receipt, revalidating resource contracts on reuse, or running without a base directory, which only call code that is not part of this model.
- PatchChain.ReadJavaPatchHistory: does not model the recovery for records without a history field, because that reads every job record of an older layout.
- Patch receipts always name the hash they were applied to (`NamesItsBase`), because patching requires an existing file.
- DependencyGraph.ArtifactDependencyGraph.constructor: does not model ambiguous edges or the target context, because only reference resolution reads them.
- `build_from_files`, `resolve_and_link`, path classification and `is_mandatory_unresolved`: string tables that only supply edges.
- SccSearch.ComputeScc: does not model edges to unknown nodes, because `add_edge` only ever joins known ones.
- The recursion limit of Python for deep graphs in `strongconnect`.
- ArtifactJobs.ValidateArtifactJobGraph: does not model entries of `required_ports` that are not mappings, because the job's type admits none here.
- JsonFiles.DeepMergeDicts: does not model the order of keys, infinities, NaN or the rounding of floating-point numbers, because JSON objects are maps and floats are reals here; a merged file parses back to the document written.
- Other write operations (whole file, binary asset, array merge, exclusive create, replace by hash) and the dispatch between them: single guarded writes.
- JavaInsert.InsertJavaMember: does not model adding the member's import lines or the path suffix check; the text it is given already holds the imports.
- The word characters of the type-declaration search are a parameter, because they are Unicode tables.
- Java text blocks, which the masker does not handle either, and unicode escapes.
- The alias normalisation and fuzzy line matching of model source edits, which depend on a host patcher that is not part of this model.
- RecordSet.RunBoundedRecordTemplate: does not model evidence references, the reason text, deadlines of the worker, or the prompts; the schema validator is a predicate, and keys are compared as JSON values rather than as their canonical text.
- A record's staged progress is filed under bindings that never coincide with the binding of a record set.
- TailReader.RecentRows: does not model read errors half-way, which yield no rows, or the decoding of a line, which is a parameter.
- Rank fusion, repair scoring, template rendering, model routing, web interface and version tables.
