/** Runs of any jobs on one ledger, with reuses, failures, crashes and outside edits in between. */
module CheckpointRuns {
  import opened Optional
  import opened PatchChain
  import opened Checkpoint

  // ---------------------------------------------------------------- steps

  datatype Step =
    | Execute(job: Job, work: Execution, crash: CrashPoint)
    | Edit(path: Path, content: Option<Hash>)

  datatype World = World(files: map<Path, Hash>, ledger: LedgerState)

  predicate StepOk(step: Step) {
    match step
    case Execute(_, work, _) =>
      (work.target.Some? ==> WellFormed(work.target.value)) && (work.Returns? ==> NamesItsBase(work.receipt))
    case Edit(_, content) => content.Some? ==> WellFormed(content.value)
  }

  function BytesOf(w: World, path: Path): Option<Hash> {
    if path in w.files then Some(w.files[path]) else None
  }

  ghost function LineageOf(w: World, path: Path): set<Hash> {
    LineageAt(w.ledger.lineage, w.ledger.paths, path)
  }

  /** The end of an execution, by what it finds: reused, stopped before the work, or ended by the work. */
  ghost predicate EndIsRight(
    job: Job, work: Execution, crash: CrashPoint, prior: Option<JobCheckpoint>, current: Option<Hash>,
    published: map<Path, Hash>, result: Result)
  {
    var reusable := Reusable(job, prior, current, published);
    var runs := Admitted(job, prior, current, published) && !reusable;
    && (result.Reused? <==> reusable) && (reusable ==> result == Reused(prior.value.receipt))
    && (result.Executed? <==> runs && OutputMatches(job, work) && crash == NoCrash)
    && (result.Crashed? <==> runs && OutputMatches(job, work) && crash != NoCrash)
    && (result.Raised? <==> runs && work.Throws?)
    && (result == Refused(TargetMissing) <==> runs && work.Returns? && work.target.None?)
    && (result == Refused(OutputDrift) <==> runs && work.Returns? && work.target.Some? && !OutputMatches(job, work))
    && (result == Refused(AdaptRequired) <==> AdaptNeeded(job, prior))
    && (result == Refused(PrerequisiteUnverified) <==> SourceOpen(job, prior, published))
    && (result == Refused(TargetDrift) <==>
          !reusable && !runs && !AdaptNeeded(job, prior) && !SourceOpen(job, prior, published))
    && result != Refused(CheckpointCorrupt)
  }

  /** One step takes world `w` to `v`. */
  ghost predicate StepEnds(step: Step, result: Option<Result>, w: World, v: World) {
    match step
    case Edit(path, content) => result.None? && v == World(Rewritten(w.files, path, content), w.ledger)
    case Execute(job, work, crash) =>
      var prior := PriorIn(w.ledger.paths, w.ledger.jobs, job.id, job.target);
      var current, published := BytesOf(w, job.target), HashesOf(w.ledger.paths);
      && result.Some? && EndIsRight(job, work, crash, prior, current, published, result.value)
      && LeftBy(result.value, job, work, crash, current, w.ledger, v.ledger)
      && v.files == if Admitted(job, prior, current, published) && !Reusable(job, prior, current, published)
                    then Rewritten(w.files, job.target, work.target) else w.files
  }

  ghost function WorldOf(store: Store): World
    reads store
  {
    World(store.files, store.Now())
  }

  /** The row a step publishes for `path`: it commits, or crashes with the path record written. */
  function PublishedRow(path: Path, step: Step, result: Option<Result>, before: Option<Hash>): Option<Row> {
    if step.Execute? && step.job.target == path && ReturnsFile(step.work) && result.Some?
       && (result.value.Executed? || (result.value.Crashed? && step.crash == BeforeJobRecord))
    then Some(RowOf(CheckpointOf(step.job, step.work, before)))
    else None
  }

  method RunStep(store: Store, path: Path, step: Step) returns (result: Option<Result>, row: Option<Row>)
    requires store.Valid() && StepOk(step)
    modifies store
    ensures store.Valid() && StepEnds(step, result, old(WorldOf(store)), WorldOf(store))
    ensures row == PublishedRow(path, step, result, old(BytesOf(WorldOf(store), path)))
  {
    hide WellFormed, LineageOk, FilesOk, RecordsOk, IndexOk, LineagesOk, Reusable, Admitted, Recorded, Rewritten,
         OutputMatches, NamesItsBase, HashesOf, PriorIn, RowOf, AdaptNeeded, SourceOpen;
    var before := store.CurrentSha(path);
    match step {
      case Edit(edited, content) =>
        store.OutsideEdit(edited, content);
        result := None;
      case Execute(job, work, crash) =>
        var ended := store.ExecuteCheckpointedJob(job, work, crash);
        result := Some(ended);
    }
    row := PublishedRow(path, step, result, before);
  }

  /** The lineage after a record published with this row. */
  function LineageWith(before: set<Hash>, row: Row): set<Hash>
    requires row.after.Some?
  {
    if row.operation == JAVA_PATCH then before + {row.after.value} else {row.after.value}
  }

  lemma RowExtendsLineage(before: set<Hash>, checkpoint: JobCheckpoint)
    ensures RowOf(checkpoint).after == Some(checkpoint.afterHash)
    ensures NextLineage(before, checkpoint) == LineageWith(before, RowOf(checkpoint))
  {
    assert JAVA_PATCH != "whole_file" by {
      assert |JAVA_PATCH| == 10 && JAVA_PATCH[0] == 'j';
      assert "whole_file"[0] == 'w';
    }
  }

  /** Only a step that publishes to `path` changes what is known of that path. */
  lemma StepKeepsLineage(path: Path, step: Step, result: Option<Result>, w: World, v: World)
    requires IsJava(path) && StepEnds(step, result, w, v)
    ensures var row := PublishedRow(path, step, result, BytesOf(w, path));
            && (row.None? ==> LineageOf(v, path) == LineageOf(w, path)
                              && (path in v.ledger.paths <==> path in w.ledger.paths))
            && (row.Some? ==> row.value.after.Some? && LineageOf(v, path) == LineageWith(LineageOf(w, path), row.value))
  {
    hide EndIsRight, Rewritten, NextLineage, RowOf, PatchEdgeOf, LineageWith, Admitted, Reusable;
    if step.Execute? && ReturnsFile(step.work) {
      RowExtendsLineage(LineageOf(w, path), CheckpointOf(step.job, step.work, BytesOf(w, step.job.target)));
    }
  }

  // ---------------------------------------------------------------- whole runs

  /** The worlds a series of steps goes through. */
  ghost predicate Trace(steps: seq<Step>, results: seq<Option<Result>>, worlds: seq<World>) {
    && |results| == |steps| && |worlds| == |steps| + 1
    && forall k :: 0 <= k < |steps| ==> StepEnds(steps[k], results[k], worlds[k], worlds[k + 1])
  }

  /** The rows published for `path` since its last commit that was not a patch, that commit included. */
  ghost function Chain(path: Path, steps: seq<Step>, results: seq<Option<Result>>, worlds: seq<World>): seq<Row>
    requires |results| == |steps| && |worlds| == |steps| + 1
  {
    if steps == [] then []
    else
      var k := |steps| - 1;
      var row := PublishedRow(path, steps[k], results[k], BytesOf(worlds[k], path));
      Chained(Chain(path, steps[..k], results[..k], worlds[..k + 1]), row)
  }

  function Chained(earlier: seq<Row>, row: Option<Row>): seq<Row> {
    if row.None? then earlier
    else if row.value.operation == JAVA_PATCH then earlier + [row.value]
    else [row.value]
  }

  ghost predicate Publishes(
    path: Path, steps: seq<Step>, results: seq<Option<Result>>, worlds: seq<World>, k: nat, row: Row)
    requires k < |steps| == |results| && |worlds| == |steps| + 1
  {
    PublishedRow(path, steps[k], results[k], BytesOf(worlds[k], path)) == Some(row)
  }

  /** Step `k` publishes the row, and every later one that publishes for the path publishes a patch. */
  ghost predicate Lasts(
    path: Path, steps: seq<Step>, results: seq<Option<Result>>, worlds: seq<World>, k: nat, row: Row)
    requires k < |steps| == |results| && |worlds| == |steps| + 1
  {
    && Publishes(path, steps, results, worlds, k, row)
    && forall m: nat, later :: k < m < |steps| && Publishes(path, steps, results, worlds, m, later) ==>
         later.operation == "java_patch"
  }

  lemma LastsShorter(
    path: Path, steps: seq<Step>, results: seq<Option<Result>>, worlds: seq<World>, k: nat, row: Row)
    requires |results| == |steps| && |worlds| == |steps| + 1 && k < |steps| - 1
    requires Lasts(path, steps, results, worlds, k, row)
    ensures var n := |steps| - 1; Lasts(path, steps[..n], results[..n], worlds[..n + 1], k, row)
    ensures forall last :: Publishes(path, steps, results, worlds, |steps| - 1, last) ==> last.operation == "java_patch"
  {
    hide PublishedRow, BytesOf;
    var n := |steps| - 1;
    var shorter, ends, seen := steps[..n], results[..n], worlds[..n + 1];
    assert Publishes(path, shorter, ends, seen, k, row);
    forall m: nat, later | k < m < n && Publishes(path, shorter, ends, seen, m, later)
      ensures later.operation == "java_patch"
    {
      assert Publishes(path, steps, results, worlds, m, later);
    }
    forall last | Publishes(path, steps, results, worlds, n, last) ensures last.operation == "java_patch" {
    }
  }

  lemma LastsLonger(
    path: Path, steps: seq<Step>, results: seq<Option<Result>>, worlds: seq<World>, k: nat, row: Row)
    requires |results| == |steps| && |worlds| == |steps| + 1 && k < |steps| - 1
    requires var n := |steps| - 1; Lasts(path, steps[..n], results[..n], worlds[..n + 1], k, row)
    requires forall last :: Publishes(path, steps, results, worlds, |steps| - 1, last) ==> last.operation == "java_patch"
    ensures Lasts(path, steps, results, worlds, k, row)
  {
    hide PublishedRow, BytesOf;
    var n := |steps| - 1;
    forall m: nat, later | k < m < |steps| && Publishes(path, steps, results, worlds, m, later)
      ensures later.operation == "java_patch"
    {
      if m < n {
        assert Publishes(path, steps[..n], results[..n], worlds[..n + 1], m, later);
      }
    }
  }

  /** The chain holds exactly the rows published with nothing but patches published after them. */
  lemma {:induction false} ChainExactly(
    path: Path, steps: seq<Step>, results: seq<Option<Result>>, worlds: seq<World>, row: Row)
    requires |results| == |steps| && |worlds| == |steps| + 1
    ensures row in Chain(path, steps, results, worlds)
            <==> exists k: nat :: k < |steps| && Lasts(path, steps, results, worlds, k, row)
  {
    if steps != [] {
      var n := |steps| - 1;
      var earlier := Chain(path, steps[..n], results[..n], worlds[..n + 1]);
      ChainExactly(path, steps[..n], results[..n], worlds[..n + 1], row);
      LastRow(path, steps, results, worlds, earlier);
      hide PublishedRow, BytesOf, Lasts, Publishes;
      if row in Chain(path, steps, results, worlds) {
        if Publishes(path, steps, results, worlds, n, row) {
          LastIsLast(path, steps, results, worlds, row);
          assert Lasts(path, steps, results, worlds, n, row);
        } else {
          var k: nat :| k < n && Lasts(path, steps[..n], results[..n], worlds[..n + 1], k, row);
          LastsLonger(path, steps, results, worlds, k, row);
        }
      }
      if k: nat :| k < |steps| && Lasts(path, steps, results, worlds, k, row) {
        if k < n {
          LastsShorter(path, steps, results, worlds, k, row);
        } else {
          LastPublishes(path, steps, results, worlds, row);
        }
      }
    }
  }

  lemma LastIsLast(path: Path, steps: seq<Step>, results: seq<Option<Result>>, worlds: seq<World>, row: Row)
    requires 0 < |steps| == |results| && |worlds| == |steps| + 1
    requires Publishes(path, steps, results, worlds, |steps| - 1, row)
    ensures Lasts(path, steps, results, worlds, |steps| - 1, row)
  {
  }

  lemma LastPublishes(path: Path, steps: seq<Step>, results: seq<Option<Result>>, worlds: seq<World>, row: Row)
    requires 0 < |steps| == |results| && |worlds| == |steps| + 1
    requires Lasts(path, steps, results, worlds, |steps| - 1, row)
    ensures Publishes(path, steps, results, worlds, |steps| - 1, row)
  {
  }

  /** What the last step makes of the chain so far. */
  lemma LastRow(
    path: Path, steps: seq<Step>, results: seq<Option<Result>>, worlds: seq<World>, earlier: seq<Row>)
    requires 0 < |steps| == |results| && |worlds| == |steps| + 1
    requires var n := |steps| - 1; earlier == Chain(path, steps[..n], results[..n], worlds[..n + 1])
    ensures forall row :: row in Chain(path, steps, results, worlds)
              <==> || Publishes(path, steps, results, worlds, |steps| - 1, row)
                   || (row in earlier && forall last :: Publishes(path, steps, results, worlds, |steps| - 1, last) ==>
                                           last.operation == "java_patch")
  {
    hide PublishedRow, BytesOf;
    var n := |steps| - 1;
    var published := PublishedRow(path, steps[n], results[n], BytesOf(worlds[n], path));
    if published.Some? {
      assert Publishes(path, steps, results, worlds, n, published.value);
    }
  }

  ghost predicate InLineage(rows: seq<Row>, lineage: set<Hash>) {
    forall k :: 0 <= k < |rows| ==> rows[k].after.Some? && rows[k].after.value in lineage
  }

  lemma ChainGrows(rows: seq<Row>, row: Option<Row>, before: set<Hash>, after: set<Hash>)
    requires InLineage(rows, before)
    requires row.None? ==> after == before
    requires row.Some? ==> row.value.after.Some? && after == LineageWith(before, row.value)
    ensures InLineage(Chained(rows, row), after)
  {
  }

  /** Whatever ran in between: everything published for `path` since its last commit that was not a patch
      is in the lineage of its bytes. */
  lemma {:induction false} TraceKeepsLineage(
    path: Path, steps: seq<Step>, results: seq<Option<Result>>, worlds: seq<World>)
    requires IsJava(path) && Trace(steps, results, worlds)
    ensures InLineage(Chain(path, steps, results, worlds), LineageOf(worlds[|steps|], path))
  {
    hide StepEnds, PublishedRow, LineageOf, Chained, InLineage, LineageWith;
    if steps == [] {
      NothingChained(LineageOf(worlds[0], path));
    } else {
      var k := |steps| - 1;
      var row := PublishedRow(path, steps[k], results[k], BytesOf(worlds[k], path));
      TraceKeepsLineage(path, steps[..k], results[..k], worlds[..k + 1]);
      StepKeepsLineage(path, steps[k], results[k], worlds[k], worlds[k + 1]);
      ChainGrows(Chain(path, steps[..k], results[..k], worlds[..k + 1]), row,
                 LineageOf(worlds[k], path), LineageOf(worlds[k + 1], path));
    }
  }

  lemma NothingChained(lineage: set<Hash>)
    ensures InLineage([], lineage)
  {
  }

  lemma ChainStep(path: Path, steps: seq<Step>, results: seq<Option<Result>>, worlds: seq<World>, k: nat,
                  result: Option<Result>, world: World)
    requires k < |steps| && |results| == k && |worlds| == k + 1
    ensures Chain(path, steps[..k + 1], results + [result], worlds + [world])
            == Chained(Chain(path, steps[..k], results, worlds),
                       PublishedRow(path, steps[k], result, BytesOf(worlds[k], path)))
  {
    assert steps[..k + 1][..k] == steps[..k];
    assert (results + [result])[..k] == results && (worlds + [world])[..k + 1] == worlds;
  }

  /** Any steps in any order. */
  method RunSteps(store: Store, path: Path, steps: seq<Step>)
    returns (results: seq<Option<Result>>, chain: seq<Row>, ghost worlds: seq<World>)
    requires store.Valid() && IsJava(path) && forall k :: 0 <= k < |steps| ==> StepOk(steps[k])
    modifies store
    ensures store.Valid() && Trace(steps, results, worlds)
    ensures worlds[0] == old(WorldOf(store)) && worlds[|steps|] == WorldOf(store)
    ensures chain == Chain(path, steps, results, worlds)
  {
    hide StepOk, StepEnds, PublishedRow, Chain, Chained, IsJava;
    results, chain, worlds := [], [], [WorldOf(store)];
    NothingYet(path, WorldOf(store));
    for k := 0 to |steps|
      invariant store.Valid() && Trace(steps[..k], results, worlds)
      invariant worlds[0] == old(WorldOf(store)) && worlds[k] == WorldOf(store)
      invariant chain == Chain(path, steps[..k], results, worlds)
    {
      var result, row := RunStep(store, path, steps[k]);
      ChainStep(path, steps, results, worlds, k, result, WorldOf(store));
      results, chain, worlds := results + [result], Chained(chain, row), worlds + [WorldOf(store)];
    }
    assert steps[..|steps|] == steps;
  }

  lemma NothingYet(path: Path, world: World)
    ensures Chain(path, [], [], [world]) == []
  {
  }

  /** After any steps, any selection of the rows published since the last commit that was not a patch is
      certified for the file, as long as it has its recorded bytes. */
  method RunStepsAndVerify(store: Store, path: Path, steps: seq<Step>, select: seq<Row> -> seq<Row>)
    returns (results: seq<Option<Result>>, verified: bool, ghost worlds: seq<World>)
    requires store.Valid() && IsJava(path) && forall k :: 0 <= k < |steps| ==> StepOk(steps[k])
    requires forall all, row :: row in select(all) ==> row in all
    modifies store
    ensures store.Valid() && Trace(steps, results, worlds)
    ensures worlds[0] == old(WorldOf(store)) && worlds[|steps|] == WorldOf(store)
    ensures path in store.files && path in store.paths && store.files[path] == store.paths[path].sha256 ==> verified
  {
    hide WellFormed, LineageOk, Chain, FilesOk, RecordsOk, IndexOk, LineagesOk, StepEnds, StepOk;
    var chain;
    results, chain, worlds := RunSteps(store, path, steps);
    var receipts := select(chain);
    TraceKeepsLineage(path, steps, results, worlds);
    SelectionInLineage(chain, receipts, LineageOf(WorldOf(store), path));
    verified := store.SourceVerified(path, receipts);
  }

  lemma SelectionInLineage(all: seq<Row>, receipts: seq<Row>, lineage: set<Hash>)
    requires InLineage(all, lineage) && forall row :: row in receipts ==> row in all
    ensures InLineage(receipts, lineage)
  {
    forall k | 0 <= k < |receipts| ensures receipts[k].after.Some? && receipts[k].after.value in lineage {
      assert receipts[k] in all;
      var j :| 0 <= j < |all| && all[j] == receipts[k];
    }
  }

  // ---------------------------------------------------------------- running a job again after a crash

  /** With the path record written, the rerun returns the first receipt. Without it nothing is remembered: if
      the file has other bytes than those last published for it, the rerun refuses them as drift; otherwise the
      job is executed a second time. */
  method RerunAfterCrash(store: Store, job: Job, work: Execution, crash: CrashPoint, again: Execution)
    returns (first: Result, second: Result)
    requires store.Valid() && StepOk(Execute(job, work, crash)) && StepOk(Execute(job, again, NoCrash))
    requires crash != NoCrash
    modifies store
    ensures store.Valid()
    ensures first.Crashed? && crash == BeforeJobRecord ==> work.Returns? && second == Reused(work.receipt)
    ensures (first.Crashed? && crash == BeforePathRecord && job.target in old(store.paths)
             && work.target != Some(old(store.paths)[job.target].sha256)) ==> second == Refused(TargetDrift)
    ensures (first.Crashed? && crash == BeforePathRecord
             && (job.target in old(store.paths) ==> work.target == Some(old(store.paths)[job.target].sha256)))
            ==> !second.Reused? && (second.Executed? <==> OutputMatches(job, again))
  {
    hide WellFormed, LineageOk, FilesOk, RecordsOk, IndexOk, LineagesOk, NextLineage;
    first := store.ExecuteCheckpointedJob(job, work, crash);
    second := store.ExecuteCheckpointedJob(job, again, NoCrash);
  }

  /** A checkpoint remembers what the job was run under: after an execution, the same job under other inputs
      is refused exactly when the approved ones differ, or when a source it reads has neither the hash of the
      first run nor a backed one. */
  method RerunWithChanges(store: Store, job: Job, work: Execution, changed: Job, again: Execution)
    returns (first: Result, second: Result, ghost published: map<Path, Hash>)
    requires store.Valid() && StepOk(Execute(job, work, NoCrash)) && StepOk(Execute(changed, again, NoCrash))
    requires changed.id == job.id && changed.target == job.target && changed.inputHash != job.inputHash
    modifies store
    ensures store.Valid()
    ensures first.Executed? ==> !second.Reused?
    ensures first.Executed? ==>
              (second == Refused(AdaptRequired) <==> changed.approvedInputHash != job.approvedInputHash)
    ensures first.Executed? && changed.approvedInputHash == job.approvedInputHash ==>
              (second == Refused(PrerequisiteUnverified) <==>
               exists source :: source in changed.sources && !SourceBacked(changed, job.sources, published, source))
    ensures first.Executed? ==>
              work.Returns? && work.target.Some?
              && published == HashesOf(old(store.paths))[job.target := work.target.value]
  {
    hide WellFormed, LineageOk, FilesOk, RecordsOk, IndexOk, LineagesOk, NextLineage, SourceBacked;
    first := store.ExecuteCheckpointedJob(job, work, NoCrash);
    published := store.Published();
    if first.Executed? {
      HashesGrow(old(store.paths), job.target, store.paths[job.target]);
    }
    second := store.ExecuteCheckpointedJob(changed, again, NoCrash);
  }
}
