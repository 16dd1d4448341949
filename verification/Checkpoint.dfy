/** The durable ledger of executed jobs: per-path records that publish a target's hash together with
    the receipt that produced it, and a per-job index. */
module Checkpoint {
  import opened Optional
  import opened Digraph
  import opened PatchChain

  type Path = string
  type JobId = string

  datatype Materialization =
    Materialization(operation: string, path: Path, before: Option<Hash>, after: Option<Hash>)

  datatype JobReceipt = JobReceipt(status: string, materialization: Option<Materialization>, contents: string)

  datatype JobCheckpoint = JobCheckpoint(
    inputHash: string,
    approvedInputHash: string,
    fingerprint: Option<string>,
    sources: map<Path, Option<Hash>>,
    targetPath: Path,
    beforeHash: Option<Hash>,
    afterHash: Hash,
    receipt: JobReceipt)

  datatype PathRecord = PathRecord(sha256: Hash, jobId: JobId, checkpoint: JobCheckpoint, history: seq<Row>)

  /** A job as the ledger sees it: identity, target and the digests of everything it depends on. */
  datatype Job = Job(
    id: JobId,
    target: Path,
    isGenerator: bool,
    ownsFile: bool,                            // a generator whose operation creates or replaces the file
    inputHash: string,
    approvedInputHash: string,
    fingerprint: Option<string>,
    sources: map<Path, Option<Hash>>,          // current hashes of the source files it reads
    verifiedSources: map<Path, Hash>)

  /** What executing a job does to its target: possibly raise, possibly after writing. */
  datatype Execution =
    | Throws(target: Option<Hash>)
    | Returns(target: Option<Hash>, receipt: JobReceipt)

  datatype CrashPoint = NoCrash | BeforePathRecord | BeforeJobRecord

  datatype LedgerError =
    | AdaptRequired | PrerequisiteUnverified | TargetDrift | TargetMissing | OutputDrift | CheckpointCorrupt

  datatype Result =
    | Reused(receipt: JobReceipt)
    | Executed(receipt: JobReceipt)
    | Refused(error: LedgerError)
    | Raised
    | Crashed

  const JAVA_SUFFIX := ".java"

  predicate IsJava(path: Path) {
    |path| >= |JAVA_SUFFIX| && path[|path| - |JAVA_SUFFIX|..] == JAVA_SUFFIX
  }

  /** The edge a checkpoint contributes: only a passed patch of this very path with matching hashes. */
  function PatchEdgeOf(checkpoint: JobCheckpoint, relative: Path): Option<Row> {
    var receipt := checkpoint.receipt;
    if receipt.status != "PASS" || checkpoint.targetPath != relative || receipt.materialization.None? then None
    else
      var mat := receipt.materialization.value;
      if mat.operation != JAVA_PATCH || mat.before != checkpoint.beforeHash
         || mat.after != Some(checkpoint.afterHash) || mat.path != relative
      then None
      else Some(Row(mat.operation, mat.before, mat.after))
  }

  /** Exactly the paths that end in `.java`. */
  lemma IsJavaExactly(path: Path)
    ensures IsJava(path) <==> exists stem: string :: path == stem + ".java"
  {
    if IsJava(path) {
      var stem := path[..|path| - 5];
      assert path == stem + path[|path| - 5..];
    }
    if stem: string :| path == stem + ".java" {
      assert path[|stem|..] == ".java";
    }
  }

  /** A checkpoint contributes an edge exactly when it passed, for this very path, with a materialized patch of
      this path from the bytes before it to the bytes after it. */
  lemma PatchEdgeExactly(checkpoint: JobCheckpoint, relative: Path, row: Row)
    ensures PatchEdgeOf(checkpoint, relative) == Some(row)
            <==> && checkpoint.receipt.status == "PASS" && checkpoint.targetPath == relative
                 && row == Row("java_patch", checkpoint.beforeHash, Some(checkpoint.afterHash))
                 && checkpoint.receipt.materialization
                    == Some(Materialization("java_patch", relative, checkpoint.beforeHash, Some(checkpoint.afterHash)))
  {
  }

  /** The receipt row by which a commit is judged later. */
  function RowOf(checkpoint: JobCheckpoint): Row {
    Row(if PatchEdgeOf(checkpoint, checkpoint.targetPath).Some? then JAVA_PATCH else "whole_file",
        checkpoint.beforeHash, Some(checkpoint.afterHash))
  }

  function LedgerOf(paths: map<Path, PathRecord>, relative: Path): Option<Ledger> {
    if relative in paths then Some(Ledger(paths[relative].sha256, paths[relative].history)) else None
  }

  // ---------------------------------------------------------------- what to do with an earlier checkpoint

  datatype Decision = Stop(error: LedgerError) | Reuse | Proceed

  function SourceHash(sources: map<Path, Option<Hash>>, path: Path): Option<Hash> {
    if path in sources then sources[path] else None
  }

  /** A changed source is admitted only if its current hash is the published or a verified one. */
  predicate SourceProven(job: Job, prior: JobCheckpoint, published: map<Path, Hash>, source: Path)
    requires source in job.sources
  {
    var value := job.sources[source];
    var proof := if source in published then Some(published[source])
                 else if source in job.verifiedSources then Some(job.verifiedSources[source]) else None;
    value == SourceHash(prior.sources, source) || (value.Some? && proof == value)
  }

  function Decide(
    job: Job, prior: Option<JobCheckpoint>, current: Option<Hash>, published: map<Path, Hash>): Decision
  {
    var recorded := if job.target in published then Some(published[job.target]) else None;
    if prior.None? then
      if recorded.Some? && current != recorded then Stop(TargetDrift) else Proceed
    else
      var known := prior.value;
      var refreshing := known.inputHash != job.inputHash || known.fingerprint != job.fingerprint;
      if known.inputHash != job.inputHash && known.approvedInputHash != job.approvedInputHash then Stop(AdaptRequired)
      else if known.inputHash != job.inputHash
              && exists source :: source in job.sources && !SourceProven(job, known, published, source)
      then Stop(PrerequisiteUnverified)
      else if current.None? || recorded != current then Stop(TargetDrift)
      else if refreshing && job.isGenerator && job.ownsFile && current != Some(known.afterHash) then Stop(TargetDrift)
      else if refreshing then Proceed
      else Reuse
  }

  /** A source the job reads has the hash the earlier checkpoint saw, or exists with the hash its record
      publishes or, when nothing is published for it, with the hash verified for it. */
  ghost predicate SourceBacked(
    job: Job, earlier: map<Path, Option<Hash>>, published: map<Path, Hash>, source: Path)
    requires source in job.sources
  {
    var now := job.sources[source];
    || (source in earlier && earlier[source] == now)
    || (source !in earlier && now.None?)
    || (now.Some? && source in published && published[source] == now.value)
    || (now.Some? && source !in published && source in job.verifiedSources && job.verifiedSources[source] == now.value)
  }

  lemma ProvenIsBacked(job: Job, prior: JobCheckpoint, published: map<Path, Hash>, source: Path)
    requires source in job.sources
    ensures SourceProven(job, prior, published, source) <==> SourceBacked(job, prior.sources, published, source)
  {
  }

  /** An earlier result still stands: same inputs, same implementation, and the target has the
      bytes last published for it. */
  ghost predicate Reusable(job: Job, prior: Option<JobCheckpoint>, current: Option<Hash>, published: map<Path, Hash>) {
    && prior.Some? && prior.value.inputHash == job.inputHash && prior.value.fingerprint == job.fingerprint
    && job.target in published && current == Some(published[job.target])
  }

  /** Executing may replace the target's bytes: nobody else changed them, the approved inputs are the
      same, every changed source is proven, and a generator that owns the file owns these very bytes. */
  ghost predicate Admitted(job: Job, prior: Option<JobCheckpoint>, current: Option<Hash>, published: map<Path, Hash>) {
    && (job.target in published ==> current == Some(published[job.target]))
    && (prior.Some? ==>
          && current.Some? && job.target in published
          && (prior.value.inputHash == job.inputHash
              || (prior.value.approvedInputHash == job.approvedInputHash
                  && forall source :: source in job.sources ==> SourceBacked(job, prior.value.sources, published, source)))
          && (job.isGenerator && job.ownsFile ==> current == Some(prior.value.afterHash)))
  }

  /** The approved inputs of the earlier result have changed. */
  ghost predicate AdaptNeeded(job: Job, prior: Option<JobCheckpoint>) {
    prior.Some? && prior.value.inputHash != job.inputHash && prior.value.approvedInputHash != job.approvedInputHash
  }

  /** Only sources have changed, and one of the changes is not proven. */
  ghost predicate SourceOpen(job: Job, prior: Option<JobCheckpoint>, published: map<Path, Hash>) {
    && prior.Some? && prior.value.inputHash != job.inputHash && prior.value.approvedInputHash == job.approvedInputHash
    && exists source :: source in job.sources && !SourceBacked(job, prior.value.sources, published, source)
  }

  /** Reuse comes first, then execution when it is admitted; anything else stops, for the first reason there is. */
  lemma DecideIsRight(job: Job, prior: Option<JobCheckpoint>, current: Option<Hash>, published: map<Path, Hash>)
    ensures var decision := Decide(job, prior, current, published);
            && (decision == Reuse <==> Reusable(job, prior, current, published))
            && (decision == Proceed <==>
                  Admitted(job, prior, current, published) && !Reusable(job, prior, current, published))
            && (decision.Stop? ==> !Admitted(job, prior, current, published)
                                   && decision.error in {AdaptRequired, PrerequisiteUnverified, TargetDrift})
            && (decision == Stop(AdaptRequired) <==> AdaptNeeded(job, prior))
            && (decision == Stop(PrerequisiteUnverified) <==> SourceOpen(job, prior, published))
  {
    hide SourceProven, SourceBacked;
    if prior.Some? {
      forall source | source in job.sources
        ensures SourceProven(job, prior.value, published, source) <==> SourceBacked(job, prior.value.sources, published, source)
      {
        ProvenIsBacked(job, prior.value, published, source);
      }
    }
  }

  /** The work leaves a file behind and, for a generator, the receipt names those very bytes. */
  predicate OutputMatches(job: Job, work: Execution) {
    && work.Returns? && work.target.Some?
    && (job.isGenerator ==> work.receipt.materialization.Some? && work.receipt.materialization.value.after == work.target)
  }

  /** A job that is executed and committed, unless the process crashes. */
  ghost predicate Runs(
    job: Job, work: Execution, prior: Option<JobCheckpoint>, current: Option<Hash>, published: map<Path, Hash>)
  {
    Admitted(job, prior, current, published) && !Reusable(job, prior, current, published) && OutputMatches(job, work)
  }

  function CheckpointOf(job: Job, work: Execution, before: Option<Hash>): JobCheckpoint
    requires work.Returns? && work.target.Some?
  {
    JobCheckpoint(job.inputHash, job.approvedInputHash, job.fingerprint, job.sources, job.target, before,
                  work.target.value, work.receipt)
  }

  // ---------------------------------------------------------------- the ledger

  /** The ledger at one moment. */
  datatype LedgerState = LedgerState(
    paths: map<Path, PathRecord>, jobs: map<JobId, JobCheckpoint>, lineage: map<Path, set<Hash>>,
    executed: set<(JobId, JobCheckpoint)>)

  function Rewritten(files: map<Path, Hash>, path: Path, content: Option<Hash>): map<Path, Hash> {
    if content.Some? then files[path := content.value] else files - {path}
  }

  /** A path record agrees with the job checkpoint embedded in it. */
  predicate RecordAgrees(relative: Path, record: PathRecord) {
    record.checkpoint.targetPath == relative && record.checkpoint.afterHash == record.sha256
  }

  /** For a Java path: every recorded row is a proper patch surviving to the published hash, and so
      does every version committed since the last commit that was not a patch. */
  ghost predicate LineageOk(record: PathRecord, lineage: set<Hash>) {
    && WellFormed(record.sha256)
    && HistoryOk(record.history, record.sha256) && NoRepeats(record.history)
    && record.sha256 in lineage
    && forall version :: version in lineage ==>
         WellFormed(version) && Survives(record.history, record.sha256, version)
  }

  ghost function LineageAt(lineage: map<Path, set<Hash>>, paths: map<Path, PathRecord>, path: Path): set<Hash> {
    if path in paths && path in lineage then lineage[path] else {}
  }

  /** A patch adds its version to the lineage; any other commit starts a new one. */
  ghost function NextLineage(before: set<Hash>, checkpoint: JobCheckpoint): set<Hash> {
    if PatchEdgeOf(checkpoint, checkpoint.targetPath).Some? then before + {checkpoint.afterHash}
    else {checkpoint.afterHash}
  }

  /** The history stored with a commit: the kept earlier patches and this one, or nothing. */
  ghost predicate NextHistory(kept: seq<Row>, checkpoint: JobCheckpoint, history: seq<Row>) {
    var edge := PatchEdgeOf(checkpoint, checkpoint.targetPath);
    if edge.None? then history == []
    else forall row :: row in history <==> row in kept || row == edge.value
  }

  function HashesOf(paths: map<Path, PathRecord>): map<Path, Hash> {
    map p | p in paths :: paths[p].sha256
  }

  /** The checkpoint embedded in the target's record wins over the jobs index. */
  function PriorIn(
    paths: map<Path, PathRecord>, jobs: map<JobId, JobCheckpoint>, jobId: JobId, relative: Path): Option<JobCheckpoint>
  {
    if relative in paths && paths[relative].jobId == jobId then Some(paths[relative].checkpoint)
    else if jobId in jobs then Some(jobs[jobId])
    else None
  }

  lemma HashesGrow(paths: map<Path, PathRecord>, path: Path, record: PathRecord)
    ensures HashesOf(paths[path := record]) == HashesOf(paths)[path := record.sha256]
  {
  }

  lemma FreshLineage(checkpoint: JobCheckpoint, jobId: JobId)
    requires WellFormed(checkpoint.afterHash) && PatchEdgeOf(checkpoint, checkpoint.targetPath).None?
    ensures LineageOk(PathRecord(checkpoint.afterHash, jobId, checkpoint, []), {checkpoint.afterHash})
  {
    ReachRefl(Predecessors([], true), checkpoint.afterHash);
  }

  lemma FirstPatchLineage(checkpoint: JobCheckpoint, jobId: JobId, history: seq<Row>)
    requires WellFormed(checkpoint.afterHash)
    requires checkpoint.beforeHash.Some? && WellFormed(checkpoint.beforeHash.value)
    requires PatchEdgeOf(checkpoint, checkpoint.targetPath).Some? && NextHistory([], checkpoint, history)
    requires NoRepeats(history)
    ensures LineageOk(PathRecord(checkpoint.afterHash, jobId, checkpoint, history), {checkpoint.afterHash})
  {
    PatchKeepsHistoryOk([], checkpoint.beforeHash.value, checkpoint.afterHash, history);
    ReachRefl(Predecessors(history, true), checkpoint.afterHash);
  }

  lemma NextPatchLineage(
    record: PathRecord, lineage: set<Hash>, kept: seq<Row>, checkpoint: JobCheckpoint, jobId: JobId, history: seq<Row>)
    requires LineageOk(record, lineage) && checkpoint.beforeHash == Some(record.sha256)
    requires WellFormed(checkpoint.afterHash)
    requires forall row :: row in kept <==> row in record.history
    requires PatchEdgeOf(checkpoint, checkpoint.targetPath).Some? && NextHistory(kept, checkpoint, history)
    requires NoRepeats(history)
    ensures LineageOk(PathRecord(checkpoint.afterHash, jobId, checkpoint, history), lineage + {checkpoint.afterHash})
  {
    PatchKeepsHistoryOk(record.history, record.sha256, checkpoint.afterHash, history);
    ReachRefl(Predecessors(history, true), checkpoint.afterHash);
    forall version | version in lineage ensures Survives(history, checkpoint.afterHash, version) {
      PatchCarriesOn(record.history, record.sha256, checkpoint.afterHash, history, version);
    }
  }

  /** Receipts of any versions in the lineage verify together with the durable history. */
  lemma LineageCertifies(record: PathRecord, lineage: set<Hash>, receipts: seq<Row>, kept: Option<seq<Row>>)
    requires LineageOk(record, lineage)
    requires HistoryIsRight(Some(Ledger(record.sha256, record.history)), Some(record.sha256), kept)
    requires forall k :: 0 <= k < |receipts| ==> receipts[k].after.Some? && receipts[k].after.value in lineage
    ensures kept.Some? && ChainVerified(receipts + kept.value, record.sha256)
  {
    NothingPruned(record.history, record.sha256, kept);
    LineageVerifies(receipts, record.history, kept.value, record.sha256);
  }

  ghost predicate FilesOk(files: map<Path, Hash>) {
    forall p :: p in files ==> WellFormed(files[p])
  }

  /** Every path record agrees with its checkpoint, which some execution of that job produced. */
  ghost predicate RecordsOk(paths: map<Path, PathRecord>, executed: set<(JobId, JobCheckpoint)>) {
    forall p :: p in paths ==> RecordAgrees(p, paths[p]) && (paths[p].jobId, paths[p].checkpoint) in executed
  }

  ghost predicate IndexOk(jobs: map<JobId, JobCheckpoint>, executed: set<(JobId, JobCheckpoint)>) {
    forall j :: j in jobs ==> (j, jobs[j]) in executed
  }

  ghost predicate LineagesOk(paths: map<Path, PathRecord>, lineage: map<Path, set<Hash>>) {
    forall p :: p in paths && IsJava(p) ==> p in lineage && LineageOk(paths[p], lineage[p])
  }

  lemma PublishedRecordsOk(
    paths: map<Path, PathRecord>, executed: set<(JobId, JobCheckpoint)>, path: Path, record: PathRecord)
    requires RecordsOk(paths, executed) && RecordAgrees(path, record)
    ensures RecordsOk(paths[path := record], executed + {(record.jobId, record.checkpoint)})
  {
  }

  lemma PublishedLineagesOk(
    paths: map<Path, PathRecord>, lineage: map<Path, set<Hash>>, path: Path, record: PathRecord, next: set<Hash>)
    requires LineagesOk(paths, lineage) && (IsJava(path) ==> LineageOk(record, next))
    ensures LineagesOk(paths[path := record], if IsJava(path) then lineage[path := next] else lineage)
  {
    hide LineageOk, IsJava;
  }

  /** A patch receipt names the bytes it was applied to: patching needs an existing file. */
  predicate NamesItsBase(receipt: JobReceipt) {
    receipt.materialization.Some? && receipt.materialization.value.operation == JAVA_PATCH ==>
      receipt.materialization.value.before.Some?
  }

  /** After `now`, the ledger `l` holds one new path record, and the job's entry if the index was written;
      everything else is as it was. */
  ghost predicate Recorded(job: Job, work: Execution, before: Option<Hash>, indexed: bool, now: LedgerState, l: LedgerState)
    requires ReturnsFile(work)
  {
    var checkpoint := CheckpointOf(job, work, before);
    && job.target in l.paths && l.paths == now.paths[job.target := l.paths[job.target]]
    && l.paths[job.target].checkpoint == checkpoint && l.paths[job.target].jobId == job.id
    && l.paths[job.target].sha256 == work.target.value
    && (PatchEdgeOf(checkpoint, job.target).None? ==> l.paths[job.target].history == [])
    && l.jobs == (if indexed then now.jobs[job.id := checkpoint] else now.jobs)
    && l.lineage == (if IsJava(job.target)
                     then now.lineage[job.target := NextLineage(LineageAt(now.lineage, now.paths, job.target), checkpoint)]
                     else now.lineage)
    && l.executed == now.executed + {(job.id, checkpoint)}
  }

  /** What each end of an execution makes of the ledger `now`. */
  ghost predicate LeftBy(
    result: Result, job: Job, work: Execution, crash: CrashPoint, before: Option<Hash>, now: LedgerState, l: LedgerState)
  {
    if result.Executed? then
      ReturnsFile(work) && result.receipt == work.receipt && Recorded(job, work, before, true, now, l)
    else if result.Crashed? && crash == BeforeJobRecord then
      ReturnsFile(work) && Recorded(job, work, before, false, now, l)
    else l == now
  }

  class Store {
    var files: map<Path, Hash>
    var paths: map<Path, PathRecord>
    var jobs: map<JobId, JobCheckpoint>
    /** Every checkpoint an execution ever produced, by job. */
    ghost var executed: set<(JobId, JobCheckpoint)>
    /** For each Java path, the versions committed since its last commit that was not a patch. */
    ghost var lineage: map<Path, set<Hash>>

    ghost predicate Valid()
      reads this
    {
      && FilesOk(files)
      && RecordsOk(paths, executed)
      && IndexOk(jobs, executed)
      && LineagesOk(paths, lineage)
    }

    constructor (files: map<Path, Hash>)
      requires forall p :: p in files ==> WellFormed(files[p])
      ensures Valid() && this.files == files && paths == map[] && jobs == map[] && executed == {}
    {
      this.files := files;
      paths, jobs := map[], map[];
      executed, lineage := {}, map[];
    }

    /** Someone else rewrites or deletes a file. */
    method OutsideEdit(path: Path, content: Option<Hash>)
      requires Valid() && (content.Some? ==> WellFormed(content.value))
      modifies this`files
      ensures Valid()
      ensures files == Rewritten(old(files), path, content)
    {
      WriteFile(path, content);
    }

    method WriteFile(path: Path, content: Option<Hash>)
      requires Valid() && (content.Some? ==> WellFormed(content.value))
      modifies this`files
      ensures Valid()
      ensures files == Rewritten(old(files), path, content)
    {
      hide WellFormed, RecordsOk, IndexOk, LineagesOk;
      files := if content.Some? then files[path := content.value] else files - {path};
    }

    function CurrentSha(path: Path): Option<Hash>
      reads this
    {
      if path in files then Some(files[path]) else None
    }

    function ReadPathHash(path: Path): Option<Hash>
      reads this
    {
      if path in paths then Some(paths[path].sha256) else None
    }

    function Published(): map<Path, Hash>
      reads this
    {
      HashesOf(paths)
    }

    ghost function PriorOf(jobId: JobId, relative: Path): Option<JobCheckpoint>
      reads this
    {
      PriorIn(paths, jobs, jobId, relative)
    }

    ghost predicate CanReuse(job: Job)
      reads this
    {
      Reusable(job, PriorOf(job.id, job.target), CurrentSha(job.target), Published())
    }

    ghost predicate MayExecute(job: Job)
      reads this
    {
      Admitted(job, PriorOf(job.id, job.target), CurrentSha(job.target), Published())
    }

    method ReadJobRecord(jobId: JobId, relative: Path) returns (corrupt: bool, checkpoint: Option<JobCheckpoint>)
      ensures corrupt <==>
                relative in paths && paths[relative].jobId == jobId
                && (paths[relative].checkpoint.targetPath != relative
                    || paths[relative].checkpoint.afterHash != paths[relative].sha256)
      ensures checkpoint == PriorOf(jobId, relative)
      ensures Valid() ==> !corrupt && (checkpoint.Some? ==> (jobId, checkpoint.value) in executed)
    {
      corrupt := false;
      checkpoint := if jobId in jobs then Some(jobs[jobId]) else None;
      if relative in paths && paths[relative].jobId == jobId {
        corrupt := !RecordAgrees(relative, paths[relative]);
        checkpoint := Some(paths[relative].checkpoint);
      }
    }

    /** The history to store with a checkpoint; the durable part is read for the bytes before the patch. */
    method HistoryFor(checkpoint: JobCheckpoint) returns (corrupt: bool, history: seq<Row>)
      requires Valid() && IsJava(checkpoint.targetPath)
      requires ReadPathHash(checkpoint.targetPath).Some? ==>
                 checkpoint.beforeHash == ReadPathHash(checkpoint.targetPath)
      requires WellFormed(checkpoint.afterHash)
      requires checkpoint.beforeHash.Some? ==> WellFormed(checkpoint.beforeHash.value)
      requires PatchEdgeOf(checkpoint, checkpoint.targetPath).Some? ==> checkpoint.beforeHash.Some?
      ensures !corrupt
      ensures PatchEdgeOf(checkpoint, checkpoint.targetPath).None? ==> history == []
      ensures forall jobId :: LineageOk(
                PathRecord(checkpoint.afterHash, jobId, checkpoint, history),
                NextLineage(LineageAt(lineage, paths, checkpoint.targetPath), checkpoint))
    {
      corrupt, history := false, [];
      var relative := checkpoint.targetPath;
      var edge := PatchEdgeOf(checkpoint, relative);
      if edge.None? {
        forall jobId { FreshLineage(checkpoint, jobId); }
        return;
      }
      var kept := ReadJavaPatchHistory(LedgerOf(paths, relative), checkpoint.beforeHash);
      if relative in paths {
        NothingPruned(paths[relative].history, paths[relative].sha256, kept);
      }
      if kept.None? {
        return true, [];
      }
      history := if edge.value in kept.value then kept.value else kept.value + [edge.value];
      assert NextHistory(kept.value, checkpoint, history);
      KeptNoRepeats(LedgerOf(paths, relative), checkpoint.beforeHash, kept.value);
      AddedNoRepeats(kept.value, edge.value);
      if relative in paths {
        forall jobId {
          NextPatchLineage(paths[relative], lineage[relative], kept.value, checkpoint, jobId, history);
        }
      } else {
        forall jobId { FirstPatchLineage(checkpoint, jobId, history); }
      }
    }

    /** Publishes target hash and receipt in one record, then the job index. */
    method Publish(jobId: JobId, checkpoint: JobCheckpoint, history: seq<Row>, crash: CrashPoint)
      requires Valid() && crash != BeforePathRecord
      requires IsJava(checkpoint.targetPath) ==>
                 LineageOk(PathRecord(checkpoint.afterHash, jobId, checkpoint, history),
                           NextLineage(LineageAt(lineage, paths, checkpoint.targetPath), checkpoint))
      modifies this`paths, this`jobs, this`executed, this`lineage
      ensures Valid() && executed == old(executed) + {(jobId, checkpoint)}
      ensures paths == old(paths)[checkpoint.targetPath :=
                PathRecord(checkpoint.afterHash, jobId, checkpoint, history)]
      ensures jobs == if crash == NoCrash then old(jobs)[jobId := checkpoint] else old(jobs)
      ensures lineage == if IsJava(checkpoint.targetPath)
                         then old(lineage)[checkpoint.targetPath :=
                                NextLineage(LineageAt(old(lineage), old(paths), checkpoint.targetPath), checkpoint)]
                         else old(lineage)
    {
      var relative := checkpoint.targetPath;
      var record := PathRecord(checkpoint.afterHash, jobId, checkpoint, history);
      ghost var next := NextLineage(LineageAt(lineage, paths, relative), checkpoint);
      PublishedRecordsOk(paths, executed, relative, record);
      PublishedLineagesOk(paths, lineage, relative, record, next);
      hide FilesOk, RecordsOk, LineagesOk, NextLineage, LineageAt, IsJava;
      executed := executed + {(jobId, checkpoint)};
      lineage := if IsJava(relative) then lineage[relative := next] else lineage;
      paths := paths[relative := record];
      if crash == NoCrash {
        jobs := jobs[jobId := checkpoint];
      }
    }

    /** A returned checkpoint was produced by an earlier execution of this job under the same inputs and
        implementation, and the target still has the bytes last published for it. */
    ghost predicate ReuseIsSafe(job: Job, receipt: JobReceipt)
      reads this
    {
      && job.target in files && job.target in paths && paths[job.target].sha256 == files[job.target]
      && exists known ::
           && (job.id, known) in executed && known.receipt == receipt
           && known.inputHash == job.inputHash && known.fingerprint == job.fingerprint
    }

    ghost function Now(): LedgerState
      reads this
    {
      LedgerState(paths, jobs, lineage, executed)
    }

    method RunAndCommit(job: Job, work: Execution, crash: CrashPoint, before: Option<Hash>) returns (result: Result)
      requires Valid() && before == CurrentSha(job.target)
      requires ReadPathHash(job.target).Some? ==> before == ReadPathHash(job.target)
      requires work.target.Some? ==> WellFormed(work.target.value)
      requires work.Returns? ==> NamesItsBase(work.receipt)
      modifies this
      ensures Valid() && old(executed) <= executed
      ensures result.Executed? <==> OutputMatches(job, work) && crash == NoCrash
      ensures result.Crashed? <==> OutputMatches(job, work) && crash != NoCrash
      ensures result.Raised? <==> work.Throws?
      ensures result == Refused(TargetMissing) <==> work.Returns? && work.target.None?
      ensures result == Refused(OutputDrift) <==> work.Returns? && work.target.Some? && !OutputMatches(job, work)
      ensures !result.Reused? && (result.Refused? ==> result.error in {TargetMissing, OutputDrift})
      ensures LeftBy(result, job, work, crash, before, old(Now()), Now())
      ensures files == Rewritten(old(files), job.target, work.target)
    {
      WriteFile(job.target, work.target);
      if work.Throws? {
        return Raised;
      }
      var after := CurrentSha(job.target);
      if after.None? {
        return Refused(TargetMissing);
      }
      var receipt := work.receipt;
      if job.isGenerator && (receipt.materialization.None? || receipt.materialization.value.after != after) {
        return Refused(OutputDrift);
      }
      result := Commit(job, work, crash, before);
    }

    /** Records the execution, the path record first; the recorded bytes are read again before that. */
    method Commit(job: Job, work: Execution, crash: CrashPoint, before: Option<Hash>) returns (result: Result)
      requires Valid() && OutputMatches(job, work) && NamesItsBase(work.receipt)
      requires WellFormed(work.target.value) && (before.Some? ==> WellFormed(before.value))
      requires ReadPathHash(job.target).Some? ==> before == ReadPathHash(job.target)
      requires job.target in files && files[job.target] == work.target.value
      modifies this`paths, this`jobs, this`executed, this`lineage
      ensures Valid() && old(executed) <= executed
      ensures result == if crash == NoCrash then Executed(work.receipt) else Crashed
      ensures LeftBy(result, job, work, crash, before, old(Now()), Now())
    {
      var recorded := ReadPathHash(job.target);
      if recorded.Some? && recorded != before {
        return Refused(TargetDrift);
      }
      var checkpoint := CheckpointOf(job, work, before);
      var history: seq<Row> := [];
      if IsJava(job.target) {
        var corrupt;
        corrupt, history := HistoryFor(checkpoint);
        if corrupt {
          return Refused(CheckpointCorrupt);
        }
      }
      if crash == BeforePathRecord {
        return Crashed;
      }
      Publish(job.id, checkpoint, history, crash);
      result := if crash == NoCrash then Executed(work.receipt) else Crashed;
    }

    /** Runs a job under its checkpoint, or returns an earlier receipt when that is still proven. */
    method ExecuteCheckpointedJob(job: Job, work: Execution, crash: CrashPoint) returns (result: Result)
      requires Valid()
      requires work.target.Some? ==> WellFormed(work.target.value)
      requires work.Returns? ==> NamesItsBase(work.receipt)
      modifies this
      ensures Valid() && old(executed) <= executed
      ensures result.Reused? ==> ReuseIsSafe(job, result.receipt)
      ensures LeftBy(result, job, work, crash, old(CurrentSha(job.target)), old(Now()), Now())
      ensures files == if old(MayExecute(job)) && !old(CanReuse(job))
                       then Rewritten(old(files), job.target, work.target) else old(files)
      ensures result.Reused? <==> old(CanReuse(job))
      ensures result.Reused? ==> result.receipt == old(PriorOf(job.id, job.target)).value.receipt
      ensures !result.Reused? ==>
                (old(MayExecute(job)) <==> !(result.Refused? && result.error in {AdaptRequired, PrerequisiteUnverified, TargetDrift}))
      ensures result.Executed? <==>
                old(MayExecute(job)) && !old(CanReuse(job)) && OutputMatches(job, work) && crash == NoCrash
      ensures result.Crashed? <==>
                old(MayExecute(job)) && !old(CanReuse(job)) && OutputMatches(job, work) && crash != NoCrash
      ensures result == Refused(AdaptRequired) <==> AdaptNeeded(job, old(PriorOf(job.id, job.target)))
      ensures result == Refused(PrerequisiteUnverified) <==>
                SourceOpen(job, old(PriorOf(job.id, job.target)), old(Published()))
      ensures !result.Reused? && !result.Refused? && old(PriorOf(job.id, job.target)).Some? ==>
                var prior := old(PriorOf(job.id, job.target)).value;
                prior.inputHash != job.inputHash ==>
                  && prior.approvedInputHash == job.approvedInputHash
                  && forall source :: source in job.sources ==> SourceBacked(job, prior.sources, old(Published()), source)
      ensures result.Raised? <==> old(MayExecute(job)) && !old(CanReuse(job)) && work.Throws?
      ensures result == Refused(TargetMissing) <==>
                old(MayExecute(job)) && !old(CanReuse(job)) && work.Returns? && work.target.None?
      ensures result == Refused(OutputDrift) <==>
                old(MayExecute(job)) && !old(CanReuse(job)) && work.Returns? && work.target.Some? && !OutputMatches(job, work)
      ensures result != Refused(CheckpointCorrupt)
    {
      hide Decide, SourceProven, SourceBacked, AdaptNeeded, SourceOpen;
      var relative := job.target;
      var current := CurrentSha(relative);
      var corrupt, prior := ReadJobRecord(job.id, relative);
      if corrupt {
        return Refused(CheckpointCorrupt);
      }
      var decision := Decide(job, prior, current, Published());
      DecideIsRight(job, prior, current, Published());
      if decision.Stop? {
        return Refused(decision.error);
      }
      if decision.Reuse? {
        return Reused(prior.value.receipt);
      }
      result := RunAndCommit(job, work, crash, current);
    }

    /** Whether the receipts, with the durable history, account for the current bytes of a Java file. */
    method SourceVerified(path: Path, receipts: seq<Row>) returns (verified: bool)
      requires Valid() && IsJava(path)
      ensures path in files && path in paths && paths[path].sha256 == files[path]
              && (forall k :: 0 <= k < |receipts| ==>
                    receipts[k].after.Some? && receipts[k].after.value in lineage[path])
              ==> verified
      ensures path !in files ==> !verified
      ensures path in files && !(path in paths && paths[path].sha256 == files[path]) ==>
                (verified <==> ChainVerified(receipts, files[path]))
    {
      if path !in files {
        return false;
      }
      var finalHash := files[path];
      var history := ReadJavaPatchHistory(LedgerOf(paths, path), Some(finalHash));
      if path in paths && paths[path].sha256 == finalHash {
        NothingPruned(paths[path].history, finalHash, history);
      } else {
        assert receipts + [] == receipts;
      }
      verified := VerifyJavaPatchChain(receipts + history.value, finalHash);
      if path in paths && paths[path].sha256 == finalHash
         && forall k :: 0 <= k < |receipts| ==> receipts[k].after.Some? && receipts[k].after.value in lineage[path]
      {
        LineageCertifies(paths[path], lineage[path], receipts, history);
      }
    }

    /** Runs one job on a Java file; a patch of the current bytes keeps the lineage. */
    method RunNext(path: Path, job: Job, work: Execution) returns (completed: bool, row: Row)
      requires Valid() && IsJava(path) && job.target == path
      requires ReturnsFile(work) && NamesItsBase(work.receipt) && WellFormed(work.target.value)
      modifies this
      ensures Valid()
      ensures completed <==> old(Runs(job, work, PriorOf(job.id, path), CurrentSha(path), Published()))
      ensures completed ==> row.after == work.target && AfterRun(path, job, work, old(CurrentSha(path)), old(jobs), old(Published()))
      ensures completed ==>
                && work.target.value in LineageAt(lineage, paths, path)
                && (old(Patches(path, CurrentSha(path), work)) ==>
                      LineageAt(old(lineage), old(paths), path) <= LineageAt(lineage, paths, path))
    {
      hide Reusable, Admitted, ReuseIsSafe, WellFormed, LineageOk, OutputMatches, FilesOk, RecordsOk, IndexOk,
           LineagesOk, HashesOf, AfterRun, RowOf, Patches, NextLineage, PatchEdgeOf;
      ghost var before := CurrentSha(path);
      ghost var paths0, jobs0, lineage0 := paths, jobs, LineageAt(lineage, paths, path);
      var result := ExecuteCheckpointedJob(job, work, NoCrash);
      completed := result.Executed?;
      row := Row("", None, None);
      if completed {
        row := RowOf(paths[path].checkpoint);
        RowNamesBytes(paths[path].checkpoint);
        HashesGrow(paths0, path, paths[path]);
        RecordIsSound(path);
        AfterCommit(path, job, work, before, paths0, jobs0);
        LineageHasVersion(lineage0, paths[path].checkpoint);
        if Patches(path, before, work) {
          PatchExtendsLineage(path, before, work, job, paths[path].checkpoint, lineage0);
        }
      }
    }

    /** A record is about the path it is filed under and the bytes its job left there. */
    lemma RecordIsSound(path: Path)
      requires Valid() && path in paths
      ensures paths[path].checkpoint.targetPath == path && paths[path].checkpoint.afterHash == paths[path].sha256
      ensures (paths[path].jobId, paths[path].checkpoint) in executed
    {
    }

    lemma AfterCommit(
      path: Path, job: Job, work: Execution, before: Option<Hash>, paths0: map<Path, PathRecord>,
      jobs0: map<JobId, JobCheckpoint>)
      requires ReturnsFile(work) && path in files && files[path] == work.target.value
      requires path in paths && paths == paths0[path := paths[path]] && RecordAgrees(path, paths[path])
      requires paths[path].jobId == job.id && paths[path].checkpoint == CheckpointOf(job, work, before)
      requires jobs == jobs0[job.id := CheckpointOf(job, work, before)]
      ensures AfterRun(path, job, work, before, jobs0, HashesOf(paths0))
    {
      HashesGrow(paths0, path, paths[path]);
    }

    /** The ledger right after a job was committed to `path`. */
    ghost predicate AfterRun(
      path: Path, job: Job, work: Execution, before: Option<Hash>, index0: map<JobId, JobCheckpoint>,
      published0: map<Path, Hash>)
      requires ReturnsFile(work)
      reads this
    {
      && CurrentSha(path) == work.target && Published() == published0[path := work.target.value]
      && jobs == index0[job.id := CheckpointOf(job, work, before)]
      && path in paths && paths[path].jobId == job.id && paths[path].checkpoint == CheckpointOf(job, work, before)
    }

    ghost function OutsetOf(path: Path, jobId: JobId): Outset
      reads this
    {
      Outset(jobs, PriorOf(jobId, path), CurrentSha(path), Published())
    }

    /** The first `k` jobs have been committed. */
    ghost predicate AtStep(o: Outset, path: Path, jobs: seq<Job>, works: seq<Execution>, k: nat)
      requires |jobs| == |works| > 0 && k <= |jobs| && AllReturnFiles(works)
      reads this
    {
      if k == 0 then OutsetOf(path, jobs[0].id) == o
      else AfterRun(path, jobs[k - 1], works[k - 1], Base(o, works, k - 1), IndexAfter(o, jobs, works, k - 1),
                    PublishedAt(o, path, works, k - 1))
    }

    lemma StepSees(o: Outset, path: Path, jobs: seq<Job>, works: seq<Execution>, k: nat)
      requires |jobs| == |works| > 0 && k < |jobs| && AllReturnFiles(works) && AtStep(o, path, jobs, works, k)
      ensures PriorOf(jobs[k].id, path) == PriorAt(o, jobs, works, k)
      ensures CurrentSha(path) == Base(o, works, k) && Published() == PublishedAt(o, path, works, k)
      ensures this.jobs == IndexAfter(o, jobs, works, k)
    {
      if k > 0 {
        PublishedAgain(o, path, works, k);
      }
    }

    /** Runs jobs on one Java file one after the other, without crashes, and collects their receipts.
        It completes exactly when every job runs in its turn. */
    method RunShard(path: Path, jobs: seq<Job>, works: seq<Execution>) returns (completed: bool, receipts: seq<Row>)
      requires Valid() && IsJava(path) && IsShard(path, jobs, works)
      modifies this
      ensures Valid()
      ensures completed <==>
                forall k :: 0 <= k < |jobs| ==> StepRuns(old(OutsetOf(path, jobs[0].id)), path, jobs, works, k)
      ensures completed ==>
                && |receipts| == |jobs| && path in files && path in paths
                && paths[path].sha256 == files[path] == works[|works| - 1].target.value
                && forall k :: 0 <= k < |receipts| ==>
                     receipts[k].after == works[k].target && receipts[k].after.value in lineage[path]
    {
      hide WellFormed, LineageOk, FilesOk, RecordsOk, IndexOk, LineagesOk, Runs, AfterRun, IndexAfter, PublishedAt,
           StepRuns, PriorAt;
      ghost var o := OutsetOf(path, jobs[0].id);
      receipts, completed := [], true;
      var k := 0;
      while k < |jobs| && completed
        invariant k <= |jobs| && Valid()
        invariant completed ==> |receipts| == k && AtStep(o, path, jobs, works, k)
        invariant completed ==> forall j :: 0 <= j < k ==> StepRuns(o, path, jobs, works, j)
        invariant !completed ==> exists j :: 0 <= j < k && !StepRuns(o, path, jobs, works, j)
        invariant completed ==> forall j :: 0 <= j < k ==>
                    receipts[j].after == works[j].target && works[j].target.value in LineageAt(lineage, paths, path)
      {
        StepSees(o, path, jobs, works, k);
        StepUnfolds(o, path, jobs, works, k);
        var row;
        completed, row := RunNext(path, jobs[k], works[k]);
        if completed {
          receipts := receipts + [row];
        }
        k := k + 1;
      }
      if completed {
        LastIsRecorded(path, jobs[k - 1], works[k - 1], Base(o, works, k - 1), IndexAfter(o, jobs, works, k - 1),
                       PublishedAt(o, path, works, k - 1));
      }
    }

    lemma LastIsRecorded(
      path: Path, job: Job, work: Execution, before: Option<Hash>, index0: map<JobId, JobCheckpoint>,
      published0: map<Path, Hash>)
      requires ReturnsFile(work) && AfterRun(path, job, work, before, index0, published0)
      ensures path in files && path in paths && paths[path].sha256 == files[path] == work.target.value
    {
      assert Published()[path] == work.target.value;
    }
  }

  // ---------------------------------------------------------------- when a shard completes

  lemma RowNamesBytes(checkpoint: JobCheckpoint)
    ensures RowOf(checkpoint).after == Some(checkpoint.afterHash)
  {
  }

  lemma LineageHasVersion(before: set<Hash>, checkpoint: JobCheckpoint)
    ensures checkpoint.afterHash in NextLineage(before, checkpoint)
  {
  }

  predicate ReturnsFile(work: Execution) {
    work.Returns? && work.target.Some?
  }

  predicate AllReturnFiles(works: seq<Execution>) {
    forall k :: 0 <= k < |works| ==> ReturnsFile(works[k])
  }

  /** Jobs on one path whose work leaves a file; all but the first patch what the one before left. */
  predicate IsShard(path: Path, jobs: seq<Job>, works: seq<Execution>) {
    && |jobs| == |works| > 0 && AllReturnFiles(works)
    && (forall k :: 0 <= k < |jobs| ==>
          jobs[k].target == path && NamesItsBase(works[k].receipt) && WellFormed(works[k].target.value))
    && (forall k :: 1 <= k < |jobs| ==> Patches(path, works[k - 1].target, works[k]))
  }

  /** What a shard finds: the jobs index, the first job's checkpoint, the file and the published hashes. */
  datatype Outset = Outset(
    index: map<JobId, JobCheckpoint>, first: Option<JobCheckpoint>, current: Option<Hash>, published: map<Path, Hash>)

  ghost function Base(o: Outset, works: seq<Execution>, k: nat): Option<Hash>
    requires k <= |works|
  {
    if k == 0 then o.current else works[k - 1].target
  }

  ghost function IndexAfter(o: Outset, jobs: seq<Job>, works: seq<Execution>, k: nat): map<JobId, JobCheckpoint>
    requires k <= |jobs| == |works| && AllReturnFiles(works)
  {
    if k == 0 then o.index
    else IndexAfter(o, jobs, works, k - 1)[jobs[k - 1].id := CheckpointOf(jobs[k - 1], works[k - 1], Base(o, works, k - 1))]
  }

  ghost function PublishedAt(o: Outset, path: Path, works: seq<Execution>, k: nat): map<Path, Hash>
    requires k <= |works| && AllReturnFiles(works)
  {
    if k == 0 then o.published else o.published[path := works[k - 1].target.value]
  }

  lemma PublishedAgain(o: Outset, path: Path, works: seq<Execution>, k: nat)
    requires 0 < k <= |works| && AllReturnFiles(works)
    ensures PublishedAt(o, path, works, k) == PublishedAt(o, path, works, k - 1)[path := works[k - 1].target.value]
  {
  }

  ghost function PriorAt(o: Outset, jobs: seq<Job>, works: seq<Execution>, k: nat): Option<JobCheckpoint>
    requires k < |jobs| == |works| && AllReturnFiles(works)
  {
    if k == 0 then o.first
    else if jobs[k].id in IndexAfter(o, jobs, works, k) then Some(IndexAfter(o, jobs, works, k)[jobs[k].id])
    else None
  }

  /** The `k`-th job runs on what the jobs before it leave behind. */
  ghost predicate StepRuns(o: Outset, path: Path, jobs: seq<Job>, works: seq<Execution>, k: nat)
    requires k < |jobs| == |works| && AllReturnFiles(works)
  {
    Runs(jobs[k], works[k], PriorAt(o, jobs, works, k), Base(o, works, k), PublishedAt(o, path, works, k))
  }

  lemma StepUnfolds(o: Outset, path: Path, jobs: seq<Job>, works: seq<Execution>, k: nat)
    requires k < |jobs| == |works| && AllReturnFiles(works)
    ensures StepRuns(o, path, jobs, works, k) <==>
              Runs(jobs[k], works[k], PriorAt(o, jobs, works, k), Base(o, works, k), PublishedAt(o, path, works, k))
  {
  }

  lemma {:induction false} IndexedIds(o: Outset, jobs: seq<Job>, works: seq<Execution>, k: nat, id: JobId)
    requires k <= |jobs| == |works| && AllReturnFiles(works)
    requires id !in o.index && forall j :: 0 <= j < k ==> jobs[j].id != id
    ensures id !in IndexAfter(o, jobs, works, k)
  {
    if k > 0 {
      IndexedIds(o, jobs, works, k - 1, id);
    }
  }

  /** Jobs the ledger has never seen all run, as soon as the file is as published and the first job's
      output matches. */
  lemma NewJobsRun(o: Outset, path: Path, jobs: seq<Job>, works: seq<Execution>)
    requires IsShard(path, jobs, works)
    requires o.first.None? && forall k :: 0 <= k < |jobs| ==> jobs[k].id !in o.index
    requires forall j, k :: 0 <= j < k < |jobs| ==> jobs[j].id != jobs[k].id
    ensures (forall k :: 0 <= k < |jobs| ==> StepRuns(o, path, jobs, works, k)) <==>
              (path in o.published ==> o.current == Some(o.published[path])) && OutputMatches(jobs[0], works[0])
  {
    assert StepRuns(o, path, jobs, works, 0) <==>
           (path in o.published ==> o.current == Some(o.published[path])) && OutputMatches(jobs[0], works[0]);
    forall k | 1 <= k < |jobs| ensures StepRuns(o, path, jobs, works, k) {
      IndexedIds(o, jobs, works, k, jobs[k].id);
      assert Patches(path, works[k - 1].target, works[k]);
    }
  }

  /** After one commit of any kind and then only patches, the final bytes are certified. */
  method RunShardAndVerify(store: Store, path: Path, jobs: seq<Job>, works: seq<Execution>)
    returns (completed: bool, verified: bool)
    requires store.Valid() && IsJava(path) && IsShard(path, jobs, works)
    modifies store
    ensures store.Valid()
    ensures completed <==>
              forall k :: 0 <= k < |jobs| ==> StepRuns(old(store.OutsetOf(path, jobs[0].id)), path, jobs, works, k)
    ensures completed ==> verified
  {
    hide StepRuns, WellFormed, LineageOk;
    var receipts;
    completed, receipts := store.RunShard(path, jobs, works);
    verified := store.SourceVerified(path, receipts);
  }

  /** A successful execution whose receipt is a patch of this path from `before` to the new bytes. */
  predicate Patches(path: Path, before: Option<Hash>, work: Execution) {
    && work.Returns? && work.receipt.status == "PASS"
    && work.receipt.materialization == Some(Materialization(JAVA_PATCH, path, before, work.target))
  }

  lemma PatchExtendsLineage(
    path: Path, before: Option<Hash>, work: Execution, job: Job, checkpoint: JobCheckpoint, lineage0: set<Hash>)
    requires Patches(path, before, work) && work.target.Some? && job.target == path
    requires checkpoint == CheckpointOf(job, work, before)
    ensures NextLineage(lineage0, checkpoint) == lineage0 + {work.target.value}
  {
  }
}
