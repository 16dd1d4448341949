/** Certifying that the bytes of a shared Java file still contain every validated contribution. */
module PatchChain {
  import opened Optional
  import opened Digraph

  type Hash = string

  predicate IsHexDigit(c: char) {
    '0' <= c <= '9' || 'a' <= c <= 'f'
  }

  /** A SHA-256 value in lower-case hexadecimal. */
  predicate WellFormed(h: Hash) {
    |h| == 64 && forall i :: 0 <= i < |h| ==> IsHexDigit(h[i])
  }

  lemma WellFormedExactly(h: Hash)
    ensures WellFormed(h) <==>
              |h| == 64 && forall i :: 0 <= i < |h| ==>
                h[i] in {'0', '1', '2', '3', '4', '5', '6', '7', '8', '9', 'a', 'b', 'c', 'd', 'e', 'f'}
  {
    forall i | 0 <= i < |h|
      ensures IsHexDigit(h[i]) <==>
                h[i] in {'0', '1', '2', '3', '4', '5', '6', '7', '8', '9', 'a', 'b', 'c', 'd', 'e', 'f'}
    {
    }
  }

  /** One materialization receipt; `None` stands for a missing or non-string hash. */
  datatype Row = Row(operation: string, before: Option<Hash>, after: Option<Hash>)

  const JAVA_PATCH := "java_patch"

  predicate IsPatch(row: Row) {
    row.operation == JAVA_PATCH && row.before.Some? && row.after.Some?
  }

  /** A patch linking two versions; a strict link starts from a proper hash. */
  predicate IsLink(row: Row, strict: bool) {
    IsPatch(row) && (strict ==> WellFormed(row.before.value))
  }

  /** Exactly the rows of a java_patch with both hashes link two versions. */
  lemma LinkExactly(row: Row, strict: bool)
    ensures IsLink(row, strict)
            <==> exists before, after :: row == Row("java_patch", Some(before), Some(after)) && (strict ==> WellFormed(before))
  {
    hide WellFormed;
    if IsLink(row, strict) {
      assert row == Row("java_patch", Some(row.before.value), Some(row.after.value));
    }
  }

  ghost predicate Links(rows: seq<Row>, strict: bool, after: Hash, before: Hash) {
    exists k :: 0 <= k < |rows| && IsLink(rows[k], strict)
                && rows[k].after.value == after && rows[k].before.value == before
  }

  ghost function Afters(rows: seq<Row>, strict: bool): set<Hash> {
    set k | 0 <= k < |rows| && IsLink(rows[k], strict) :: rows[k].after.value
  }

  ghost function BeforesOf(rows: seq<Row>, strict: bool, after: Hash): set<Hash> {
    set k | 0 <= k < |rows| && IsLink(rows[k], strict) && rows[k].after.value == after :: rows[k].before.value
  }

  /** From each version to the versions it was patched from. */
  ghost function Predecessors(rows: seq<Row>, strict: bool): Graph<Hash> {
    map after | after in Afters(rows, strict) :: BeforesOf(rows, strict, after)
  }

  lemma PredecessorEdges(rows: seq<Row>, strict: bool, after: Hash, before: Hash)
    ensures Edge(Predecessors(rows, strict), after, before) <==> Links(rows, strict, after, before)
  {
  }

  /** `version` is `finalHash` or one of the versions it was patched from, however indirectly. */
  ghost predicate Survives(rows: seq<Row>, finalHash: Hash, version: Hash) {
    Reach(Predecessors(rows, true), finalHash, version)
  }

  /** Every receipt names a proper hash that survives to the final bytes. */
  ghost predicate ChainVerified(rows: seq<Row>, finalHash: Hash) {
    forall k :: 0 <= k < |rows| ==>
      rows[k].after.Some? && WellFormed(rows[k].after.value) && Survives(rows, finalHash, rows[k].after.value)
  }

  // ---------------------------------------------------------------- worklists

  /** Appends the members of a set, in any order. */
  method PushAll<T(==)>(pending: seq<T>, values: set<T>) returns (pending': seq<T>)
    ensures forall x :: x in pending' <==> x in pending || x in values
  {
    pending' := pending;
    var todo := values;
    while todo != {}
      invariant todo <= values
      invariant forall x :: x in pending' <==> x in pending || x in values - todo
      decreases todo
    {
      var value :| value in todo;
      pending' := pending' + [value];
      todo := todo - {value};
    }
  }

  /** A worklist search from `start`: everything found is reachable, and what is not yet expanded is pending. */
  ghost predicate Searching<T(!new)>(g: Graph<T>, start: T, found: set<T>, pending: seq<T>) {
    && (start in found || start in pending)
    && (forall x :: x in found || x in pending ==> Reach(g, start, x))
    && (forall x, y :: x in found && Edge(g, x, y) ==> y in found || y in pending)
  }

  lemma SearchDone<T(!new)>(g: Graph<T>, start: T, found: set<T>)
    requires Searching(g, start, found, [])
    ensures forall x :: x in found <==> Reach(g, start, x)
  {
    forall x | Reach(g, start, x) ensures x in found {
      ClosedReach(g, found, start, x);
    }
  }

  lemma SearchSkip<T(!new)>(g: Graph<T>, start: T, found: set<T>, pending: seq<T>)
    requires Searching(g, start, found, pending) && pending != [] && pending[|pending| - 1] in found
    ensures Searching(g, start, found, pending[..|pending| - 1])
  {
    assert pending == pending[..|pending| - 1] + [pending[|pending| - 1]];
  }

  lemma SearchExpand<T(!new)>(g: Graph<T>, start: T, found: set<T>, pending: seq<T>, pending': seq<T>)
    requires Searching(g, start, found, pending) && pending != []
    requires forall x :: x in pending' <==>
               x in pending[..|pending| - 1] || x in Successors(g, pending[|pending| - 1])
    ensures Searching(g, start, found + {pending[|pending| - 1]}, pending')
  {
    var value := pending[|pending| - 1];
    assert pending == pending[..|pending| - 1] + [value];
    forall y | y in Successors(g, value) ensures Reach(g, start, y) {
      ReachEdge(g, value, y);
      ReachTrans(g, start, value, y);
    }
  }

  /** Vertices a search can ever find. */
  ghost function Universe<T>(g: Graph<T>, start: T): set<T> {
    {start} + set x, y | x in g && y in g[x] :: y
  }

  lemma ReachedInUniverse<T(!new)>(g: Graph<T>, start: T, x: T)
    requires Reach(g, start, x)
    ensures x in Universe(g, start)
  {
    ClosedReach(g, Universe(g, start), start, x);
  }

  lemma AftersStep(rows: seq<Row>, row: Row)
    ensures Afters(rows + [row], true) == Afters(rows, true) + if IsLink(row, true) then {row.after.value} else {}
  {
    var all := rows + [row];
    forall k | 0 <= k < |rows| ensures all[k] == rows[k] {
    }
    assert all[|rows|] == row;
  }

  lemma BeforesStep(rows: seq<Row>, row: Row, after: Hash)
    ensures BeforesOf(rows + [row], true, after) ==
            BeforesOf(rows, true, after)
            + if IsLink(row, true) && row.after.value == after then {row.before.value} else {}
  {
    var all := rows + [row];
    forall k | 0 <= k < |rows| ensures all[k] == rows[k] {
    }
    assert all[|rows|] == row;
  }

  lemma UnlinkedHasNoBefores(rows: seq<Row>, after: Hash)
    requires after !in Afters(rows, true)
    ensures BeforesOf(rows, true, after) == {}
  {
    forall k | 0 <= k < |rows| && IsLink(rows[k], true) ensures rows[k].after.value in Afters(rows, true) {
    }
  }

  lemma PredecessorsStep(rows: seq<Row>, row: Row, before: Graph<Hash>, after: Graph<Hash>)
    requires before == Predecessors(rows, true)
    requires after == if IsLink(row, true)
                      then before[row.after.value := Successors(before, row.after.value) + {row.before.value}]
                      else before
    ensures after == Predecessors(rows + [row], true)
  {
    var all := Predecessors(rows + [row], true);
    AftersStep(rows, row);
    assert after.Keys == all.Keys;
    forall version | version in all ensures after[version] == all[version] {
      BeforesStep(rows, row, version);
      if version !in before {
        UnlinkedHasNoBefores(rows, version);
      }
      hide Afters, BeforesOf;
    }
  }

  method CollectPredecessors(receipts: seq<Row>) returns (predecessors: Graph<Hash>)
    ensures predecessors == Predecessors(receipts, true)
  {
    predecessors := map[];
    for k := 0 to |receipts|
      invariant predecessors == Predecessors(receipts[..k], true)
    {
      var row := receipts[k];
      ghost var before := predecessors;
      if IsLink(row, true) {
        predecessors :=
          predecessors[row.after.value := Successors(predecessors, row.after.value) + {row.before.value}];
      }
      PredecessorsStep(receipts[..k], row, before, predecessors);
      assert receipts[..k + 1] == receipts[..k] + [row];
    }
    assert receipts[..|receipts|] == receipts;
  }

  method VerifyJavaPatchChain(receipts: seq<Row>, finalHash: Hash) returns (ok: bool)
    ensures ok <==> ChainVerified(receipts, finalHash)
  {
    if exists k :: 0 <= k < |receipts| && !(receipts[k].after.Some? && WellFormed(receipts[k].after.value)) {
      return false;
    }
    var predecessors := CollectPredecessors(receipts);
    var reachable: set<Hash> := {};
    var pending := [finalHash];
    ReachRefl(predecessors, finalHash);
    while pending != []
      invariant Searching(predecessors, finalHash, reachable, pending)
      decreases Universe(predecessors, finalHash) - reachable, |pending|
    {
      var value := pending[|pending| - 1];
      if value in reachable {
        SearchSkip(predecessors, finalHash, reachable, pending);
        pending := pending[..|pending| - 1];
      } else {
        ghost var before := pending;
        ReachedInUniverse(predecessors, finalHash, value);
        pending := PushAll(pending[..|pending| - 1], Successors(predecessors, value));
        SearchExpand(predecessors, finalHash, reachable, before, pending);
        reachable := reachable + {value};
      }
    }
    SearchDone(predecessors, finalHash, reachable);
    ok := forall k :: 0 <= k < |receipts| ==> receipts[k].after.value in reachable;
  }

  // ---------------------------------------------------------------- the durable history of a path

  /** The patch rows whose resulting version is in `versions`, in order. */
  function PatchRows(rows: seq<Row>, versions: set<Hash>): seq<Row> {
    if rows == [] then []
    else
      var row := rows[0];
      if row.operation == JAVA_PATCH && row.after.Some? && row.after.value in versions
      then [row] + PatchRows(rows[1..], versions)
      else PatchRows(rows[1..], versions)
  }

  ghost predicate PatchedTo(row: Row, versions: set<Hash>) {
    exists after :: row.operation == "java_patch" && row.after == Some(after) && after in versions
  }

  /** `picked` are the rows at these positions, in their order: exactly the patches to one of these versions. */
  ghost predicate PickedRows(rows: seq<Row>, from: nat, versions: set<Hash>, picked: seq<Row>, at: seq<nat>) {
    && |at| == |picked|
    && (forall k :: 0 <= k < |at| ==>
          from <= at[k] < |rows| && picked[k] == rows[at[k]] && PatchedTo(picked[k], versions))
    && (forall j, k :: 0 <= j < k < |at| ==> at[j] < at[k])
    && forall i: nat :: from <= i < |rows| && PatchedTo(rows[i], versions) ==> i in at
  }

  lemma {:induction false} PatchRowsInOrder(rows: seq<Row>, from: nat, versions: set<Hash>) returns (at: seq<nat>)
    requires from <= |rows|
    ensures PickedRows(rows, from, versions, PatchRows(rows[from..], versions), at)
    decreases |rows| - from
  {
    if from == |rows| {
      at := [];
    } else {
      var rest := rows[from..];
      assert rest[0] == rows[from] && rest[1..] == rows[from + 1..];
      var more := PatchRowsInOrder(rows, from + 1, versions);
      var picked := PatchRows(rows[from + 1..], versions);
      if PatchedTo(rows[from], versions) {
        PickRow(rows, from, versions, picked, more);
        at := [from] + more;
      } else {
        SkipRow(rows, from, versions, picked, more);
        at := more;
      }
    }
  }

  lemma PickRow(rows: seq<Row>, from: nat, versions: set<Hash>, picked: seq<Row>, at: seq<nat>)
    requires from < |rows| && PickedRows(rows, from + 1, versions, picked, at) && PatchedTo(rows[from], versions)
    ensures PickedRows(rows, from, versions, [rows[from]] + picked, [from] + at)
  {
    hide PatchedTo;
    var all, more := [rows[from]] + picked, [from] + at;
    forall k | 0 <= k < |more|
      ensures from <= more[k] < |rows| && all[k] == rows[more[k]] && PatchedTo(all[k], versions)
    {
      assert k > 0 ==> more[k] == at[k - 1] && all[k] == picked[k - 1];
    }
    forall j, k | 0 <= j < k < |more| ensures more[j] < more[k] {
      assert more[k] == at[k - 1] && (j > 0 ==> more[j] == at[j - 1]);
    }
    forall i: nat | from <= i < |rows| && PatchedTo(rows[i], versions) ensures i in more {
      assert i > from ==> i in at;
    }
  }

  lemma SkipRow(rows: seq<Row>, from: nat, versions: set<Hash>, picked: seq<Row>, at: seq<nat>)
    requires from < |rows| && PickedRows(rows, from + 1, versions, picked, at) && !PatchedTo(rows[from], versions)
    ensures PickedRows(rows, from, versions, picked, at)
  {
    hide PatchedTo;
  }

  lemma {:induction false} PatchRowsMembers(rows: seq<Row>, versions: set<Hash>, row: Row)
    ensures row in PatchRows(rows, versions) <==>
              row in rows && row.operation == JAVA_PATCH && row.after.Some? && row.after.value in versions
  {
    if rows != [] {
      PatchRowsMembers(rows[1..], versions, row);
      assert row in rows <==> row == rows[0] || row in rows[1..];
    }
  }

  lemma {:induction false} PatchRowsSplit(rows: seq<Row>, versions: set<Hash>, version: Hash)
    requires version !in versions
    ensures multiset(PatchRows(rows, versions + {version})) ==
            multiset(PatchRows(rows, versions)) + multiset(PatchRows(rows, {version}))
  {
    if rows != [] {
      PatchRowsSplit(rows[1..], versions, version);
    }
  }

  /** The versions `finalHash` was patched from, along every recorded patch. */
  ghost predicate Ancestor(history: seq<Row>, finalHash: Hash, version: Hash) {
    Reach(Predecessors(history, false), finalHash, version)
  }

  /** A patch row of an ancestor does not say what it was applied to. */
  ghost predicate CorruptHistory(history: seq<Row>, finalHash: Hash) {
    exists row :: row in history && row.operation == JAVA_PATCH && row.before.None?
                  && row.after.Some? && Ancestor(history, finalHash, row.after.value)
  }

  method PushBefores(rows: seq<Row>, pending: seq<Hash>) returns (corrupt: bool, pending': seq<Hash>)
    ensures corrupt <==> exists row :: row in rows && row.before.None?
    ensures !corrupt ==> forall x :: x in pending' <==> x in pending || exists row :: row in rows && row.before == Some(x)
  {
    corrupt, pending' := false, pending;
    var k := 0;
    while k < |rows| && !corrupt
      invariant k <= |rows|
      invariant corrupt ==> exists row :: row in rows && row.before.None?
      invariant !corrupt ==> forall j :: 0 <= j < k ==> rows[j].before.Some?
      invariant !corrupt ==>
                  forall x :: x in pending' <==> x in pending || exists j :: 0 <= j < k && rows[j].before == Some(x)
      decreases |rows| - k
    {
      if rows[k].before.None? {
        assert rows[k] in rows;
        corrupt := true;
      } else {
        pending' := pending' + [rows[k].before.value];
      }
      k := k + 1;
    }
  }

  lemma RowsAreSuccessors(history: seq<Row>, value: Hash, rows: seq<Row>)
    requires rows == PatchRows(history, {value}) && forall row :: row in rows ==> row.before.Some?
    ensures forall x :: x in Successors(Predecessors(history, false), value) <==>
              exists row :: row in rows && row.before == Some(x)
  {
    forall x ensures x in Successors(Predecessors(history, false), value) <==>
                     exists row :: row in rows && row.before == Some(x)
    {
      PredecessorEdges(history, false, value, x);
      if Links(history, false, value, x) {
        var k :| 0 <= k < |history| && IsLink(history[k], false)
                 && history[k].after.value == value && history[k].before.value == x;
        PatchRowsMembers(history, {value}, history[k]);
      }
      if row :| row in rows && row.before == Some(x) {
        PatchRowsMembers(history, {value}, row);
        var k :| 0 <= k < |history| && history[k] == row;
        assert IsLink(history[k], false);
      }
    }
  }

  /** What a path's durable record knows: the hash it was published with and its patch history. */
  datatype Ledger = Ledger(sha256: Hash, history: seq<Row>)

  ghost predicate IsAncestry(history: seq<Row>, finalHash: Hash, versions: set<Hash>) {
    forall v :: v in versions <==> Ancestor(history, finalHash, v)
  }

  /** Exactly the patch rows of ancestors, each as often as recorded; nothing unless the record is
      about these bytes; corrupt exactly when such a row has no starting hash. */
  ghost predicate HistoryIsRight(ledger: Option<Ledger>, finalHash: Option<Hash>, result: Option<seq<Row>>) {
    if ledger.None? || finalHash != Some(ledger.value.sha256) then result == Some([])
    else
      var history := ledger.value.history;
      match result
      case None => CorruptHistory(history, finalHash.value)
      case Some(rows) =>
        && !CorruptHistory(history, finalHash.value)
        && exists versions ::
             IsAncestry(history, finalHash.value, versions)
             && multiset(rows) == multiset(PatchRows(history, versions))
  }

  lemma {:induction false} NothingWithinNothing(rows: seq<Row>)
    ensures PatchRows(rows, {}) == []
  {
    if rows != [] {
      NothingWithinNothing(rows[1..]);
    }
  }

  lemma CorruptRowFound(history: seq<Row>, finalHash: Hash, version: Hash, row: Row)
    requires Ancestor(history, finalHash, version)
    requires row in PatchRows(history, {version}) && row.before.None?
    ensures CorruptHistory(history, finalHash)
  {
    PatchRowsMembers(history, {version}, row);
  }

  /** Expands the last pending version, which was not seen before. */
  method ExpandVersion(history: seq<Row>, start: Hash, seen: set<Hash>, pending: seq<Hash>, answer: seq<Row>)
    returns (corrupt: bool, seen': set<Hash>, pending': seq<Hash>, answer': seq<Row>)
    requires Searching(Predecessors(history, false), start, seen, pending)
    requires pending != [] && pending[|pending| - 1] !in seen
    requires multiset(answer) == multiset(PatchRows(history, seen))
    requires forall row :: row in answer ==> row.before.Some?
    ensures corrupt ==> CorruptHistory(history, start)
    ensures seen' == seen + {pending[|pending| - 1]} && pending[|pending| - 1] in Universe(Predecessors(history, false), start)
    ensures !corrupt ==>
              && Searching(Predecessors(history, false), start, seen', pending')
              && multiset(answer') == multiset(PatchRows(history, seen'))
              && forall row :: row in answer' ==> row.before.Some?
  {
    ghost var g := Predecessors(history, false);
    var after := pending[|pending| - 1];
    ReachedInUniverse(g, start, after);
    seen' := seen + {after};
    var rows := PatchRows(history, {after});
    answer' := answer + rows;
    corrupt, pending' := PushBefores(rows, pending[..|pending| - 1]);
    if corrupt {
      var row :| row in rows && row.before.None?;
      CorruptRowFound(history, start, after, row);
    } else {
      RowsAreSuccessors(history, after, rows);
      SearchExpand(g, start, seen, pending, pending');
      PatchRowsSplit(history, seen, after);
    }
  }

  lemma HistoryCollected(history: seq<Row>, start: Hash, seen: set<Hash>, answer: seq<Row>)
    requires IsAncestry(history, start, seen)
    requires multiset(answer) == multiset(PatchRows(history, seen))
    requires forall row :: row in answer ==> row.before.Some?
    ensures !CorruptHistory(history, start)
  {
    forall row | row in history && row.operation == JAVA_PATCH && row.after.Some? && row.after.value in seen
      ensures row.before.Some?
    {
      PatchRowsMembers(history, seen, row);
      assert row in multiset(PatchRows(history, seen));
      assert row in multiset(answer);
    }
  }

  /** The history that certifies `finalHash`; `None` when the record is corrupt. */
  method ReadJavaPatchHistory(ledger: Option<Ledger>, finalHash: Option<Hash>) returns (result: Option<seq<Row>>)
    ensures HistoryIsRight(ledger, finalHash, result)
  {
    if ledger.None? || finalHash != Some(ledger.value.sha256) {
      return Some([]);
    }
    var history, start := ledger.value.history, finalHash.value;
    ghost var g := Predecessors(history, false);
    var answer: seq<Row>, corrupt := [], false;
    var seen: set<Hash> := {};
    var pending := [start];
    ReachRefl(g, start);
    NothingWithinNothing(history);
    while pending != [] && !corrupt
      invariant corrupt ==> CorruptHistory(history, start)
      invariant !corrupt ==> Searching(g, start, seen, pending)
      invariant !corrupt ==> multiset(answer) == multiset(PatchRows(history, seen))
      invariant !corrupt ==> forall row :: row in answer ==> row.before.Some?
      decreases !corrupt, Universe(g, start) - seen, |pending|
    {
      var after := pending[|pending| - 1];
      if after in seen {
        SearchSkip(g, start, seen, pending);
        pending := pending[..|pending| - 1];
      } else {
        corrupt, seen, pending, answer := ExpandVersion(history, start, seen, pending, answer);
      }
    }
    if corrupt {
      return None;
    }
    SearchDone(g, start, seen);
    result := Some(answer);
    HistoryCollected(history, start, seen, answer);
  }

  // ---------------------------------------------------------------- what a history certifies

  lemma MoreLinksReachMore(a: seq<Row>, strictA: bool, b: seq<Row>, strictB: bool, x: Hash, y: Hash)
    requires forall row :: row in a && IsLink(row, strictA) ==> row in b && IsLink(row, strictB)
    requires Reach(Predecessors(a, strictA), x, y)
    ensures Reach(Predecessors(b, strictB), x, y)
  {
    forall v, w | Edge(Predecessors(a, strictA), v, w) ensures Edge(Predecessors(b, strictB), v, w) {
      PredecessorEdges(a, strictA, v, w);
      PredecessorEdges(b, strictB, v, w);
      var k :| 0 <= k < |a| && IsLink(a[k], strictA) && a[k].after.value == v && a[k].before.value == w;
      assert a[k] in b;
      var j :| 0 <= j < |b| && b[j] == a[k];
    }
    ReachInLarger(Predecessors(a, strictA), Predecessors(b, strictB), x, y);
  }

  lemma RowSurvives(rows: seq<Row>, finalHash: Hash, row: Row)
    requires row in rows && IsLink(row, true) && Survives(rows, finalHash, row.after.value)
    ensures Survives(rows, finalHash, row.before.value)
  {
    var k :| 0 <= k < |rows| && rows[k] == row;
    PredecessorEdges(rows, true, row.after.value, row.before.value);
    ReachEdge(Predecessors(rows, true), row.after.value, row.before.value);
    ReachTrans(Predecessors(rows, true), finalHash, row.after.value, row.before.value);
  }

  lemma KeptRows(history: seq<Row>, finalHash: Hash, kept: seq<Row>, row: Row)
    requires HistoryIsRight(Some(Ledger(finalHash, history)), Some(finalHash), Some(kept))
    ensures row in kept <==> row in history && row.operation == JAVA_PATCH && row.after.Some?
                             && Ancestor(history, finalHash, row.after.value)
  {
    var versions :| IsAncestry(history, finalHash, versions)
                    && multiset(kept) == multiset(PatchRows(history, versions));
    PatchRowsMembers(history, versions, row);
    assert row in kept <==> row in multiset(kept);
    assert row in PatchRows(history, versions) <==> row in multiset(PatchRows(history, versions));
  }

  /** With the kept history at hand, every ancestor recorded there survives. */
  lemma AncestorsSurvive(history: seq<Row>, finalHash: Hash, kept: seq<Row>, rows: seq<Row>, version: Hash)
    requires HistoryIsRight(Some(Ledger(finalHash, history)), Some(finalHash), Some(kept))
    requires forall row :: row in kept ==> row in rows && IsLink(row, true)
    requires Ancestor(history, finalHash, version)
    ensures Survives(rows, finalHash, version)
  {
    var g := Predecessors(history, false);
    var good := set v | v in Universe(g, finalHash) && Ancestor(history, finalHash, v) && Survives(rows, finalHash, v);
    forall v, w | v in good && Edge(g, v, w) ensures w in good {
      PredecessorEdges(history, false, v, w);
      var k :| 0 <= k < |history| && IsLink(history[k], false)
               && history[k].after.value == v && history[k].before.value == w;
      KeptRows(history, finalHash, kept, history[k]);
      RowSurvives(rows, finalHash, history[k]);
      ReachEdge(g, v, w);
      ReachTrans(g, finalHash, v, w);
    }
    ReachRefl(g, finalHash);
    ReachRefl(Predecessors(rows, true), finalHash);
    ClosedReach(g, good, finalHash, version);
  }

  /** Adding the kept history never turns a verified chain into an unverified one. */
  lemma HistoryNeverHurts(receipts: seq<Row>, history: seq<Row>, finalHash: Hash, kept: seq<Row>)
    requires HistoryIsRight(Some(Ledger(finalHash, history)), Some(finalHash), Some(kept))
    requires forall row :: row in kept ==> IsLink(row, true) && WellFormed(row.after.value)
    requires ChainVerified(receipts, finalHash)
    ensures ChainVerified(receipts + kept, finalHash)
  {
    var all := receipts + kept;
    forall k | 0 <= k < |all|
      ensures all[k].after.Some? && WellFormed(all[k].after.value) && Survives(all, finalHash, all[k].after.value)
    {
      if k < |receipts| {
        MoreLinksReachMore(receipts, true, all, true, finalHash, all[k].after.value);
      } else {
        assert all[k] in kept;
        KeptRows(history, finalHash, kept, all[k]);
        AncestorsSurvive(history, finalHash, kept, all, all[k].after.value);
      }
    }
  }

  /** A history in which every row is a proper patch of a version surviving to `current`. */
  ghost predicate HistoryOk(history: seq<Row>, current: Hash) {
    forall row :: row in history ==>
      IsLink(row, true) && WellFormed(row.after.value) && Survives(history, current, row.after.value)
  }

  /** No row is recorded twice. */
  ghost predicate NoRepeats(rows: seq<Row>) {
    forall row :: multiset(rows)[row] <= 1
  }

  lemma {:induction false} PatchRowsAreRows(rows: seq<Row>, versions: set<Hash>, row: Row)
    ensures multiset(PatchRows(rows, versions))[row] <= multiset(rows)[row]
  {
    if rows != [] {
      PatchRowsAreRows(rows[1..], versions, row);
      assert rows == [rows[0]] + rows[1..];
    }
  }

  /** What is kept of a history without repeats has none. */
  lemma KeptNoRepeats(ledger: Option<Ledger>, finalHash: Option<Hash>, kept: seq<Row>)
    requires HistoryIsRight(ledger, finalHash, Some(kept))
    requires ledger.Some? ==> NoRepeats(ledger.value.history)
    ensures NoRepeats(kept)
  {
    if ledger.Some? && finalHash == Some(ledger.value.sha256) {
      var history := ledger.value.history;
      var versions :| IsAncestry(history, finalHash.value, versions)
                      && multiset(kept) == multiset(PatchRows(history, versions));
      forall row ensures multiset(kept)[row] <= 1 {
        PatchRowsAreRows(history, versions, row);
        assert multiset(history)[row] <= 1;
      }
    }
  }

  lemma AddedNoRepeats(rows: seq<Row>, row: Row)
    requires NoRepeats(rows)
    ensures NoRepeats(if row in rows then rows else rows + [row])
  {
    if row !in rows {
      forall other ensures multiset(rows + [row])[other] <= 1 {
        assert multiset(rows)[other] <= 1;
      }
    }
  }

  /** Nothing is pruned from such a history. */
  lemma NothingPruned(history: seq<Row>, current: Hash, result: Option<seq<Row>>)
    requires HistoryOk(history, current)
    requires HistoryIsRight(Some(Ledger(current, history)), Some(current), result)
    ensures result.Some? && forall row :: row in result.value <==> row in history
  {
    forall row | row in history ensures row.before.Some? && Ancestor(history, current, row.after.value) {
      MoreLinksReachMore(history, true, history, false, current, row.after.value);
    }
    if result.Some? {
      forall row ensures row in result.value <==> row in history {
        KeptRows(history, current, result.value, row);
      }
    }
  }

  /** A patch from `current` to `next` carries every surviving version along. */
  lemma PatchCarriesOn(history: seq<Row>, current: Hash, next: Hash, extended: seq<Row>, version: Hash)
    requires forall row :: row in extended <==> row in history || row == Row(JAVA_PATCH, Some(current), Some(next))
    requires WellFormed(current) && Survives(history, current, version)
    ensures Survives(extended, next, version)
  {
    var patch := Row(JAVA_PATCH, Some(current), Some(next));
    MoreLinksReachMore(history, true, extended, true, current, version);
    ReachRefl(Predecessors(extended, true), next);
    RowSurvives(extended, next, patch);
    ReachTrans(Predecessors(extended, true), next, current, version);
  }

  lemma PatchKeepsHistoryOk(history: seq<Row>, current: Hash, next: Hash, extended: seq<Row>)
    requires HistoryOk(history, current) && WellFormed(current) && WellFormed(next)
    requires forall row :: row in extended <==> row in history || row == Row(JAVA_PATCH, Some(current), Some(next))
    ensures HistoryOk(extended, next)
  {
    ReachRefl(Predecessors(extended, true), next);
    forall row | row in extended
      ensures IsLink(row, true) && WellFormed(row.after.value) && Survives(extended, next, row.after.value)
    {
      if row in history {
        PatchCarriesOn(history, current, next, extended, row.after.value);
      }
    }
  }

  /** Receipts of versions that survive in the history verify together with the history. */
  lemma LineageVerifies(receipts: seq<Row>, history: seq<Row>, kept: seq<Row>, current: Hash)
    requires HistoryOk(history, current)
    requires forall row :: row in kept <==> row in history
    requires forall k :: 0 <= k < |receipts| ==>
               receipts[k].after.Some? && WellFormed(receipts[k].after.value)
               && Survives(history, current, receipts[k].after.value)
    ensures ChainVerified(receipts + kept, current)
  {
    var all := receipts + kept;
    forall k | 0 <= k < |all|
      ensures all[k].after.Some? && WellFormed(all[k].after.value) && Survives(all, current, all[k].after.value)
    {
      if k >= |receipts| {
        assert all[k] in kept;
      }
      MoreLinksReachMore(history, true, all, true, current, all[k].after.value);
    }
  }
}
