/** Why a record set is refused, stated on the records and on the saved checkpoint themselves. */
module RecordRules {
  import opened JsonMerge
  import opened Optional
  import opened RecordSet

  // ---------------------------------------------------------------- one record

  /** Why this record cannot follow these. */
  ghost predicate RecordBreaks(template: Template, earlier: seq<Record>, record: Record, why: Failure) {
    match why
    case InvalidRecord => !Meaningful(template, record)
    case MissingEntityId => Meaningful(template, record) && !Identified(template, record)
    case DuplicateKey =>
      && Meaningful(template, record) && Identified(template, record)
      && exists i :: 0 <= i < |earlier| && SameRecord(template, earlier[i], record)
    case _ => false
  }

  lemma SameAsEarlier(template: Template, earlier: seq<Record>, record: Record)
    requires Identified(template, record)
    ensures Key(template, record).Some?
    ensures Key(template, record).value in KeysOf(template, earlier)
            <==> exists i :: 0 <= i < |earlier| && SameRecord(template, earlier[i], record)
  {
    hide Key, SameRecord, KeysOf, Identified;
    KeysTellApart(template, record, record);
    KeysAreTaken(template, earlier, Key(template, record).value);
    forall i | 0 <= i < |earlier|
      ensures Key(template, earlier[i]) == Key(template, record) <==> SameRecord(template, earlier[i], record)
    {
      SameOrUnidentified(template, earlier[i], record);
    }
  }

  lemma SameOrUnidentified(template: Template, a: Record, b: Record)
    requires Identified(template, b)
    ensures Key(template, a) == Key(template, b) <==> SameRecord(template, a, b)
  {
  }

  /** The fault found in the next record is the one it has. */
  lemma FaultExactly(template: Template, earlier: seq<Record>, record: Record, why: Failure)
    ensures Fault(template, record, KeysOf(template, earlier)) == Some(why)
            <==> RecordBreaks(template, earlier, record, why)
  {
    hide RecordOk, Meaningful, Key, KeysOf, SameRecord, Identified;
    MeaningfulExactly(template, record);
    KeysTellApart(template, record, record);
    if Identified(template, record) {
      SameAsEarlier(template, earlier, record);
    }
  }

  // ---------------------------------------------------------------- what authoring comes to

  /** Records that can stand together, each the author's answer to its ordinal. */
  ghost predicate RightSoFar(template: Template, author: Author, count: nat, records: seq<Record>) {
    && AuthoredBy(author, count, records)
    && (forall i :: 0 <= i < |records| ==> Meaningful(template, records[i]) && Identified(template, records[i]))
    && forall i, j :: 0 <= i < j < |records| ==> !SameRecord(template, records[i], records[j])
  }

  ghost predicate AnswerBreaks(template: Template, earlier: seq<Record>, answer: Option<Authored>, why: Failure) {
    match answer
    case None => why == AuthoringFailed
    case Some(authored) => RecordBreaks(template, earlier, authored.record, why)
  }

  lemma AcceptedExactly(template: Template, author: Author, count: nat, records: seq<Record>)
    ensures Accepted(template, author, count, records)
            <==> |records| <= count && RightSoFar(template, author, count, records)
  {
    hide RecordOk, Meaningful, Key, SameRecord, Identified;
    forall i | 0 <= i < |records|
      ensures RecordOk(template, records[i]) <==> Meaningful(template, records[i])
      ensures Key(template, records[i]).Some? <==> Identified(template, records[i])
    {
      MeaningfulExactly(template, records[i]);
      KeysTellApart(template, records[i], records[i]);
    }
    forall i, j | 0 <= i < j < |records| && Identified(template, records[i]) && Identified(template, records[j])
      ensures Key(template, records[i]) == Key(template, records[j]) <==> SameRecord(template, records[i], records[j])
    {
      KeysTellApart(template, records[i], records[j]);
    }
  }

  lemma RefusalExactly(template: Template, answer: Option<Authored>, earlier: seq<Record>, why: Failure)
    ensures Refusal(template, answer, earlier) == Some(why) <==> AnswerBreaks(template, earlier, answer, why)
  {
    if answer.Some? {
      FaultExactly(template, earlier, answer.value.record, why);
    }
  }

  /** An uncancelled fresh run ends with these records exactly when they are the author's own, meaningful,
      identified and all different; it fails for a reason exactly when after some such records the next
      answer is missing or has that fault. */
  lemma FreshRunExactly(
    template: Template, minimum: nat, count: nat, author: Author, durable: bool, after: Option<Saved>,
    outcome: Outcome, requests: nat)
    requires minimum <= count <= 16
    requires RunIsRight(template, minimum, Some(count), author, durable, false, None, after, outcome, requests)
    ensures forall records :: outcome == Records(records)
              <==> |records| == count && RightSoFar(template, author, count, records)
    ensures forall why :: outcome == Failed(why)
              <==> exists records :: StopsAfter(template, author, count, records, why)
  {
    hide RunIsRight, RightSoFar, Accepted, FailsAfter;
    FreshRunIsDecided(template, minimum, count, author, durable, after, outcome, requests);
    forall records
      ensures Accepted(template, author, count, records)
              <==> |records| <= count && RightSoFar(template, author, count, records)
    {
      AcceptedExactly(template, author, count, records);
    }
    forall records, why
      ensures FailsAfter(template, author, count, records, why) <==> StopsAfter(template, author, count, records, why)
    {
      FailsExactly(template, author, count, records, why);
    }
  }

  /** A fresh run asks for the count once and fails there exactly when the answer is missing or no count from
      the minimum to sixteen; a run that nobody cancels fails so for no other reason. */
  lemma CountAsked(
    template: Template, minimum: nat, answer: Option<int>, author: Author, durable: bool, after: Option<Saved>,
    outcome: Outcome, requests: nat)
    requires RunIsRight(template, minimum, answer, author, durable, false, None, after, outcome, requests)
    ensures outcome == Failed(CountRequestFailed) <==> answer.None? || answer.value < minimum || answer.value > 16
    ensures outcome == Failed(CountRequestFailed) ==> requests == 1 && after.None?
  {
    if answer.Some? && minimum <= answer.value <= 16 {
      FreshRunExactly(template, minimum, answer.value, author, durable, after, outcome, requests);
      if records :| StopsAfter(template, author, answer.value, records, CountRequestFailed) {
        assert false;
      }
    }
  }

  ghost predicate StopsAfter(template: Template, author: Author, count: nat, records: seq<Record>, why: Failure) {
    && |records| < count && RightSoFar(template, author, count, records)
    && AnswerBreaks(template, records, author(|records|, count, records), why)
  }

  lemma FailsExactly(template: Template, author: Author, count: nat, records: seq<Record>, why: Failure)
    ensures FailsAfter(template, author, count, records, why) <==> StopsAfter(template, author, count, records, why)
  {
    hide RightSoFar, Accepted, AnswerBreaks, Refusal;
    AcceptedExactly(template, author, count, records);
    RefusalExactly(template, author(|records|, count, records), records, why);
  }

  // ---------------------------------------------------------------- saved checkpoints

  /** Distinct, meaningful, identified records. */
  ghost predicate StandTogether(template: Template, records: seq<Record>) {
    && (forall i :: 0 <= i < |records| ==> Meaningful(template, records[i]) && Identified(template, records[i]))
    && forall i, j :: 0 <= i < j < |records| ==> !SameRecord(template, records[i], records[j])
  }

  /** The first record that cannot follow the ones before it has this fault. */
  ghost predicate FirstBreak(template: Template, records: seq<Record>, why: Failure) {
    exists k: nat :: k < |records| && BreaksAt(template, records, k, why)
  }

  ghost predicate BreaksAt(template: Template, records: seq<Record>, k: nat, why: Failure)
    requires k < |records|
  {
    StandTogether(template, records[..k]) && RecordBreaks(template, records[..k], records[k], why)
  }

  lemma {:induction false} FirstFaultFrom(template: Template, records: seq<Record>, k: nat)
    requires k <= |records| && StandTogether(template, records[..k])
    ensures match FirstFault(template, records[k..], KeysOf(template, records[..k]))
            case None => StandTogether(template, records)
            case Some(why) => FirstBreak(template, records, why)
    decreases |records| - k
  {
    hide Fault, KeysOf, StandTogether, RecordBreaks;
    if k == |records| {
      assert records[..k] == records && records[k..] == [];
    } else {
      assert records[k..][0] == records[k] && records[k..][1..] == records[k + 1..];
      assert records[..k + 1] == records[..k] + [records[k]];
      var fault := Fault(template, records[k], KeysOf(template, records[..k]));
      if fault.Some? {
        FaultExactly(template, records[..k], records[k], fault.value);
        assert BreaksAt(template, records, k, fault.value);
      } else {
        Follows(template, records[..k], records[k]);
        FirstFaultFrom(template, records, k + 1);
      }
    }
  }

  /** A record without fault stands together with the ones before it, and its key joins theirs. */
  lemma Follows(template: Template, earlier: seq<Record>, record: Record)
    requires StandTogether(template, earlier) && Fault(template, record, KeysOf(template, earlier)).None?
    ensures StandTogether(template, earlier + [record]) && Key(template, record).Some?
    ensures KeysOf(template, earlier + [record]) == KeysOf(template, earlier) + {Key(template, record).value}
  {
    hide RecordOk, Meaningful, Key, KeysOf, SameRecord, Identified;
    StandExactly(template, earlier);
    AdmitExtends(template, earlier, record);
    StandExactly(template, earlier + [record]);
  }

  lemma StandExactly(template: Template, records: seq<Record>)
    ensures StandTogether(template, records) <==> Valid(template, records) && RecordSet.Distinct(template, records)
  {
    hide RecordOk, Meaningful, Key, SameRecord, Identified;
    forall i | 0 <= i < |records|
      ensures RecordOk(template, records[i]) <==> Meaningful(template, records[i])
      ensures Key(template, records[i]).Some? <==> Identified(template, records[i])
    {
      MeaningfulExactly(template, records[i]);
      KeysTellApart(template, records[i], records[i]);
    }
    forall i, j | 0 <= i < j < |records| && Identified(template, records[i]) && Identified(template, records[j])
      ensures Key(template, records[i]) == Key(template, records[j]) <==> SameRecord(template, records[i], records[j])
    {
      KeysTellApart(template, records[i], records[j]);
    }
  }

  ghost predicate HasList(saved: Saved) {
    saved.SavedObject? && "records" in saved.fields && saved.fields["records"].ListValue?
  }

  ghost predicate HasCount(saved: Saved) {
    saved.SavedObject? && "count" in saved.fields && saved.fields["count"].IntValue?
  }

  /** The named field is missing or has the right kind of value. */
  ghost predicate ListOrMissing(saved: Saved) {
    saved.SavedObject? && ("records" in saved.fields ==> HasList(saved))
  }

  ghost predicate CountRight(saved: Saved) {
    saved.SavedObject? && ("count" in saved.fields || "records" in saved.fields ==> HasCount(saved))
  }

  ghost predicate OnlyKnownFields(saved: Saved) {
    saved.SavedObject? && "count" in saved.fields && forall name :: name in saved.fields ==> name in {"count", "records"}
  }

  /** A checkpoint of a list of records, with the count saved beside it. */
  ghost predicate IsListOf(saved: Saved, count: int, records: seq<Record>) {
    && HasList(saved) && HasCount(saved) && OnlyKnownFields(saved) && saved.fields["count"].n == count
    && var items := saved.fields["records"].items;
       |items| == |records| && forall i :: 0 <= i < |items| ==> items[i] == RecordItem(records[i])
  }

  ghost predicate HoldsNoRecord(saved: Saved) {
    HasList(saved) && NotARecord in saved.fields["records"].items
  }

  /** Why a saved checkpoint is refused. */
  ghost predicate SavedBreaks(template: Template, minimum: int, saved: Saved, why: Failure) {
    match why
    case SavedShape =>
      || !ListOrMissing(saved)
      || (CountRight(saved) && (!OnlyKnownFields(saved) || HoldsNoRecord(saved)))
    case SavedCount => ListOrMissing(saved) && !CountRight(saved)
    case CountOutOfRange =>
      exists count, records :: IsListOf(saved, count, records) && |records| > 16
    case CardinalityDrift =>
      exists count, records :: IsListOf(saved, count, records) && |records| <= 16
                               && (|records| < minimum || count != |records|)
    case _ =>
      exists count, records :: IsListOf(saved, count, records) && |records| <= 16
                               && minimum <= |records| == count && FirstBreak(template, records, why)
  }

  lemma ItemsAreRecords(saved: Saved, count: int, records: seq<Record>)
    requires IsListOf(saved, count, records)
    ensures NotARecord !in saved.fields["records"].items && RecordsIn(saved.fields["records"].items) == records
  {
  }

  lemma ListsItsRecords(saved: Saved)
    requires HasList(saved) && HasCount(saved) && OnlyKnownFields(saved) && !HoldsNoRecord(saved)
    ensures IsListOf(saved, saved.fields["count"].n, RecordsIn(saved.fields["records"].items))
  {
    var items := saved.fields["records"].items;
    forall i | 0 <= i < |items| ensures items[i] == RecordItem(RecordsIn(items)[i]) {
      assert items[i] in items;
    }
  }

  lemma KnownFields(saved: Saved)
    requires saved.SavedObject?
    ensures OnlyKnownFields(saved) <==> saved.fields.Keys == {"count"} || saved.fields.Keys == {"count", "records"}
  {
    if OnlyKnownFields(saved) {
      if "records" in saved.fields {
        assert saved.fields.Keys == {"count", "records"};
      } else {
        assert saved.fields.Keys == {"count"};
      }
    }
  }

  lemma FaultsOfRecords(template: Template, records: seq<Record>, why: Failure)
    ensures FirstFault(template, records, {}) == Some(why) <==> FirstBreak(template, records, why)
  {
    hide StandTogether, RecordBreaks, FirstFault;
    assert records[0..] == records && records[..0] == [];
    NothingStands(template);
    FirstFaultFrom(template, records, 0);
    if FirstBreak(template, records, why) {
      var k: nat :| k < |records| && BreaksAt(template, records, k, why);
      BreakIsNoSet(template, records, k, why);
      var fault := FirstFault(template, records, {});
      var m: nat :| m < |records| && BreaksAt(template, records, m, fault.value);
      OneBreak(template, records, k, why, m, fault.value);
    }
  }

  lemma NothingStands(template: Template)
    ensures StandTogether(template, []) && KeysOf(template, []) == {}
  {
  }

  lemma BreakIsNoSet(template: Template, records: seq<Record>, k: nat, why: Failure)
    requires k < |records| && BreaksAt(template, records, k, why)
    ensures forall n: nat :: k < n <= |records| ==> !StandTogether(template, records[..n])
    ensures !StandTogether(template, records)
  {
    hide Meaningful, Identified, SameRecord;
    forall n: nat | k < n <= |records| ensures !StandTogether(template, records[..n]) {
      assert records[..n][k] == records[k];
      if why == DuplicateKey {
        var i :| 0 <= i < k && SameRecord(template, records[..k][i], records[k]);
        assert records[..n][i] == records[..k][i];
      }
    }
    assert records[..|records|] == records;
  }

  lemma OneBreak(template: Template, records: seq<Record>, k: nat, why: Failure, m: nat, other: Failure)
    requires k < |records| && BreaksAt(template, records, k, why)
    requires m < |records| && BreaksAt(template, records, m, other)
    ensures why == other
  {
    hide Meaningful, Identified, SameRecord, StandTogether;
    BreakIsNoSet(template, records, k, why);
    BreakIsNoSet(template, records, m, other);
  }

  lemma BreakIsOfRecord(template: Template, records: seq<Record>, why: Failure)
    requires FirstBreak(template, records, why)
    ensures why in {InvalidRecord, MissingEntityId, DuplicateKey}
  {
  }

  ghost predicate IsList(saved: Saved) {
    HasList(saved) && HasCount(saved) && OnlyKnownFields(saved) && !HoldsNoRecord(saved)
  }

  /** A checkpoint that is no list of records. */
  lemma ShapeExactly(template: Template, minimum: int, saved: Saved, why: Failure)
    requires !IsList(saved)
    ensures ResumeFrom(template, minimum, Some(saved)) == Rejected(why) <==> SavedBreaks(template, minimum, saved, why)
  {
    hide FirstFault, FirstBreak, OnlyKnownFields, IsListOf;
    if saved.SavedObject? {
      KnownFields(saved);
    }
    ListsFields(saved);
  }

  /** A list of records, checked for its length and then record by record. */
  lemma ListExactly(template: Template, minimum: int, count: int, records: seq<Record>, saved: Saved, why: Failure)
    requires IsList(saved) && IsListOf(saved, count, records)
    requires forall c, r :: IsListOf(saved, c, r) ==> c == count && r == records
    ensures SavedBreaks(template, minimum, saved, why)
            <==> if |records| > 16 then why == CountOutOfRange
                 else if |records| < minimum || count != |records| then why == CardinalityDrift
                 else FirstBreak(template, records, why)
  {
    hide FirstBreak, OnlyKnownFields, IsListOf;
    if FirstBreak(template, records, why) {
      BreakIsOfRecord(template, records, why);
    }
  }

  /** A saved checkpoint is refused for a reason exactly when it has that fault. */
  lemma RejectionExactly(template: Template, minimum: int, saved: Saved, why: Failure)
    ensures ResumeFrom(template, minimum, Some(saved)) == Rejected(why) <==> SavedBreaks(template, minimum, saved, why)
  {
    hide FirstFault, FirstBreak, OnlyKnownFields, IsListOf, SavedBreaks;
    if !IsList(saved) {
      ShapeExactly(template, minimum, saved, why);
    } else {
      var count, records := saved.fields["count"].n, RecordsIn(saved.fields["records"].items);
      KnownFields(saved);
      ListsItsRecords(saved);
      FaultsOfRecords(template, records, why);
      forall c, r | IsListOf(saved, c, r) ensures c == count && r == records {
        ItemsAreRecords(saved, c, r);
        ListsCount(saved, c, r);
      }
      ListExactly(template, minimum, count, records, saved, why);
    }
  }

  lemma ListsFields(saved: Saved)
    ensures forall c, r :: IsListOf(saved, c, r) ==>
              HasList(saved) && HasCount(saved) && OnlyKnownFields(saved) && !HoldsNoRecord(saved)
  {
    forall c, r | IsListOf(saved, c, r) ensures !HoldsNoRecord(saved) {
      ItemsAreRecords(saved, c, r);
    }
  }

  lemma ListsCount(saved: Saved, count: int, records: seq<Record>)
    requires IsListOf(saved, count, records)
    ensures saved.fields["count"].n == count
  {
  }
}
