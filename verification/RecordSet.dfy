/** Generating a bounded set of records one at a time, with checkpoints to resume from. */
module RecordSet {
  import opened JsonMerge
  import opened Optional
  import PyString

  const MAX_ITEMS := 16

  type Record = map<string, Json>

  /** The record schema: the schema validator's verdict, the required fields, and which fields are strings. */
  datatype Template =
    Template(keyedByEntity: bool, required: seq<string>, stringFields: set<string>, schemaAccepts: Record -> bool)

  // ---------------------------------------------------------------- what makes a set complete

  predicate BlankField(template: Template, record: Record, field: string) {
    field in template.stringFields && field in record && record[field].Text? && PyString.Strip(record[field].s) == ""
  }

  predicate RecordOk(template: Template, record: Record) {
    template.schemaAccepts(record)
    && forall i :: 0 <= i < |template.required| ==> !BlankField(template, record, template.required[i])
  }

  /** A content entity is known by its id; any other record by its whole content. */
  function Key(template: Template, record: Record): Option<Json> {
    if !template.keyedByEntity then Some(Object(record))
    else if "entity_id" in record then Some(record["entity_id"])
    else None
  }

  ghost predicate Valid(template: Template, records: seq<Record>) {
    forall i :: 0 <= i < |records| ==> RecordOk(template, records[i]) && Key(template, records[i]).Some?
  }

  ghost predicate Distinct(template: Template, records: seq<Record>) {
    forall i, j :: 0 <= i < j < |records| ==> Key(template, records[i]) != Key(template, records[j])
  }

  ghost predicate CompleteSet(template: Template, minimum: int, records: seq<Record>) {
    minimum <= |records| <= MAX_ITEMS && Valid(template, records) && Distinct(template, records)
  }

  /** A content entity needs an id to be told apart. */
  ghost predicate Identified(template: Template, record: Record) {
    template.keyedByEntity ==> "entity_id" in record
  }

  /** Two content entities are the same if their ids are, whatever else they say; other records are the same
      only if everything in them is. */
  ghost predicate SameRecord(template: Template, a: Record, b: Record) {
    if template.keyedByEntity then "entity_id" in a && "entity_id" in b && a["entity_id"] == b["entity_id"] else a == b
  }

  ghost predicate HoldsVisible(text: string) {
    exists i :: 0 <= i < |text| && !PyString.IsSpace(text[i])
  }

  ghost predicate HasText(template: Template, record: Record, field: string) {
    field in template.stringFields && field in record && record[field].Text?
  }

  /** The schema admits the record, and no required string field is empty or all white space. */
  ghost predicate Meaningful(template: Template, record: Record) {
    && template.schemaAccepts(record)
    && forall field :: field in template.required && HasText(template, record, field) ==> HoldsVisible(record[field].s)
  }

  /** A set as it is promised, from `minimum` to sixteen records. */
  ghost predicate RightSet(template: Template, minimum: int, records: seq<Record>) {
    && minimum <= |records| <= 16
    && (forall i :: 0 <= i < |records| ==> Meaningful(template, records[i]) && Identified(template, records[i]))
    && forall i, j :: 0 <= i < j < |records| ==> !SameRecord(template, records[i], records[j])
  }

  lemma VisibleExactly(text: string)
    ensures PyString.Strip(text) != "" <==> HoldsVisible(text)
  {
    PyString.StripEmptyExactly(text);
  }

  lemma MeaningfulExactly(template: Template, record: Record)
    ensures RecordOk(template, record) <==> Meaningful(template, record)
  {
    hide HoldsVisible;
    forall field | HasText(template, record, field)
      ensures BlankField(template, record, field) <==> !HoldsVisible(record[field].s)
    {
      VisibleExactly(record[field].s);
    }
    if RecordOk(template, record) {
      forall field | field in template.required ensures !BlankField(template, record, field) {
        var i :| 0 <= i < |template.required| && template.required[i] == field;
      }
    }
  }

  lemma KeysTellApart(template: Template, a: Record, b: Record)
    ensures Key(template, a).Some? <==> Identified(template, a)
    ensures Identified(template, a) && Identified(template, b) ==>
              (Key(template, a) == Key(template, b) <==> SameRecord(template, a, b))
  {
  }

  /** A complete set is a set as promised. */
  lemma CompleteExactly(template: Template, minimum: int, records: seq<Record>)
    ensures CompleteSet(template, minimum, records) <==> RightSet(template, minimum, records)
  {
    hide RecordOk, Meaningful, Key, SameRecord, Identified;
    forall i | 0 <= i < |records|
      ensures RecordOk(template, records[i]) <==> Meaningful(template, records[i])
      ensures Key(template, records[i]).Some? <==> Identified(template, records[i])
    {
      MeaningfulExactly(template, records[i]);
      KeysTellApart(template, records[i], records[i]);
    }
    forall i, j | 0 <= i < j < |records| && Identified(template, records[i]) && Identified(template, records[j])
      ensures Key(template, records[i]) == Key(template, records[j]) <==> SameRecord(template, records[i], records[j])
    {
      KeysTellApart(template, records[i], records[j]);
    }
  }

  datatype Failure =
    | MinimumOutOfRange
    | SavedShape
    | SavedCount
    | CountOutOfRange
    | CardinalityDrift
    | InvalidRecord
    | MissingEntityId
    | DuplicateKey
    | CountRequestFailed
    | AuthoringFailed

  // ---------------------------------------------------------------- admission

  /** Why one record cannot join a set with these keys. */
  function Fault(template: Template, record: Record, keys: set<Json>): Option<Failure> {
    if !RecordOk(template, record) then Some(InvalidRecord)
    else match Key(template, record)
      case None => Some(MissingEntityId)
      case Some(key) => if key in keys then Some(DuplicateKey) else None
  }

  function FirstFault(template: Template, records: seq<Record>, keys: set<Json>): Option<Failure>
    decreases |records|
  {
    if records == [] then None
    else if Fault(template, records[0], keys).Some? then Fault(template, records[0], keys)
    else FirstFault(template, records[1..], keys + {Key(template, records[0]).value})
  }

  ghost predicate Avoids(template: Template, records: seq<Record>, keys: set<Json>) {
    forall i :: 0 <= i < |records| && Key(template, records[i]).Some? ==> Key(template, records[i]).value !in keys
  }

  lemma {:induction false} NoFaultMeansDistinct(template: Template, records: seq<Record>, keys: set<Json>)
    ensures FirstFault(template, records, keys).None?
            <==> Valid(template, records) && Distinct(template, records) && Avoids(template, records, keys)
    decreases |records|
  {
    hide RecordOk, Key;
    if records != [] {
      var first, rest := records[0], records[1..];
      if Fault(template, first, keys).None? {
        var key := Key(template, first).value;
        NoFaultMeansDistinct(template, rest, keys + {key});
        if Valid(template, rest) && Distinct(template, rest) && Avoids(template, rest, keys + {key}) {
          ConsDistinct(template, first, rest, keys);
          assert records == [first] + rest;
        } else if Valid(template, records) && Distinct(template, records) && Avoids(template, records, keys) {
          TailDistinct(template, records, keys);
          assert false;
        }
      } else if Valid(template, records) && Avoids(template, records, keys) {
        assert false;
      }
    }
  }

  lemma ConsDistinct(template: Template, first: Record, rest: seq<Record>, keys: set<Json>)
    requires RecordOk(template, first) && Key(template, first).Some? && Key(template, first).value !in keys
    requires Valid(template, rest) && Distinct(template, rest)
    requires Avoids(template, rest, keys + {Key(template, first).value})
    ensures var all := [first] + rest; Valid(template, all) && Distinct(template, all) && Avoids(template, all, keys)
  {
    hide RecordOk, Key;
    var all := [first] + rest;
    forall i, j | 0 <= i < j < |all| ensures Key(template, all[i]) != Key(template, all[j]) {
      assert all[j] == rest[j - 1];
      if i > 0 {
        assert all[i] == rest[i - 1];
      }
    }
  }

  lemma TailDistinct(template: Template, records: seq<Record>, keys: set<Json>)
    requires records != []
    requires Valid(template, records) && Distinct(template, records) && Avoids(template, records, keys)
    ensures var rest := records[1..];
            && Valid(template, rest) && Distinct(template, rest)
            && Avoids(template, rest, keys + {Key(template, records[0]).value})
  {
    hide RecordOk, Key;
  }

  /** The keys a faultless set has taken. */
  function KeysOf(template: Template, records: seq<Record>): set<Json> {
    if records == [] then {}
    else
      var n := |records| - 1;
      KeysOf(template, records[..n])
      + (match Key(template, records[n]) case Some(key) => {key} case None => {})
  }

  lemma {:induction false} KeysAreTaken(template: Template, records: seq<Record>, key: Json)
    ensures key in KeysOf(template, records)
            <==> exists i :: 0 <= i < |records| && Key(template, records[i]) == Some(key)
  {
    hide Key;
    if records != [] {
      var n := |records| - 1;
      KeysAreTaken(template, records[..n], key);
      if key in KeysOf(template, records[..n]) {
        var i :| 0 <= i < n && Key(template, records[..n][i]) == Some(key);
        assert Key(template, records[i]) == Some(key);
      }
    }
  }

  /** A record without fault extends the set, and its key joins those taken. */
  lemma AdmitExtends(template: Template, records: seq<Record>, record: Record)
    requires Valid(template, records) && Distinct(template, records)
    requires Fault(template, record, KeysOf(template, records)).None?
    ensures Valid(template, records + [record]) && Distinct(template, records + [record])
    ensures KeysOf(template, records + [record]) == KeysOf(template, records) + {Key(template, record).value}
  {
    hide RecordOk, Key;
    var all := records + [record];
    assert all[..|records|] == records;
    forall i, j | 0 <= i < j < |all| ensures Key(template, all[i]) != Key(template, all[j]) {
      KeysAreTaken(template, records, Key(template, record).value);
    }
  }

  // ---------------------------------------------------------------- checkpoints

  datatype Item = RecordItem(record: Record) | NotARecord

  datatype Field = IntValue(n: int) | ListValue(items: seq<Item>) | OtherValue

  datatype Saved = SavedObject(fields: map<string, Field>) | NotAnObject

  function CountCheckpoint(count: int): Saved {
    SavedObject(map["count" := IntValue(count)])
  }

  function Items(records: seq<Record>): seq<Item> {
    seq(|records|, i requires 0 <= i < |records| => RecordItem(records[i]))
  }

  function FullCheckpoint(count: int, records: seq<Record>): Saved {
    SavedObject(map["count" := IntValue(count), "records" := ListValue(Items(records))])
  }

  /** What a saved checkpoint lets the run do. */
  datatype Resume =
    | Fresh
    | CountOnly(count: int)
    | Complete(records: seq<Record>)
    | Rejected(why: Failure)

  function RecordsIn(items: seq<Item>): seq<Record>
    requires NotARecord !in items
  {
    seq(|items|, i requires 0 <= i < |items| => assert items[i] in items; items[i].record)
  }

  function ResumeRecords(template: Template, minimum: int, count: int, items: seq<Item>): Resume {
    if NotARecord in items then Rejected(SavedShape)
    else if |items| > MAX_ITEMS then Rejected(CountOutOfRange)
    else if |items| < minimum || count != |items| then Rejected(CardinalityDrift)
    else match FirstFault(template, RecordsIn(items), {})
      case Some(fault) => Rejected(fault)
      case None => Complete(RecordsIn(items))
  }

  function ResumeFrom(template: Template, minimum: int, saved: Option<Saved>): Resume {
    if saved.None? then Fresh
    else if saved.value.NotAnObject? then Rejected(SavedShape)
    else
      var fields := saved.value.fields;
      if "records" in fields && !fields["records"].ListValue? then Rejected(SavedShape)
      else if "count" in fields && !fields["count"].IntValue? then Rejected(SavedCount)
      else if "records" in fields && "count" !in fields then Rejected(SavedCount)
      else if fields.Keys != {"count"} && fields.Keys != {"count", "records"} then Rejected(SavedShape)
      else if "records" !in fields then CountOnly(fields["count"].n)
      else ResumeRecords(template, minimum, fields["count"].n, fields["records"].items)
  }

  /** Exactly the checkpoint of a complete set is taken over as that set. */
  lemma CompleteMeansFullCheckpoint(template: Template, minimum: int, saved: Option<Saved>, records: seq<Record>)
    ensures ResumeFrom(template, minimum, saved) == Complete(records)
            <==> CompleteSet(template, minimum, records) && saved == Some(FullCheckpoint(|records|, records))
  {
    hide FirstFault, Valid, Distinct, Avoids, ResumeRecords;
    var full := FullCheckpoint(|records|, records);
    assert full.fields.Keys == {"count", "records"};
    ResumedRecords(template, minimum, |records|, Items(records), records);
    if ResumeFrom(template, minimum, saved).Complete? {
      var fields := saved.value.fields;
      ResumedRecords(template, minimum, fields["count"].n, fields["records"].items, records);
      if ResumeFrom(template, minimum, saved) == Complete(records) {
        assert fields == full.fields;
      }
    }
  }

  lemma ResumedRecords(template: Template, minimum: int, count: int, items: seq<Item>, records: seq<Record>)
    ensures ResumeRecords(template, minimum, count, items) == Complete(records)
            <==> CompleteSet(template, minimum, records) && count == |records| && items == Items(records)
  {
    hide FirstFault, Valid, Distinct, Avoids;
    NoFaultMeansDistinct(template, records, {});
    NothingTaken(template, records);
    assert NotARecord !in Items(records) && RecordsIn(Items(records)) == records;
    if NotARecord !in items {
      forall i | 0 <= i < |items| ensures Items(RecordsIn(items))[i] == items[i] {
        assert items[i] in items;
      }
      assert Items(RecordsIn(items)) == items;
    }
  }

  lemma NothingTaken(template: Template, records: seq<Record>)
    ensures Avoids(template, records, {})
  {
  }

  /** Exactly a checkpoint of that count alone is taken over as the count. */
  lemma CountMeansCountCheckpoint(template: Template, minimum: int, saved: Option<Saved>, count: int)
    ensures ResumeFrom(template, minimum, saved) == CountOnly(count) <==> saved == Some(CountCheckpoint(count))
  {
    assert CountCheckpoint(count).fields.Keys == {"count"};
    if ResumeFrom(template, minimum, saved) == CountOnly(count) {
      var fields := saved.value.fields;
      assert "records" !in fields;
      assert fields.Keys == {"count"};
      assert fields == CountCheckpoint(count).fields;
    }
  }

  // ---------------------------------------------------------------- the run

  /** Progress is filed by record set, whose binding names the minimum, and by single record. */
  datatype Binding = SetOf(minimum: int, task: string) | SingleRecord(key: string)

  /** What authoring one ordinal yields: the record, and the progress staged with it. */
  datatype Authored = Authored(record: Record, staged: seq<(string, Saved)>)

  type Author = (nat, int, seq<Record>) -> Option<Authored>

  datatype Outcome = Records(records: seq<Record>) | Failed(why: Failure) | Cancelled

  /** The records came from the author, each told its ordinal, the count and those before it. */
  ghost predicate AuthoredBy(author: Author, count: int, records: seq<Record>) {
    forall i :: 0 <= i < |records| ==>
      author(i, count, records[..i]).Some? && author(i, count, records[..i]).value.record == records[i]
  }

  /** What is filed for a record key after the first `n` of these writes: the last one for it, if any. */
  ghost predicate Filed(
    before: map<Binding, Saved>, staged: seq<(string, Saved)>, n: nat, after: map<Binding, Saved>, key: string)
    requires n <= |staged|
  {
    if WritesTo(staged, n, key) then
      exists i: nat :: LastFor(staged, n, i, key) && FiledAs(after, key, staged[i].1)
    else
      (SingleRecord(key) in after <==> SingleRecord(key) in before)
      && (SingleRecord(key) in before ==> after[SingleRecord(key)] == before[SingleRecord(key)])
  }

  ghost predicate WritesTo(staged: seq<(string, Saved)>, n: nat, key: string)
    requires n <= |staged|
  {
    exists i: nat :: i < n && staged[i].0 == key
  }

  ghost predicate FiledAs(saved: map<Binding, Saved>, key: string, value: Saved) {
    SingleRecord(key) in saved && saved[SingleRecord(key)] == value
  }

  ghost predicate LastFor(staged: seq<(string, Saved)>, n: nat, i: nat, key: string)
    requires n <= |staged|
  {
    i < n && staged[i].0 == key && forall j :: i < j < n ==> staged[j].0 != key
  }

  /** Single records' progress is as after the first `n` of these writes. */
  ghost predicate Stored(before: map<Binding, Saved>, staged: seq<(string, Saved)>, n: nat, after: map<Binding, Saved>) {
    n <= |staged| && forall key :: Filed(before, staged, n, after, key)
  }

  lemma NothingStored(before: map<Binding, Saved>, staged: seq<(string, Saved)>)
    ensures Stored(before, staged, 0, before)
  {
  }

  /** Progress of a record set makes no difference to that of single records. */
  lemma StoredBesides(
    before: map<Binding, Saved>, staged: seq<(string, Saved)>, n: nat, after: map<Binding, Saved>, own: Binding, value: Saved)
    requires Stored(before, staged, n, after) && own.SetOf?
    ensures Stored(before, staged, n, after[own := value])
  {
    var more := after[own := value];
    forall key ensures Filed(before, staged, n, more, key) {
      assert Filed(before, staged, n, after, key);
    }
  }

  lemma StoredAfter(
    before: map<Binding, Saved>, staged: seq<(string, Saved)>, n: nat, after: map<Binding, Saved>, own: Binding, value: Saved)
    requires Stored(before[own := value], staged, n, after) && own.SetOf?
    ensures Stored(before, staged, n, after)
  {
    var base := before[own := value];
    forall key ensures Filed(before, staged, n, after, key) {
      assert Filed(base, staged, n, after, key);
    }
  }

  /** Writes after writes. */
  lemma StoredThen(
    before: map<Binding, Saved>, first: seq<(string, Saved)>, between: map<Binding, Saved>, second: seq<(string, Saved)>,
    n: nat, after: map<Binding, Saved>)
    requires Stored(before, first, |first|, between) && Stored(between, second, n, after)
    ensures Stored(before, first + second, |first| + n, after)
  {
    hide Filed;
    var all, m := first + second, |first| + n;
    forall key ensures Filed(before, all, m, after, key) {
      FiledThen(before, first, between, second, n, after, key);
    }
  }

  lemma WritesThen(first: seq<(string, Saved)>, second: seq<(string, Saved)>, n: nat, key: string)
    requires n <= |second|
    ensures WritesTo(first + second, |first| + n, key) <==> WritesTo(first, |first|, key) || WritesTo(second, n, key)
  {
    var all := first + second;
    if i: nat :| i < |first| && first[i].0 == key {
      assert all[i].0 == key;
    }
    if i: nat :| i < n && second[i].0 == key {
      assert all[|first| + i].0 == key;
    }
    if i: nat :| i < |first| + n && all[i].0 == key {
      assert if i < |first| then first[i].0 == key else second[i - |first|].0 == key;
    }
  }

  lemma FiledThen(
    before: map<Binding, Saved>, first: seq<(string, Saved)>, between: map<Binding, Saved>, second: seq<(string, Saved)>,
    n: nat, after: map<Binding, Saved>, key: string)
    requires n <= |second| && Filed(before, first, |first|, between, key) && Filed(between, second, n, after, key)
    ensures Filed(before, first + second, |first| + n, after, key)
  {
    hide WritesTo;
    var all, m := first + second, |first|;
    WritesThen(first, second, n, key);
    if WritesTo(second, n, key) {
      var last: nat :| LastFor(second, n, last, key) && FiledAs(after, key, second[last].1);
      LastMoves(first, second, n, last, key);
      assert LastFor(all, m + n, m + last, key) && FiledAs(after, key, all[m + last].1);
    } else if WritesTo(first, m, key) {
      var last: nat :| LastFor(first, m, last, key) && FiledAs(between, key, first[last].1);
      LastStays(first, second, n, last, key);
      assert LastFor(all, m + n, last, key) && FiledAs(after, key, all[last].1);
    }
  }

  lemma LastMoves(first: seq<(string, Saved)>, second: seq<(string, Saved)>, n: nat, last: nat, key: string)
    requires n <= |second| && LastFor(second, n, last, key)
    ensures LastFor(first + second, |first| + n, |first| + last, key)
    ensures last < |second| && (first + second)[|first| + last] == second[last]
  {
    var all := first + second;
    forall j | |first| + last < j < |first| + n ensures all[j].0 != key {
      assert all[j] == second[j - |first|];
    }
  }

  lemma LastStays(first: seq<(string, Saved)>, second: seq<(string, Saved)>, n: nat, last: nat, key: string)
    requires n <= |second| && LastFor(first, |first|, last, key) && !WritesTo(second, n, key)
    ensures LastFor(first + second, |first| + n, last, key)
    ensures last < |first| && (first + second)[last] == first[last]
  {
    var all := first + second;
    forall j | last < j < |first| + n ensures all[j].0 != key {
      if j >= |first| {
        assert all[j] == second[j - |first|];
      }
    }
  }

  lemma StoredOne(before: map<Binding, Saved>, staged: seq<(string, Saved)>, n: nat, after: map<Binding, Saved>)
    requires n < |staged| && Stored(before, staged, n, after)
    ensures Stored(before, staged, n + 1, after[SingleRecord(staged[n].0) := staged[n].1])
  {
    var more, m := after[SingleRecord(staged[n].0) := staged[n].1], n + 1;
    forall key ensures Filed(before, staged, m, more, key) {
      assert Filed(before, staged, n, after, key);
      if key == staged[n].0 {
        assert LastFor(staged, n + 1, n, key);
      } else if WritesTo(staged, n, key) {
        var last: nat :| LastFor(staged, n, last, key) && FiledAs(after, key, staged[last].1);
        assert LastFor(staged, n + 1, last, key) && FiledAs(more, key, staged[last].1);
      }
    }
  }

  class Progress {
    var saved: map<Binding, Saved>

    constructor ()
      ensures saved == map[]
    {
      saved := map[];
    }

    function Lookup(binding: Binding): Option<Saved>
      reads this
    {
      if binding in saved then Some(saved[binding]) else None
    }

    /** Every other record set's progress is as it was. */
    twostate predicate OtherSetsKept(own: Binding)
      reads this
    {
      forall b: Binding :: b.SetOf? && b != own ==> Lookup(b) == old(Lookup(b))
    }

    /** Stores the progress staged with a record; a cancellable run may end before any write. */
    method StoreStaged(staged: seq<(string, Saved)>, cancellable: bool) returns (cancelled: bool)
      modifies this
      ensures forall b: Binding :: b.SetOf? ==> Lookup(b) == old(Lookup(b))
      ensures cancelled ==> cancellable
      ensures if cancelled then exists n: nat :: Stored(old(saved), staged, n, saved)
              else Stored(old(saved), staged, |staged|, saved)
    {
      hide Stored;
      cancelled := false;
      NothingStored(saved, staged);
      for i := 0 to |staged|
        invariant forall b: Binding :: b.SetOf? ==> Lookup(b) == old(Lookup(b))
        invariant Stored(old(saved), staged, i, saved)
      {
        StoredOne(old(saved), staged, i, saved);
        if cancellable {
          if * {
            return true;
          }
        }
        saved := saved[SingleRecord(staged[i].0) := staged[i].1];
      }
    }
  }

  method AdmitSaved(template: Template, records: seq<Record>) returns (fault: Option<Failure>)
    ensures fault == FirstFault(template, records, {})
  {
    var keys: set<Json> := {};
    for i := 0 to |records|
      invariant FirstFault(template, records, {}) == FirstFault(template, records[i..], keys)
    {
      assert records[i..][0] == records[i] && records[i..][1..] == records[i + 1..];
      fault := Fault(template, records[i], keys);
      if fault.Some? {
        return fault;
      }
      keys := keys + {Key(template, records[i]).value};
    }
    fault := None;
  }

  /** Checks a saved checkpoint in the order its faults are reported. */
  method ReadSaved(template: Template, minimum: int, saved: Option<Saved>) returns (resume: Resume)
    ensures resume == ResumeFrom(template, minimum, saved)
    ensures resume.Fresh? <==> saved.None?
    ensures forall count :: resume == CountOnly(count) <==> saved == Some(CountCheckpoint(count))
    ensures forall records :: resume == Complete(records)
              <==> CompleteSet(template, minimum, records) && saved == Some(FullCheckpoint(|records|, records))
  {
    forall count {
      CountMeansCountCheckpoint(template, minimum, saved, count);
    }
    forall records {
      CompleteMeansFullCheckpoint(template, minimum, saved, records);
    }
    hide FirstFault, CompleteSet, CountCheckpoint, FullCheckpoint;
    if saved.None? {
      return Fresh;
    }
    if saved.value.NotAnObject? {
      return Rejected(SavedShape);
    }
    var fields := saved.value.fields;
    if "records" in fields && !fields["records"].ListValue? {
      return Rejected(SavedShape);
    }
    if "count" in fields && !fields["count"].IntValue? {
      return Rejected(SavedCount);
    }
    if "records" in fields && "count" !in fields {
      return Rejected(SavedCount);
    }
    if fields.Keys != {"count"} && fields.Keys != {"count", "records"} {
      return Rejected(SavedShape);
    }
    if "records" !in fields {
      return CountOnly(fields["count"].n);
    }
    var items, count := fields["records"].items, fields["count"].n;
    if NotARecord in items {
      return Rejected(SavedShape);
    }
    if |items| > MAX_ITEMS {
      return Rejected(CountOutOfRange);
    }
    if |items| < minimum || count != |items| {
      return Rejected(CardinalityDrift);
    }
    var fault := AdmitSaved(template, RecordsIn(items));
    resume := if fault.Some? then Rejected(fault.value) else Complete(RecordsIn(items));
  }

  // ---------------------------------------------------------------- authoring

  /** Why an answer for the next ordinal cannot be taken, if it cannot. */
  function Refusal(template: Template, answer: Option<Authored>, accepted: seq<Record>): Option<Failure> {
    match answer
    case None => Some(AuthoringFailed)
    case Some(authored) => Fault(template, authored.record, KeysOf(template, accepted))
  }

  /** What authoring comes to when nobody cancels it. */
  function Authoring(template: Template, author: Author, count: nat, accepted: seq<Record>): (outcome: Outcome)
    ensures !outcome.Cancelled?
    decreases count - |accepted|
  {
    if |accepted| >= count then Records(accepted)
    else
      var answer := author(|accepted|, count, accepted);
      match Refusal(template, answer, accepted)
      case Some(why) => Failed(why)
      case None => if answer.None? then Failed(AuthoringFailed)
                   else Authoring(template, author, count, accepted + [answer.value.record])
  }

  /** Admitted records, each the author's own answer for its ordinal. */
  ghost predicate Accepted(template: Template, author: Author, count: nat, records: seq<Record>) {
    |records| <= count && Valid(template, records) && Distinct(template, records) && AuthoredBy(author, count, records)
  }

  /** After these records the next answer is missing or cannot be admitted. */
  ghost predicate FailsAfter(template: Template, author: Author, count: nat, records: seq<Record>, why: Failure) {
    && |records| < count && Accepted(template, author, count, records)
    && Refusal(template, author(|records|, count, records), records) == Some(why)
  }

  lemma NothingYet(template: Template, author: Author, count: nat)
    ensures Accepted(template, author, count, []) && KeysOf(template, []) == {}
  {
  }

  lemma AuthoredGrows(author: Author, count: int, records: seq<Record>, record: Record)
    requires AuthoredBy(author, count, records)
    requires author(|records|, count, records).Some? && author(|records|, count, records).value.record == record
    ensures AuthoredBy(author, count, records + [record])
  {
    var all := records + [record];
    forall i | 0 <= i < |all|
      ensures author(i, count, all[..i]).Some? && author(i, count, all[..i]).value.record == all[i]
    {
      assert all[..i] == records[..i];
      assert records[..|records|] == records;
    }
  }

  /** An answer that is not refused extends the accepted records. */
  lemma AcceptedGrows(template: Template, author: Author, count: nat, records: seq<Record>)
    requires Accepted(template, author, count, records) && |records| < count
    requires Refusal(template, author(|records|, count, records), records).None?
    ensures author(|records|, count, records).Some?
    ensures var record := author(|records|, count, records).value.record;
            && Accepted(template, author, count, records + [record])
            && Key(template, record).Some?
            && KeysOf(template, records + [record]) == KeysOf(template, records) + {Key(template, record).value}
  {
    hide Valid, Distinct, RecordOk, Key, AuthoredBy, KeysOf;
    var record := author(|records|, count, records).value.record;
    AdmitExtends(template, records, record);
    AuthoredGrows(author, count, records, record);
  }

  /** A record that extends an admitted set is not refused. */
  lemma ExtendingIsNotRefused(template: Template, records: seq<Record>, n: nat)
    requires n < |records| && Valid(template, records) && Distinct(template, records)
    ensures Fault(template, records[n], KeysOf(template, records[..n])).None?
  {
    hide RecordOk, Key, KeysOf;
    assert RecordOk(template, records[n]) && Key(template, records[n]).Some?;
    KeysAreTaken(template, records[..n], Key(template, records[n]).value);
  }

  /** Accepted records are accepted one by one: authoring passes through every prefix. */
  lemma {:induction false} AuthoringPasses(
    template: Template, author: Author, count: nat, records: seq<Record>, n: nat)
    requires Accepted(template, author, count, records) && n <= |records|
    ensures Authoring(template, author, count, []) == Authoring(template, author, count, records[..n])
  {
    hide Valid, Distinct, RecordOk, Key, KeysOf, Fault;
    if n > 0 {
      AuthoringPasses(template, author, count, records, n - 1);
      ExtendingIsNotRefused(template, records, n - 1);
      assert records[..n] == records[..n - 1] + [records[n - 1]];
    }
  }

  /** Authoring finishes with these records exactly when they are as many as asked for, each the author's
      answer, valid and with keys of their own. */
  lemma AuthoringFinishes(template: Template, author: Author, count: nat, records: seq<Record>)
    ensures Authoring(template, author, count, []) == Records(records)
            <==> |records| == count && Accepted(template, author, count, records)
  {
    NothingYet(template, author, count);
    AuthoringIsRight(template, author, count, []);
    if |records| == count && Accepted(template, author, count, records) {
      AuthoringPasses(template, author, count, records, count);
      assert records[..count] == records;
    }
  }

  /** It fails for a reason exactly when some answer, the first not admitted, is refused for it. */
  lemma AuthoringFails(template: Template, author: Author, count: nat, why: Failure)
    ensures Authoring(template, author, count, []) == Failed(why)
            <==> exists records :: FailsAfter(template, author, count, records, why)
  {
    NothingYet(template, author, count);
    AuthoringIsRight(template, author, count, []);
    if records :| FailsAfter(template, author, count, records, why) {
      AuthoringPasses(template, author, count, records, |records|);
      assert records[..|records|] == records;
    }
  }

  lemma {:induction false} AuthoringIsRight(template: Template, author: Author, count: nat, accepted: seq<Record>)
    requires Accepted(template, author, count, accepted)
    ensures var outcome := Authoring(template, author, count, accepted);
            match outcome
            case Records(records) => |records| == count && Accepted(template, author, count, records)
            case Failed(why) => exists records :: FailsAfter(template, author, count, records, why)
            case Cancelled => true
    decreases count - |accepted|
  {
    hide Accepted, Refusal;
    AcceptedBelow(template, author, count, accepted);
    if |accepted| < count {
      var answer := author(|accepted|, count, accepted);
      if Refusal(template, answer, accepted).Some? {
        assert FailsAfter(template, author, count, accepted, Refusal(template, answer, accepted).value);
      } else {
        AcceptedGrows(template, author, count, accepted);
        AuthoringIsRight(template, author, count, accepted + [answer.value.record]);
      }
    }
  }

  lemma AcceptedBelow(template: Template, author: Author, count: nat, records: seq<Record>)
    requires Accepted(template, author, count, records)
    ensures |records| <= count
  {
  }

  /** The progress staged with these records, in their order. */
  ghost function Staging(author: Author, count: int, records: seq<Record>): seq<(string, Saved)> {
    if records == [] then []
    else
      var n := |records| - 1;
      Staging(author, count, records[..n])
      + (match author(n, count, records[..n]) case Some(authored) => authored.staged case None => [])
  }

  lemma NothingStaged(author: Author, count: int)
    ensures Staging(author, count, []) == []
  {
  }

  lemma StagingGrows(author: Author, count: int, records: seq<Record>, record: Record)
    requires author(|records|, count, records).Some?
    ensures Staging(author, count, records + [record])
            == Staging(author, count, records) + author(|records|, count, records).value.staged
  {
    assert (records + [record])[..|records|] == records;
  }

  lemma InvalidFirst(template: Template, record: Record, keys: set<Json>)
    requires !RecordOk(template, record)
    ensures Fault(template, record, keys) == Some(InvalidRecord)
  {
  }

  lemma StopsHere(template: Template, author: Author, count: nat, records: seq<Record>, why: Failure)
    requires Accepted(template, author, count, records) && |records| < count
    requires match author(|records|, count, records)
             case None => why == AuthoringFailed
             case Some(authored) => Fault(template, authored.record, KeysOf(template, records)) == Some(why)
    ensures FailsAfter(template, author, count, records, why)
  {
  }

  /** Authors the records one ordinal at a time, admitting each before the next is asked for. */
  method AuthorRecords(
    template: Template, count: nat, author: Author, progress: Progress, durable: bool, cancellable: bool)
    returns (outcome: Outcome, requests: nat, ghost accepted: seq<Record>, ghost n: nat)
    modifies progress
    ensures forall b: Binding :: b.SetOf? ==> progress.Lookup(b) == old(progress.Lookup(b))
    ensures outcome == Authoring(template, author, count, []) || (cancellable && outcome == Cancelled)
    ensures requests <= count && (outcome.Records? ==> requests == count)
    ensures outcome.Failed? ==> requests == |accepted| + 1
    ensures Accepted(template, author, count, accepted) && (outcome.Records? ==> outcome.records == accepted)
    ensures if durable then Stored(old(progress.saved), Staging(author, count, accepted), n, progress.saved)
            else progress.saved == old(progress.saved)
    ensures durable && !outcome.Cancelled? ==> n == |Staging(author, count, accepted)|
    ensures outcome.Failed? ==> FailsAfter(template, author, count, accepted, outcome.why)
  {
    hide RecordOk, Key, Accepted, KeysOf, Stored, FailsAfter, Staging, Fault;
    var records: seq<Record> := [];
    var keys: set<Json> := {};
    NothingYet(template, author, count);
    requests, accepted, n := 0, [], 0;
    NothingStaged(author, count);
    NothingStored(progress.saved, []);
    while |records| < count
      invariant |records| == requests <= count
      invariant forall b: Binding :: b.SetOf? ==> progress.Lookup(b) == old(progress.Lookup(b))
      invariant Accepted(template, author, count, records) && keys == KeysOf(template, records)
      invariant Authoring(template, author, count, []) == Authoring(template, author, count, records)
      invariant accepted == records
      invariant if durable then n == |Staging(author, count, records)|
                                && Stored(old(progress.saved), Staging(author, count, records), n, progress.saved)
                else progress.saved == old(progress.saved)
    {
      var authored := author(|records|, count, records);
      requests := requests + 1;
      if authored.None? {
        StopsHere(template, author, count, records, AuthoringFailed);
        return Failed(AuthoringFailed), requests, accepted, n;
      }
      var record := authored.value.record;
      if !RecordOk(template, record) {
        InvalidFirst(template, record, keys);
        StopsHere(template, author, count, records, InvalidRecord);
        return Failed(InvalidRecord), requests, accepted, n;
      }
      if cancellable {
        if * {
          return Cancelled, requests, accepted, n;
        }
      }
      var fault := Fault(template, record, keys);
      if fault.Some? {
        StopsHere(template, author, count, records, fault.value);
        return Failed(fault.value), requests, accepted, n;
      }
      AcceptedGrows(template, author, count, records);
      StagingGrows(author, count, records, record);
      ghost var between, before := progress.saved, Staging(author, count, records);
      records, keys := records + [record], keys + {Key(template, record).value};
      accepted := records;
      if durable {
        var cancelled := progress.StoreStaged(authored.value.staged, cancellable);
        ghost var m: nat := |authored.value.staged|;
        if cancelled {
          m :| Stored(between, authored.value.staged, m, progress.saved);
        }
        StoredThen(old(progress.saved), before, between, authored.value.staged, m, progress.saved);
        n := |before| + m;
        if cancelled {
          return Cancelled, requests, accepted, n;
        }
      }
    }
    outcome := Records(records);
  }

  // ---------------------------------------------------------------- whole runs

  predicate InRange(minimum: int, count: int) {
    minimum <= count <= MAX_ITEMS
  }

  /** The count request passes an answer on only if its response schema admits it. */
  function CountAnswer(minimum: int, answer: Option<int>): Option<int> {
    if answer.Some? && InRange(minimum, answer.value) then answer else None
  }

  /** A run can go on from here: nothing saved, a count in range, or a complete set. */
  predicate Resumable(template: Template, minimum: int, saved: Option<Saved>) {
    match ResumeFrom(template, minimum, saved)
    case Fresh => true
    case CountOnly(count) => InRange(minimum, count)
    case Complete(_) => true
    case Rejected(_) => false
  }

  /** A run that settled on `count` records, with `base` saved when authoring began. */
  ghost predicate RanWith(
    template: Template, minimum: nat, count: int, author: Author, durable: bool, cancellable: bool,
    base: Option<Saved>, after: Option<Saved>, outcome: Outcome)
  {
    if !InRange(minimum, count) then outcome == Failed(CountOutOfRange) && after == base
    else
      var plain := Authoring(template, author, count, []);
      match outcome
      case Records(records) =>
        outcome == plain && after == if durable then Some(FullCheckpoint(count, records)) else base
      case Failed(_) =>
        outcome == plain && after == base
      case Cancelled =>
        && cancellable
        && (after == base || (durable && plain.Records? && after == Some(FullCheckpoint(count, plain.records))))
  }

  /** What one run does, by what it finds saved. `answer` is what the model gives to the count request. */
  ghost predicate RunIsRight(
    template: Template, minimum: nat, answer: Option<int>, author: Author, durable: bool, cancellable: bool,
    before: Option<Saved>, after: Option<Saved>, outcome: Outcome, requests: nat)
  {
    match ResumeFrom(template, minimum, before)
    case Rejected(why) =>
      outcome == Failed(why) && requests == 0 && after == before
    case Complete(records) =>
      (outcome == Records(records) || (cancellable && outcome == Cancelled)) && requests == 0 && after == before
    case CountOnly(count) =>
      && RanWith(template, minimum, count, author, durable, cancellable, before, after, outcome)
      && requests <= (if InRange(minimum, count) then count else 0)
      && (outcome.Records? ==> requests == count)
    case Fresh =>
      match CountAnswer(minimum, answer)
      case None => outcome == Failed(CountRequestFailed) && requests == 1 && after == before
      case Some(count) =>
        && 1 <= requests <= 1 + count
        && (outcome.Records? ==> requests == 1 + count)
        && ((durable && cancellable && outcome == Cancelled && after == before)
            || RanWith(template, minimum, count, author, durable, cancellable,
                       if durable then Some(CountCheckpoint(count)) else before, after, outcome))
  }

  lemma FinishedIsComplete(template: Template, minimum: nat, author: Author, count: nat, records: seq<Record>)
    requires InRange(minimum, count) && Authoring(template, author, count, []) == Records(records)
    ensures CompleteSet(template, minimum, records) && |records| == count
  {
    AuthoringFinishes(template, author, count, records);
  }

  /** Authors a set of `count` records and saves it whole. */
  method AuthorSet(
    template: Template, minimum: nat, own: Binding, count: int, author: Author, progress: Progress, durable: bool,
    cancellable: bool)
    returns (outcome: Outcome, requests: nat, ghost accepted: seq<Record>, ghost n: nat)
    requires own.SetOf?
    modifies progress
    ensures progress.OtherSetsKept(own)
    ensures RanWith(template, minimum, count, author, durable, cancellable, old(progress.Lookup(own)),
                    progress.Lookup(own), outcome)
    ensures outcome.Records? ==> CompleteSet(template, minimum, outcome.records) && outcome.records == accepted
    ensures requests <= (if InRange(minimum, count) then count else 0)
    ensures outcome.Records? ==> requests == count
    ensures outcome.Failed? && InRange(minimum, count) ==> requests == |accepted| + 1
    ensures SinglesFiled(author, count, accepted, n, durable, old(progress.saved), progress.saved, outcome)
  {
    hide Authoring, FullCheckpoint, CompleteSet, Stored, Staging, FailsAfter, Accepted;
    requests, accepted, n := 0, [], 0;
    if !InRange(minimum, count) {
      NothingStaged(author, count);
      NothingStored(progress.saved, []);
      return Failed(CountOutOfRange), 0, accepted, n;
    }
    outcome, requests, accepted, n := AuthorRecords(template, count, author, progress, durable, cancellable);
    if outcome.Records? {
      FinishedIsComplete(template, minimum, author, count, outcome.records);
      if durable {
        if cancellable {
          if * {
            return Cancelled, requests, accepted, n;
          }
        }
        StoredBesides(old(progress.saved), Staging(author, count, accepted), n, progress.saved, own,
                      FullCheckpoint(count, outcome.records));
        progress.saved := progress.saved[own := FullCheckpoint(count, outcome.records)];
      }
      if cancellable {
        if * {
          outcome := Cancelled;
        }
      }
    }
  }

  /** The progress of single records is that staged with the accepted records, in order: all of it, unless the
      run was cancelled. A run that is not durable stores nothing. */
  ghost predicate SinglesFiled(
    author: Author, count: int, accepted: seq<Record>, n: nat, durable: bool, before: map<Binding, Saved>,
    after: map<Binding, Saved>, outcome: Outcome)
  {
    if !durable then after == before
    else
      && Stored(before, Staging(author, count, accepted), n, after)
      && (!outcome.Cancelled? ==> n == |Staging(author, count, accepted)|)
  }

  method RunBoundedRecordTemplate(
    template: Template, task: string, minimum: int, answer: Option<int>, author: Author, progress: Progress,
    durable: bool, cancellable: bool)
    returns (outcome: Outcome, requests: nat, ghost count: int, ghost accepted: seq<Record>, ghost n: nat)
    modifies progress
    ensures progress.OtherSetsKept(SetOf(minimum, task))
    ensures outcome.Records? ==> RightSet(template, minimum, outcome.records)
    ensures !(0 <= minimum <= MAX_ITEMS)
            ==> outcome == Failed(MinimumOutOfRange) && requests == 0 && progress.saved == old(progress.saved)
    ensures 0 <= minimum <= MAX_ITEMS ==>
              RunIsRight(template, minimum, answer, author, durable, cancellable,
                         old(progress.Lookup(SetOf(minimum, task))), progress.Lookup(SetOf(minimum, task)), outcome,
                         requests)
    ensures SinglesFiled(author, count, accepted, n, durable, old(progress.saved), progress.saved, outcome)
    ensures outcome.Records? && requests > 0 ==> outcome.records == accepted
  {
    hide FirstFault, CompleteSet, RightSet, ResumeFrom, CountCheckpoint, FullCheckpoint, Authoring, Stored, Staging;
    requests, count, accepted, n := 0, 0, [], 0;
    NothingStaged(author, 0);
    NothingStored(progress.saved, []);
    if !(0 <= minimum <= MAX_ITEMS) {
      return Failed(MinimumOutOfRange), 0, count, accepted, n;
    }
    var own := SetOf(minimum, task);
    var resume := ReadSaved(template, minimum, progress.Lookup(own));
    match resume {
      case Rejected(why) =>
        outcome := Failed(why);
      case Complete(records) =>
        CompleteExactly(template, minimum, records);
        outcome := Records(records);
        if cancellable {
          if * {
            outcome := Cancelled;
          }
        }
      case CountOnly(saved) =>
        count := saved;
        outcome, requests, accepted, n :=
          AuthorSet(template, minimum, own, saved, author, progress, durable, cancellable);
        AuthoredIsRight(template, minimum, outcome);
      case Fresh =>
        var admitted := CountAnswer(minimum, answer);
        if admitted.None? {
          return Failed(CountRequestFailed), 1, count, accepted, n;
        }
        if durable {
          if cancellable {
            if * {
              return Cancelled, 1, count, accepted, n;
            }
          }
          progress.saved := progress.saved[own := CountCheckpoint(admitted.value)];
        }
        count := admitted.value;
        outcome, requests, accepted, n :=
          AuthorSet(template, minimum, own, admitted.value, author, progress, durable, cancellable);
        if durable {
          StoredAfter(old(progress.saved), Staging(author, count, accepted), n, progress.saved, own,
                      CountCheckpoint(admitted.value));
        }
        requests := requests + 1;
        AuthoredIsRight(template, minimum, outcome);
    }
  }

  lemma AuthoredIsRight(template: Template, minimum: int, outcome: Outcome)
    requires outcome.Records? ==> CompleteSet(template, minimum, outcome.records)
    ensures outcome.Records? ==> RightSet(template, minimum, outcome.records)
  {
    if outcome.Records? {
      CompleteExactly(template, minimum, outcome.records);
    }
  }

  // ---------------------------------------------------------------- what runs come to

  /** A fresh run that nobody cancels finishes exactly with the records the author gives, if they are valid
      and distinct, and otherwise fails for the first refused answer. */
  lemma FreshRunIsDecided(
    template: Template, minimum: nat, count: nat, author: Author, durable: bool, after: Option<Saved>,
    outcome: Outcome, requests: nat)
    requires InRange(minimum, count)
    requires RunIsRight(template, minimum, Some(count), author, durable, false, None, after, outcome, requests)
    ensures forall records :: outcome == Records(records)
              <==> |records| == count && Accepted(template, author, count, records)
    ensures forall why :: outcome == Failed(why)
              <==> exists records :: FailsAfter(template, author, count, records, why)
    ensures durable ==>
              after == Some(if outcome.Records? then FullCheckpoint(count, outcome.records) else CountCheckpoint(count))
  {
    hide Accepted, FailsAfter, FullCheckpoint, CountCheckpoint, Authoring;
    assert ResumeFrom(template, minimum, None) == Fresh;
    forall records ensures outcome == Records(records)
                           <==> |records| == count && Accepted(template, author, count, records) {
      AuthoringFinishes(template, author, count, records);
    }
    forall why ensures outcome == Failed(why) <==> exists records :: FailsAfter(template, author, count, records, why) {
      AuthoringFails(template, author, count, why);
    }
  }

  lemma FullIsResumable(template: Template, minimum: nat, author: Author, count: nat, records: seq<Record>)
    requires InRange(minimum, count) && Authoring(template, author, count, []) == Records(records)
    ensures Resumable(template, minimum, Some(FullCheckpoint(count, records)))
    ensures ResumeFrom(template, minimum, Some(FullCheckpoint(count, records))) == Complete(records)
  {
    hide ResumeFrom, FullCheckpoint, Authoring;
    FinishedIsComplete(template, minimum, author, count, records);
    CompleteMeansFullCheckpoint(template, minimum, Some(FullCheckpoint(count, records)), records);
  }

  lemma RanStaysResumable(
    template: Template, minimum: nat, count: int, author: Author, durable: bool, cancellable: bool,
    base: Option<Saved>, after: Option<Saved>, outcome: Outcome)
    requires RanWith(template, minimum, count, author, durable, cancellable, base, after, outcome)
    requires Resumable(template, minimum, base)
    ensures Resumable(template, minimum, after)
  {
    hide Resumable, FullCheckpoint, Authoring;
    if InRange(minimum, count) {
      var plain := Authoring(template, author, count, []);
      if plain.Records? {
        FullIsResumable(template, minimum, author, count, plain.records);
      }
    }
  }

  /** Runs never lock themselves out: from a resumable state every run, cancelled or failed, leaves one. */
  lemma RunsStayResumable(
    template: Template, minimum: nat, answer: Option<int>, author: Author, durable: bool, cancellable: bool,
    before: Option<Saved>, after: Option<Saved>, outcome: Outcome, requests: nat)
    requires RunIsRight(template, minimum, answer, author, durable, cancellable, before, after, outcome, requests)
    requires Resumable(template, minimum, before)
    ensures Resumable(template, minimum, after)
  {
    hide RanWith, CountCheckpoint;
    match ResumeFrom(template, minimum, before) {
      case CountOnly(count) =>
        RanStaysResumable(template, minimum, count, author, durable, cancellable, before, after, outcome);
      case Fresh =>
        if CountAnswer(minimum, answer).Some? && after != before {
          var count := CountAnswer(minimum, answer).value;
          var base := if durable then Some(CountCheckpoint(count)) else before;
          CountMeansCountCheckpoint(template, minimum, Some(CountCheckpoint(count)), count);
          RanStaysResumable(template, minimum, count, author, durable, cancellable, base, after, outcome);
        }
      case _ =>
    }
  }

  /** A count out of range can only come from elsewhere, and then every run refuses it and leaves it. */
  lemma ForeignCountIsRefused(
    template: Template, minimum: nat, count: int, answer: Option<int>, author: Author, durable: bool,
    cancellable: bool, after: Option<Saved>, outcome: Outcome, requests: nat)
    requires RunIsRight(template, minimum, answer, author, durable, cancellable, Some(CountCheckpoint(count)), after,
                        outcome, requests)
    ensures outcome == Failed(CountOutOfRange) <==> count < minimum || count > 16
    ensures count < minimum || count > 16 ==> requests == 0 && after == Some(CountCheckpoint(count))
  {
    hide CountCheckpoint, Authoring;
    CountMeansCountCheckpoint(template, minimum, Some(CountCheckpoint(count)), count);
    if InRange(minimum, count) && outcome == Failed(CountOutOfRange) {
      AuthoringFails(template, author, count, CountOutOfRange);
      NeverOutOfRange(template, author, count);
    }
  }

  lemma NeverOutOfRange(template: Template, author: Author, count: nat)
    ensures forall records :: !FailsAfter(template, author, count, records, CountOutOfRange)
  {
  }

  /** Whatever a first run leaves behind, the next takes up: a finished set is returned as it was without
      asking for anything, and a count once saved is the count of the later result. */
  method RunThenResume(
    template: Template, task: string, minimum: int, progress: Progress, answer: Option<int>, author: Author,
    laterAnswer: Option<int>, laterAuthor: Author, cancellable: bool)
    returns (first: Outcome, second: Outcome, requests: nat, ghost between: Option<Saved>)
    requires 0 <= minimum <= MAX_ITEMS
    requires progress.Lookup(SetOf(minimum, task)).None?
    modifies progress
    ensures between.Some? ==> answer.Some? && InRange(minimum, answer.value)
    ensures first.Records? ==> between.Some? && |first.records| == answer.value
    ensures first.Records? ==> second == first && requests == 0
    ensures between.Some? && !first.Records? && first.Failed? ==> second == Authoring(template, laterAuthor, answer.value, [])
    ensures second.Records? ==> RightSet(template, minimum, second.records)
    ensures between.Some? && second.Records? ==> |second.records| == answer.value
    ensures between.Some? && second.Failed? ==>
              exists records :: FailsAfter(template, laterAuthor, answer.value, records, second.why)
  {
    hide CountCheckpoint, FullCheckpoint, Authoring, FailsAfter, CompleteSet, ResumeFrom;
    var own := SetOf(minimum, task);
    assert ResumeFrom(template, minimum, None) == Fresh by { NothingSaved(template, minimum); }
    var fetched: nat;
    ghost var count1: int, accepted1, n1, count2: int, accepted2, n2;
    first, fetched, count1, accepted1, n1 :=
      RunBoundedRecordTemplate(template, task, minimum, answer, author, progress, true, cancellable);
    between := progress.Lookup(own);
    second, requests, count2, accepted2, n2 :=
      RunBoundedRecordTemplate(template, task, minimum, laterAnswer, laterAuthor, progress, true, false);
    if between.Some? {
      var count := answer.value;
      CountMeansCountCheckpoint(template, minimum, Some(CountCheckpoint(count)), count);
      if Authoring(template, author, count, []).Records? {
        FinishedIsComplete(template, minimum, author, count, Authoring(template, author, count, []).records);
        FullIsResumable(template, minimum, author, count, Authoring(template, author, count, []).records);
      }
      if second.Failed? {
        AuthoringFails(template, laterAuthor, count, second.why);
      }
      if second.Records? && second == Authoring(template, laterAuthor, count, []) {
        FinishedIsComplete(template, minimum, laterAuthor, count, second.records);
      }
    }
  }

  lemma NothingSaved(template: Template, minimum: int)
    ensures ResumeFrom(template, minimum, None) == Fresh
  {
  }
}
