/** Import of exported memos: what becomes of each record, and the accounts of a document. */
module MemoImport {
  import opened Texts

  // ----- Decoded input -----

  /** A field of a JSON object: absent, null, of another type, or a value. */
  datatype Field<+T> = Missing | NullValue | Mistyped | Given(value: T)

  /** A record of the export; a timestamp is missing inside its field if its text cannot be read. */
  datatype RawMemo =
    | NotAnObject
    | Memo(unknown: bool, name: Field<string>, state: Field<string>, createTime: Field<Option<int>>,
           updateTime: Field<Option<int>>, content: Field<string>, visibility: Field<string>, pinned: Field<bool>,
           attachments: Field<nat>, relations: Field<nat>, reactions: Field<nat>, location: Field<()>,
           parent: Field<string>)

  datatype Counts = Counts(total: int, normal: int, archived: int)
  datatype User = User(name: string, username: string, displayName: string)
  datatype Included = Included(memoData: bool, attachmentMetadata: bool, attachmentFiles: bool, comments: bool,
                               instanceSettings: bool)
  datatype RawDocument = RawDocument(format: Option<string>, version: Option<int>, exportedAt: Option<Option<int>>,
                                     user: Option<User>, counts: Option<Counts>, included: Option<Included>,
                                     memos: Option<seq<RawMemo>>)

  datatype Input = Blank | NotUtf8 | NotJson | TrailingData | Decoded(raw: RawDocument)

  // ----- Results -----

  datatype Reason =
    | EmptyFile | Encoding | Json | Trailing | WrongFormat | WrongVersion | NoExportTime | BadExportTime | NoUser
    | NoCounts | InconsistentCounts | NoMemoData | WrongContent | NoMemos | WrongTotal | WrongStates
    | InvalidRecords(count: nat) | BadRecord | DuplicateName | IsComment | HasAttachments(n: nat) | HasRelations(n: nat)
    | HasReactions(n: nat) | HasLocation

  datatype IssueKind = InvalidIssue | UnsupportedIssue
  datatype Issue = Issue(index: nat, name: string, kind: IssueKind, reason: Reason)

  datatype Skipped = Skipped(attachments: nat, comments: nat, relations: nat, reactions: nat, locations: nat)

  datatype Record = Record(name: string, state: string, createTime: int, updateTime: int, content: string,
                           visibility: string, pinned: bool)

  datatype Document = Document(envelopeValid: bool, blocking: Option<Reason>, total: nat, normal: nat, archived: nat,
                               invalid: nat, unsupported: nat, skipped: Skipped, issues: seq<Issue>,
                               records: seq<Record>)
  {
    predicate CanImport() { envelopeValid && invalid == 0 }
  }

  // ----- One record -----

  /** When and by whom the document was exported, as far as that was read. */
  datatype Source = Source(exportedAt: Option<int>, user: string)

  /** What parsing a record gives; the record of a failure is known by its name only. */
  datatype Outcome = Outcome(record: Record, skipped: Skipped, comment: bool, state: string, valid: bool)

  const NORMAL := "NORMAL"
  const ARCHIVED := "ARCHIVED"
  const PREFIX := "memos/"
  const NO_RECORD := Record("", "", 0, 0, "", "", false)
  const NOTHING_SKIPPED := Skipped(0, 0, 0, 0, 0)

  predicate IsState(s: string) { s == NORMAL || s == ARCHIVED }

  predicate IsVisibility(v: string) { v == "PRIVATE" || v == "PROTECTED" || v == "PUBLIC" }

  /** A required string; null decodes to the empty string. */
  function Text(f: Field<string>): Option<string> {
    match f
    case Missing => None
    case Mistyped => None
    case NullValue => Some("")
    case Given(s) => Some(s)
  }

  function Length(f: Field<nat>): Option<nat> {
    match f
    case Mistyped => None
    case Given(n) => Some(n)
    case _ => Some(0)
  }

  /** The length of a text in UTF-8. */
  function Bytes(s: string): nat {
    if s == "" then 0
    else
      var c := s[|s| - 1] as int;
      Bytes(s[..|s| - 1]) + if c < 0x80 then 1 else if c < 0x800 then 2 else if c < 0x1_0000 then 3 else 4
  }

  predicate IsName(name: string, uid: string -> bool) {
    |name| >= |PREFIX| && name[..|PREFIX|] == PREFIX && uid(name[|PREFIX|..])
  }

  function ParseRecord(raw: RawMemo, maxLength: int, uid: string -> bool): Outcome {
    if raw.NotAnObject? || raw.unknown || Text(raw.name).None?
    then Outcome(NO_RECORD, NOTHING_SKIPPED, false, "", false)
    else
      var name := Text(raw.name).value;
      var failed := Outcome(NO_RECORD.(name := name), NOTHING_SKIPPED, false, "", false);
      if !IsName(name, uid) || Text(raw.state).None? then failed
      else
        var state := Text(raw.state).value;
        var failedIn := failed.(state := state);
        if !IsState(state) || !raw.createTime.Given? || raw.createTime.value.None? then failedIn
        else if raw.updateTime.Mistyped? || (raw.updateTime.Given? && raw.updateTime.value.None?) then failedIn
        else if Text(raw.content).None? || (maxLength > 0 && Bytes(Text(raw.content).value) > maxLength) then failedIn
        else if Text(raw.visibility).None? || !IsVisibility(Text(raw.visibility).value) then failedIn
        else if raw.pinned.Missing? || raw.pinned.Mistyped? then failedIn
        else if Length(raw.attachments).None? then failedIn
        else
          var skipped := NOTHING_SKIPPED.(attachments := Length(raw.attachments).value);
          if Length(raw.relations).None? then failedIn.(skipped := skipped)
          else
            var skipped := skipped.(relations := Length(raw.relations).value);
            if Length(raw.reactions).None? then failedIn.(skipped := skipped)
            else
              var skipped := skipped.(reactions := Length(raw.reactions).value);
              if raw.location.Mistyped? then failedIn.(skipped := skipped)
              else
                var skipped := skipped.(locations := if raw.location.Given? then 1 else 0);
                if raw.parent.Mistyped? then failedIn.(skipped := skipped)
                else
                  var created := raw.createTime.value.value;
                  var updated := if raw.updateTime.Given? then raw.updateTime.value.value else created;
                  var pinned := raw.pinned.Given? && raw.pinned.value;
                  var content, visibility := Text(raw.content).value, Text(raw.visibility).value;
                  Outcome(Record(name, state, created, updated, content, visibility, pinned),
                          skipped, raw.parent.Given? && raw.parent.value != "", state, true)
  }

  /** What a valid record must be. */
  predicate WellFormed(raw: RawMemo, maxLength: int, uid: string -> bool) {
    && raw.Memo? && !raw.unknown
    && Text(raw.name).Some? && IsName(Text(raw.name).value, uid)
    && Text(raw.state).Some? && IsState(Text(raw.state).value)
    && raw.createTime.Given? && raw.createTime.value.Some?
    && !raw.updateTime.Mistyped? && (raw.updateTime.Given? ==> raw.updateTime.value.Some?)
    && Text(raw.content).Some? && (maxLength > 0 ==> Bytes(Text(raw.content).value) <= maxLength)
    && Text(raw.visibility).Some? && IsVisibility(Text(raw.visibility).value)
    && !raw.pinned.Missing? && !raw.pinned.Mistyped?
    && !raw.attachments.Mistyped? && !raw.relations.Mistyped? && !raw.reactions.Mistyped?
    && !raw.location.Mistyped? && !raw.parent.Mistyped?
  }

  /** A record is valid exactly if it is well formed, and then its state is the one of the record. A state that is
      neither normal nor archived comes with a failure. */
  lemma ParseRecordValid(raw: RawMemo, maxLength: int, uid: string -> bool)
    ensures var o := ParseRecord(raw, maxLength, uid);
      && (o.valid <==> WellFormed(raw, maxLength, uid))
      && (o.valid ==> IsState(o.state) && o.record.state == o.state && IsName(o.record.name, uid))
      && o.skipped.comments == 0 && (o.comment ==> o.valid)
  {
  }

  /** A name as exports write it. */
  predicate Names(f: Field<string>, name: string, uid: string -> bool) {
    f == Given(name) && |name| >= 6 && name[..6] == "memos/" && uid(name[6..])
  }

  /** In terms of the fields given: a memo is valid if and only if it is an object without unknown fields whose name is
      a resource name, whose state and visibility are known, whose times can be read, whose content is within the limit
      and whose other fields have their types. Null stands for an empty content and for not pinned. */
  lemma ValidExactly(raw: RawMemo, maxLength: int, uid: string -> bool)
    ensures ParseRecord(raw, maxLength, uid).valid <==>
      && raw.Memo? && !raw.unknown
      && raw.name.Given? && Names(raw.name, raw.name.value, uid)
      && (raw.state == Given("NORMAL") || raw.state == Given("ARCHIVED"))
      && raw.createTime.Given? && raw.createTime.value.Some?
      && (raw.updateTime == Missing || raw.updateTime == NullValue ||
          (raw.updateTime.Given? && raw.updateTime.value.Some?))
      && (raw.content == NullValue ||
          (raw.content.Given? && (maxLength <= 0 || Bytes(raw.content.value) <= maxLength)))
      && raw.visibility in {Given("PRIVATE"), Given("PROTECTED"), Given("PUBLIC")}
      && (raw.pinned == NullValue || raw.pinned.Given?)
      && raw.attachments != Mistyped && raw.relations != Mistyped && raw.reactions != Mistyped
      && raw.location != Mistyped && raw.parent != Mistyped
  {
  }

  /** A valid outcome carries the fields of its memo. */
  lemma FieldsCarried(raw: RawMemo, maxLength: int, uid: string -> bool)
    requires ParseRecord(raw, maxLength, uid).valid
    ensures var o := ParseRecord(raw, maxLength, uid);
      && raw.Memo? && raw.name == Given(o.record.name) && raw.state == Given(o.record.state)
      && raw.createTime == Given(Some(o.record.createTime))
      && (if raw.updateTime.Given? then raw.updateTime == Given(Some(o.record.updateTime))
          else o.record.updateTime == o.record.createTime)
      && (if raw.content.Given? then raw.content == Given(o.record.content) else o.record.content == "")
      && raw.visibility == Given(o.record.visibility)
      && o.record.pinned == (raw.pinned == Given(true))
      && o.comment == (raw.parent.Given? && raw.parent.value != "")
      && o.skipped.attachments == (if raw.attachments.Given? then raw.attachments.value else 0)
      && o.skipped.relations == (if raw.relations.Given? then raw.relations.value else 0)
      && o.skipped.reactions == (if raw.reactions.Given? then raw.reactions.value else 0)
      && o.skipped.locations == (if raw.location.Given? then 1 else 0)
      && o.state == o.record.state
  {
  }

  /** A failure is known by the name given, and claims the state given once that name is a resource name. */
  lemma FailureCarries(raw: RawMemo, maxLength: int, uid: string -> bool)
    requires !ParseRecord(raw, maxLength, uid).valid
    ensures var o := ParseRecord(raw, maxLength, uid);
      && !o.comment
      && o.record.name == (if raw.Memo? && !raw.unknown && raw.name.Given? then raw.name.value else "")
      && o.state == (if raw.Memo? && !raw.unknown && raw.name.Given? && Names(raw.name, raw.name.value, uid) &&
                       raw.state.Given? then raw.state.value else "")
  {
  }

  /** A text is as long as its parts, and a character takes one to four bytes. */
  lemma {:induction false} BytesAre(a: string, b: string)
    ensures Bytes(a + b) == Bytes(a) + Bytes(b)
    ensures |a| == 1 ==>
      Bytes(a) == if a[0] as int < 0x80 then 1 else if a[0] as int < 0x800 then 2
                  else if a[0] as int < 0x1_0000 then 3 else 4
    decreases |b|
  {
    if b == "" {
      assert a + b == a;
    } else {
      var n := |b| - 1;
      BytesAre(a, b[..n]);
      assert (a + b)[..|a| + n] == a + b[..n];
    }
    if |a| == 1 {
      assert a[..0] == "";
    }
  }

  function Outcomes(memos: seq<RawMemo>, maxLength: int, uid: string -> bool): seq<Outcome> {
    seq(|memos|, i requires 0 <= i < |memos| => ParseRecord(memos[i], maxLength, uid))
  }

  // ----- Classes of records -----

  datatype Class = Invalid | Comment | Kept

  /** A valid record whose name no valid record before it has. */
  predicate IsFresh(outs: seq<Outcome>, i: nat)
    requires i < |outs|
  {
    outs[i].valid && forall j | 0 <= j < i && outs[j].valid :: outs[j].record.name != outs[i].record.name
  }

  function ClassOf(outs: seq<Outcome>, i: nat): Class
    requires i < |outs|
  {
    if !IsFresh(outs, i) then Invalid else if outs[i].comment then Comment else Kept
  }

  /** How many of the first `n` records are of a class. */
  function Number(outs: seq<Outcome>, n: nat, class_: Class): nat
    requires n <= |outs|
  {
    if n == 0 then 0 else Number(outs, n - 1, class_) + if ClassOf(outs, n - 1) == class_ then 1 else 0
  }

  function KeptRecords(outs: seq<Outcome>, n: nat): seq<Record>
    requires n <= |outs|
  {
    if n == 0 then []
    else if ClassOf(outs, n - 1) == Kept then KeptRecords(outs, n - 1) + [outs[n - 1].record]
    else KeptRecords(outs, n - 1)
  }

  function InState(records: seq<Record>, normal: bool): nat {
    if records == [] then 0
    else
      var last := records[|records| - 1];
      InState(records[..|records| - 1], normal) + if (last.state == NORMAL) == normal then 1 else 0
  }

  /** How many records claim a state, whatever becomes of them. */
  function Claiming(outs: seq<Outcome>, state: string): nat {
    if outs == [] then 0
    else Claiming(outs[..|outs| - 1], state) + if outs[|outs| - 1].state == state then 1 else 0
  }

  function SumSkipped(outs: seq<Outcome>): Skipped {
    if outs == [] then NOTHING_SKIPPED
    else
      var before, s := SumSkipped(outs[..|outs| - 1]), outs[|outs| - 1].skipped;
      Skipped(before.attachments + s.attachments, 0, before.relations + s.relations, before.reactions + s.reactions,
              before.locations + s.locations)
  }

  function IssuesOf(outs: seq<Outcome>, i: nat): seq<Issue>
    requires i < |outs|
  {
    var o := outs[i];
    var name := o.record.name;
    if !o.valid then [Issue(i + 1, name, InvalidIssue, BadRecord)]
    else if !IsFresh(outs, i) then [Issue(i + 1, name, InvalidIssue, DuplicateName)]
    else if o.comment then [Issue(i + 1, name, UnsupportedIssue, IsComment)]
    else Nested(i, o)
  }

  /** The notes on what a kept record loses. */
  function Nested(i: nat, o: Outcome): seq<Issue> {
    var name := o.record.name;
    (if o.skipped.attachments > 0
     then [Issue(i + 1, name, UnsupportedIssue, HasAttachments(o.skipped.attachments))] else []) +
    (if o.skipped.relations > 0
     then [Issue(i + 1, name, UnsupportedIssue, HasRelations(o.skipped.relations))] else []) +
    (if o.skipped.reactions > 0
     then [Issue(i + 1, name, UnsupportedIssue, HasReactions(o.skipped.reactions))] else []) +
    (if o.skipped.locations > 0 then [Issue(i + 1, name, UnsupportedIssue, HasLocation)] else [])
  }

  function AllIssues(outs: seq<Outcome>, n: nat): seq<Issue>
    requires n <= |outs|
  {
    if n == 0 then [] else AllIssues(outs, n - 1) + IssuesOf(outs, n - 1)
  }

  /** The document after its first `n` records. */
  function DocumentOf(outs: seq<Outcome>, n: nat): Document
    requires n <= |outs|
  {
    var records := KeptRecords(outs, n);
    var comments := Number(outs, n, Comment);
    Document(true, None, |outs|, InState(records, true), InState(records, false), Number(outs, n, Invalid), comments,
             SumSkipped(outs[..n]).(comments := comments), AllIssues(outs, n), records)
  }

  // ----- Conservation -----

  /** Every record is in exactly one class. */
  lemma {:induction false} Partition(outs: seq<Outcome>, n: nat)
    requires n <= |outs|
    ensures Number(outs, n, Invalid) + Number(outs, n, Comment) + Number(outs, n, Kept) == n
    ensures |KeptRecords(outs, n)| == Number(outs, n, Kept)
  {
    if n > 0 {
      Partition(outs, n - 1);
    }
  }

  lemma {:induction false} StatesSplit(records: seq<Record>)
    ensures InState(records, true) + InState(records, false) == |records|
  {
    if records != [] {
      StatesSplit(records[..|records| - 1]);
    }
  }

  lemma {:induction false} KeptAre(outs: seq<Outcome>, n: nat)
    requires n <= |outs|
    ensures forall r | r in KeptRecords(outs, n) ::
      exists i :: 0 <= i < n && ClassOf(outs, i) == Kept && outs[i].record == r
  {
    if n > 0 {
      KeptAre(outs, n - 1);
    }
  }

  /** No two kept records share a name. */
  lemma {:induction false} NamesDistinct(outs: seq<Outcome>, n: nat)
    requires n <= |outs|
    ensures forall a, b | 0 <= a < b < |KeptRecords(outs, n)| ::
      KeptRecords(outs, n)[a].name != KeptRecords(outs, n)[b].name
  {
    if n > 0 {
      NamesDistinct(outs, n - 1);
      KeptAre(outs, n - 1);
      var front := KeptRecords(outs, n - 1);
      if ClassOf(outs, n - 1) == Kept {
        forall r | r in front
          ensures r.name != outs[n - 1].record.name
        {
          var i :| 0 <= i < n - 1 && ClassOf(outs, i) == Kept && outs[i].record == r;
        }
      }
    }
  }

  /** The accounts of a document balance, and the records to import have distinct names. */
  lemma Conservation(outs: seq<Outcome>)
    ensures var d := DocumentOf(outs, |outs|);
      && d.total == d.normal + d.archived + d.invalid + d.unsupported
      && |d.records| == d.normal + d.archived
      && d.skipped.comments == d.unsupported
      && forall a, b | 0 <= a < b < |d.records| :: d.records[a].name != d.records[b].name
  {
    Partition(outs, |outs|);
    StatesSplit(KeptRecords(outs, |outs|));
    NamesDistinct(outs, |outs|);
  }

  lemma {:induction false} NoneInvalid(outs: seq<Outcome>, n: nat)
    requires n <= |outs|
    ensures Number(outs, n, Invalid) == 0 <==> forall i | 0 <= i < n :: ClassOf(outs, i) != Invalid
  {
    if n > 0 {
      NoneInvalid(outs, n - 1);
    }
  }

  // ----- The accounts, as numbers of records -----

  function Numbers(outs: seq<Outcome>, n: nat, class_: Class): set<nat>
    requires n <= |outs|
  {
    set i: nat | i < n && ClassOf(outs, i) == class_
  }

  lemma {:induction false} NumberIsCount(outs: seq<Outcome>, n: nat, class_: Class)
    requires n <= |outs|
    ensures |Numbers(outs, n, class_)| == Number(outs, n, class_)
  {
    hide ClassOf;
    if n > 0 {
      NumberIsCount(outs, n - 1, class_);
      var before := Numbers(outs, n - 1, class_);
      assert Numbers(outs, n, class_) == if ClassOf(outs, n - 1) == class_ then before + {n - 1} else before;
    }
  }

  function KeptIn(outs: seq<Outcome>, n: nat, normal: bool): set<nat>
    requires n <= |outs|
  {
    set i: nat | i < n && ClassOf(outs, i) == Kept && (outs[i].record.state == NORMAL) == normal
  }

  lemma {:induction false} InStateIsCount(outs: seq<Outcome>, n: nat, normal: bool)
    requires n <= |outs|
    ensures |KeptIn(outs, n, normal)| == InState(KeptRecords(outs, n), normal)
  {
    hide ClassOf, InState;
    if n == 0 {
      NoneInState(normal);
    } else {
      var before, o := KeptIn(outs, n - 1, normal), outs[n - 1];
      InStateIsCount(outs, n - 1, normal);
      InStateStep(KeptRecords(outs, n - 1), o.record);
      assert KeptIn(outs, n, normal) ==
        if ClassOf(outs, n - 1) == Kept && (o.record.state == NORMAL) == normal then before + {n - 1} else before;
    }
  }

  lemma NoneInState(normal: bool)
    ensures InState([], normal) == 0
  {
  }

  /** The record is valid and no valid record before it has its name. */
  ghost predicate First(outs: seq<Outcome>, i: nat)
    requires i < |outs|
  {
    outs[i].valid && forall j: nat | j < i && outs[j].valid :: outs[j].record.name != outs[i].record.name
  }

  /** Each number of a document is the number of records of its kind: the invalid ones are those that are not valid or
      repeat the name of a valid one, the unsupported ones the comments among the others. */
  lemma Accounts(outs: seq<Outcome>)
    ensures var d := DocumentOf(outs, |outs|);
      && d.total == |outs|
      && d.invalid == |set i: nat | i < |outs| && !First(outs, i)|
      && d.unsupported == |set i: nat | i < |outs| && First(outs, i) && outs[i].comment|
      && d.normal == |set i: nat | i < |outs| && First(outs, i) && !outs[i].comment && outs[i].record.state == "NORMAL"|
      && d.archived ==
           |set i: nat | i < |outs| && First(outs, i) && !outs[i].comment && outs[i].record.state != "NORMAL"|
  {
    hide Number, InState, KeptRecords, SumSkipped, AllIssues;
    var n := |outs|;
    NumberIsCount(outs, n, Invalid);
    NumberIsCount(outs, n, Comment);
    InStateIsCount(outs, n, true);
    InStateIsCount(outs, n, false);
    assert Numbers(outs, n, Invalid) == set i: nat | i < n && !First(outs, i);
    assert Numbers(outs, n, Comment) == set i: nat | i < n && First(outs, i) && outs[i].comment;
    assert KeptIn(outs, n, true) ==
      set i: nat | i < n && First(outs, i) && !outs[i].comment && outs[i].record.state == "NORMAL";
    assert KeptIn(outs, n, false) ==
      set i: nat | i < n && First(outs, i) && !outs[i].comment && outs[i].record.state != "NORMAL";
  }

  /** The records of a document are those of the first valid records that are no comments, in their order. */
  lemma {:induction false} KeptFrom(outs: seq<Outcome>, n: nat) returns (from: seq<nat>)
    requires n <= |outs|
    ensures |from| == |KeptRecords(outs, n)| && forall k | 0 <= k < |from| :: from[k] < n
    ensures forall j, k | 0 <= j < k < |from| :: from[j] < from[k]
    ensures forall k | 0 <= k < |from| :: outs[from[k]].record == KeptRecords(outs, n)[k]
    ensures forall i: nat | i < n :: i in from <==> First(outs, i) && !outs[i].comment
  {
    from := [];
    if n > 0 {
      from := KeptFrom(outs, n - 1);
      if ClassOf(outs, n - 1) == Kept {
        from := from + [n - 1];
      }
    }
  }

  /** What is skipped is what all records hold, whatever becomes of them; comments are those not restored. */
  lemma {:induction false} SkippedTotals(outs: seq<Outcome>)
    ensures var s := SumSkipped(outs);
      && s.attachments == Total(outs, (o: Outcome) => o.skipped.attachments)
      && s.relations == Total(outs, (o: Outcome) => o.skipped.relations)
      && s.reactions == Total(outs, (o: Outcome) => o.skipped.reactions)
      && s.locations == Total(outs, (o: Outcome) => o.skipped.locations)
  {
    if outs != [] {
      SkippedTotals(outs[..|outs| - 1]);
    }
  }

  function Total(outs: seq<Outcome>, f: Outcome -> nat): nat {
    if outs == [] then 0 else Total(outs[..|outs| - 1], f) + f(outs[|outs| - 1])
  }

  /** The issue is about this record and gives a reason that applies to it. */
  ghost predicate Applies(outs: seq<Outcome>, i: nat, x: Issue)
    requires i < |outs|
  {
    var o := outs[i];
    && x.index == i + 1 && x.name == o.record.name
    && match x.reason
       case BadRecord => x.kind == InvalidIssue && !o.valid
       case DuplicateName => x.kind == InvalidIssue && o.valid && !First(outs, i)
       case IsComment => x.kind == UnsupportedIssue && First(outs, i) && o.comment
       case HasAttachments(n) =>
         x.kind == UnsupportedIssue && First(outs, i) && !o.comment && n == o.skipped.attachments > 0
       case HasRelations(n) =>
         x.kind == UnsupportedIssue && First(outs, i) && !o.comment && n == o.skipped.relations > 0
       case HasReactions(n) =>
         x.kind == UnsupportedIssue && First(outs, i) && !o.comment && n == o.skipped.reactions > 0
       case HasLocation => x.kind == UnsupportedIssue && First(outs, i) && !o.comment && o.skipped.locations > 0
       case _ => false
  }

  /** The issues of the records are exactly those that apply. */
  lemma {:induction false} IssuesExact(outs: seq<Outcome>, n: nat)
    requires n <= |outs|
    ensures forall x :: x in AllIssues(outs, n) <==> exists i: nat :: i < n && Applies(outs, i, x)
  {
    hide Applies, IssuesOf;
    if n > 0 {
      IssuesExact(outs, n - 1);
      var last := IssuesOf(outs, n - 1);
      forall x: Issue
        ensures x in last <==> Applies(outs, n - 1, x)
      {
        IssueApplies(outs, n - 1, x);
      }
    }
  }

  lemma IssueApplies(outs: seq<Outcome>, i: nat, x: Issue)
    requires i < |outs|
    ensures x in IssuesOf(outs, i) <==> Applies(outs, i, x)
  {
    hide Nested, IsFresh, First;
    assert IsFresh(outs, i) <==> First(outs, i) by { FreshIsFirst(outs, i); }
    assert First(outs, i) ==> outs[i].valid by { FreshIsFirst(outs, i); }
    NestedIs(i, outs[i], x);
  }

  lemma FreshIsFirst(outs: seq<Outcome>, i: nat)
    requires i < |outs|
    ensures (IsFresh(outs, i) <==> First(outs, i)) && (First(outs, i) ==> outs[i].valid)
  {
  }

  lemma NestedIs(i: nat, o: Outcome, x: Issue)
    ensures x in Nested(i, o) <==>
      && x.index == i + 1 && x.name == o.record.name && x.kind == UnsupportedIssue
      && (|| (o.skipped.attachments > 0 && x.reason == HasAttachments(o.skipped.attachments))
          || (o.skipped.relations > 0 && x.reason == HasRelations(o.skipped.relations))
          || (o.skipped.reactions > 0 && x.reason == HasReactions(o.skipped.reactions))
          || (o.skipped.locations > 0 && x.reason == HasLocation))
  {
  }

  // ----- The envelope -----

  /** The first thing wrong with a document before its records are looked at. */
  function EnvelopeProblem(input: Input): Option<Reason> {
    match input
    case Blank => Some(EmptyFile)
    case NotUtf8 => Some(Encoding)
    case NotJson => Some(Json)
    case TrailingData => Some(Trailing)
    case Decoded(raw) =>
      if raw.format != Some("memoark.memo-export") then Some(WrongFormat)
      else if raw.version != Some(1) then Some(WrongVersion)
      else if raw.exportedAt.None? then Some(NoExportTime)
      else if raw.exportedAt.value.None? then Some(BadExportTime)
      else if raw.user.None? || raw.user.value.name == "" || raw.user.value.username == "" then Some(NoUser)
      else if raw.counts.None? || raw.counts.value.total < 0 || raw.counts.value.normal < 0 ||
        raw.counts.value.archived < 0
      then Some(NoCounts)
      else if raw.counts.value.total != raw.counts.value.normal + raw.counts.value.archived
        then Some(InconsistentCounts)
      else if raw.included.None? || !raw.included.value.memoData then Some(NoMemoData)
      else if raw.included.value != Included(true, true, false, false, false) then Some(WrongContent)
      else if raw.memos.None? then Some(NoMemos)
      else if raw.counts.value.total != |raw.memos.value| then Some(WrongTotal)
      else None
  }

  /** Format, version, export time, user, counts and contents as the export writes them: anything else is a problem. */
  predicate Envelope(input: Input) {
    && input.Decoded?
    && var raw := input.raw;
       && raw.format == Some("memoark.memo-export") && raw.version == Some(1)
       && raw.exportedAt.Some? && raw.exportedAt.value.Some?
       && raw.user.Some? && raw.user.value.name != "" && raw.user.value.username != ""
       && raw.counts.Some? && raw.counts.value.normal >= 0 && raw.counts.value.archived >= 0
       && raw.counts.value.total == raw.counts.value.normal + raw.counts.value.archived
       && raw.included == Some(Included(true, true, false, false, false))
       && raw.memos.Some? && raw.counts.value.total == |raw.memos.value|
  }

  lemma EnvelopeExactly(input: Input)
    ensures EnvelopeProblem(input).None? <==> Envelope(input)
    ensures Envelope(input) ==>
      var user := input.raw.user.value;
      SourceOf(input) ==
        Source(input.raw.exportedAt.value, if user.displayName == "" then user.username else user.displayName)
  {
  }

  /** The export time is known once format, version and time are right, the user once the identity is; a user without a
      display name goes by the username. */
  function SourceOf(input: Input): Source {
    var problem := EnvelopeProblem(input);
    if !input.Decoded? || problem in {Some(WrongFormat), Some(WrongVersion), Some(NoExportTime), Some(BadExportTime)}
    then Source(None, "")
    else
      var raw := input.raw;
      Source(raw.exportedAt.value,
             if problem == Some(NoUser) then ""
             else if raw.user.value.displayName == "" then raw.user.value.username
             else raw.user.value.displayName)
  }

  function InvalidEnvelope(d: Document, reason: Reason): Document {
    d.(envelopeValid := false, blocking := Some(reason), issues := d.issues + [Issue(0, "", InvalidIssue, reason)])
  }

  const NO_DOCUMENT := Document(false, None, 0, 0, 0, 0, 0, NOTHING_SKIPPED, [], [])

  /** The declared numbers of states are compared only if every record claims one of the two. */
  predicate StatesAgree(counts: Counts, outs: seq<Outcome>) {
    (exists i :: 0 <= i < |outs| && !IsState(outs[i].state)) ||
    (counts.normal == Claiming(outs, NORMAL) && counts.archived == Claiming(outs, ARCHIVED))
  }

  function Parsed(counts: Counts, outs: seq<Outcome>): Document {
    var d := DocumentOf(outs, |outs|);
    if !StatesAgree(counts, outs) then InvalidEnvelope(d, WrongStates)
    else if d.invalid > 0 then d.(blocking := Some(InvalidRecords(d.invalid)))
    else d
  }

  /** An import is allowed exactly if every record is well formed and has a name of its own, and the declared numbers of
      normal and archived memos are those over all records, comments included. */
  lemma CanImportIff(counts: Counts, memos: seq<RawMemo>, maxLength: int, uid: string -> bool)
    ensures var outs := Outcomes(memos, maxLength, uid);
      Parsed(counts, outs).CanImport() <==>
        && (forall i | 0 <= i < |memos| :: WellFormed(memos[i], maxLength, uid))
        && (forall i, j | 0 <= i < j < |outs| :: outs[i].record.name != outs[j].record.name)
        && counts.normal == Claiming(outs, NORMAL) && counts.archived == Claiming(outs, ARCHIVED)
  {
    hide WellFormed, ParseRecord, Parsed;
    var outs := Outcomes(memos, maxLength, uid);
    forall i | 0 <= i < |outs|
      ensures outs[i].valid <==> WellFormed(memos[i], maxLength, uid)
      ensures outs[i].valid ==> IsState(outs[i].state)
    {
      ParseRecordValid(memos[i], maxLength, uid);
      assert outs[i] == ParseRecord(memos[i], maxLength, uid);
    }
    CanImportOutcomes(counts, outs);
  }

  lemma CanImportOutcomes(counts: Counts, outs: seq<Outcome>)
    requires forall i | 0 <= i < |outs| :: outs[i].valid ==> IsState(outs[i].state)
    ensures Parsed(counts, outs).CanImport() <==>
      && (forall i | 0 <= i < |outs| :: outs[i].valid)
      && (forall i, j | 0 <= i < j < |outs| :: outs[i].record.name != outs[j].record.name)
      && counts.normal == Claiming(outs, NORMAL) && counts.archived == Claiming(outs, ARCHIVED)
  {
    hide Claiming, Number, KeptRecords, InState, AllIssues, SumSkipped;
    NoneInvalid(outs, |outs|);
    AllFresh(outs);
  }

  /** The record has the fields of the memo. */
  predicate Carries(raw: RawMemo, r: Record) {
    && raw.Memo? && raw.name == Given(r.name) && raw.state == Given(r.state)
    && raw.createTime == Given(Some(r.createTime))
    && (if raw.updateTime.Given? then raw.updateTime == Given(Some(r.updateTime)) else r.updateTime == r.createTime)
    && (if raw.content.Given? then raw.content == Given(r.content) else r.content == "")
    && raw.visibility == Given(r.visibility) && r.pinned == (raw.pinned == Given(true))
  }

  /** Every record of a document has the fields of a memo that was given; no memo is left out that is valid, is no
      comment and has a name of its own. */
  lemma RecordsCarry(memos: seq<RawMemo>, maxLength: int, uid: string -> bool)
    ensures var outs := Outcomes(memos, maxLength, uid);
      && (forall r | r in KeptRecords(outs, |outs|) :: exists i :: 0 <= i < |memos| && Carries(memos[i], r))
      && (forall i: nat | i < |memos| && First(outs, i) && !outs[i].comment ::
            exists r :: r in KeptRecords(outs, |outs|) && Carries(memos[i], r))
  {
    hide ParseRecord, Carries;
    var outs := Outcomes(memos, maxLength, uid);
    var from := KeptFrom(outs, |outs|);
    forall i: nat | i < |outs| && outs[i].valid
      ensures Carries(memos[i], outs[i].record)
    {
      assert outs[i] == ParseRecord(memos[i], maxLength, uid);
      RecordCarries(memos[i], maxLength, uid);
    }
    forall r | r in KeptRecords(outs, |outs|)
      ensures exists i :: 0 <= i < |memos| && Carries(memos[i], r)
    {
      var k :| 0 <= k < |KeptRecords(outs, |outs|)| && KeptRecords(outs, |outs|)[k] == r;
      assert from[k] in from && outs[from[k]].valid;
    }
    forall i: nat | i < |memos| && First(outs, i) && !outs[i].comment
      ensures exists r :: r in KeptRecords(outs, |outs|) && Carries(memos[i], r)
    {
      var k :| 0 <= k < |from| && from[k] == i;
      assert KeptRecords(outs, |outs|)[k] in KeptRecords(outs, |outs|);
    }
  }

  lemma RecordCarries(raw: RawMemo, maxLength: int, uid: string -> bool)
    requires ParseRecord(raw, maxLength, uid).valid
    ensures Carries(raw, ParseRecord(raw, maxLength, uid).record)
  {
    hide ParseRecord;
    FieldsCarried(raw, maxLength, uid);
  }

  /** How many memos claim a state. */
  function InStateGiven(memos: seq<RawMemo>, state: string): set<nat> {
    set i: nat | i < |memos| && memos[i].Memo? && memos[i].state == Given(state)
  }

  lemma {:induction false} ClaimingIsCount(memos: seq<RawMemo>, outs: seq<Outcome>, state: string)
    requires |outs| == |memos|
    requires forall i | 0 <= i < |memos| :: memos[i].Memo? && memos[i].state == Given(outs[i].state)
    ensures Claiming(outs, state) == |InStateGiven(memos, state)|
  {
    if outs == [] {
      assert InStateGiven(memos, state) == {};
    } else {
      var n := |outs| - 1;
      ClaimingIsCount(memos[..n], outs[..n], state);
      var before := InStateGiven(memos[..n], state);
      assert InStateGiven(memos, state) == if outs[n].state == state then before + {n} else before;
    }
  }

  /** Whether an import is allowed, in terms of the memos given: every memo is valid, no two have the same name, and the
      declared numbers are those of the memos in each state. */
  lemma Importable(counts: Counts, memos: seq<RawMemo>, maxLength: int, uid: string -> bool)
    ensures Parsed(counts, Outcomes(memos, maxLength, uid)).CanImport() <==>
      && (forall i | 0 <= i < |memos| :: memos[i].Memo? && ParseRecord(memos[i], maxLength, uid).valid)
      && (forall i, j | 0 <= i < j < |memos| :: memos[i].name != memos[j].name)
      && counts.normal == |InStateGiven(memos, "NORMAL")| && counts.archived == |InStateGiven(memos, "ARCHIVED")|
  {
    hide ParseRecord, Parsed, WellFormed, Claiming, InStateGiven;
    var outs := Outcomes(memos, maxLength, uid);
    CanImportIff(counts, memos, maxLength, uid);
    forall i | 0 <= i < |memos|
      ensures outs[i].valid <==> WellFormed(memos[i], maxLength, uid)
      ensures outs[i].valid ==> memos[i].Memo? && memos[i].name == Given(outs[i].record.name)
      ensures outs[i].valid ==> memos[i].Memo? && memos[i].state == Given(outs[i].state)
    {
      assert outs[i] == ParseRecord(memos[i], maxLength, uid);
      ParseRecordValid(memos[i], maxLength, uid);
      if outs[i].valid {
        FieldsCarried(memos[i], maxLength, uid);
      }
    }
    if forall i | 0 <= i < |memos| :: outs[i].valid {
      ClaimingIsCount(memos, outs, "NORMAL");
      ClaimingIsCount(memos, outs, "ARCHIVED");
    }
  }

  lemma AllFresh(outs: seq<Outcome>)
    ensures (forall i | 0 <= i < |outs| :: ClassOf(outs, i) != Invalid) <==>
      && (forall i | 0 <= i < |outs| :: outs[i].valid)
      && (forall i, j | 0 <= i < j < |outs| :: outs[i].record.name != outs[j].record.name)
  {
    if forall i | 0 <= i < |outs| :: ClassOf(outs, i) != Invalid {
      forall i | 0 <= i < |outs|
        ensures IsFresh(outs, i) && outs[i].valid
      {
        assert ClassOf(outs, i) != Invalid;
      }
      forall i, j | 0 <= i < j < |outs|
        ensures outs[i].record.name != outs[j].record.name
      {
        assert IsFresh(outs, i) && IsFresh(outs, j);
      }
    }
  }

  // ----- The parser -----

  /** Checks the envelope step by step. */
  method CheckEnvelope(input: Input) returns (problem: Option<Reason>, source: Source)
    ensures problem == EnvelopeProblem(input) && source == SourceOf(input)
  {
    source := Source(None, "");
    match input
    case Blank => return Some(EmptyFile), source;
    case NotUtf8 => return Some(Encoding), source;
    case NotJson => return Some(Json), source;
    case TrailingData => return Some(Trailing), source;
    case Decoded(raw) =>
      if raw.format != Some("memoark.memo-export") {
        return Some(WrongFormat), source;
      }
      if raw.version != Some(1) {
        return Some(WrongVersion), source;
      }
      if raw.exportedAt.None? {
        return Some(NoExportTime), source;
      }
      if raw.exportedAt.value.None? {
        return Some(BadExportTime), source;
      }
      source := source.(exportedAt := raw.exportedAt.value);
      if raw.user.None? || raw.user.value.name == "" || raw.user.value.username == "" {
        return Some(NoUser), source;
      }
      source := source.(user := raw.user.value.displayName);
      if source.user == "" {
        source := source.(user := raw.user.value.username);
      }
      if raw.counts.None? || raw.counts.value.total < 0 || raw.counts.value.normal < 0 ||
        raw.counts.value.archived < 0 {
        return Some(NoCounts), source;
      }
      if raw.counts.value.total != raw.counts.value.normal + raw.counts.value.archived {
        return Some(InconsistentCounts), source;
      }
      if raw.included.None? || !raw.included.value.memoData {
        return Some(NoMemoData), source;
      }
      var flags := raw.included.value;
      if !flags.attachmentMetadata || flags.attachmentFiles || flags.comments || flags.instanceSettings {
        return Some(WrongContent), source;
      }
      if raw.memos.None? {
        return Some(NoMemos), source;
      }
      problem := if raw.counts.value.total != |raw.memos.value| then Some(WrongTotal) else None;
  }

  /** Validates a whole document. */
  method Parse(input: Input, maxLength: int, uid: string -> bool) returns (d: Document, source: Source)
    ensures source == SourceOf(input)
    ensures EnvelopeProblem(input).Some? ==> d == InvalidEnvelope(NO_DOCUMENT, EnvelopeProblem(input).value)
    ensures EnvelopeProblem(input).None? ==>
      d == Parsed(input.raw.counts.value, Outcomes(input.raw.memos.value, maxLength, uid))
    ensures forall r | r in d.records ::
      input.Decoded? && input.raw.memos.Some? &&
        exists i :: 0 <= i < |input.raw.memos.value| && Carries(input.raw.memos.value[i], r)
    ensures d.CanImport() <==>
      && Envelope(input)
      && var memos, counts := input.raw.memos.value, input.raw.counts.value;
         && (forall i | 0 <= i < |memos| :: memos[i].Memo? && ParseRecord(memos[i], maxLength, uid).valid)
         && (forall i, j | 0 <= i < j < |memos| :: memos[i].name != memos[j].name)
         && counts.normal == |InStateGiven(memos, "NORMAL")| && counts.archived == |InStateGiven(memos, "ARCHIVED")|
  {
    hide ParseRecord, DocumentOf, Claiming, SumSkipped, AreNames, SourceOf, Envelope, Carries, InStateGiven;
    EnvelopeExactly(input);
    d := NO_DOCUMENT;
    var problem;
    problem, source := CheckEnvelope(input);
    if problem.Some? {
      return InvalidEnvelope(d, problem.value), source;
    }
    var memos, counts := input.raw.memos.value, input.raw.counts.value;
    ghost var outs := Outcomes(memos, maxLength, uid);
    d := d.(envelopeValid := true, total := |memos|);
    var seenNames: set<string> := {};
    var actualNormal, actualArchived := 0, 0;
    var allStatesValid := true;
    NothingYet(outs);
    for i := 0 to |memos|
      invariant d == DocumentOf(outs, i)
      invariant AreNames(seenNames, outs, i)
      invariant actualNormal == Claiming(outs[..i], NORMAL) && actualArchived == Claiming(outs[..i], ARCHIVED)
      invariant allStatesValid <==> forall j | 0 <= j < i :: IsState(outs[j].state)
    {
      var o := ParseRecord(memos[i], maxLength, uid);
      assert outs[i] == o;
      CountStep(outs, i);
      d := d.(skipped := d.skipped.(attachments := d.skipped.attachments + o.skipped.attachments,
                                    relations := d.skipped.relations + o.skipped.relations,
                                    reactions := d.skipped.reactions + o.skipped.reactions,
                                    locations := d.skipped.locations + o.skipped.locations));
      if o.state == NORMAL {
        actualNormal := actualNormal + 1;
      } else if o.state == ARCHIVED {
        actualArchived := actualArchived + 1;
      } else {
        allStatesValid := false;
      }
      d, seenNames := Classify(d, seenNames, i, o, outs);
    }
    assert outs[..|outs|] == outs;
    Importable(counts, memos, maxLength, uid);
    RecordsCarry(memos, maxLength, uid);
    DocumentRecords(outs);
    if allStatesValid && (counts.normal != actualNormal || counts.archived != actualArchived) {
      return InvalidEnvelope(d, WrongStates), source;
    }
    if d.invalid > 0 {
      d := d.(blocking := Some(InvalidRecords(d.invalid)));
    }
  }

  lemma DocumentRecords(outs: seq<Outcome>)
    ensures DocumentOf(outs, |outs|).records == KeptRecords(outs, |outs|)
  {
  }

  lemma NothingYet(outs: seq<Outcome>)
    ensures DocumentOf(outs, 0) == NO_DOCUMENT.(envelopeValid := true, total := |outs|)
    ensures AreNames({}, outs, 0) && Claiming(outs[..0], NORMAL) == Claiming(outs[..0], ARCHIVED) == 0
  {
  }

  lemma CountStep(outs: seq<Outcome>, i: nat)
    requires i < |outs|
    ensures forall state ::
      Claiming(outs[..i + 1], state) == Claiming(outs[..i], state) + if outs[i].state == state then 1 else 0
    ensures var d, s, t := DocumentOf(outs, i), outs[i].skipped, SumSkipped(outs[..i + 1]);
      && d.skipped.comments == d.unsupported
      && t.attachments == d.skipped.attachments + s.attachments && t.relations == d.skipped.relations + s.relations
      && t.reactions == d.skipped.reactions + s.reactions && t.locations == d.skipped.locations + s.locations
  {
    assert outs[..i + 1][..i] == outs[..i];
  }

  /** The names of the valid records among the first `n`. */
  ghost predicate AreNames(names: set<string>, outs: seq<Outcome>, n: nat)
    requires n <= |outs|
  {
    forall name :: name in names <==> exists j :: 0 <= j < n && outs[j].valid && outs[j].record.name == name
  }

  lemma FreshIff(names: set<string>, outs: seq<Outcome>, i: nat)
    requires i < |outs| && AreNames(names, outs, i)
    ensures IsFresh(outs, i) <==> outs[i].valid && outs[i].record.name !in names
    ensures AreNames(if outs[i].valid then names + {outs[i].record.name} else names, outs, i + 1)
  {
    var name := outs[i].record.name;
    var after := if outs[i].valid then names + {name} else names;
    forall x
      ensures x in after <==> exists j :: 0 <= j < i + 1 && outs[j].valid && outs[j].record.name == x
    {
      if x in names {
        var j :| 0 <= j < i && outs[j].valid && outs[j].record.name == x;
        assert 0 <= j < i + 1;
      }
      if x !in names && x in after {
        assert 0 <= i < i + 1 && outs[i].valid && outs[i].record.name == x;
      }
    }
  }

  /** What one more record changes. */
  lemma DocumentStep(outs: seq<Outcome>, i: nat)
    requires i < |outs|
    ensures var d, e, o, c := DocumentOf(outs, i), DocumentOf(outs, i + 1), outs[i], ClassOf(outs, i);
      && d.envelopeValid && d.blocking.None? && e.envelopeValid && e.blocking.None? && e.total == d.total
      && e.invalid == (if c == Invalid then d.invalid + 1 else d.invalid)
      && e.unsupported == (if c == Comment then d.unsupported + 1 else d.unsupported)
      && e.skipped == SumSkipped(outs[..i + 1]).(comments := e.unsupported)
      && e.issues == d.issues + IssuesOf(outs, i)
      && e.records == (if c == Kept then d.records + [o.record] else d.records)
      && e.normal == (if c == Kept && o.record.state == NORMAL then d.normal + 1 else d.normal)
      && e.archived == (if c == Kept && o.record.state != NORMAL then d.archived + 1 else d.archived)
  {
    hide SumSkipped, IssuesOf, ClassOf;
    var records := KeptRecords(outs, i);
    if ClassOf(outs, i) == Kept {
      InStateStep(records, outs[i].record);
    }
  }

  lemma InStateStep(records: seq<Record>, r: Record)
    ensures InState(records + [r], true) == InState(records, true) + (if r.state == NORMAL then 1 else 0)
    ensures InState(records + [r], false) == InState(records, false) + (if r.state == NORMAL then 0 else 1)
  {
    assert (records + [r])[..|records|] == records;
  }

  /** Books one record whose skipped items are counted already. */
  method Classify(d: Document, seenNames: set<string>, i: nat, o: Outcome, ghost outs: seq<Outcome>)
    returns (r: Document, names: set<string>)
    requires i < |outs| && outs[i] == o
    requires d == DocumentOf(outs, i).(skipped := d.skipped)
    requires d.skipped == SumSkipped(outs[..i + 1]).(comments := d.unsupported)
    requires AreNames(seenNames, outs, i)
    ensures r == DocumentOf(outs, i + 1)
    ensures AreNames(names, outs, i + 1)
  {
    hide SumSkipped, DocumentOf, IsFresh, AreNames;
    var name := o.record.name;
    DocumentStep(outs, i);
    FreshIff(seenNames, outs, i);
    r, names := d, seenNames;
    if !o.valid {
      return r.(invalid := r.invalid + 1, issues := r.issues + [Issue(i + 1, name, InvalidIssue, BadRecord)]), names;
    }
    if name in seenNames {
      assert names == names + {name};
      return r.(invalid := r.invalid + 1, issues := r.issues + [Issue(i + 1, name, InvalidIssue, DuplicateName)]),
        names;
    }
    names := names + {name};
    if o.comment {
      r := r.(unsupported := r.unsupported + 1, skipped := r.skipped.(comments := r.skipped.comments + 1),
              issues := r.issues + [Issue(i + 1, name, UnsupportedIssue, IsComment)]);
      return;
    }
    var issues := NestedIssues(i, o);
    r := r.(issues := r.issues + issues, records := r.records + [o.record],
            normal := if o.record.state == NORMAL then r.normal + 1 else r.normal,
            archived := if o.record.state == NORMAL then r.archived else r.archived + 1);
    assert IssuesOf(outs, i) == issues;
  }

  method NestedIssues(i: nat, o: Outcome) returns (issues: seq<Issue>)
    ensures issues == Nested(i, o)
  {
    var name := o.record.name;
    issues := [];
    if o.skipped.attachments > 0 {
      issues := issues + [Issue(i + 1, name, UnsupportedIssue, HasAttachments(o.skipped.attachments))];
    }
    if o.skipped.relations > 0 {
      issues := issues + [Issue(i + 1, name, UnsupportedIssue, HasRelations(o.skipped.relations))];
    }
    if o.skipped.reactions > 0 {
      issues := issues + [Issue(i + 1, name, UnsupportedIssue, HasReactions(o.skipped.reactions))];
    }
    if o.skipped.locations > 0 {
      issues := issues + [Issue(i + 1, name, UnsupportedIssue, HasLocation)];
    }
  }
}
