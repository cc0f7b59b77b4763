/**
  The batch endpoint of the reference back end: a batch of events is applied one at a time, in
  order; each handled event changes the citations table (one insert, or an update of the rows whose
  `citation_id` matches) and then appends the event itself to the append-only events table.

  The database is modelled as two in-memory tables. The citations table is a list of rows: the
  schema is not part of this model, so no uniqueness of `citation_id` is assumed, and an update
  changes every row that matches. The clock that `createCitationId` reads is a parameter.
 */
module ReferencePost {
  import opened Wrappers
  import opened Types
  import Text

  /** An event of a submitted batch, by its `type`. */
  datatype Event =
    | AddCitationEvent(formId: int, questionId: int, documentId: int, excerpt: string, bounds: seq<Bound>,
                       review: Review, creator: string,
                       /** the `citationId` property, which the handler sets to the generated id */
                       assignedId: Option<string>)
    | UpdateReviewEvent(citationId: string, review: Review, creator: string)
    | UpdateBoundsEvent(citationId: string, bounds: seq<Bound>, creator: string)
    | OtherEvent(kind: string)

  /** A row of the citations table. */
  datatype CitationRow = CitationRow(
    citationId: string, formId: int, questionId: int, documentId: int, excerpt: string,
    bounds: seq<Bound>, review: Review, creator: string)

  /** The two tables; each entry of `events` is the body of one events row. */
  datatype Tables = Tables(citations: seq<CitationRow>, events: seq<Event>)

  // ---------------------------------------------------------------------------------------------
  // Citation ids
  // ---------------------------------------------------------------------------------------------

  /** `formId + '-' + creator + '-' + Date.now()`, with the clock reading `now` as a parameter. */
  function CreateCitationId(formId: int, creator: string, now: nat): string {
    Text.Decimal(formId) + "-" + creator + "-" + Text.Decimal(now)
  }

  /** The first position at or after `from` holding `c`, or `|s|` when there is none. */
  function IndexOf(s: string, c: char, from: nat): (i: nat)
    requires from <= |s|
    ensures from <= i <= |s|
    ensures i < |s| ==> s[i] == c
    ensures forall k :: from <= k < i ==> s[k] != c
    decreases |s| - from
  {
    if from == |s| || s[from] == c then from else IndexOf(s, c, from + 1)
  }

  /** The last position holding `c`, or -1 when there is none. */
  function LastIndexOf(s: string, c: char): (i: int)
    ensures -1 <= i < |s|
    ensures i >= 0 ==> s[i] == c
    ensures forall k :: i < k < |s| ==> s[k] != c
  {
    if s == [] then -1
    else if s[|s| - 1] == c then |s| - 1
    else LastIndexOf(s[..|s| - 1], c)
  }

  /**
    Splits a citation id into form, creator and timestamp: the form's text ends at the first '-'
    after its first character, the timestamp's text starts after the last '-'.
   */
  function ParseCitationId(id: string): Option<(int, string, int)> {
    if |id| == 0 then None
    else
      var i := IndexOf(id, '-', 1);
      var j := LastIndexOf(id, '-');
      if i < j then
        match (Text.ParseDecimal(id[..i]), Text.ParseDecimal(id[j + 1..]))
        case (Some(formId), Some(now)) => Some((formId, id[i + 1..j], now))
        case _ => None
      else None
  }

  /** A citation id can be read back into the form, creator and timestamp it was made from. */
  lemma CitationIdRoundTrip(formId: int, creator: string, now: nat)
    ensures ParseCitationId(CreateCitationId(formId, creator, now)) == Some((formId, creator, now))
  {
    var a, b := Text.Decimal(formId), Text.Decimal(now);
    var id := CreateCitationId(formId, creator, now);
    assert |id| == |a| + 1 + |creator| + 1 + |b|;
    var sep1, sep2 := |a|, |a| + 1 + |creator|;
    assert id[sep1] == '-' && id[sep2] == '-';
    forall k | 1 <= k < sep1 ensures id[k] != '-' {
      assert id[k] == a[k];
      if formId < 0 {
        assert a[1..][k - 1] == a[k];
      }
    }
    assert IndexOf(id, '-', 1) == sep1 by {
      if sep1 == 0 {
        assert false;
      }
    }
    forall k | sep2 < k < |id| ensures id[k] != '-' {
      assert id[k] == b[k - sep2 - 1];
    }
    var j := LastIndexOf(id, '-');
    assert j == sep2 by {
      assert j >= sep2;
    }
    assert id[..sep1] == a;
    assert id[sep2 + 1..] == b;
    assert id[sep1 + 1..sep2] == creator;
    Text.DecimalRoundTrip(formId);
    Text.DecimalRoundTrip(now);
  }

  /** Two ids are equal only when made from the same form, creator and clock reading. */
  lemma CitationIdInjective(f1: int, c1: string, t1: nat, f2: int, c2: string, t2: nat)
    requires CreateCitationId(f1, c1, t1) == CreateCitationId(f2, c2, t2)
    ensures f1 == f2 && c1 == c2 && t1 == t2
  {
    CitationIdRoundTrip(f1, c1, t1);
    CitationIdRoundTrip(f2, c2, t2);
  }

  // ---------------------------------------------------------------------------------------------
  // The effect of events on the tables
  // ---------------------------------------------------------------------------------------------

  /** `update citations set review = ... where citation_id = ...`. */
  function SetReview(rows: seq<CitationRow>, citationId: string, review: Review): seq<CitationRow> {
    seq(|rows|, k requires 0 <= k < |rows| => if rows[k].citationId == citationId then rows[k].(review := review) else rows[k])
  }

  /** `update citations set bounds = ... where citation_id = ...`. */
  function SetBounds(rows: seq<CitationRow>, citationId: string, bounds: seq<Bound>): seq<CitationRow> {
    seq(|rows|, k requires 0 <= k < |rows| => if rows[k].citationId == citationId then rows[k].(bounds := bounds) else rows[k])
  }

  /** The row `insertCitation` writes for an add event. */
  function NewRow(e: Event, now: nat): CitationRow
    requires e.AddCitationEvent?
  {
    CitationRow(CreateCitationId(e.formId, e.creator, now), e.formId, e.questionId, e.documentId,
                e.excerpt, e.bounds, e.review, e.creator)
  }

  /** The tables after one event of the batch, `now` being the clock reading while it is handled. */
  function ApplyEvent(t: Tables, e: Event, now: nat): Tables {
    match e
    case AddCitationEvent(_, _, _, _, _, _, _, _) =>
      var row := NewRow(e, now);
      Tables(t.citations + [row], t.events + [e.(assignedId := Some(row.citationId))])
    case UpdateReviewEvent(citationId, review, _) =>
      Tables(SetReview(t.citations, citationId, review), t.events + [e])
    case UpdateBoundsEvent(citationId, bounds, _) =>
      Tables(SetBounds(t.citations, citationId, bounds), t.events + [e])
    case OtherEvent(_) => t
  }

  /** The tables after a batch, event by event; `times[i]` is the clock reading while `batch[i]` is handled. */
  function ApplyBatch(t: Tables, batch: seq<Event>, times: seq<nat>): Tables
    requires |times| == |batch|
  {
    if batch == [] then t
    else
      var n := |batch| - 1;
      ApplyEvent(ApplyBatch(t, batch[..n], times[..n]), batch[n], times[n])
  }

  /** The log entry a handled event leaves, none for any other. */
  function LogEntries(e: Event, now: nat): seq<Event> {
    match e
    case AddCitationEvent(_, _, _, _, _, _, _, _) => [e.(assignedId := Some(CreateCitationId(e.formId, e.creator, now)))]
    case OtherEvent(_) => []
    case _ => [e]
  }

  /** The log entries a batch leaves, in batch order. */
  function BatchLogEntries(batch: seq<Event>, times: seq<nat>): seq<Event>
    requires |times| == |batch|
  {
    if batch == [] then []
    else
      var n := |batch| - 1;
      BatchLogEntries(batch[..n], times[..n]) + LogEntries(batch[n], times[n])
  }

  /** The number of events of a batch whose type is one of the three handled. */
  function HandledCount(batch: seq<Event>): nat {
    if batch == [] then 0 else HandledCount(batch[..|batch| - 1]) + (if batch[|batch| - 1].OtherEvent? then 0 else 1)
  }

  // ---------------------------------------------------------------------------------------------
  // Properties
  // ---------------------------------------------------------------------------------------------

  /**
    An add event inserts exactly one row, after the existing ones, holding the event's fields under
    the generated id, and logs the event with its `citationId` set to that id.
   */
  lemma AddCitationInsertsOneRow(t: Tables, e: Event, now: nat)
    requires e.AddCitationEvent?
    ensures var t' := ApplyEvent(t, e, now);
            && |t'.citations| == |t.citations| + 1
            && t'.citations[..|t.citations|] == t.citations
            && var row := t'.citations[|t.citations|];
            && row.citationId == CreateCitationId(e.formId, e.creator, now)
            && row.formId == e.formId && row.questionId == e.questionId && row.documentId == e.documentId
            && row.excerpt == e.excerpt && row.bounds == e.bounds && row.review == e.review && row.creator == e.creator
            && t'.events == t.events + [e.(assignedId := Some(row.citationId))]
  {
    assert (t.citations + [NewRow(e, now)])[..|t.citations|] == t.citations;
  }

  /** A review event changes the review of the rows with its id and nothing else, and logs the event. */
  lemma UpdateReviewChangesOnlyReview(t: Tables, e: Event, now: nat)
    requires e.UpdateReviewEvent?
    ensures var t' := ApplyEvent(t, e, now);
            && |t'.citations| == |t.citations|
            && (forall k :: 0 <= k < |t.citations| ==>
                  && t'.citations[k].(review := t.citations[k].review) == t.citations[k]
                  && t'.citations[k].review == if t.citations[k].citationId == e.citationId then e.review else t.citations[k].review)
            && t'.events == t.events + [e]
  {
  }

  /** A bounds event changes the bounds of the rows with its id and nothing else, and logs the event. */
  lemma UpdateBoundsChangesOnlyBounds(t: Tables, e: Event, now: nat)
    requires e.UpdateBoundsEvent?
    ensures var t' := ApplyEvent(t, e, now);
            && |t'.citations| == |t.citations|
            && (forall k :: 0 <= k < |t.citations| ==>
                  && t'.citations[k].(bounds := t.citations[k].bounds) == t.citations[k]
                  && t'.citations[k].bounds == if t.citations[k].citationId == e.citationId then e.bounds else t.citations[k].bounds)
            && t'.events == t.events + [e]
  {
  }

  /** An update naming an id no row has leaves the citations table as it was, and is logged all the same. */
  lemma UpdateOfUnknownIdOnlyLogs(t: Tables, e: Event, now: nat)
    requires e.UpdateReviewEvent? || e.UpdateBoundsEvent?
    requires forall k :: 0 <= k < |t.citations| ==> t.citations[k].citationId != e.citationId
    ensures ApplyEvent(t, e, now).citations == t.citations
    ensures ApplyEvent(t, e, now).events == t.events + [e]
  {
    var t' := ApplyEvent(t, e, now);
    assert |t'.citations| == |t.citations|;
    forall k | 0 <= k < |t.citations| ensures t'.citations[k] == t.citations[k] {
    }
  }

  /** Applying a batch is applying its first part and then, to the result, its second part. */
  lemma {:induction false} ApplyBatchConcat(t: Tables, b1: seq<Event>, ts1: seq<nat>, b2: seq<Event>, ts2: seq<nat>)
    requires |ts1| == |b1| && |ts2| == |b2|
    ensures ApplyBatch(t, b1 + b2, ts1 + ts2) == ApplyBatch(ApplyBatch(t, b1, ts1), b2, ts2)
    decreases |b2|
  {
    if b2 == [] {
      assert b1 + b2 == b1 && ts1 + ts2 == ts1;
    } else {
      var n := |b2| - 1;
      var e, now := b2[n], ts2[n];
      assert b2 == b2[..n] + [e] && ts2 == ts2[..n] + [now];
      ApplyBatchConcat(t, b1, ts1, b2[..n], ts2[..n]);
      ApplyBatchSnoc(ApplyBatch(t, b1, ts1), b2[..n], ts2[..n], e, now);
      assert b1 + b2 == (b1 + b2[..n]) + [e] && ts1 + ts2 == (ts1 + ts2[..n]) + [now];
      ApplyBatchSnoc(t, b1 + b2[..n], ts1 + ts2[..n], e, now);
    }
  }

  lemma ApplyBatchSnoc(t: Tables, b: seq<Event>, ts: seq<nat>, e: Event, now: nat)
    requires |ts| == |b|
    ensures ApplyBatch(t, b + [e], ts + [now]) == ApplyEvent(ApplyBatch(t, b, ts), e, now)
  {
    assert (b + [e])[..|b|] == b && (ts + [now])[..|ts|] == ts;
  }

  /** An event of any other type can be taken out of a batch without changing the outcome. */
  lemma OtherEventIsSkipped(t: Tables, b1: seq<Event>, ts1: seq<nat>, kind: string, now: nat, b2: seq<Event>, ts2: seq<nat>)
    requires |ts1| == |b1| && |ts2| == |b2|
    ensures ApplyBatch(t, b1 + [OtherEvent(kind)] + b2, ts1 + [now] + ts2) == ApplyBatch(t, b1 + b2, ts1 + ts2)
  {
    ApplyBatchConcat(t, b1 + [OtherEvent(kind)], ts1 + [now], b2, ts2);
    ApplyBatchConcat(t, b1, ts1, [OtherEvent(kind)], [now]);
    ApplyBatchConcat(t, b1, ts1, b2, ts2);
    assert [OtherEvent(kind)][..0] == [];
  }

  /**
    The log after a batch is the log before it followed by one entry per handled event, in batch
    order; the entries already there are untouched, and what is appended does not depend on the
    citations table.
   */
  lemma {:induction false} BatchLog(t: Tables, batch: seq<Event>, times: seq<nat>)
    requires |times| == |batch|
    ensures ApplyBatch(t, batch, times).events == t.events + BatchLogEntries(batch, times)
    ensures |BatchLogEntries(batch, times)| == HandledCount(batch)
  {
    if batch != [] {
      var n := |batch| - 1;
      BatchLog(t, batch[..n], times[..n]);
    }
  }

  /** A review or bounds update does not read the clock: its effect is the same at any time. */
  lemma UpdateIgnoresClock(t: Tables, e: Event, now1: nat, now2: nat)
    requires !e.AddCitationEvent?
    ensures ApplyEvent(t, e, now1) == ApplyEvent(t, e, now2)
  {
  }

  // ---------------------------------------------------------------------------------------------
  // Replaying the log
  // ---------------------------------------------------------------------------------------------

  /** What the log records of a citation: its bounds and its review. */
  datatype Recorded = Recorded(bounds: seq<Bound>, review: Review)

  /**
    One logged event folded onto what is known of the citation with id `id`: an add carrying that
    id records its bounds and review; an update of that id changes what is known, and is lost when
    nothing is known yet.
   */
  function ReplayStep(known: Option<Recorded>, entry: Event, id: string): Option<Recorded> {
    match entry
    case AddCitationEvent(_, _, _, _, bounds, review, _, assignedId) =>
      if assignedId == Some(id) then Some(Recorded(bounds, review)) else known
    case UpdateReviewEvent(citationId, review, _) =>
      if citationId == id && known.Some? then Some(known.value.(review := review)) else known
    case UpdateBoundsEvent(citationId, bounds, _) =>
      if citationId == id && known.Some? then Some(known.value.(bounds := bounds)) else known
    case OtherEvent(_) => known
  }

  /** The logged events folded in order onto `known`. */
  function Replay(known: Option<Recorded>, log: seq<Event>, id: string): Option<Recorded> {
    if log == [] then known
    else ReplayStep(Replay(known, log[..|log| - 1], id), log[|log| - 1], id)
  }

  /** The number of adds of a batch whose generated id is `id`. */
  function MadeCount(batch: seq<Event>, times: seq<nat>, id: string): nat
    requires |times| == |batch|
  {
    if batch == [] then 0
    else
      var n := |batch| - 1;
      var e := batch[n];
      MadeCount(batch[..n], times[..n], id) + (if e.AddCitationEvent? && CreateCitationId(e.formId, e.creator, times[n]) == id then 1 else 0)
  }

  /**
    The rows with id `id` agree with what the log records of it: there is none exactly when
    nothing is recorded, and each holds the recorded bounds and review.
   */
  predicate Agrees(rows: seq<CitationRow>, known: Option<Recorded>, id: string) {
    && (known.None? <==> forall k :: 0 <= k < |rows| ==> rows[k].citationId != id)
    && forall k :: 0 <= k < |rows| && rows[k].citationId == id ==> known == Some(Recorded(rows[k].bounds, rows[k].review))
  }

  lemma {:induction false} ReplayAppend(known: Option<Recorded>, l: seq<Event>, m: seq<Event>, id: string)
    ensures Replay(known, l + m, id) == Replay(Replay(known, l, id), m, id)
    decreases |m|
  {
    if m == [] {
      assert l + m == l;
    } else {
      var n := |m| - 1;
      assert (l + m)[..|l + m| - 1] == l + m[..n];
      ReplayAppend(known, l, m[..n], id);
    }
  }

  /** One event keeps the table in agreement with the log, unless it is a second add of the id. */
  lemma ReplayEvent(t: Tables, known: Option<Recorded>, e: Event, now: nat, id: string)
    requires Agrees(t.citations, known, id)
    requires known.Some? && e.AddCitationEvent? ==> CreateCitationId(e.formId, e.creator, now) != id
    ensures Agrees(ApplyEvent(t, e, now).citations, Replay(known, LogEntries(e, now), id), id)
    ensures known.None? && !(e.AddCitationEvent? && CreateCitationId(e.formId, e.creator, now) == id) ==>
              Replay(known, LogEntries(e, now), id).None?
  {
    var entries := LogEntries(e, now);
    if entries != [] {
      assert |entries| == 1 && entries[..0] == [];
      assert Replay(known, entries, id) == ReplayStep(known, entries[0], id);
    }
    var rows := ApplyEvent(t, e, now).citations;
    match e {
      case AddCitationEvent(_, _, _, _, _, _, _, _) =>
        var row := NewRow(e, now);
        assert rows == t.citations + [row];
        assert forall k :: 0 <= k < |t.citations| ==> rows[k] == t.citations[k];
        if row.citationId == id {
          assert Replay(known, entries, id) == Some(Recorded(e.bounds, e.review));
          assert rows[|t.citations|].citationId == id;
        } else {
          assert Replay(known, entries, id) == known;
        }
      case UpdateReviewEvent(_, _, _) =>
        assert |rows| == |t.citations|;
        assert forall k :: 0 <= k < |rows| ==> rows[k].citationId == t.citations[k].citationId;
      case UpdateBoundsEvent(_, _, _) =>
        assert |rows| == |t.citations|;
        assert forall k :: 0 <= k < |rows| ==> rows[k].citationId == t.citations[k].citationId;
      case OtherEvent(_) =>
    }
  }

  /**
    The citations table can be rebuilt from the log: when no row had id `id` before the batch and
    the batch generates `id` at most once, the rows with that id after the batch hold exactly the
    bounds and review that the batch's log entries fold to, and there is none exactly when the fold
    records nothing.
   */
  lemma {:induction false} BatchReplay(t: Tables, batch: seq<Event>, times: seq<nat>, id: string)
    requires |times| == |batch|
    requires forall k :: 0 <= k < |t.citations| ==> t.citations[k].citationId != id
    requires MadeCount(batch, times, id) <= 1
    ensures |t.events| <= |ApplyBatch(t, batch, times).events|
    ensures var t' := ApplyBatch(t, batch, times);
            Agrees(t'.citations, Replay(None, t'.events[|t.events|..], id), id)
    ensures MadeCount(batch, times, id) == 0 ==> Replay(None, BatchLogEntries(batch, times), id).None?
  {
    BatchLog(t, batch, times);
    var t' := ApplyBatch(t, batch, times);
    assert t'.events[|t.events|..] == BatchLogEntries(batch, times);
    if batch != [] {
      var n := |batch| - 1;
      var e, now := batch[n], times[n];
      BatchReplay(t, batch[..n], times[..n], id);
      var s := ApplyBatch(t, batch[..n], times[..n]);
      BatchLog(t, batch[..n], times[..n]);
      assert s.events[|t.events|..] == BatchLogEntries(batch[..n], times[..n]);
      var known := Replay(None, BatchLogEntries(batch[..n], times[..n]), id);
      ReplayAppend(None, BatchLogEntries(batch[..n], times[..n]), LogEntries(e, now), id);
      ReplayEvent(s, known, e, now, id);
    }
  }

  /**
    Without a unique key on `citation_id`, replay can fail: two adds with the same form, creator
    and clock reading but different bounds leave two rows under one id, which no fold can agree with.
   */
  lemma DuplicateIdBreaksReplay(e1: Event, e2: Event, now: nat)
    requires e1.AddCitationEvent? && e2.AddCitationEvent?
    requires e1.formId == e2.formId && e1.creator == e2.creator && e1.bounds != e2.bounds
    ensures var id := CreateCitationId(e1.formId, e1.creator, now);
            var t' := ApplyBatch(Tables([], []), [e1, e2], [now, now]);
            && MadeCount([e1, e2], [now, now], id) == 2
            && |t'.citations| == 2
            && t'.citations[0].citationId == id && t'.citations[1].citationId == id
            && !Agrees(t'.citations, Replay(None, t'.events, id), id)
  {
    var id := CreateCitationId(e1.formId, e1.creator, now);
    var t0 := Tables([], []);
    assert [e1, e2][..1] == [e1] && [e1][..0] == [];
    assert [now, now][..1] == [now] && [now][..0] == [];
    var s1 := ApplyEvent(t0, e1, now);
    assert ApplyBatch(t0, [e1], [now]) == s1;
    var t' := ApplyEvent(s1, e2, now);
    assert ApplyBatch(t0, [e1, e2], [now, now]) == t';
    assert t'.citations == [NewRow(e1, now), NewRow(e2, now)];
    assert MadeCount([e1], [now], id) == 1;
  }

  /** An add followed by a review of the id it generated leaves the new row with that review. */
  lemma AddThenReview(t: Tables, add: Event, t1: nat, review: Review, reviewer: string, t2: nat)
    requires add.AddCitationEvent?
    ensures var id := CreateCitationId(add.formId, add.creator, t1);
            var t' := ApplyBatch(t, [add, UpdateReviewEvent(id, review, reviewer)], [t1, t2]);
            && |t'.citations| == |t.citations| + 1
            && t'.citations[|t.citations|] == NewRow(add, t1).(review := review)
  {
    var id := CreateCitationId(add.formId, add.creator, t1);
    var e := UpdateReviewEvent(id, review, reviewer);
    var batch := [add, e];
    assert batch[..1] == [add] && [add][..0] == [];
    assert [t1, t2][..1] == [t1] && [t1][..0] == [];
    var s1 := ApplyEvent(t, add, t1);
    assert ApplyBatch(t, [add], [t1]) == s1;
    assert ApplyBatch(t, batch, [t1, t2]) == ApplyEvent(s1, e, t2);
    AddCitationInsertsOneRow(t, add, t1);
    UpdateReviewChangesOnlyReview(s1, e, t2);
  }

  /**
    A review submitted before the add that creates its id is lost: the new row keeps the review
    the add gave it, while both events are logged.
   */
  lemma ReviewBeforeAddIsLost(t: Tables, add: Event, t1: nat, review: Review, reviewer: string, t2: nat)
    requires add.AddCitationEvent?
    requires forall k :: 0 <= k < |t.citations| ==> t.citations[k].citationId != CreateCitationId(add.formId, add.creator, t2)
    ensures var id := CreateCitationId(add.formId, add.creator, t2);
            var t' := ApplyBatch(t, [UpdateReviewEvent(id, review, reviewer), add], [t1, t2]);
            && t'.citations == t.citations + [NewRow(add, t2)]
            && |t'.events| == |t.events| + 2
  {
    var id := CreateCitationId(add.formId, add.creator, t2);
    var e := UpdateReviewEvent(id, review, reviewer);
    var batch := [e, add];
    assert batch[..1] == [e] && [e][..0] == [];
    assert [t1, t2][..1] == [t1] && [t1][..0] == [];
    var s1 := ApplyEvent(t, e, t1);
    assert ApplyBatch(t, [e], [t1]) == s1;
    assert ApplyBatch(t, batch, [t1, t2]) == ApplyEvent(s1, add, t2);
    UpdateOfUnknownIdOnlyLogs(t, e, t1);
  }

  // ---------------------------------------------------------------------------------------------
  // The database and the handlers
  // ---------------------------------------------------------------------------------------------

  class Database {
    var citations: seq<CitationRow>
    var events: seq<Event>

    constructor ()
      ensures citations == [] && events == []
    {
      citations := [];
      events := [];
    }

    function State(): Tables
      reads this
    {
      Tables(citations, events)
    }

    /** `insertCitation`: inserts the row under a new id and returns the inserted rows. */
    method InsertCitation(formId: int, questionId: int, documentId: int, excerpt: string, bounds: seq<Bound>,
                          review: Review, creator: string, now: nat) returns (inserted: seq<CitationRow>)
      modifies this
      ensures inserted == [CitationRow(CreateCitationId(formId, creator, now), formId, questionId, documentId, excerpt, bounds, review, creator)]
      ensures citations == old(citations) + inserted && events == old(events)
    {
      var citationId := CreateCitationId(formId, creator, now);
      inserted := [CitationRow(citationId, formId, questionId, documentId, excerpt, bounds, review, creator)];
      citations := citations + inserted;
    }

    /** `updateCitationBounds`. */
    method UpdateCitationBounds(citationId: string, bounds: seq<Bound>)
      modifies this
      ensures citations == SetBounds(old(citations), citationId, bounds) && events == old(events)
    {
      citations := SetBounds(citations, citationId, bounds);
    }

    /** `updateCitationReview`. */
    method UpdateCitationReview(citationId: string, review: Review)
      modifies this
      ensures citations == SetReview(old(citations), citationId, review) && events == old(events)
    {
      citations := SetReview(citations, citationId, review);
    }

    /** `insertAddEvent`: appends the event as the body of a new events row. */
    method InsertAddEvent(e: Event)
      modifies this
      ensures events == old(events) + [e] && citations == old(citations)
    {
      events := events + [e];
    }

    /** `insertUpdateReviewEvent`. */
    method InsertUpdateReviewEvent(e: Event)
      modifies this
      ensures events == old(events) + [e] && citations == old(citations)
    {
      events := events + [e];
    }

    /** `insertUpdateBoundsEvent`. */
    method InsertUpdateBoundsEvent(e: Event)
      modifies this
      ensures events == old(events) + [e] && citations == old(citations)
    {
      events := events + [e];
    }

    /** `addCitation`: for an add event, inserts the citation, writes its id into the event and logs it. */
    method AddCitation(e: Event, now: nat)
      modifies this
      ensures State() == if e.AddCitationEvent? then ApplyEvent(old(State()), e, now) else old(State())
    {
      if e.AddCitationEvent? {
        var citation := InsertCitation(e.formId, e.questionId, e.documentId, e.excerpt, e.bounds, e.review, e.creator, now);
        var logged := e.(assignedId := Some(citation[0].citationId));
        InsertAddEvent(logged);
      }
    }

    /**
      `addReview`: for a review event, updates the matching rows and logs the event. It reads no
      clock, so any reading will do in `ApplyEvent` (UpdateIgnoresClock); 0 is used.
     */
    method AddReview(e: Event)
      modifies this
      ensures State() == if e.UpdateReviewEvent? then ApplyEvent(old(State()), e, 0) else old(State())
    {
      if e.UpdateReviewEvent? {
        UpdateCitationReview(e.citationId, e.review);
        InsertUpdateReviewEvent(e);
      }
    }

    /**
      `updateBounds`: for a bounds event, updates the matching rows and logs the event. It reads no
      clock, so any reading will do in `ApplyEvent` (UpdateIgnoresClock); 0 is used.
     */
    method UpdateBounds(e: Event)
      modifies this
      ensures State() == if e.UpdateBoundsEvent? then ApplyEvent(old(State()), e, 0) else old(State())
    {
      if e.UpdateBoundsEvent? {
        UpdateCitationBounds(e.citationId, e.bounds);
        InsertUpdateBoundsEvent(e);
      }
    }

    /** One pass of the loop in `post`: the `switch` on the event's type. */
    method HandleEvent(e: Event, now: nat)
      modifies this
      ensures State() == ApplyEvent(old(State()), e, now)
    {
      match e {
        case AddCitationEvent(_, _, _, _, _, _, _, _) => AddCitation(e, now);
        case UpdateReviewEvent(_, _, _) =>
          AddReview(e);
          UpdateIgnoresClock(old(State()), e, 0, now);
        case UpdateBoundsEvent(_, _, _) =>
          UpdateBounds(e);
          UpdateIgnoresClock(old(State()), e, 0, now);
        case OtherEvent(_) =>
      }
    }

    /** `post`: handles the events of the batch one after another and answers 200. */
    method Post(batch: seq<Event>, times: seq<nat>) returns (status: int)
      requires |times| == |batch|
      modifies this
      ensures State() == ApplyBatch(old(State()), batch, times)
      ensures status == 200
    {
      for i := 0 to |batch|
        invariant State() == ApplyBatch(old(State()), batch[..i], times[..i])
      {
        var e := batch[i];
        HandleEvent(e, times[i]);
        ApplyBatchSnoc(old(State()), batch[..i], times[..i], e, times[i]);
        assert batch[..i + 1] == batch[..i] + [e] && times[..i + 1] == times[..i] + [times[i]];
      }
      assert batch[..|batch|] == batch && times[..|times|] == times;
      status := 200;
    }
  }
}
