/**
  The batch endpoint of the sample back end. It differs from the reference back end in three ways:
  - citations get a numeric id assigned by the database's serial counter;
  - a citation records when its bounds were last set (`bounds_created_at`);
  - the events table has typed columns ('add', 'review', 'update') instead of a JSON body.

  The database is modelled as the citations table (a map from id to row), the serial counter that
  hands out ids, and the append-only events table. The database clock `now()` is a parameter.
 */
module SamplePost {
  import opened Wrappers
  import opened Types

  /** An event of a submitted batch, by its `type`. */
  datatype Event =
    | AddCitationEvent(formId: int, questionId: int, documentId: int, excerpt: string, bounds: seq<Bound>,
                       review: Review, creator: string)
    | UpdateReviewEvent(citationId: int, review: Review, creator: string)
    | UpdateBoundsEvent(citationId: int, bounds: seq<Bound>, creator: string)
    | OtherEvent(kind: string)

  /** A row of the citations table. */
  datatype CitationRow = CitationRow(
    id: int, formId: int, questionId: int, documentId: int, excerpt: string,
    bounds: seq<Bound>, boundsCreatedAt: nat, review: Review, creator: string)

  /** A row of the events table, by the value of its `type` column; the columns it leaves unset are absent. */
  datatype EventRow =
    | AddRow(formId: int, questionId: int, documentId: int, citationId: int, excerpt: string,
             bounds: seq<Bound>, review: Review, creator: string)
    | ReviewRow(citationId: int, review: Review, creator: string)
    | UpdateRow(citationId: int, bounds: seq<Bound>, creator: string)
  {
    /** The `type` column. */
    function Kind(): string {
      match this
      case AddRow(_, _, _, _, _, _, _, _) => "add"
      case ReviewRow(_, _, _) => "review"
      case UpdateRow(_, _, _) => "update"
    }
  }

  /** The citations table, the next value of its id sequence, and the events table. */
  datatype Tables = Tables(citations: map<int, CitationRow>, nextId: int, events: seq<EventRow>)

  /** Every row sits under its own id, and the id sequence is past every id handed out. */
  predicate Valid(t: Tables) {
    forall id :: id in t.citations ==> t.citations[id].id == id && id < t.nextId
  }

  /** A new database: no rows, and a serial column that starts at 1. */
  const Empty := Tables(map[], 1, [])

  // ---------------------------------------------------------------------------------------------
  // The effect of events on the tables
  // ---------------------------------------------------------------------------------------------

  /** `update citations set review = ... where id = ...`. */
  function SetReview(rows: map<int, CitationRow>, id: int, review: Review): map<int, CitationRow> {
    if id in rows then rows[id := rows[id].(review := review)] else rows
  }

  /** `update citations set bounds = ..., bounds_created_at = now() where id = ...`. */
  function SetBounds(rows: map<int, CitationRow>, id: int, bounds: seq<Bound>, now: nat): map<int, CitationRow> {
    if id in rows then rows[id := rows[id].(bounds := bounds, boundsCreatedAt := now)] else rows
  }

  /** The tables after one event of the batch, `now` being the database clock while it is handled. */
  function ApplyEvent(t: Tables, e: Event, now: nat): Tables {
    match e
    case AddCitationEvent(formId, questionId, documentId, excerpt, bounds, review, creator) =>
      var id := t.nextId;
      var row := CitationRow(id, formId, questionId, documentId, excerpt, bounds, now, review, creator);
      Tables(t.citations[id := row], id + 1,
             t.events + [AddRow(formId, questionId, documentId, id, excerpt, bounds, review, creator)])
    case UpdateReviewEvent(id, review, creator) =>
      t.(citations := SetReview(t.citations, id, review), events := t.events + [ReviewRow(id, review, creator)])
    case UpdateBoundsEvent(id, bounds, creator) =>
      t.(citations := SetBounds(t.citations, id, bounds, now), events := t.events + [UpdateRow(id, bounds, creator)])
    case OtherEvent(_) => t
  }

  /** The tables after a batch, event by event; `times[i]` is the clock while `batch[i]` is handled. */
  function ApplyBatch(t: Tables, batch: seq<Event>, times: seq<nat>): Tables
    requires |times| == |batch|
  {
    if batch == [] then t
    else
      var n := |batch| - 1;
      ApplyEvent(ApplyBatch(t, batch[..n], times[..n]), batch[n], times[n])
  }

  lemma ApplyBatchSnoc(t: Tables, b: seq<Event>, ts: seq<nat>, e: Event, now: nat)
    requires |ts| == |b|
    ensures ApplyBatch(t, b + [e], ts + [now]) == ApplyEvent(ApplyBatch(t, b, ts), e, now)
  {
    assert (b + [e])[..|b|] == b && (ts + [now])[..|ts|] == ts;
  }

  /** The number of events of a batch whose type is one of the three handled. */
  function HandledCount(batch: seq<Event>): nat {
    if batch == [] then 0 else HandledCount(batch[..|batch| - 1]) + (if batch[|batch| - 1].OtherEvent? then 0 else 1)
  }

  // ---------------------------------------------------------------------------------------------
  // Replaying the log
  // ---------------------------------------------------------------------------------------------

  /** What the log records of a citation: its bounds and its review. */
  datatype Recorded = Recorded(bounds: seq<Bound>, review: Review)

  /** What the citations table holds of the row with id `id`, if there is one. */
  function Project(rows: map<int, CitationRow>, id: int): Option<Recorded> {
    if id in rows then Some(Recorded(rows[id].bounds, rows[id].review)) else None
  }

  /** One log entry folded onto what is known of citation `id`; an update of a missing row creates none. */
  function ReplayStep(known: Option<Recorded>, entry: EventRow, id: int): Option<Recorded> {
    if entry.citationId != id then known
    else
      match entry
      case AddRow(_, _, _, _, _, bounds, review, _) => Some(Recorded(bounds, review))
      case ReviewRow(_, review, _) => if known.Some? then Some(known.value.(review := review)) else None
      case UpdateRow(_, bounds, _) => if known.Some? then Some(known.value.(bounds := bounds)) else None
  }

  /** The log entries folded in order onto `known`. */
  function Replay(known: Option<Recorded>, log: seq<EventRow>, id: int): Option<Recorded> {
    if log == [] then known
    else ReplayStep(Replay(known, log[..|log| - 1], id), log[|log| - 1], id)
  }

  // ---------------------------------------------------------------------------------------------
  // Properties
  // ---------------------------------------------------------------------------------------------

  /** A new database is valid. */
  lemma EmptyIsValid()
    ensures Valid(Empty)
  {
  }

  /**
    An add event stores one new row under the next id of the sequence, holding the event's fields
    and the current time as `bounds_created_at`, leaves every existing row as it was, and logs an
    'add' entry carrying the same fields and the new id.
   */
  lemma AddCitationInsertsFreshRow(t: Tables, e: Event, now: nat)
    requires Valid(t) && e.AddCitationEvent?
    ensures var t' := ApplyEvent(t, e, now);
            && Valid(t')
            && t.nextId !in t.citations
            && t'.citations.Keys == t.citations.Keys + {t.nextId}
            && (forall id :: id in t.citations ==> t'.citations[id] == t.citations[id])
            && t'.citations[t.nextId] == CitationRow(t.nextId, e.formId, e.questionId, e.documentId, e.excerpt, e.bounds, now, e.review, e.creator)
            && t'.nextId == t.nextId + 1
            && t'.events == t.events + [AddRow(e.formId, e.questionId, e.documentId, t.nextId, e.excerpt, e.bounds, e.review, e.creator)]
            && t'.events[|t.events|].Kind() == "add"
  {
  }

  /**
    A review event changes only the review of the row with its id (if there is one), and logs a
    'review' entry with the id, the review and the creator.
   */
  lemma UpdateReviewChangesOnlyReview(t: Tables, e: Event, now: nat)
    requires e.UpdateReviewEvent?
    ensures var t' := ApplyEvent(t, e, now);
            && t'.citations.Keys == t.citations.Keys
            && t'.nextId == t.nextId
            && (forall id :: id in t.citations ==>
                  && t'.citations[id].(review := t.citations[id].review) == t.citations[id]
                  && t'.citations[id].review == if id == e.citationId then e.review else t.citations[id].review)
            && t'.events == t.events + [ReviewRow(e.citationId, e.review, e.creator)]
            && t'.events[|t.events|].Kind() == "review"
  {
  }

  /**
    A bounds event replaces the bounds of the row with its id (if there is one) and stamps its
    `bounds_created_at` with the current time, changes nothing else, and logs an 'update' entry.
   */
  lemma UpdateBoundsChangesOnlyBounds(t: Tables, e: Event, now: nat)
    requires e.UpdateBoundsEvent?
    ensures var t' := ApplyEvent(t, e, now);
            && t'.citations.Keys == t.citations.Keys
            && t'.nextId == t.nextId
            && (forall id :: id in t.citations ==>
                  && t'.citations[id].(bounds := t.citations[id].bounds, boundsCreatedAt := t.citations[id].boundsCreatedAt) == t.citations[id]
                  && t'.citations[id].bounds == (if id == e.citationId then e.bounds else t.citations[id].bounds)
                  && t'.citations[id].boundsCreatedAt == if id == e.citationId then now else t.citations[id].boundsCreatedAt)
            && t'.events == t.events + [UpdateRow(e.citationId, e.bounds, e.creator)]
            && t'.events[|t.events|].Kind() == "update"
  {
  }

  /** An update naming an id no row has leaves the citations table as it was, and is logged all the same. */
  lemma UpdateOfUnknownIdOnlyLogs(t: Tables, e: Event, now: nat)
    requires e.UpdateReviewEvent? || e.UpdateBoundsEvent?
    requires e.citationId !in t.citations
    ensures ApplyEvent(t, e, now).citations == t.citations
    ensures |ApplyEvent(t, e, now).events| == |t.events| + 1
  {
  }

  /** Every batch keeps the tables valid. */
  lemma {:induction false} BatchKeepsValid(t: Tables, batch: seq<Event>, times: seq<nat>)
    requires |times| == |batch| && Valid(t)
    ensures Valid(ApplyBatch(t, batch, times))
    ensures ApplyBatch(t, batch, times).nextId >= t.nextId
  {
    if batch != [] {
      var n := |batch| - 1;
      BatchKeepsValid(t, batch[..n], times[..n]);
      var before := ApplyBatch(t, batch[..n], times[..n]);
      if batch[n].AddCitationEvent? {
        AddCitationInsertsFreshRow(before, batch[n], times[n]);
      }
    }
  }

  /**
    A batch appends exactly one log entry per handled event and leaves the entries already there
    untouched.
   */
  lemma {:induction false} BatchLog(t: Tables, batch: seq<Event>, times: seq<nat>)
    requires |times| == |batch|
    ensures var t' := ApplyBatch(t, batch, times);
            && |t'.events| == |t.events| + HandledCount(batch)
            && t'.events[..|t.events|] == t.events
  {
    if batch != [] {
      var n := |batch| - 1;
      BatchLog(t, batch[..n], times[..n]);
      var before := ApplyBatch(t, batch[..n], times[..n]);
      var after := ApplyBatch(t, batch, times);
      if !batch[n].OtherEvent? {
        assert after.events == before.events + [after.events[|before.events|]];
        assert after.events[..|t.events|] == before.events[..|t.events|];
      }
    }
  }

  /** Folding one more entry is one more step of the fold. */
  lemma ReplaySnoc(known: Option<Recorded>, log: seq<EventRow>, entry: EventRow, id: int)
    ensures Replay(known, log + [entry], id) == ReplayStep(Replay(known, log, id), entry, id)
  {
    assert (log + [entry])[..|log|] == log;
  }

  /** One handled event changes the row with id `id` exactly as its log entry folds onto it. */
  lemma EventReplay(t: Tables, e: Event, now: nat, id: int)
    ensures var t' := ApplyEvent(t, e, now);
            if e.OtherEvent? then t' == t
            else
              && |t'.events| == |t.events| + 1
              && t'.events[..|t.events|] == t.events
              && Project(t'.citations, id) == ReplayStep(Project(t.citations, id), t'.events[|t.events|], id)
  {
    var t' := ApplyEvent(t, e, now);
    if !e.OtherEvent? {
      assert t'.events[..|t.events|] == t.events;
    }
  }

  /**
    After a batch, the bounds and review of every citation are what one gets by folding the
    batch's log entries, in order, onto its bounds and review before the batch; each handler writes
    the same value to the row and to the log.
   */
  lemma {:induction false} BatchReplay(t: Tables, batch: seq<Event>, times: seq<nat>, id: int)
    requires |times| == |batch|
    ensures var t' := ApplyBatch(t, batch, times);
            && |t.events| <= |t'.events|
            && Project(t'.citations, id) == Replay(Project(t.citations, id), t'.events[|t.events|..], id)
  {
    if batch == [] {
      assert t.events[|t.events|..] == [];
    } else {
      var n := |batch| - 1;
      BatchReplay(t, batch[..n], times[..n], id);
      var before := ApplyBatch(t, batch[..n], times[..n]);
      var after := ApplyBatch(t, batch, times);
      EventReplay(before, batch[n], times[n], id);
      if !batch[n].OtherEvent? {
        var entry := after.events[|before.events|];
        assert after.events[|t.events|..] == before.events[|t.events|..] + [entry] by {
          assert after.events == before.events + [entry];
        }
        ReplaySnoc(Project(t.citations, id), before.events[|t.events|..], entry, id);
      }
    }
  }

  /**
    A citation created in a batch (one whose id was not in use before it) has exactly the bounds
    and review its log entries of the batch fold to, starting from nothing.
   */
  lemma CreatedCitationReplay(t: Tables, batch: seq<Event>, times: seq<nat>, id: int)
    requires |times| == |batch| && Valid(t) && id >= t.nextId
    ensures var t' := ApplyBatch(t, batch, times);
            && |t.events| <= |t'.events|
            && Project(t'.citations, id) == Replay(None, t'.events[|t.events|..], id)
  {
    BatchReplay(t, batch, times, id);
  }

  /** For a database that started empty, the whole log folds to the current bounds and review of every citation. */
  lemma LogDeterminesCitations(batch: seq<Event>, times: seq<nat>, id: int)
    requires |times| == |batch|
    ensures var t' := ApplyBatch(Empty, batch, times);
            Project(t'.citations, id) == Replay(None, t'.events, id)
  {
    BatchReplay(Empty, batch, times, id);
    assert ApplyBatch(Empty, batch, times).events[0..] == ApplyBatch(Empty, batch, times).events;
  }

  /** Adding a citation, moving its bounds and accepting it, in one batch on a new database. */
  lemma AddMoveAccept(add: Event, bounds: seq<Bound>, reviewer: string, t0: nat, t1: nat, t2: nat)
    requires add.AddCitationEvent?
    ensures var batch := [add, UpdateBoundsEvent(1, bounds, reviewer), UpdateReviewEvent(1, Accepted, reviewer)];
            var t' := ApplyBatch(Empty, batch, [t0, t1, t2]);
            && t'.citations.Keys == {1}
            && t'.citations[1] == CitationRow(1, add.formId, add.questionId, add.documentId, add.excerpt, bounds, t1, Accepted, add.creator)
            && |t'.events| == 3
            && t'.events[0].Kind() == "add" && t'.events[1].Kind() == "update" && t'.events[2].Kind() == "review"
  {
    var e1, e2 := UpdateBoundsEvent(1, bounds, reviewer), UpdateReviewEvent(1, Accepted, reviewer);
    var s1 := ApplyEvent(Empty, add, t0);
    var s2 := ApplyEvent(s1, e1, t1);
    ApplyBatchSnoc(Empty, [], [], add, t0);
    ApplyBatchSnoc(Empty, [add], [t0], e1, t1);
    ApplyBatchSnoc(Empty, [add, e1], [t0, t1], e2, t2);
    assert [add] == [] + [add] && [t0] == [] + [t0];
    assert [add, e1, e2] == [add, e1] + [e2] && [t0, t1, t2] == [t0, t1] + [t2];
    assert [add, e1] == [add] + [e1] && [t0, t1] == [t0] + [t1];
  }

  // ---------------------------------------------------------------------------------------------
  // The database and the handlers
  // ---------------------------------------------------------------------------------------------

  class Database {
    var citations: map<int, CitationRow>
    var nextId: int
    var events: seq<EventRow>

    /** A new database. */
    constructor ()
      ensures citations == map[] && nextId == 1 && events == []
      ensures State() == Empty && Valid(State())
    {
      citations := map[];
      nextId := 1;
      events := [];
    }

    function State(): Tables
      reads this
    {
      Tables(citations, nextId, events)
    }

    /** `insertCitation`: stores a row under the next id, with `bounds_created_at` set to now, and returns it. */
    method InsertCitation(formId: int, questionId: int, documentId: int, excerpt: string, bounds: seq<Bound>,
                          review: Review, creator: string, now: nat) returns (inserted: seq<CitationRow>)
      modifies this
      ensures inserted == [CitationRow(old(nextId), formId, questionId, documentId, excerpt, bounds, now, review, creator)]
      ensures citations == old(citations)[old(nextId) := inserted[0]]
      ensures nextId == old(nextId) + 1 && events == old(events)
    {
      var row := CitationRow(nextId, formId, questionId, documentId, excerpt, bounds, now, review, creator);
      citations := citations[nextId := row];
      nextId := nextId + 1;
      inserted := [row];
    }

    /** `updateCitationBounds`. */
    method UpdateCitationBounds(citationId: int, bounds: seq<Bound>, now: nat)
      modifies this
      ensures citations == SetBounds(old(citations), citationId, bounds, now)
      ensures nextId == old(nextId) && events == old(events)
    {
      citations := SetBounds(citations, citationId, bounds, now);
    }

    /** `updateCitationReview`. */
    method UpdateCitationReview(citationId: int, review: Review)
      modifies this
      ensures citations == SetReview(old(citations), citationId, review)
      ensures nextId == old(nextId) && events == old(events)
    {
      citations := SetReview(citations, citationId, review);
    }

    /** `insertAddEvent`: appends an 'add' row. */
    method InsertAddEvent(formId: int, questionId: int, documentId: int, citationId: int, excerpt: string,
                          bounds: seq<Bound>, review: Review, creator: string)
      modifies this
      ensures events == old(events) + [AddRow(formId, questionId, documentId, citationId, excerpt, bounds, review, creator)]
      ensures citations == old(citations) && nextId == old(nextId)
    {
      events := events + [AddRow(formId, questionId, documentId, citationId, excerpt, bounds, review, creator)];
    }

    /** `insertReviewEvent`: appends a 'review' row. */
    method InsertReviewEvent(citationId: int, review: Review, creator: string)
      modifies this
      ensures events == old(events) + [ReviewRow(citationId, review, creator)]
      ensures citations == old(citations) && nextId == old(nextId)
    {
      events := events + [ReviewRow(citationId, review, creator)];
    }

    /** `insertUpdateEvent`: appends an 'update' row. */
    method InsertUpdateEvent(citationId: int, bounds: seq<Bound>, creator: string)
      modifies this
      ensures events == old(events) + [UpdateRow(citationId, bounds, creator)]
      ensures citations == old(citations) && nextId == old(nextId)
    {
      events := events + [UpdateRow(citationId, bounds, creator)];
    }

    /** `addCitation`: inserts the citation, then logs an 'add' event carrying its new id. */
    method AddCitation(formId: int, questionId: int, documentId: int, excerpt: string, bounds: seq<Bound>,
                       review: Review, creator: string, now: nat)
      requires Valid(State())
      modifies this
      ensures State() == ApplyEvent(old(State()), AddCitationEvent(formId, questionId, documentId, excerpt, bounds, review, creator), now)
      ensures Valid(State()) && old(nextId) !in old(citations) && citations[old(nextId)].id == old(nextId)
    {
      var citation := InsertCitation(formId, questionId, documentId, excerpt, bounds, review, creator, now);
      var citationId := citation[0].id;
      InsertAddEvent(formId, questionId, documentId, citationId, excerpt, bounds, review, creator);
      AddCitationInsertsFreshRow(old(State()), AddCitationEvent(formId, questionId, documentId, excerpt, bounds, review, creator), now);
    }

    /** `addReview`: updates the review of the row with that id, then logs a 'review' event. */
    method AddReview(citationId: int, review: Review, creator: string)
      modifies this
      ensures State() == ApplyEvent(old(State()), UpdateReviewEvent(citationId, review, creator), 0)
    {
      UpdateCitationReview(citationId, review);
      InsertReviewEvent(citationId, review, creator);
    }

    /** `updateBounds`: replaces the bounds of the row with that id, then logs an 'update' event. */
    method UpdateBounds(citationId: int, bounds: seq<Bound>, creator: string, now: nat)
      modifies this
      ensures State() == ApplyEvent(old(State()), UpdateBoundsEvent(citationId, bounds, creator), now)
    {
      UpdateCitationBounds(citationId, bounds, now);
      InsertUpdateEvent(citationId, bounds, creator);
    }

    /** One pass of the loop in `post`: the `switch` on the event's type. */
    method HandleEvent(e: Event, now: nat)
      requires Valid(State())
      modifies this
      ensures State() == ApplyEvent(old(State()), e, now)
      ensures Valid(State())
    {
      match e {
        case AddCitationEvent(formId, questionId, documentId, excerpt, bounds, review, creator) =>
          AddCitation(formId, questionId, documentId, excerpt, bounds, review, creator, now);
        case UpdateReviewEvent(citationId, review, creator) =>
          AddReview(citationId, review, creator);
        case UpdateBoundsEvent(citationId, bounds, creator) =>
          UpdateBounds(citationId, bounds, creator, now);
        case OtherEvent(_) =>
      }
    }

    /** `post`: handles the events of the batch one after another and answers 200. */
    method Post(batch: seq<Event>, times: seq<nat>) returns (status: int)
      requires |times| == |batch| && Valid(State())
      modifies this
      ensures State() == ApplyBatch(old(State()), batch, times)
      ensures Valid(State())
      ensures status == 200
    {
      for i := 0 to |batch|
        invariant State() == ApplyBatch(old(State()), batch[..i], times[..i])
        invariant Valid(State())
      {
        HandleEvent(batch[i], times[i]);
        ApplyBatchSnoc(old(State()), batch[..i], times[..i], batch[i], times[i]);
        assert batch[..i + 1] == batch[..i] + [batch[i]] && times[..i + 1] == times[..i] + [times[i]];
      }
      assert batch[..|batch|] == batch && times[..|times|] == times;
      status := 200;
    }
  }
}
