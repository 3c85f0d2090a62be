/**
 * FormResponsesController (api/FormResponses): the client's answers to the topics of a
 * request — list, fetch, list per request in topic order, create one, create a batch,
 * update one, delete one.
 */
module FormResponsesController {
  import opened Wrappers
  import opened Entities
  import opened Seqs
  import opened Ordering
  import opened Schema
  import opened Store
  import opened Actions

  /** `OrderByDescending(fr => fr.CreatedAt)`. */
  predicate LaterFirst(a: FormResponse, b: FormResponse) {
    a.createdAt >= b.createdAt
  }

  lemma {:induction false} LaterFirstTotalPreorder()
    ensures TotalPreorder(LaterFirst)
  {
  }

  /** GET api/FormResponses: every response, most recently created first. */
  function GetFormResponses(t: Tables): (r: ActionResult<seq<FormResponse>>)
    ensures r.Ok?
    ensures multiset(r.value) == multiset(t.formResponses)
    ensures SortedBy(r.value, LaterFirst)
  {
    LaterFirstTotalPreorder();
    SortBySorted(t.formResponses, LaterFirst);
    Ok(SortBy(t.formResponses, LaterFirst))
  }

  /** GET api/FormResponses/{id}: the response, or 404. */
  function GetFormResponse(t: Tables, id: int): (r: ActionResult<FormResponse>)
    ensures r.Ok? || r.NotFound?
    ensures r.NotFound? <==> id !in ResponseIds(t)
    ensures r.Ok? ==> r.value.id == id && r.value in t.formResponses
  {
    match FindResponse(t, id)
    case None => NotFound
    case Some(fr) => Ok(fr)
  }

  /** The sort key `(RequestTopic.CategoryName, RequestTopic.TopicName)` of a response. */
  function TopicSortKey(t: Tables, fr: FormResponse): (string, string) {
    match FindTopic(t, fr.requestTopicId)
    case Some(x) => (x.categoryName, x.topicName)
    case None => ("", "")
  }

  /** `OrderBy(fr => fr.RequestTopic.CategoryName).ThenBy(fr => fr.RequestTopic.TopicName)`. */
  function ByTopic(t: Tables): (FormResponse, FormResponse) -> bool {
    (a: FormResponse, b: FormResponse) => PairLe(TopicSortKey(t, a), TopicSortKey(t, b))
  }

  lemma {:induction false} ByTopicTotalPreorder(t: Tables)
    ensures TotalPreorder(ByTopic(t))
  {
    PairLeTotalPreorder();
  }

  /** The responses to request `requestId`, in key order. */
  function ResponsesTo(t: Tables, requestId: int): seq<FormResponse> {
    Filter(t.formResponses, (fr: FormResponse) => fr.documentRequestId == requestId)
  }

  /** GET api/FormResponses/request/{requestId}: the request's responses, by category then topic name. */
  function GetFormResponsesByRequest(t: Tables, requestId: int): (r: ActionResult<seq<FormResponse>>)
    ensures r.Ok?
    ensures multiset(r.value) == multiset(ResponsesTo(t, requestId))
    ensures forall fr :: fr in r.value <==> fr in t.formResponses && fr.documentRequestId == requestId
    ensures SortedBy(r.value, ByTopic(t))
  {
    var rs := ResponsesTo(t, requestId);
    ByTopicTotalPreorder(t);
    SortBySorted(rs, ByTopic(t));
    var sorted := SortBy(rs, ByTopic(t));
    assert forall fr :: fr in sorted <==> fr in multiset(rs);
    Ok(sorted)
  }

  /** The responses as the batch loop leaves them: every CreatedAt set to the clock. */
  function Stamped(rs: seq<FormResponse>, now: Time): (r: seq<FormResponse>)
    ensures |r| == |rs|
    ensures forall i :: 0 <= i < |rs| ==> r[i] == rs[i].(createdAt := now)
  {
    seq(|rs|, i requires 0 <= i < |rs| => rs[i].(createdAt := now))
  }

  /**
   * POST api/FormResponses: stores the response, stamped with the clock, and answers 201
   * with it; a dangling reference escapes as a 500 and nothing is stored.
   */
  method PostFormResponse(db: DbContext, formResponse: FormResponse, now: Time)
    returns (result: ActionResult<FormResponse>)
    requires db.Valid()
    modifies db
    ensures db.Valid()
    ensures result.CreatedAt? || result.Unhandled?
    ensures result.Unhandled? <==> !ResponseRefsResolve(old(db.State()), formResponse)
    ensures result.Unhandled? ==>
      result.exception == UpdateException(ForeignKeyViolation) && db.State() == old(db.State())
    ensures result.CreatedAt? ==>
      var t := old(db.State());
      && result.value == formResponse.(id := t.lastResponseId + 1, createdAt := now)
      && result.id == result.value.id
      && db.State() == t.(formResponses := t.formResponses + [result.value], lastResponseId := result.id)
  {
    var s := SaveNewResponses(db.State(), [formResponse.(createdAt := now)]);
    assert formResponse.(createdAt := now) in [formResponse.(createdAt := now)];
    if s.Committed? {
      SaveNewResponsesValid(db.State(), [formResponse.(createdAt := now)]);
      db.Commit(s.tables);
      result := CreatedAt(s.value[0].id, s.value[0]);
    } else {
      result := Unhandled(UpdateException(s.fault));
    }
  }

  /** The batch's `foreach`: sets CreatedAt of every response to the clock, in place. */
  method StampCreatedAt(formResponses: array<FormResponse>, now: Time)
    modifies formResponses
    ensures formResponses[..] == Stamped(old(formResponses[..]), now)
  {
    var i := 0;
    while i < formResponses.Length
      invariant 0 <= i <= formResponses.Length
      invariant forall k :: 0 <= k < i ==> formResponses[k] == old(formResponses[k]).(createdAt := now)
      invariant forall k :: i <= k < formResponses.Length ==> formResponses[k] == old(formResponses[k])
    {
      formResponses[i] := formResponses[i].(createdAt := now);
      i := i + 1;
    }
  }

  /** After the save, each tracked response receives the key the database generated for it. */
  method PropagateKeys(formResponses: array<FormResponse>, keyed: seq<FormResponse>)
    requires |keyed| == formResponses.Length
    requires forall k :: 0 <= k < |keyed| ==> keyed[k] == formResponses[k].(id := keyed[k].id)
    modifies formResponses
    ensures formResponses[..] == keyed
  {
    var j := 0;
    while j < formResponses.Length
      invariant 0 <= j <= formResponses.Length
      invariant forall k :: 0 <= k < j ==> formResponses[k] == keyed[k]
      invariant forall k :: j <= k < formResponses.Length ==> keyed[k] == formResponses[k].(id := keyed[k].id)
    {
      formResponses[j] := formResponses[j].(id := keyed[j].id);
      j := j + 1;
    }
  }

  /**
   * POST api/FormResponses/batch: stamps every response in place, stores all of them in one
   * save, and answers 200 with the same list, now carrying the generated keys. A dangling
   * reference in any of them escapes as a 500 and stores none. Nothing is deduplicated.
   */
  method PostFormResponsesBatch(db: DbContext, formResponses: array<FormResponse>, now: Time)
    returns (result: ActionResult<seq<FormResponse>>)
    requires db.Valid()
    modifies db, formResponses
    ensures db.Valid()
    ensures result.Ok? || result.Unhandled?
    ensures var s := SaveNewResponses(old(db.State()), Stamped(old(formResponses[..]), now));
      && (result.Unhandled? <==> s.Failed?)
      && (result.Unhandled? ==>
            && result.exception == UpdateException(s.fault)
            && db.State() == old(db.State())
            && formResponses[..] == Stamped(old(formResponses[..]), now))
      && (result.Ok? ==>
            && s.Committed? && db.State() == s.tables
            && result.value == s.value && formResponses[..] == s.value)
  {
    StampCreatedAt(formResponses, now);
    var stamped := formResponses[..];
    var s := SaveNewResponses(db.State(), stamped);
    if s.Committed? {
      SaveNewResponsesValid(db.State(), stamped);
      db.Commit(s.tables);
      PropagateKeys(formResponses, s.value);
      result := Ok(formResponses[..]);
    } else {
      result := Unhandled(UpdateException(s.fault));
    }
  }

  /** `FormResponseExists(id)`. */
  function FormResponseExists(t: Tables, id: int): (b: bool)
    ensures b <==> id in ResponseIds(t)
  {
    exists fr :: fr in t.formResponses && fr.id == id
  }

  /**
   * PUT api/FormResponses/{id}: overwrites every column of the response with the body, with
   * UpdatedAt set to the clock. 400 on a key mismatch, 404 when the row is gone, and a
   * dangling reference escapes as a 500.
   */
  method PutFormResponse(db: DbContext, id: int, formResponse: FormResponse, now: Time)
    returns (result: ActionResult<()>)
    requires db.Valid()
    modifies db
    ensures db.Valid()
    ensures result.BadRequest? || result.NotFound? || result.Unhandled? || result.NoContent?
    ensures result.BadRequest? <==> id != formResponse.id
    ensures result.NotFound? <==> id == formResponse.id && id !in ResponseIds(old(db.State()))
    ensures result.Unhandled? <==>
      id == formResponse.id && id in ResponseIds(old(db.State()))
      && !ResponseRefsResolve(old(db.State()), formResponse)
    ensures result.Unhandled? ==> result.exception == UpdateException(ForeignKeyViolation)
    ensures result.NoContent? ==>
      db.State() == old(db.State()).(formResponses :=
        Replace(old(db.State()).formResponses, formResponse.(updatedAt := Some(now)), ResponseKey))
    ensures !result.NoContent? ==> db.State() == old(db.State())
  {
    if id != formResponse.id {
      return BadRequest;
    }
    var row := formResponse.(updatedAt := Some(now));
    var s := SaveModifiedResponse(db.State(), row);
    match s {
      case Committed(t, _) =>
        SaveModifiedResponseValid(db.State(), row);
        db.Commit(t);
        result := NoContent;
      case ConcurrencyFailure =>
        if !FormResponseExists(db.State(), id) {
          result := NotFound;
        } else {
          result := Unhandled(ConcurrencyException);
        }
      case Failed(fault) =>
        result := Unhandled(UpdateException(fault));
    }
  }

  /** DELETE api/FormResponses/{id}: 404 when there is no such response, otherwise it goes. */
  method DeleteFormResponse(db: DbContext, id: int) returns (result: ActionResult<()>)
    requires db.Valid()
    modifies db
    ensures db.Valid()
    ensures result.NotFound? || result.NoContent?
    ensures result.NotFound? <==> id !in ResponseIds(old(db.State()))
    ensures result.NotFound? ==> db.State() == old(db.State())
    ensures result.NoContent? ==> db.State() == RemoveResponse(old(db.State()), id)
  {
    var found := FindResponse(db.State(), id);
    if found.None? {
      return NotFound;
    }
    RemoveResponseValid(db.State(), id);
    db.Commit(RemoveResponse(db.State(), id));
    result := NoContent;
  }

  /**
   * A committed batch adds to what a request already has: its responses afterwards are the
   * old ones followed by the new ones addressed to it, so a resubmitted batch is stored twice.
   */
  lemma {:induction false} BatchAccumulates(t: Tables, rs: seq<FormResponse>, requestId: int)
    requires SaveNewResponses(t, rs).Committed?
    ensures var s := SaveNewResponses(t, rs);
      && ResponsesTo(s.tables, requestId) == ResponsesTo(t, requestId)
           + Filter(s.value, (fr: FormResponse) => fr.documentRequestId == requestId)
      && |ResponsesTo(s.tables, requestId)| == |ResponsesTo(t, requestId)|
           + Count(rs, (fr: FormResponse) => fr.documentRequestId == requestId)
  {
    var s := SaveNewResponses(t, rs);
    var p := (fr: FormResponse) => fr.documentRequestId == requestId;
    FilterAppend(t.formResponses, s.value, p);
    RekeyedCount(rs, s.value, requestId);
  }

  /** Giving responses new keys does not change how many are addressed to a request. */
  lemma {:induction false} RekeyedCount(rs: seq<FormResponse>, keyed: seq<FormResponse>, requestId: int)
    requires |keyed| == |rs|
    requires forall i :: 0 <= i < |rs| ==> keyed[i] == rs[i].(id := keyed[i].id)
    ensures |Filter(keyed, (fr: FormResponse) => fr.documentRequestId == requestId)|
         == Count(rs, (fr: FormResponse) => fr.documentRequestId == requestId)
    decreases |rs|
  {
    if rs != [] {
      RekeyedCount(rs[1..], keyed[1..], requestId);
    }
  }

  /** A response that was just created can be fetched under the key the 201 names. */
  lemma {:induction false} PostThenGet(t: Tables, formResponse: FormResponse, now: Time)
    requires Valid(t)
    requires SaveNewResponses(t, [formResponse.(createdAt := now)]).Committed?
    ensures var s := SaveNewResponses(t, [formResponse.(createdAt := now)]);
      GetFormResponse(s.tables, s.value[0].id) == Ok(s.value[0])
  {
    var s := SaveNewResponses(t, [formResponse.(createdAt := now)]);
    var id := t.lastResponseId + 1;
    var p := (fr: FormResponse) => fr.id == id;
    FilterAppend(t.formResponses, s.value, p);
    FilterNone(t.formResponses, p);
  }
}
