/**
 * DocumentRequestsController (api/DocumentRequests): list, fetch and filter requests with
 * their topics and fields, create a request graph, update a request row, delete a request
 * with everything that hangs off it.
 */
module DocumentRequestsController {
  import opened Wrappers
  import opened Entities
  import opened Seqs
  import opened Ordering
  import opened Schema
  import opened Store
  import opened Actions

  /**
   * `OrderByDescending(dr => dr.CreatedAt)`. With a collection Include, EF Core appends the
   * key to the ORDER BY, so requests created at the same instant come in key order.
   */
  predicate NewestFirst(a: DocumentRequest, b: DocumentRequest) {
    a.createdAt > b.createdAt || (a.createdAt == b.createdAt && a.id <= b.id)
  }

  lemma {:induction false} NewestFirstTotalPreorder()
    ensures TotalPreorder(NewestFirst)
  {
  }

  /** Every row of `rows` with its topics and fields loaded, in order. */
  function LoadAll(t: Tables, rows: seq<DocumentRequest>, withProject: bool): (r: seq<DocumentRequest>)
    ensures |r| == |rows|
    ensures forall i :: 0 <= i < |rows| ==> r[i] == Load(t, rows[i], withProject)
  {
    seq(|rows|, i requires 0 <= i < |rows| => Load(t, rows[i], withProject))
  }

  /** GET api/DocumentRequests: every request with topics, fields and project, newest first. */
  function GetDocumentRequests(t: Tables): (r: ActionResult<seq<DocumentRequest>>)
    ensures r.Ok?
    ensures multiset(r.value) == multiset(LoadAll(t, t.documentRequests, true))
    ensures SortedBy(r.value, NewestFirst)
    ensures forall i :: 0 <= i < |t.documentRequests| ==> Load(t, t.documentRequests[i], true) in r.value
  {
    var loaded := LoadAll(t, t.documentRequests, true);
    NewestFirstTotalPreorder();
    SortBySorted(loaded, NewestFirst);
    var sorted := SortBy(loaded, NewestFirst);
    assert forall i :: 0 <= i < |loaded| ==> loaded[i] in multiset(sorted);
    Ok(sorted)
  }

  /** GET api/DocumentRequests/{id}: the request with topics, fields and project, or 404. */
  function GetDocumentRequest(t: Tables, id: int): (r: ActionResult<DocumentRequest>)
    ensures r.Ok? || r.NotFound?
    ensures r.NotFound? <==> id !in RequestIds(t)
    ensures r.Ok? ==>
      && FindRequest(t, id).Some?
      && RequestColumns(r.value) == RequestColumns(FindRequest(t, id).value)
      && r.value.id == id
      && r.value.topics == TopicsWithFields(t, id)
      && r.value.project == ProjectOf(t, r.value.projectId)
  {
    match FindRequest(t, id)
    case None => NotFound
    case Some(row) => Ok(Load(t, row, true))
  }

  /** The rows that name project `projectId`. */
  function RowsOfProject(t: Tables, projectId: int): seq<DocumentRequest> {
    Filter(t.documentRequests, (r: DocumentRequest) => r.projectId == Some(projectId))
  }

  /** A project's rows, loaded, still name that project and carry no project navigation. */
  lemma {:induction false} LoadedOfProject(t: Tables, projectId: int)
    ensures forall x :: x in LoadAll(t, RowsOfProject(t, projectId), false) ==>
      x.projectId == Some(projectId) && x.project.None?
  {
    var rows := RowsOfProject(t, projectId);
    var loaded := LoadAll(t, rows, false);
    forall x | x in loaded
      ensures x.projectId == Some(projectId) && x.project.None?
    {
      var i :| 0 <= i < |loaded| && loaded[i] == x;
      assert rows[i] in rows;
    }
  }

  /** GET api/DocumentRequests/project/{projectId}: that project's requests, newest first, without the project. */
  function GetDocumentRequestsByProject(t: Tables, projectId: int): (r: ActionResult<seq<DocumentRequest>>)
    ensures r.Ok?
    ensures multiset(r.value) == multiset(LoadAll(t, RowsOfProject(t, projectId), false))
    ensures SortedBy(r.value, NewestFirst)
    ensures forall x :: x in r.value ==> x.projectId == Some(projectId) && x.project.None?
    ensures |r.value| == Count(t.documentRequests, (r: DocumentRequest) => r.projectId == Some(projectId))
  {
    var rows := RowsOfProject(t, projectId);
    var loaded := LoadAll(t, rows, false);
    NewestFirstTotalPreorder();
    SortBySorted(loaded, NewestFirst);
    var sorted := SortBy(loaded, NewestFirst);
    LoadedOfProject(t, projectId);
    assert forall x :: x in sorted ==> x in multiset(loaded);
    Ok(sorted)
  }

  /** The request as the create action hands it to EF: stamped with the clock, project navigation cleared. */
  function PreparedForInsert(documentRequest: DocumentRequest, now: Time): DocumentRequest {
    documentRequest.(createdAt := now, project := None)
  }

  /** `DocumentRequestExists(id)`. */
  function DocumentRequestExists(t: Tables, id: int): (b: bool)
    ensures b <==> id in RequestIds(t)
  {
    exists r :: r in t.documentRequests && r.id == id
  }

  /**
   * POST api/DocumentRequests: stores the request, its topics and their fields with fresh
   * keys and answers 201 with the stored graph; any database error is caught and answered
   * 500 with its message, and nothing is stored.
   */
  method PostDocumentRequest(db: DbContext, documentRequest: DocumentRequest, now: Time)
    returns (result: ActionResult<DocumentRequest>)
    requires db.Valid()
    modifies db
    ensures db.Valid()
    ensures result.CreatedAt? || result.ErrorBody?
    ensures result.ErrorBody? <==> CheckProject(old(db.State()), documentRequest.projectId).Some?
    ensures result.ErrorBody? ==>
      && result.error == CheckProject(old(db.State()), documentRequest.projectId).value
      && db.State() == old(db.State())
    ensures result.CreatedAt? ==>
      var s := SaveNewGraph(old(db.State()), PreparedForInsert(documentRequest, now));
      && db.State() == s.tables
      && result.value == s.value && result.id == s.value.id
      && result.value.createdAt == now && result.value.project.None?
      && |result.value.topics| == |documentRequest.topics|
  {
    var dr := PreparedForInsert(documentRequest, now);
    var s := SaveNewGraph(db.State(), dr);
    if s.Committed? {
      SaveNewGraphValid(db.State(), dr);
      db.Commit(s.tables);
      result := CreatedAt(s.value.id, s.value);
    } else {
      result := ErrorBody(s.fault);
    }
  }

  /**
   * PUT api/DocumentRequests/{id}: overwrites every column of the request row with the body
   * (topics in the body are not written). 400 on a key mismatch, 404 when the row is gone,
   * and a database error escapes as a 500.
   */
  method PutDocumentRequest(db: DbContext, id: int, documentRequest: DocumentRequest)
    returns (result: ActionResult<()>)
    requires db.Valid()
    modifies db
    ensures db.Valid()
    ensures result.BadRequest? || result.NotFound? || result.Unhandled? || result.NoContent?
    ensures result.BadRequest? <==> id != documentRequest.id
    ensures result.NotFound? <==> id == documentRequest.id && id !in RequestIds(old(db.State()))
    ensures result.Unhandled? <==>
      id == documentRequest.id && id in RequestIds(old(db.State()))
      && CheckProject(old(db.State()), documentRequest.projectId).Some?
    ensures result.Unhandled? ==>
      result.exception == UpdateException(CheckProject(old(db.State()), documentRequest.projectId).value)
    ensures result.NoContent? ==>
      db.State() == old(db.State()).(documentRequests :=
        Replace(old(db.State()).documentRequests, RequestColumns(documentRequest), RequestKey))
    ensures !result.NoContent? ==> db.State() == old(db.State())
  {
    if id != documentRequest.id {
      return BadRequest;
    }
    var s := SaveModifiedRequest(db.State(), documentRequest);
    match s {
      case Committed(t, _) =>
        SaveModifiedRequestValid(db.State(), documentRequest);
        db.Commit(t);
        result := NoContent;
      case ConcurrencyFailure =>
        if !DocumentRequestExists(db.State(), id) {
          result := NotFound;
        } else {
          result := Unhandled(ConcurrencyException);
        }
      case Failed(fault) =>
        result := Unhandled(UpdateException(fault));
    }
  }

  /**
   * DELETE api/DocumentRequests/{id}: 404 when there is no such request; otherwise the request
   * goes, and the cascades take its topics, their fields and every response to it.
   */
  method DeleteDocumentRequest(db: DbContext, id: int) returns (result: ActionResult<()>)
    requires db.Valid()
    modifies db
    ensures db.Valid()
    ensures result.NotFound? || result.NoContent?
    ensures result.NotFound? <==> id !in RequestIds(old(db.State()))
    ensures result.NotFound? ==> db.State() == old(db.State())
    ensures result.NoContent? ==> db.State() == RemoveRequest(old(db.State()), id)
  {
    var found := FindRequest(db.State(), id);
    if found.None? {
      return NotFound;
    }
    RemoveRequestValid(db.State(), id);
    db.Commit(RemoveRequest(db.State(), id));
    result := NoContent;
  }

  /**
   * A created request can be fetched at once under the key the 201 names, and the fetch
   * returns exactly the graph the 201 carried, now with its project loaded.
   */
  lemma {:induction false} PostThenGet(t: Tables, documentRequest: DocumentRequest, now: Time)
    requires Valid(t)
    requires SaveNewGraph(t, PreparedForInsert(documentRequest, now)).Committed?
    ensures var s := SaveNewGraph(t, PreparedForInsert(documentRequest, now));
      GetDocumentRequest(s.tables, s.value.id) == Ok(s.value.(project := ProjectOf(t, documentRequest.projectId)))
  {
    var dr := PreparedForInsert(documentRequest, now);
    var s := SaveNewGraph(t, dr);
    SaveNewGraphThenLoad(t, dr);
    SaveNewGraphInserts(t, dr);
    assert s.tables.projects == t.projects;
  }

  /** In the rows after a replace, the only row with the replaced key is the new one. */
  lemma {:induction false} ReplaceRequestFinds(t: Tables, row: DocumentRequest)
    requires row.id in RequestIds(t)
    ensures FindRequest(t.(documentRequests := Replace(t.documentRequests, row, RequestKey)), row.id) == Some(row)
  {
    var u := t.(documentRequests := Replace(t.documentRequests, row, RequestKey));
    var r :| r in t.documentRequests && r.id == row.id;
    var i :| 0 <= i < |t.documentRequests| && t.documentRequests[i] == r;
    assert u.documentRequests[i] == row;
    assert forall x :: x in u.documentRequests && x.id == row.id ==> x == row;
  }

  /**
   * After a successful update, fetching the request returns the columns of the body, with
   * the topics and fields the request already had.
   */
  lemma {:induction false} PutThenGet(t: Tables, documentRequest: DocumentRequest)
    requires SaveModifiedRequest(t, documentRequest).Committed?
    ensures var u := SaveModifiedRequest(t, documentRequest).tables;
      GetDocumentRequest(u, documentRequest.id) ==
        Ok(documentRequest.(project := ProjectOf(t, documentRequest.projectId),
                            topics := TopicsWithFields(t, documentRequest.id)))
  {
    var u := SaveModifiedRequest(t, documentRequest).tables;
    ReplaceRequestFinds(t, RequestColumns(documentRequest));
    assert TopicsWithFields(u, documentRequest.id) == TopicsWithFields(t, documentRequest.id);
    assert ProjectOf(u, documentRequest.projectId) == ProjectOf(t, documentRequest.projectId);
  }

  /** After a delete, the request is not found any more, and nothing else that remains refers to it. */
  lemma {:induction false} DeleteThenGet(t: Tables, id: int)
    requires Valid(t)
    ensures GetDocumentRequest(RemoveRequest(t, id), id) == NotFound
    ensures forall x :: x in RemoveRequest(t, id).requestTopics ==> x.documentRequestId != id
    ensures forall fr :: fr in RemoveRequest(t, id).formResponses ==> fr.documentRequestId != id
  {
    RemoveRequestExact(t, id);
  }
}
