/**
 * The request workflow across the two tiers: the body the builder page sends, as the create
 * action stores it, and the batch the fill-in form submits, as the batch action stores it
 * and the form reads it back.
 */
module Workflow {
  import opened Wrappers
  import opened Seqs
  import opened Js
  import opened Entities
  import opened Store
  import opened Schema
  import opened Actions
  import opened Binding
  import DR = DocumentRequestsController
  import FR = FormResponsesController
  import RB = RequestBuilder
  import CF = ClientForm

  // ---------------------------------------------------------------------------------
  // Creating a request from the builder
  // ---------------------------------------------------------------------------------

  /** A stored topic is the payload topic of builder entry `t`, with the keys the store gave it. */
  predicate StoredFrom(x: RequestTopic, t: RB.Topic, requestId: int) {
    x == RB.TopicPayload(t).(id := x.id, documentRequestId := requestId)
  }

  /** What the create action receives for the builder's topics, route id and project name. */
  function CreateBody(topics: seq<RB.Topic>, routeId: string, selectedProject: string, now: Time): DocumentRequest
    requires RB.SelectedCount(topics) > 0
  {
    DR.PreparedForInsert(RB.RequestPayload(topics, routeId, selectedProject).value, now)
  }

  /**
   * A created request holds exactly the selected entries, in list order, each as one topic
   * marked selected and without fields; it is a "Draft" of the route's project, stamped with
   * the clock.
   */
  lemma {:induction false} CreateStoresSelection(t: Tables, topics: seq<RB.Topic>, routeId: string, selectedProject: string, now: Time)
    requires RB.SelectedCount(topics) > 0
    requires SaveNewGraph(t, CreateBody(topics, routeId, selectedProject, now)).Committed?
    ensures var stored := SaveNewGraph(t, CreateBody(topics, routeId, selectedProject, now)).value;
      var selected := Filter(topics, RB.IsSelected);
      && stored.id == t.lastRequestId + 1
      && stored.projectId == ParseInt(routeId) && stored.projectName == selectedProject
      && stored.status == "Draft" && stored.createdAt == now
      && |stored.topics| == |selected|
      && (forall i :: 0 <= i < |selected| ==> StoredFrom(stored.topics[i], selected[i], stored.id))
      && (forall x :: x in stored.topics ==> x.isSelected && x.fields == [])
  {
    var body := CreateBody(topics, routeId, selectedProject, now);
    var stored := SaveNewGraph(t, body).value;
    var selected := Filter(topics, RB.IsSelected);
    forall i | 0 <= i < |selected|
      ensures StoredFrom(stored.topics[i], selected[i], stored.id)
      ensures stored.topics[i].isSelected && stored.topics[i].fields == []
    {
      assert body.topics[i] == RB.TopicPayload(selected[i]);
      assert selected[i] in selected;
    }
  }

  /**
   * A route id that `parseInt` reads as `NaN` is sent as a `null` project id, which the
   * NOT NULL column rejects: the create action answers 500 and stores nothing.
   */
  lemma {:induction false} UnparsableRouteRejected(t: Tables, topics: seq<RB.Topic>, routeId: string, selectedProject: string, now: Time)
    requires RB.SelectedCount(topics) > 0
    requires ParseInt(routeId) == None
    ensures var s := SaveNewGraph(t, CreateBody(topics, routeId, selectedProject, now));
      var answer: ActionResult<DocumentRequest> := ErrorBody(s.fault);
      s.Failed? && s.fault == NotNullViolation("DocumentRequests.ProjectId") && StatusCode(answer) == 500
  {
  }

  /** A route id of letters, such as "new", is one of those. */
  lemma {:induction false} WordRouteRejected(t: Tables, topics: seq<RB.Topic>, selectedProject: string, now: Time)
    requires RB.SelectedCount(topics) > 0
    ensures SaveNewGraph(t, CreateBody(topics, "new", selectedProject, now)).Failed?
  {
    ParseIntNoDigits("new");
    UnparsableRouteRejected(t, topics, "new", selectedProject, now);
  }

  /** The texts of a builder entry that its payload topic carries all pass `[Required]`. */
  predicate EntryPasses(t: RB.Topic) {
    && RequiredText(t.category) && RequiredText(t.name) && RequiredText(t.labelText)
    && RequiredText(t.description) && RequiredText(t.priority)
  }

  /**
   * The builder's body passes model validation exactly when the project name is not blank
   * and every selected entry has all five texts ("Draft" always passes, and no field is sent).
   */
  lemma {:induction false} PayloadPasses(topics: seq<RB.Topic>, routeId: string, selectedProject: string)
    requires RB.SelectedCount(topics) > 0
    ensures RequestPasses(RB.RequestPayload(topics, routeId, selectedProject).value) <==>
      RequiredText(selectedProject) && forall t :: t in topics && t.isSelected ==> EntryPasses(t)
  {
    var body := RB.RequestPayload(topics, routeId, selectedProject).value;
    RB.RequestPayloadTopics(topics, routeId, selectedProject);
    assert body.status == "Draft" && !IsWhiteSpace(body.status[0]);
    if forall t :: t in topics && t.isSelected ==> EntryPasses(t) {
      forall x | x in body.topics
        ensures TopicPasses(x)
      {
        var t :| t in topics && t.isSelected && x == RB.TopicPayload(t);
      }
    }
    if forall x :: x in body.topics ==> TopicPasses(x) {
      forall t | t in topics && t.isSelected
        ensures EntryPasses(t)
      {
        assert RB.TopicPayload(t) in body.topics;
      }
    }
  }

  /**
   * `handleCreateRequest` with the create action behind it: nothing is sent without a
   * selected entry; otherwise model validation answers 400 exactly when the project name or
   * a text of a selected entry is blank, the action answers 500 exactly when the route's
   * project id is missing or names no project, and 201 with the stored request otherwise.
   */
  method CreateRequest(db: DbContext, topics: seq<RB.Topic>, routeId: string, selectedProject: string, now: Time)
    returns (result: Option<ActionResult<DocumentRequest>>)
    requires db.Valid()
    modifies db
    ensures db.Valid()
    ensures result.None? <==> RB.SelectedCount(topics) == 0
    ensures result.Some? ==> result.value.BadRequest? || result.value.CreatedAt? || result.value.ErrorBody?
    ensures result.Some? ==>
      (result.value.BadRequest? <==>
         !(RequiredText(selectedProject) && forall t :: t in topics && t.isSelected ==> EntryPasses(t)))
    ensures result.Some? && !result.value.BadRequest? ==>
      (result.value.ErrorBody? <==> CheckProject(old(db.State()), ParseInt(routeId)).Some?)
    ensures result.None? || !result.value.CreatedAt? ==> db.State() == old(db.State())
    ensures result.Some? && result.value.CreatedAt? ==>
      var s := SaveNewGraph(old(db.State()), CreateBody(topics, routeId, selectedProject, now));
      && s.Committed? && db.State() == s.tables && result.value.value == s.value
    ensures result.Some? && result.value.CreatedAt? ==>
      var stored := result.value.value;
      var selected := Filter(topics, RB.IsSelected);
      && stored.projectId == ParseInt(routeId) && stored.status == "Draft"
      && |stored.topics| == |selected|
      && forall i :: 0 <= i < |selected| ==> StoredFrom(stored.topics[i], selected[i], stored.id)
  {
    var payload := RB.RequestPayload(topics, routeId, selectedProject);
    if payload.None? {
      return None;
    }
    PayloadPasses(topics, routeId, selectedProject);
    if !RequestPasses(payload.value) {
      return Some(BadRequest);
    }
    ghost var before := db.State();
    var answer := DR.PostDocumentRequest(db, payload.value, now);
    if answer.CreatedAt? {
      CreateStoresSelection(before, topics, routeId, selectedProject, now);
    }
    result := Some(answer);
  }

  // ---------------------------------------------------------------------------------
  // Submitting the form and reading it back
  // ---------------------------------------------------------------------------------

  /**
   * The submitted batch bound as it would be if a blank text were accepted: a fresh response
   * per element with the three properties the element carries. A `null` request id cannot
   * be bound to the non-nullable key, and the request is refused before the action runs.
   */
  function BindBatchAllowingBlank(batch: seq<CF.ResponseDraft>, now: Time): (r: Option<seq<FormResponse>>)
    ensures r.None? <==> exists d :: d in batch && d.documentRequestId.None?
    ensures r.Some? ==> |r.value| == |batch| && forall i :: 0 <= i < |batch| ==>
      && r.value[i].documentRequestId == batch[i].documentRequestId.value
      && r.value[i].requestTopicId == batch[i].requestTopicId
      && r.value[i].responseText == batch[i].responseText
  {
    if exists d :: d in batch && d.documentRequestId.None? then None
    else
      Some(seq(|batch|, i requires 0 <= i < |batch| =>
        NewFormResponse(now).(documentRequestId := batch[i].documentRequestId.value,
                              requestTopicId := batch[i].requestTopicId,
                              responseText := batch[i].responseText)))
  }

  /**
   * The submitted batch as the batch action's model binding reads it: besides a `null`
   * request id, a blank text refuses the whole request with 400, since `ResponseText` is a
   * non-nullable string and so implicitly required; otherwise each element is bound as above.
   */
  function BindBatch(batch: seq<CF.ResponseDraft>, now: Time): (r: Option<seq<FormResponse>>)
    ensures r.None? <==>
      (exists d :: d in batch && d.documentRequestId.None?) || (exists d :: d in batch && IsBlank(d.responseText))
    ensures r.Some? ==> |r.value| == |batch| && forall i :: 0 <= i < |batch| ==>
      && r.value[i].documentRequestId == batch[i].documentRequestId.value
      && r.value[i].requestTopicId == batch[i].requestTopicId
      && r.value[i].responseText == batch[i].responseText
    ensures r.Some? ==> forall fr :: fr in r.value ==> ResponsePasses(fr)
  {
    if exists d :: d in batch && IsBlank(d.responseText) then None
    else BindBatchAllowingBlank(batch, now)
  }

  /**
   * The batch the form builds for request `requestId` with every topic answered, bound by
   * the batch action: it binds, since the form's route id is the request's key, and it
   * answers each topic of the request in order, addressed to that request.
   */
  function BoundSubmission(topics: seq<RequestTopic>, requestId: int, answers: CF.Answers, now: Time): (r: seq<FormResponse>)
    requires forall t :: t in topics ==> RequiredText(CF.AnswerText(answers, t.id))
    ensures |r| == |topics|
    ensures forall i :: 0 <= i < |topics| ==>
      && r[i].documentRequestId == requestId
      && r[i].requestTopicId == topics[i].id
      && r[i].responseText == CF.AnswerText(answers, topics[i].id)
  {
    var batch := CF.BuildBatch(topics, IntToString(requestId), answers);
    OptionalAnswersBind(topics, requestId, answers, now);
    BlankInBatch(topics, IntToString(requestId), answers);
    assert !exists x :: x in topics && IsBlank(CF.AnswerText(answers, x.id)) by {
      forall x | x in topics
        ensures !IsBlank(CF.AnswerText(answers, x.id))
      {
        assert RequiredText(CF.AnswerText(answers, x.id));
      }
    }
    BindBatch(batch, now).value
  }

  /** After a committed batch addressed to one request, that request's responses are the old ones followed by the batch. */
  lemma {:induction false} ResponsesAfterBatch(t: Tables, rs: seq<FormResponse>, requestId: int)
    requires forall fr :: fr in rs ==> fr.documentRequestId == requestId
    requires SaveNewResponses(t, rs).Committed?
    ensures var s := SaveNewResponses(t, rs);
      FR.ResponsesTo(s.tables, requestId) == FR.ResponsesTo(t, requestId) + s.value
  {
    var s := SaveNewResponses(t, rs);
    FR.BatchAccumulates(t, rs, requestId);
    assert forall i :: 0 <= i < |rs| ==> s.value[i].documentRequestId == rs[i].documentRequestId;
    assert forall fr :: fr in s.value ==> fr.documentRequestId == requestId;
    FilterAll(s.value, (fr: FormResponse) => fr.documentRequestId == requestId);
  }

  /**
   * A committed batch holding, per topic in order, a response addressed to request
   * `requestId` with that topic's answer is stored as the form built it, every row addressed
   * to that request, after the request's earlier responses.
   */
  lemma {:induction false} AnswersStored(t: Tables, topics: seq<RequestTopic>, requestId: int, answers: CF.Answers, rs: seq<FormResponse>, now: Time)
    requires |rs| == |topics|
    requires forall i :: 0 <= i < |topics| ==>
      && rs[i].documentRequestId == requestId
      && rs[i].requestTopicId == topics[i].id
      && rs[i].responseText == CF.AnswerText(answers, topics[i].id)
    requires SaveNewResponses(t, FR.Stamped(rs, now)).Committed?
    ensures var s := SaveNewResponses(t, FR.Stamped(rs, now));
      && CF.StoredAs(s.value, CF.BuildBatch(topics, IntToString(requestId), answers))
      && (forall fr :: fr in s.value ==> fr.documentRequestId == requestId)
      && FR.ResponsesTo(s.tables, requestId) == FR.ResponsesTo(t, requestId) + s.value
  {
    var stamped := FR.Stamped(rs, now);
    var s := SaveNewResponses(t, stamped);
    assert forall i :: 0 <= i < |stamped| ==> s.value[i].documentRequestId == requestId;
    assert CF.StoredAs(s.value, CF.BuildBatch(topics, IntToString(requestId), answers));
    ResponsesAfterBatch(t, stamped, requestId);
  }

  /**
   * After such a batch, the request's responses read back in stored order give every topic
   * its answer, and exactly the submitted answers when the request had none before.
   */
  lemma {:induction false} ReloadAfterAnswers(t: Tables, topics: seq<RequestTopic>, requestId: int, answers: CF.Answers, rs: seq<FormResponse>, now: Time)
    requires |rs| == |topics|
    requires forall i :: 0 <= i < |topics| ==>
      && rs[i].documentRequestId == requestId
      && rs[i].requestTopicId == topics[i].id
      && rs[i].responseText == CF.AnswerText(answers, topics[i].id)
    requires SaveNewResponses(t, FR.Stamped(rs, now)).Committed?
    ensures var s := SaveNewResponses(t, FR.Stamped(rs, now));
      var reloaded := CF.LatestTexts(FR.ResponsesTo(s.tables, requestId));
      && (forall k :: k in CF.TopicIds(topics) ==> k in reloaded && reloaded[k] == CF.AnswerText(answers, k))
      && (FR.ResponsesTo(t, requestId) == [] ==> reloaded == CF.SubmittedAnswers(topics, answers))
  {
    var s := SaveNewResponses(t, FR.Stamped(rs, now));
    var older, later := FR.ResponsesTo(t, requestId), s.value;
    AnswersStored(t, topics, requestId, answers, rs, now);
    CF.BatchRoundTrip(topics, IntToString(requestId), answers, later);
    CF.LatestTextsAppend(older, later);
    var reloaded := CF.LatestTexts(older + later);
    assert CF.LatestTexts(FR.ResponsesTo(s.tables, requestId)) == reloaded;
    forall k | k in CF.TopicIds(topics)
      ensures k in reloaded && reloaded[k] == CF.AnswerText(answers, k)
    {
      assert k in CF.SubmittedAnswers(topics, answers);
    }
    if older == [] {
      assert older + later == later;
    }
  }

  /**
   * A submission from the form of request `requestId` with every topic answered, once
   * committed, stores one response per topic with its answer, every one addressed to that
   * request. The request's responses read back in stored order then give every topic its
   * submitted answer; on a first submission they give exactly the submitted answers.
   */
  lemma {:induction false} SubmitThenReload(t: Tables, topics: seq<RequestTopic>, requestId: int, answers: CF.Answers, now: Time)
    requires forall x :: x in topics ==> RequiredText(CF.AnswerText(answers, x.id))
    requires SaveNewResponses(t, FR.Stamped(BoundSubmission(topics, requestId, answers, now), now)).Committed?
    ensures var s := SaveNewResponses(t, FR.Stamped(BoundSubmission(topics, requestId, answers, now), now));
      var reloaded := CF.LatestTexts(FR.ResponsesTo(s.tables, requestId));
      && CF.StoredAs(s.value, CF.BuildBatch(topics, IntToString(requestId), answers))
      && (forall fr :: fr in s.value ==> fr.documentRequestId == requestId)
      && (forall k :: k in CF.TopicIds(topics) ==> k in reloaded && reloaded[k] == CF.AnswerText(answers, k))
      && (FR.ResponsesTo(t, requestId) == [] ==> reloaded == CF.SubmittedAnswers(topics, answers))
  {
    var rs := BoundSubmission(topics, requestId, answers, now);
    AnswersStored(t, topics, requestId, answers, rs, now);
    ReloadAfterAnswers(t, topics, requestId, answers, rs, now);
  }

  /**
   * The form's batch is refused exactly when the request has a topic and either the route id
   * is no number or some topic's answer is blank.
   */
  lemma {:induction false} BatchBinds(topics: seq<RequestTopic>, requestId: string, answers: CF.Answers, now: Time)
    ensures BindBatch(CF.BuildBatch(topics, requestId, answers), now).None? <==>
      topics != [] && (ParseInt(requestId).None? || exists x :: x in topics && IsBlank(CF.AnswerText(answers, x.id)))
  {
    var batch := CF.BuildBatch(topics, requestId, answers);
    BlankInBatch(topics, requestId, answers);
    assert (exists d :: d in batch && d.documentRequestId.None?) <==> topics != [] && ParseInt(requestId).None? by {
      if topics != [] {
        assert batch[0] in batch;
      }
    }
  }

  /** An element of the form's batch is blank exactly when some topic's answer is. */
  lemma {:induction false} BlankInBatch(topics: seq<RequestTopic>, requestId: string, answers: CF.Answers)
    ensures (exists d :: d in CF.BuildBatch(topics, requestId, answers) && IsBlank(d.responseText)) <==>
      exists x :: x in topics && IsBlank(CF.AnswerText(answers, x.id))
  {
    var batch := CF.BuildBatch(topics, requestId, answers);
    assert forall i :: 0 <= i < |batch| ==> batch[i].responseText == CF.AnswerText(answers, topics[i].id);
    BlankAmongAnswers(topics, answers, batch);
  }

  /** Drafts answering `topics` in order hold a blank text exactly when some topic's answer is blank. */
  lemma {:induction false} BlankAmongAnswers(topics: seq<RequestTopic>, answers: CF.Answers, batch: seq<CF.ResponseDraft>)
    requires |batch| == |topics|
    requires forall i :: 0 <= i < |batch| ==> batch[i].responseText == CF.AnswerText(answers, topics[i].id)
    ensures (exists d :: d in batch && IsBlank(d.responseText)) <==>
      exists x :: x in topics && IsBlank(CF.AnswerText(answers, x.id))
  {
    if exists x :: x in topics && IsBlank(CF.AnswerText(answers, x.id)) {
      var x :| x in topics && IsBlank(CF.AnswerText(answers, x.id));
      var i :| 0 <= i < |topics| && topics[i] == x;
      assert batch[i] in batch;
    }
    if exists d :: d in batch && IsBlank(d.responseText) {
      var d :| d in batch && IsBlank(d.responseText);
      var i :| 0 <= i < |batch| && batch[i] == d;
      assert topics[i] in topics;
    }
  }

  /**
   * The form labels every answer optional and sends '' for a topic left unanswered, yet the
   * batch action refuses a blank text: a request with an unanswered topic cannot be submitted.
   */
  lemma {:induction false} UnansweredTopicRefused(topics: seq<RequestTopic>, requestId: string, answers: CF.Answers, now: Time, x: RequestTopic)
    requires x in topics && x.id !in answers
    ensures BindBatch(CF.BuildBatch(topics, requestId, answers), now).None?
  {
    BatchBinds(topics, requestId, answers, now);
    assert CF.AnswerText(answers, x.id) == "";
  }

  /**
   * With blank texts accepted, as the optional answers intend, the form's batch for a
   * request always binds: every topic is answered in order, an unanswered one with "".
   */
  lemma {:induction false} OptionalAnswersBind(topics: seq<RequestTopic>, requestId: int, answers: CF.Answers, now: Time)
    ensures var r := BindBatchAllowingBlank(CF.BuildBatch(topics, IntToString(requestId), answers), now);
      && r.Some? && |r.value| == |topics|
      && (forall i :: 0 <= i < |topics| ==>
            && r.value[i].documentRequestId == requestId
            && r.value[i].requestTopicId == topics[i].id
            && r.value[i].responseText == CF.AnswerText(answers, topics[i].id))
      && (forall i :: 0 <= i < |topics| && topics[i].id !in answers ==> r.value[i].responseText == "")
  {
    var batch := CF.BuildBatch(topics, IntToString(requestId), answers);
    ParseIntOfIntToString(requestId);
    assert forall i :: 0 <= i < |batch| ==> batch[i].documentRequestId == Some(requestId);
    assert forall i :: 0 <= i < |batch| ==>
      batch[i].requestTopicId == topics[i].id && batch[i].responseText == CF.AnswerText(answers, topics[i].id);
  }

  /** A committed batch holds the bound responses' topics and texts, in order. */
  lemma {:induction false} CommittedBatchStoredAs(t: Tables, batch: seq<CF.ResponseDraft>, now: Time)
    requires BindBatch(batch, now).Some?
    requires SaveNewResponses(t, FR.Stamped(BindBatch(batch, now).value, now)).Committed?
    ensures CF.StoredAs(SaveNewResponses(t, FR.Stamped(BindBatch(batch, now).value, now)).value, batch)
  {
  }

  /** The `List<FormResponse>` the action receives: a fresh array holding `rows`. */
  method ToArray<T>(rows: seq<T>) returns (a: array<T>)
    ensures fresh(a) && a[..] == rows
  {
    a := new T[|rows|](i requires 0 <= i < |rows| => rows[i]);
  }

  /**
   * `handleSubmit` with the batch action behind it: the form's batch is refused with 400 when
   * the request has topics and the route id is no number or some answer is blank; otherwise
   * it is stored as the batch action stores it, and a committed batch holds one response per
   * topic with its answer.
   */
  method SubmitAnswers(db: DbContext, topics: seq<RequestTopic>, requestId: string, answers: CF.Answers, now: Time)
    returns (result: ActionResult<seq<FormResponse>>)
    requires db.Valid()
    modifies db
    ensures db.Valid()
    ensures result.BadRequest? || result.Ok? || result.Unhandled?
    ensures result.BadRequest? <==>
      topics != [] && (ParseInt(requestId).None? || exists x :: x in topics && IsBlank(CF.AnswerText(answers, x.id)))
    ensures !result.Ok? ==> db.State() == old(db.State())
    ensures result.Ok? ==>
      var bound := BindBatch(CF.BuildBatch(topics, requestId, answers), now);
      && bound.Some?
      && SaveNewResponses(old(db.State()), FR.Stamped(bound.value, now)).Committed?
      && db.State() == SaveNewResponses(old(db.State()), FR.Stamped(bound.value, now)).tables
      && result.value == SaveNewResponses(old(db.State()), FR.Stamped(bound.value, now)).value
      && CF.StoredAs(result.value, CF.BuildBatch(topics, requestId, answers))
  {
    var batch := CF.BuildBatch(topics, requestId, answers);
    BatchBinds(topics, requestId, answers, now);
    var bound := BindBatch(batch, now);
    if bound.None? {
      return BadRequest;
    }
    var rows := bound.value;
    var formResponses := ToArray(rows);
    ghost var before := db.State();
    result := FR.PostFormResponsesBatch(db, formResponses, now);
    if result.Ok? {
      CommittedBatchStoredAs(before, batch, now);
    }
  }
}
