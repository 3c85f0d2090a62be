/**
 * The relational schema of the two migrations AddDocumentRequestSystem and AddFormResponses:
 * four tables with auto-incremented integer keys, their foreign keys, and what the
 * database does on delete (cascade from requests to topics to fields, cascade from
 * requests and from topics to responses, restrict from projects to requests).
 */
module Schema {
  import opened Wrappers
  import opened Entities
  import opened Seqs

  /** The declared maximum lengths of the DocumentRequests text columns. */
  predicate FitsDocumentRequestColumns(r: DocumentRequest) {
    |r.projectName| <= 200 && |r.status| <= 50
  }

  /** The declared maximum lengths of the RequestTopics text columns (Description is unbounded). */
  predicate FitsRequestTopicColumns(x: RequestTopic) {
    |x.categoryName| <= 100 && |x.topicName| <= 200 && |x.topicLabel| <= 200 && |x.priority| <= 50
  }

  /** The declared maximum lengths of the TopicFields text columns. */
  predicate FitsTopicFieldColumns(f: TopicField) {
    |f.fieldName| <= 200 && |f.fieldType| <= 50
  }

  /**
   * The database: the Projects table the requests point into, the four tables of the
   * document-request system in primary-key order, and the last key each AUTOINCREMENT
   * column has handed out.
   */
  datatype Tables = Tables(
    projects: seq<Project>,
    documentRequests: seq<DocumentRequest>,
    requestTopics: seq<RequestTopic>,
    topicFields: seq<TopicField>,
    formResponses: seq<FormResponse>,
    lastRequestId: int,
    lastTopicId: int,
    lastFieldId: int,
    lastResponseId: int)

  function ProjectKey(p: Project): int { p.id }
  function RequestKey(r: DocumentRequest): int { r.id }
  function TopicKey(x: RequestTopic): int { x.id }
  function FieldKey(f: TopicField): int { f.id }
  function ResponseKey(fr: FormResponse): int { fr.id }

  function ProjectIds(t: Tables): set<int> { set p | p in t.projects :: p.id }
  function RequestIds(t: Tables): set<int> { set r | r in t.documentRequests :: r.id }
  function TopicIds(t: Tables): set<int> { set x | x in t.requestTopics :: x.id }
  function ResponseIds(t: Tables): set<int> { set fr | fr in t.formResponses :: fr.id }

  /** The stored columns of a request: navigation properties are not part of the row. */
  function RequestColumns(r: DocumentRequest): DocumentRequest {
    r.(project := None, topics := [])
  }

  /** The stored columns of a topic. */
  function TopicColumns(x: RequestTopic): RequestTopic {
    x.(fields := [])
  }

  /** Primary keys: unique (rows in key order), positive, and never above the AUTOINCREMENT counter. */
  ghost predicate KeysValid(t: Tables) {
    && 0 <= t.lastRequestId && 0 <= t.lastTopicId && 0 <= t.lastFieldId && 0 <= t.lastResponseId
    && StrictlyIncreasing(t.projects, ProjectKey)
    && StrictlyIncreasing(t.documentRequests, RequestKey)
    && StrictlyIncreasing(t.requestTopics, TopicKey)
    && StrictlyIncreasing(t.topicFields, FieldKey)
    && StrictlyIncreasing(t.formResponses, ResponseKey)
    && (forall r :: r in t.documentRequests ==> 0 < r.id <= t.lastRequestId)
    && (forall x :: x in t.requestTopics ==> 0 < x.id <= t.lastTopicId)
    && (forall f :: f in t.topicFields ==> 0 < f.id <= t.lastFieldId)
    && (forall fr :: fr in t.formResponses ==> 0 < fr.id <= t.lastResponseId)
  }

  /** Rows hold columns only. */
  ghost predicate RowsFlat(t: Tables) {
    && (forall r :: r in t.documentRequests ==> r == RequestColumns(r))
    && (forall x :: x in t.requestTopics ==> x == TopicColumns(x))
  }

  /**
   * Referential integrity: ProjectId is NOT NULL and names a project; every topic's request,
   * every field's topic, and every response's request and topic exist.
   */
  ghost predicate ForeignKeysHold(t: Tables) {
    && (forall r :: r in t.documentRequests ==> r.projectId.Some? && r.projectId.value in ProjectIds(t))
    && (forall x :: x in t.requestTopics ==> x.documentRequestId in RequestIds(t))
    && (forall f :: f in t.topicFields ==> f.requestTopicId in TopicIds(t))
    && (forall fr :: fr in t.formResponses ==>
          fr.documentRequestId in RequestIds(t) && fr.requestTopicId in TopicIds(t))
  }

  ghost predicate Valid(t: Tables) {
    KeysValid(t) && RowsFlat(t) && ForeignKeysHold(t)
  }

  /** The database right after both migrations ran, beside an existing Projects table. */
  function Migrated(projects: seq<Project>): (t: Tables)
    requires StrictlyIncreasing(projects, ProjectKey)
    ensures Valid(t)
    ensures t.documentRequests == [] && t.requestTopics == [] && t.topicFields == [] && t.formResponses == []
  {
    Tables(projects, [], [], [], [], 0, 0, 0, 0)
  }

  /** The keys of the topics of request `requestId`. */
  function TopicIdsOf(t: Tables, requestId: int): set<int> {
    set x | x in t.requestTopics && x.documentRequestId == requestId :: x.id
  }

  /**
   * Deleting the topics whose keys are in `dead`: FK_TopicFields_RequestTopics_RequestTopicId and
   * FK_FormResponses_RequestTopics_RequestTopicId cascade to their fields and their responses.
   */
  function RemoveTopics(t: Tables, dead: set<int>): Tables {
    t.(requestTopics := Filter(t.requestTopics, (x: RequestTopic) => x.id !in dead),
       topicFields := Filter(t.topicFields, (f: TopicField) => f.requestTopicId !in dead),
       formResponses := Filter(t.formResponses, (fr: FormResponse) => fr.requestTopicId !in dead))
  }

  /**
   * Deleting the request with key `id`: FK_RequestTopics_DocumentRequests_DocumentRequestId cascades
   * to its topics (and on to their fields and responses), and
   * FK_FormResponses_DocumentRequests_DocumentRequestId to the responses that name the request.
   */
  function RemoveRequest(t: Tables, id: int): Tables {
    var u := RemoveTopics(t, TopicIdsOf(t, id));
    u.(documentRequests := Filter(u.documentRequests, (r: DocumentRequest) => r.id != id),
       formResponses := Filter(u.formResponses, (fr: FormResponse) => fr.documentRequestId != id))
  }

  /** Deleting one response row (nothing references a response). */
  function RemoveResponse(t: Tables, id: int): Tables {
    t.(formResponses := Filter(t.formResponses, (fr: FormResponse) => fr.id != id))
  }

  /**
   * Deleting a project: FK_DocumentRequests_Projects_ProjectId is ON DELETE RESTRICT, so the
   * delete is refused (None) while any request still names the project.
   */
  function RemoveProject(t: Tables, projectId: int): (r: Option<Tables>)
    ensures r.None? <==> exists dr :: dr in t.documentRequests && dr.projectId == Some(projectId)
    ensures r.Some? ==> r.value == t.(projects := Filter(t.projects, (p: Project) => p.id != projectId))
  {
    if exists dr :: dr in t.documentRequests && dr.projectId == Some(projectId) then None
    else Some(t.(projects := Filter(t.projects, (p: Project) => p.id != projectId)))
  }

  /** Keys stay unique and bounded when rows are removed by the topic cascades. */
  lemma {:induction false} RemoveTopicsKeys(t: Tables, dead: set<int>)
    requires KeysValid(t)
    ensures KeysValid(RemoveTopics(t, dead))
  {
    FilterKeepsIncreasing(t.requestTopics, (x: RequestTopic) => x.id !in dead, TopicKey);
    FilterKeepsIncreasing(t.topicFields, (f: TopicField) => f.requestTopicId !in dead, FieldKey);
    FilterKeepsIncreasing(t.formResponses, (fr: FormResponse) => fr.requestTopicId !in dead, ResponseKey);
  }

  /** What survives the topic cascades still points at existing rows. */
  lemma {:induction false} RemoveTopicsForeignKeys(t: Tables, dead: set<int>)
    requires ForeignKeysHold(t)
    ensures ForeignKeysHold(RemoveTopics(t, dead))
  {
    var u := RemoveTopics(t, dead);
    forall f | f in u.topicFields
      ensures f.requestTopicId in TopicIds(u)
    {
      var x :| x in t.requestTopics && x.id == f.requestTopicId;
      assert x in u.requestTopics;
    }
    forall fr | fr in u.formResponses
      ensures fr.requestTopicId in TopicIds(u)
    {
      var x :| x in t.requestTopics && x.id == fr.requestTopicId;
      assert x in u.requestTopics;
    }
  }

  /** The two topic cascades keep the database consistent. */
  lemma {:induction false} RemoveTopicsValid(t: Tables, dead: set<int>)
    requires Valid(t)
    ensures Valid(RemoveTopics(t, dead))
  {
    RemoveTopicsKeys(t, dead);
    RemoveTopicsForeignKeys(t, dead);
  }

  /** Deleting a request, with everything it cascades to, keeps the database consistent. */
  lemma {:induction false} RemoveRequestValid(t: Tables, id: int)
    requires Valid(t)
    ensures Valid(RemoveRequest(t, id))
  {
    var dead := TopicIdsOf(t, id);
    var u := RemoveTopics(t, dead);
    RemoveTopicsValid(t, dead);
    FilterKeepsIncreasing(u.documentRequests, (r: DocumentRequest) => r.id != id, RequestKey);
    FilterKeepsIncreasing(u.formResponses, (fr: FormResponse) => fr.documentRequestId != id, ResponseKey);
    RemoveRequestForeignKeys(t, id);
  }

  /** What survives a request delete still points at existing rows. */
  lemma {:induction false} RemoveRequestForeignKeys(t: Tables, id: int)
    requires ForeignKeysHold(t)
    ensures ForeignKeysHold(RemoveRequest(t, id))
  {
    var dead := TopicIdsOf(t, id);
    var u := RemoveTopics(t, dead);
    RemoveTopicsForeignKeys(t, dead);
    var v := RemoveRequest(t, id);
    assert v.projects == u.projects && v.requestTopics == u.requestTopics && v.topicFields == u.topicFields;
    forall r | r in v.documentRequests
      ensures r.projectId.Some? && r.projectId.value in ProjectIds(v)
    {
      assert r in u.documentRequests;
    }
    forall x | x in v.requestTopics
      ensures x.documentRequestId in RequestIds(v)
    {
      assert x in t.requestTopics && x.id !in dead;
      assert x.documentRequestId == id ==> x.id in dead;
      var r :| r in t.documentRequests && r.id == x.documentRequestId;
      assert r in v.documentRequests;
    }
    forall f | f in v.topicFields
      ensures f.requestTopicId in TopicIds(v)
    {
      assert f in u.topicFields;
    }
    forall fr | fr in v.formResponses
      ensures fr.documentRequestId in RequestIds(v) && fr.requestTopicId in TopicIds(v)
    {
      assert fr in u.formResponses;
      var r :| r in t.documentRequests && r.id == fr.documentRequestId;
      assert r in v.documentRequests;
    }
  }

  /** Topic keys are unique, so a topic of another request never shares a key with one of `id`'s topics. */
  lemma {:induction false} OtherTopicSurvives(t: Tables, id: int, x: RequestTopic)
    requires KeysValid(t)
    requires x in t.requestTopics && x.documentRequestId != id
    ensures x.id !in TopicIdsOf(t, id)
  {
    var ts := t.requestTopics;
    forall y | y in ts && y.documentRequestId == id
      ensures y.id != x.id
    {
      var i :| 0 <= i < |ts| && ts[i] == x;
      var j :| 0 <= j < |ts| && ts[j] == y;
      if i < j {
        assert TopicKey(ts[i]) < TopicKey(ts[j]);
      } else {
        assert j < i;
        assert TopicKey(ts[j]) < TopicKey(ts[i]);
      }
    }
  }

  /**
   * After deleting request `id` no row names it or one of its topics, and every row that
   * did not depend on it is still there.
   */
  lemma {:induction false} RemoveRequestExact(t: Tables, id: int)
    requires Valid(t)
    ensures var v := RemoveRequest(t, id);
      && id !in RequestIds(v)
      && (forall x :: x in v.requestTopics ==> x.documentRequestId != id)
      && (forall f :: f in v.topicFields ==> f.requestTopicId !in TopicIdsOf(t, id))
      && (forall fr :: fr in v.formResponses ==>
            fr.documentRequestId != id && fr.requestTopicId !in TopicIdsOf(t, id))
      && (forall r :: r in t.documentRequests && r.id != id ==> r in v.documentRequests)
      && (forall x :: x in t.requestTopics && x.documentRequestId != id ==> x in v.requestTopics)
      && (forall f :: (f in t.topicFields && f.requestTopicId !in TopicIdsOf(t, id)) ==> f in v.topicFields)
      && (forall fr :: (fr in t.formResponses && fr.documentRequestId != id
            && fr.requestTopicId !in TopicIdsOf(t, id)) ==> fr in v.formResponses)
      && v.projects == t.projects
  {
    var dead := TopicIdsOf(t, id);
    var v := RemoveRequest(t, id);
    forall x | x in v.requestTopics
      ensures x.documentRequestId != id
    {
      assert x in t.requestTopics && x.id !in dead;
      assert x.documentRequestId == id ==> x.id in dead;
    }
    forall x | x in t.requestTopics && x.documentRequestId != id
      ensures x in v.requestTopics
    {
      OtherTopicSurvives(t, id, x);
    }
  }

  /** Deleting one response keeps the database consistent and removes exactly that row. */
  lemma {:induction false} RemoveResponseValid(t: Tables, id: int)
    requires Valid(t)
    ensures Valid(RemoveResponse(t, id))
    ensures id !in ResponseIds(RemoveResponse(t, id))
    ensures forall fr :: fr in t.formResponses && fr.id != id ==> fr in RemoveResponse(t, id).formResponses
  {
    FilterKeepsIncreasing(t.formResponses, (fr: FormResponse) => fr.id != id, ResponseKey);
  }

  /** A new projects table keeps the database consistent when its keys are in order and every request still finds its project. */
  lemma {:induction false} ProjectsReplacedValid(t: Tables, projects: seq<Project>)
    requires Valid(t)
    requires StrictlyIncreasing(projects, ProjectKey)
    requires forall r :: r in t.documentRequests ==> r.projectId.Some? && r.projectId.value in ProjectIds(t.(projects := projects))
    ensures Valid(t.(projects := projects))
  {
    var u := t.(projects := projects);
    assert RequestIds(u) == RequestIds(t) && TopicIds(u) == TopicIds(t);
    assert KeysValid(u);
    assert RowsFlat(u);
  }

  /** Every request still finds its project among the kept ones when none of them names the removed one. */
  lemma {:induction false} KeptProjectsNamed(t: Tables, kept: seq<Project>, projectId: int)
    requires forall r :: r in t.documentRequests ==> r.projectId.Some? && r.projectId.value in ProjectIds(t)
    requires forall dr :: dr in t.documentRequests ==> dr.projectId != Some(projectId)
    requires forall p :: p in kept <==> p in t.projects && p.id != projectId
    ensures forall r :: r in t.documentRequests ==> r.projectId.Some? && r.projectId.value in ProjectIds(t.(projects := kept))
  {
    forall r | r in t.documentRequests
      ensures r.projectId.value in ProjectIds(t.(projects := kept))
    {
      var p :| p in t.projects && p.id == r.projectId.value;
      assert p in kept;
    }
  }

  /** A project that no request names can go; the requests are untouched and stay consistent. */
  lemma {:induction false} RemoveProjectValid(t: Tables, projectId: int)
    requires Valid(t)
    requires RemoveProject(t, projectId).Some?
    ensures Valid(RemoveProject(t, projectId).value)
    ensures projectId !in ProjectIds(RemoveProject(t, projectId).value)
  {
    var kept := Filter(t.projects, (p: Project) => p.id != projectId);
    FilterKeepsIncreasing(t.projects, (p: Project) => p.id != projectId, ProjectKey);
    KeptProjectsNamed(t, kept, projectId);
    ProjectsReplacedValid(t, kept);
  }
}
