/**
 * What one `SaveChangesAsync` does to the database for the document-request controllers:
 * insert a new request graph or a list of responses with fresh AUTOINCREMENT keys, update
 * one row, or delete one row (the database then applies the cascades of `Schema`). A save
 * either commits completely or raises and leaves the tables as they were. `DbContext` is
 * the mutable store the controllers share.
 */
module Store {
  import opened Wrappers
  import opened Entities
  import opened Seqs
  import opened Schema

  /** An exception SQLite raises from a save; nothing of that save is kept. */
  datatype Fault =
    | NotNullViolation(column: string)   // "NOT NULL constraint failed: <column>"
    | ForeignKeyViolation                // "FOREIGN KEY constraint failed"

  /** The outcome of one save: committed tables and the saved value, an error, or a concurrency failure. */
  datatype Saved<T> =
    | Committed(tables: Tables, value: T)
    | Failed(fault: Fault)
    | ConcurrencyFailure   // DbUpdateConcurrencyException: the UPDATE matched no row

  /** The rows of `ts` as stored: columns only. */
  function TopicRows(ts: seq<RequestTopic>): (r: seq<RequestTopic>)
    ensures |r| == |ts|
    ensures forall i :: 0 <= i < |ts| ==> r[i] == TopicColumns(ts[i])
  {
    seq(|ts|, i requires 0 <= i < |ts| => TopicColumns(ts[i]))
  }

  /** The fields of all of `ts`, topic after topic. */
  function AllFields(ts: seq<RequestTopic>): seq<TopicField>
    decreases |ts|
  {
    if ts == [] then [] else ts[0].fields + AllFields(ts[1..])
  }

  /** Every field of `AllFields(ts)` is a field of one of the topics. */
  lemma {:induction false} InAllFields(ts: seq<RequestTopic>, f: TopicField)
    requires f in AllFields(ts)
    ensures exists k :: 0 <= k < |ts| && f in ts[k].fields
    decreases |ts|
  {
    if f !in ts[0].fields {
      InAllFields(ts[1..], f);
      var k :| 0 <= k < |ts[1..]| && f in ts[1..][k].fields;
      assert f in ts[k + 1].fields;
    }
  }

  /** The fields of topic `topicId` with the keys `next`, `next + 1`, ... in list order. */
  function KeyFields(fs: seq<TopicField>, topicId: int, next: int): (r: seq<TopicField>)
    ensures |r| == |fs|
    ensures forall j :: 0 <= j < |fs| ==> r[j] == fs[j].(id := next + j, requestTopicId := topicId)
  {
    seq(|fs|, j requires 0 <= j < |fs| => fs[j].(id := next + j, requestTopicId := topicId))
  }

  /**
   * The topics of request `requestId` as EF inserts them: each topic takes the next topic key
   * (from `nextTopic`) and its fields the next field keys (from `nextField`), in list order.
   */
  function KeyTopics(ts: seq<RequestTopic>, requestId: int, nextTopic: int, nextField: int): (r: seq<RequestTopic>)
    ensures |r| == |ts|
    ensures forall i :: 0 <= i < |ts| ==>
      && r[i] == ts[i].(id := nextTopic + i, documentRequestId := requestId, fields := r[i].fields)
      && |r[i].fields| == |ts[i].fields|
      && (forall j :: 0 <= j < |ts[i].fields| ==>
            r[i].fields[j] == ts[i].fields[j].(id := r[i].fields[j].id, requestTopicId := nextTopic + i))
    decreases |ts|
  {
    if ts == [] then []
    else
      var x := ts[0].(id := nextTopic, documentRequestId := requestId, fields := KeyFields(ts[0].fields, nextTopic, nextField));
      [x] + KeyTopics(ts[1..], requestId, nextTopic + 1, nextField + |ts[0].fields|)
  }

  /** The keys of `fs` are `next`, `next + 1`, ... in order. */
  ghost predicate FieldKeysFrom(fs: seq<TopicField>, next: int) {
    forall k :: 0 <= k < |fs| ==> fs[k].id == next + k
  }

  /** The field keys of a keyed request run consecutively from `nextField`, topic after topic. */
  lemma {:induction false} KeyTopicsFieldKeys(ts: seq<RequestTopic>, requestId: int, nextTopic: int, nextField: int)
    ensures FieldKeysFrom(AllFields(KeyTopics(ts, requestId, nextTopic, nextField)), nextField)
    decreases |ts|
  {
    if ts != [] {
      var out := KeyTopics(ts, requestId, nextTopic, nextField);
      var rest := KeyTopics(ts[1..], requestId, nextTopic + 1, nextField + |ts[0].fields|);
      KeyTopicsFieldKeys(ts[1..], requestId, nextTopic + 1, nextField + |ts[0].fields|);
      assert out[1..] == rest;
      var fs := AllFields(out);
      var first := out[0].fields;
      assert fs == first + AllFields(rest);
      assert first == KeyFields(ts[0].fields, nextTopic, nextField);
      forall k | 0 <= k < |fs|
        ensures fs[k].id == nextField + k
      {
        if k < |first| {
          assert fs[k] == first[k];
        } else {
          assert fs[k] == AllFields(rest)[k - |first|];
        }
      }
    }
  }

  /** The request row and the project a request's ProjectId names. */
  function ProjectOf(t: Tables, projectId: Option<int>): (p: Option<Project>)
    ensures p.Some? ==> p.value in t.projects && Some(p.value.id) == projectId
    ensures p.None? ==> projectId.None? || projectId.value !in ProjectIds(t)
  {
    if projectId.None? then None
    else
      var ps := Filter(t.projects, (p: Project) => p.id == projectId.value);
      if ps == [] then None else Some(ps[0])
  }

  /** `FirstOrDefault(dr => dr.Id == id)` on the requests table. */
  function FindRequest(t: Tables, id: int): (r: Option<DocumentRequest>)
    ensures r.None? <==> id !in RequestIds(t)
    ensures r.Some? ==> r.value in t.documentRequests && r.value.id == id
  {
    var rs := Filter(t.documentRequests, (r: DocumentRequest) => r.id == id);
    if rs == [] then None else assert rs[0] in rs; Some(rs[0])
  }

  /** `FirstOrDefault(fr => fr.Id == id)` on the responses table. */
  function FindResponse(t: Tables, id: int): (r: Option<FormResponse>)
    ensures r.None? <==> id !in ResponseIds(t)
    ensures r.Some? ==> r.value in t.formResponses && r.value.id == id
  {
    var rs := Filter(t.formResponses, (fr: FormResponse) => fr.id == id);
    if rs == [] then None else assert rs[0] in rs; Some(rs[0])
  }

  /** `FirstOrDefault(x => x.Id == id)` on the topics table. */
  function FindTopic(t: Tables, id: int): (r: Option<RequestTopic>)
    ensures r.None? <==> id !in TopicIds(t)
    ensures r.Some? ==> r.value in t.requestTopics && r.value.id == id
  {
    var xs := Filter(t.requestTopics, (x: RequestTopic) => x.id == id);
    if xs == [] then None else assert xs[0] in xs; Some(xs[0])
  }

  /** The topics of request `requestId`, in key order. */
  function TopicsOf(topics: seq<RequestTopic>, requestId: int): seq<RequestTopic> {
    Filter(topics, (x: RequestTopic) => x.documentRequestId == requestId)
  }

  /** The fields of topic `topicId`, in key order. */
  function FieldsOf(fields: seq<TopicField>, topicId: int): seq<TopicField> {
    Filter(fields, (f: TopicField) => f.requestTopicId == topicId)
  }

  /** `Include(dr => dr.Topics).ThenInclude(t => t.Fields)` for the request with key `requestId`. */
  function TopicsWithFields(t: Tables, requestId: int): (r: seq<RequestTopic>)
    ensures |r| == |TopicsOf(t.requestTopics, requestId)|
    ensures forall i :: 0 <= i < |r| ==>
      r[i] == TopicsOf(t.requestTopics, requestId)[i].(fields := FieldsOf(t.topicFields, r[i].id))
  {
    var ts := TopicsOf(t.requestTopics, requestId);
    seq(|ts|, i requires 0 <= i < |ts| => ts[i].(fields := FieldsOf(t.topicFields, ts[i].id)))
  }

  /** A request row with its topics and their fields loaded, and its project if `withProject`. */
  function Load(t: Tables, row: DocumentRequest, withProject: bool): DocumentRequest {
    row.(project := if withProject then ProjectOf(t, row.projectId) else None,
         topics := TopicsWithFields(t, row.id))
  }

  /** The project reference a new or modified request row must satisfy (NOT NULL, then FOREIGN KEY). */
  function CheckProject(t: Tables, projectId: Option<int>): (r: Option<Fault>)
    ensures r.None? <==> projectId.Some? && projectId.value in ProjectIds(t)
  {
    if projectId.None? then Some(NotNullViolation("DocumentRequests.ProjectId"))
    else if projectId.value !in ProjectIds(t) then Some(ForeignKeyViolation)
    else None
  }

  /** The tables after inserting request row `row` and the keyed topics `topics` with their fields. */
  function InsertGraph(t: Tables, row: DocumentRequest, topics: seq<RequestTopic>): Tables {
    t.(documentRequests := t.documentRequests + [row],
       requestTopics := t.requestTopics + TopicRows(topics),
       topicFields := t.topicFields + AllFields(topics),
       lastRequestId := row.id,
       lastTopicId := t.lastTopicId + |topics|,
       lastFieldId := t.lastFieldId + |AllFields(topics)|)
  }

  /**
   * `DocumentRequests.Add(dr)` then a save: the request row with the next key, then its
   * topics and fields; the value is `dr` with every key and parent key filled in.
   */
  function SaveNewGraph(t: Tables, dr: DocumentRequest): (r: Saved<DocumentRequest>)
    ensures r.ConcurrencyFailure? == false
    ensures r.Failed? <==> CheckProject(t, dr.projectId).Some?
    ensures r.Committed? ==>
      && r.value.id == t.lastRequestId + 1
      && r.value == dr.(id := r.value.id, topics := r.value.topics)
      && |r.value.topics| == |dr.topics|
  {
    match CheckProject(t, dr.projectId)
    case Some(fault) => Failed(fault)
    case None =>
      var id := t.lastRequestId + 1;
      var topics := KeyTopics(dr.topics, id, t.lastTopicId + 1, t.lastFieldId + 1);
      Committed(InsertGraph(t, RequestColumns(dr.(id := id)), topics), dr.(id := id, topics := topics))
  }

  /** Appending rows whose keys are above every key already present keeps the keys ordered. */
  lemma {:induction false} AppendIncreasing<T(!new)>(a: seq<T>, b: seq<T>, key: T -> int, bound: int)
    requires StrictlyIncreasing(a, key) && StrictlyIncreasing(b, key)
    requires forall x :: x in a ==> key(x) <= bound
    requires forall y :: y in b ==> bound < key(y)
    ensures StrictlyIncreasing(a + b, key)
  {
    var s := a + b;
    forall i, j | 0 <= i < j < |s|
      ensures key(s[i]) < key(s[j])
    {
      if j < |a| {
        assert s[i] == a[i] && s[j] == a[j];
      } else if i < |a| {
        assert s[i] in a && s[j] in b;
      } else {
        assert s[i] == b[i - |a|] && s[j] == b[j - |a|];
      }
    }
  }

  /** Every field of a keyed topic names that topic. */
  lemma {:induction false} KeyTopicsFieldParents(ts: seq<RequestTopic>, requestId: int, nextTopic: int, nextField: int)
    ensures var out := KeyTopics(ts, requestId, nextTopic, nextField);
      forall k, f :: 0 <= k < |out| && f in out[k].fields ==> f.requestTopicId == out[k].id
  {
    var out := KeyTopics(ts, requestId, nextTopic, nextField);
    forall k, f | 0 <= k < |out| && f in out[k].fields
      ensures f.requestTopicId == out[k].id
    {
      var j :| 0 <= j < |out[k].fields| && out[k].fields[j] == f;
    }
  }

  /** A committed create is `InsertGraph` of the keyed request row and its keyed topics. */
  lemma {:induction false} SaveNewGraphInserts(t: Tables, dr: DocumentRequest)
    requires SaveNewGraph(t, dr).Committed?
    ensures var id := t.lastRequestId + 1;
      var out := KeyTopics(dr.topics, id, t.lastTopicId + 1, t.lastFieldId + 1);
      && SaveNewGraph(t, dr).tables == InsertGraph(t, RequestColumns(dr.(id := id)), out)
      && SaveNewGraph(t, dr).value == dr.(id := id, topics := out)
      && dr.projectId.Some? && dr.projectId.value in ProjectIds(t)
      && (forall i :: 0 <= i < |out| ==> out[i].id == t.lastTopicId + 1 + i && out[i].documentRequestId == id)
      && FieldKeysFrom(AllFields(out), t.lastFieldId + 1)
      && (forall k, f :: 0 <= k < |out| && f in out[k].fields ==> f.requestTopicId == out[k].id)
  {
    var id := t.lastRequestId + 1;
    KeyTopicsFieldKeys(dr.topics, id, t.lastTopicId + 1, t.lastFieldId + 1);
    KeyTopicsFieldParents(dr.topics, id, t.lastTopicId + 1, t.lastFieldId + 1);
  }

  /** Appending rows keyed `last + 1`, `last + 2`, ... keeps the keys ordered, positive and under the advanced counter. */
  lemma {:induction false} AppendFromCounter<T(!new)>(a: seq<T>, b: seq<T>, key: T -> int, last: int)
    requires 0 <= last
    requires StrictlyIncreasing(a, key)
    requires forall x :: x in a ==> 0 < key(x) <= last
    requires forall k :: 0 <= k < |b| ==> key(b[k]) == last + 1 + k
    ensures StrictlyIncreasing(a + b, key)
    ensures forall x :: x in a + b ==> 0 < key(x) <= last + |b|
  {
    forall y | y in b
      ensures last < key(y) <= last + |b|
    {
      var k :| 0 <= k < |b| && b[k] == y;
    }
    AppendIncreasing(a, b, key, last);
  }

  /** New keys taken from the counters keep every table in key order and under its counter. */
  lemma {:induction false} InsertGraphKeys(t: Tables, row: DocumentRequest, out: seq<RequestTopic>)
    requires KeysValid(t)
    requires row.id == t.lastRequestId + 1
    requires forall i :: 0 <= i < |out| ==> out[i].id == t.lastTopicId + 1 + i
    requires FieldKeysFrom(AllFields(out), t.lastFieldId + 1)
    ensures KeysValid(InsertGraph(t, row, out))
  {
    AppendFromCounter(t.documentRequests, [row], RequestKey, t.lastRequestId);
    AppendFromCounter(t.requestTopics, TopicRows(out), TopicKey, t.lastTopicId);
    AppendFromCounter(t.topicFields, AllFields(out), FieldKey, t.lastFieldId);
  }

  /** The new topics name the new request row. */
  lemma {:induction false} InsertGraphNewTopics(t: Tables, row: DocumentRequest, out: seq<RequestTopic>)
    requires forall i :: 0 <= i < |out| ==> out[i].documentRequestId == row.id
    ensures forall x :: x in TopicRows(out) ==> x.documentRequestId in RequestIds(InsertGraph(t, row, out))
  {
    var u := InsertGraph(t, row, out);
    var rows := TopicRows(out);
    assert row in u.documentRequests;
    forall x | x in rows
      ensures x.documentRequestId == row.id
    {
      var i :| 0 <= i < |rows| && rows[i] == x;
    }
  }

  /** The keys of topics `ts`. */
  function KeysOf(ts: seq<RequestTopic>): set<int> {
    set x | x in ts :: x.id
  }

  /** When every topic's fields name it, every field of the lot names one of the topics. */
  lemma {:induction false} AllFieldsParents(out: seq<RequestTopic>)
    requires forall k, g :: 0 <= k < |out| && g in out[k].fields ==> g.requestTopicId == out[k].id
    ensures forall f :: f in AllFields(out) ==> f.requestTopicId in KeysOf(out)
    decreases |out|
  {
    if out != [] {
      AllFieldsParents(out[1..]);
      assert out[0] in out;
      forall x | x in out[1..]
        ensures x in out
      {
      }
    }
  }

  /** The new fields name new topics. */
  lemma {:induction false} InsertGraphNewFields(t: Tables, row: DocumentRequest, out: seq<RequestTopic>)
    requires forall k, f :: 0 <= k < |out| && f in out[k].fields ==> f.requestTopicId == out[k].id
    ensures forall f :: f in AllFields(out) ==> f.requestTopicId in TopicIds(InsertGraph(t, row, out))
  {
    AllFieldsParents(out);
    var u := InsertGraph(t, row, out);
    var rows := TopicRows(out);
    forall x | x in out
      ensures x.id in TopicIds(u)
    {
      var i :| 0 <= i < |out| && out[i] == x;
      assert rows[i] in u.requestTopics;
    }
  }

  /** Rows that were consistent stay consistent when rows are only added. */
  lemma {:induction false} InsertGraphOldRows(t: Tables, row: DocumentRequest, out: seq<RequestTopic>)
    requires ForeignKeysHold(t)
    ensures var u := InsertGraph(t, row, out);
      && RequestIds(t) <= RequestIds(u) && TopicIds(t) <= TopicIds(u) && ProjectIds(u) == ProjectIds(t)
  {
    var u := InsertGraph(t, row, out);
    forall r | r in t.documentRequests
      ensures r.id in RequestIds(u)
    {
      assert r in u.documentRequests;
    }
    forall x | x in t.requestTopics
      ensures x.id in TopicIds(u)
    {
      assert x in u.requestTopics;
    }
  }

  /** Inserting a graph whose references resolve keeps referential integrity. */
  lemma {:induction false} InsertGraphForeignKeys(t: Tables, row: DocumentRequest, out: seq<RequestTopic>)
    requires ForeignKeysHold(t)
    requires row.projectId.Some? && row.projectId.value in ProjectIds(t)
    requires forall i :: 0 <= i < |out| ==> out[i].documentRequestId == row.id
    requires forall k, f :: 0 <= k < |out| && f in out[k].fields ==> f.requestTopicId == out[k].id
    ensures ForeignKeysHold(InsertGraph(t, row, out))
  {
    var u := InsertGraph(t, row, out);
    InsertGraphNewTopics(t, row, out);
    InsertGraphNewFields(t, row, out);
    InsertGraphOldRows(t, row, out);
    assert forall x :: x in u.requestTopics ==> x in t.requestTopics || x in TopicRows(out);
    assert forall f :: f in u.topicFields ==> f in t.topicFields || f in AllFields(out);
  }

  /** Inserting a new request graph keeps keys unique and every reference resolvable. */
  lemma {:induction false} SaveNewGraphValid(t: Tables, dr: DocumentRequest)
    requires Valid(t)
    requires SaveNewGraph(t, dr).Committed?
    ensures Valid(SaveNewGraph(t, dr).tables)
  {
    var id := t.lastRequestId + 1;
    var row := RequestColumns(dr.(id := id));
    var out := KeyTopics(dr.topics, id, t.lastTopicId + 1, t.lastFieldId + 1);
    SaveNewGraphInserts(t, dr);
    InsertGraphKeys(t, row, out);
    InsertGraphForeignKeys(t, row, out);
    var u := InsertGraph(t, row, out);
    assert forall x :: x in TopicRows(out) ==> x == TopicColumns(x);
    assert RowsFlat(u);
  }

  /** Every field inserted with topic `out[i]` is found again under that topic's key. */
  lemma {:induction false} FieldsOfAllFields(out: seq<RequestTopic>, i: int)
    requires 0 <= i < |out|
    requires forall k, f :: 0 <= k < |out| && f in out[k].fields ==> f.requestTopicId == out[k].id
    requires StrictlyIncreasing(out, TopicKey)
    ensures FieldsOf(AllFields(out), out[i].id) == out[i].fields
    decreases |out|
  {
    var id := out[i].id;
    var p := (f: TopicField) => f.requestTopicId == id;
    assert AllFields(out) == out[0].fields + AllFields(out[1..]);
    FilterAppend(out[0].fields, AllFields(out[1..]), p);
    if i == 0 {
      FilterAll(out[0].fields, p);
      forall f | f in AllFields(out[1..])
        ensures !p(f)
      {
        InAllFields(out[1..], f);
        var k :| 0 <= k < |out[1..]| && f in out[1..][k].fields;
        assert TopicKey(out[0]) < TopicKey(out[k + 1]);
      }
      FilterNone(AllFields(out[1..]), p);
    } else {
      assert TopicKey(out[0]) < TopicKey(out[i]);
      FilterNone(out[0].fields, p);
      FieldsOfAllFields(out[1..], i - 1);
    }
  }

  /** Only the newly inserted row carries the new request key. */
  lemma {:induction false} InsertGraphFindsRow(t: Tables, row: DocumentRequest, out: seq<RequestTopic>)
    requires forall r :: r in t.documentRequests ==> r.id < row.id
    ensures FindRequest(InsertGraph(t, row, out), row.id) == Some(row)
  {
    var p := (r: DocumentRequest) => r.id == row.id;
    FilterAppend(t.documentRequests, [row], p);
    FilterNone(t.documentRequests, p);
  }

  /** Only the newly inserted topics belong to the new request. */
  lemma {:induction false} InsertGraphFindsTopics(t: Tables, row: DocumentRequest, out: seq<RequestTopic>)
    requires forall x :: x in t.requestTopics ==> x.documentRequestId != row.id
    requires forall i :: 0 <= i < |out| ==> out[i].documentRequestId == row.id
    ensures TopicsOf(InsertGraph(t, row, out).requestTopics, row.id) == TopicRows(out)
  {
    var q := (x: RequestTopic) => x.documentRequestId == row.id;
    FilterAppend(t.requestTopics, TopicRows(out), q);
    FilterNone(t.requestTopics, q);
    FilterAll(TopicRows(out), q);
  }

  /** Each new topic is loaded back with exactly its own fields. */
  lemma {:induction false} InsertGraphFindsFields(t: Tables, row: DocumentRequest, out: seq<RequestTopic>, i: int)
    requires 0 <= i < |out|
    requires forall f :: f in t.topicFields ==> f.requestTopicId != out[i].id
    requires forall k, f :: 0 <= k < |out| && f in out[k].fields ==> f.requestTopicId == out[k].id
    requires StrictlyIncreasing(out, TopicKey)
    ensures FieldsOf(InsertGraph(t, row, out).topicFields, out[i].id) == out[i].fields
  {
    var fp := (f: TopicField) => f.requestTopicId == out[i].id;
    FilterAppend(t.topicFields, AllFields(out), fp);
    FilterNone(t.topicFields, fp);
    FieldsOfAllFields(out, i);
  }

  /**
   * A committed create is read back exactly: the row with the new key is there, and loading
   * its topics yields the saved ones, every topic with exactly the fields it was created with.
   */
  lemma {:induction false} SaveNewGraphThenLoad(t: Tables, dr: DocumentRequest)
    requires Valid(t)
    requires SaveNewGraph(t, dr).Committed?
    ensures var s := SaveNewGraph(t, dr);
      && FindRequest(s.tables, s.value.id) == Some(RequestColumns(s.value))
      && TopicsWithFields(s.tables, s.value.id) == s.value.topics
  {
    var id := t.lastRequestId + 1;
    var row := RequestColumns(dr.(id := id));
    var out := KeyTopics(dr.topics, id, t.lastTopicId + 1, t.lastFieldId + 1);
    SaveNewGraphInserts(t, dr);
    var u := InsertGraph(t, row, out);
    InsertGraphFindsRow(t, row, out);
    ParentsBelowCounters(t);
    InsertGraphFindsTopics(t, row, out);
    var loaded := TopicsWithFields(u, id);
    forall i | 0 <= i < |out|
      ensures loaded[i] == out[i]
    {
      InsertGraphFindsFields(t, row, out, i);
    }
  }

  /** In a consistent database every stored topic and field names a parent key the counters already issued. */
  lemma {:induction false} ParentsBelowCounters(t: Tables)
    requires Valid(t)
    ensures forall x :: x in t.requestTopics ==> x.documentRequestId <= t.lastRequestId
    ensures forall f :: f in t.topicFields ==> f.requestTopicId <= t.lastTopicId
  {
    forall x | x in t.requestTopics
      ensures x.documentRequestId <= t.lastRequestId
    {
      var r :| r in t.documentRequests && r.id == x.documentRequestId;
    }
    forall f | f in t.topicFields
      ensures f.requestTopicId <= t.lastTopicId
    {
      var x :| x in t.requestTopics && x.id == f.requestTopicId;
    }
  }

  /** The rows of `rows` with the key of `row` replaced by `row`; every other row stays in place. */
  function Replace<T>(rows: seq<T>, row: T, key: T -> int): (r: seq<T>)
    ensures |r| == |rows|
    ensures forall i :: 0 <= i < |rows| ==> r[i] == if key(rows[i]) == key(row) then row else rows[i]
  {
    seq(|rows|, i requires 0 <= i < |rows| => if key(rows[i]) == key(row) then row else rows[i])
  }

  /**
   * Saving a request attached as Modified: an UPDATE of every column of the row with key
   * `row.id`. The entity has no concurrency token, so the UPDATE fails as a concurrency
   * conflict exactly when no row has that key.
   */
  function SaveModifiedRequest(t: Tables, row: DocumentRequest): (r: Saved<()>)
    ensures r.ConcurrencyFailure? <==> row.id !in RequestIds(t)
    ensures r.Failed? <==> row.id in RequestIds(t) && CheckProject(t, row.projectId).Some?
    ensures r.Committed? ==> r.tables == t.(documentRequests := Replace(t.documentRequests, RequestColumns(row), RequestKey))
  {
    if row.id !in RequestIds(t) then ConcurrencyFailure
    else match CheckProject(t, row.projectId)
      case Some(fault) => Failed(fault)
      case None => Committed(t.(documentRequests := Replace(t.documentRequests, RequestColumns(row), RequestKey)), ())
  }

  /** Replacing a row by one with the same key keeps the keys, their order, and the key set. */
  lemma {:induction false} ReplaceRequestKeys(rows: seq<DocumentRequest>, row: DocumentRequest)
    requires StrictlyIncreasing(rows, RequestKey)
    ensures StrictlyIncreasing(Replace(rows, row, RequestKey), RequestKey)
    ensures (set r | r in Replace(rows, row, RequestKey) :: r.id) == (set r | r in rows :: r.id)
    ensures forall r :: r in Replace(rows, row, RequestKey) ==> r in rows || r == row
  {
    var out := Replace(rows, row, RequestKey);
    assert forall i :: 0 <= i < |out| ==> out[i].id == rows[i].id;
    forall r | r in out
      ensures r.id in (set r | r in rows :: r.id)
      ensures r in rows || r == row
    {
      var i :| 0 <= i < |out| && out[i] == r;
      assert rows[i] in rows;
    }
    forall r | r in rows
      ensures r.id in (set r | r in out :: r.id)
    {
      var i :| 0 <= i < |rows| && rows[i] == r;
      assert out[i] in out;
    }
  }

  /** Replacing a request row by flat columns with the same key keeps the keys and the flat rows. */
  lemma {:induction false} ReplacedRequestKeys(t: Tables, cols: DocumentRequest)
    requires Valid(t)
    requires cols == RequestColumns(cols)
    ensures var u := t.(documentRequests := Replace(t.documentRequests, cols, RequestKey));
      KeysValid(u) && RowsFlat(u) && RequestIds(u) == RequestIds(t)
  {
    ReplaceRequestKeys(t.documentRequests, cols);
  }

  /** Replacing a request row by one with the same key and a resolving project keeps every foreign key. */
  lemma {:induction false} ReplacedRequestRefs(t: Tables, cols: DocumentRequest)
    requires ForeignKeysHold(t)
    requires cols.projectId.Some? && cols.projectId.value in ProjectIds(t)
    requires RequestIds(t.(documentRequests := Replace(t.documentRequests, cols, RequestKey))) == RequestIds(t)
    requires forall r :: r in Replace(t.documentRequests, cols, RequestKey) ==> r in t.documentRequests || r == cols
    ensures ForeignKeysHold(t.(documentRequests := Replace(t.documentRequests, cols, RequestKey)))
  {
  }

  /** Replacing a request row by flat columns with the same key and a resolving project keeps the database consistent. */
  lemma {:induction false} ReplacedRequestValid(t: Tables, cols: DocumentRequest)
    requires Valid(t)
    requires cols == RequestColumns(cols)
    requires cols.projectId.Some? && cols.projectId.value in ProjectIds(t)
    ensures var u := t.(documentRequests := Replace(t.documentRequests, cols, RequestKey));
      Valid(u) && RequestIds(u) == RequestIds(t)
  {
    ReplacedRequestKeys(t, cols);
    ReplaceRequestKeys(t.documentRequests, cols);
    ReplacedRequestRefs(t, cols);
  }

  /** An update that keeps the key and satisfies the foreign key keeps the database consistent. */
  lemma {:induction false} SaveModifiedRequestValid(t: Tables, row: DocumentRequest)
    requires Valid(t)
    requires SaveModifiedRequest(t, row).Committed?
    ensures Valid(SaveModifiedRequest(t, row).tables)
    ensures RequestIds(SaveModifiedRequest(t, row).tables) == RequestIds(t)
  {
    var cols := RequestColumns(row);
    assert SaveModifiedRequest(t, row).tables == t.(documentRequests := Replace(t.documentRequests, cols, RequestKey));
    ReplacedRequestValid(t, cols);
  }

  /** Inserting responses with consecutive fresh keys, in list order. */
  function AddResponses(t: Tables, rs: seq<FormResponse>): (r: (Tables, seq<FormResponse>))
    ensures |r.1| == |rs|
    ensures forall i :: 0 <= i < |rs| ==> r.1[i] == rs[i].(id := t.lastResponseId + 1 + i)
    ensures r.0 == t.(formResponses := t.formResponses + r.1, lastResponseId := t.lastResponseId + |rs|)
  {
    var out := seq(|rs|, i requires 0 <= i < |rs| => rs[i].(id := t.lastResponseId + 1 + i));
    (t.(formResponses := t.formResponses + out, lastResponseId := t.lastResponseId + |rs|), out)
  }

  /** Both foreign keys of a response resolve. */
  predicate ResponseRefsResolve(t: Tables, fr: FormResponse) {
    fr.documentRequestId in RequestIds(t) && fr.requestTopicId in TopicIds(t)
  }

  /** `FormResponses.AddRange(rs)` then a save: all rows or, on a dangling reference, none. */
  function SaveNewResponses(t: Tables, rs: seq<FormResponse>): (r: Saved<seq<FormResponse>>)
    ensures r.ConcurrencyFailure? == false
    ensures r.Failed? <==> exists fr :: fr in rs && !ResponseRefsResolve(t, fr)
    ensures r.Committed? ==> (r.tables, r.value) == AddResponses(t, rs)
  {
    if forall fr :: fr in rs ==> ResponseRefsResolve(t, fr) then
      var (u, out) := AddResponses(t, rs);
      Committed(u, out)
    else Failed(ForeignKeyViolation)
  }

  /**
   * A new responses table keeps the database consistent when its keys are in order, within
   * the counter, and its references resolve: no other table refers to a response.
   */
  lemma {:induction false} ResponsesReplacedValid(t: Tables, rows: seq<FormResponse>, last: int)
    requires Valid(t)
    requires t.lastResponseId <= last
    requires StrictlyIncreasing(rows, ResponseKey)
    requires forall fr :: fr in rows ==> 0 < fr.id <= last && ResponseRefsResolve(t, fr)
    ensures Valid(t.(formResponses := rows, lastResponseId := last))
  {
    var u := t.(formResponses := rows, lastResponseId := last);
    assert RequestIds(u) == RequestIds(t) && TopicIds(u) == TopicIds(t) && ProjectIds(u) == ProjectIds(t);
    assert KeysValid(u);
    assert RowsFlat(u);
  }

  /** The responses table after an insert: in key order, within the advanced counter, references resolving. */
  lemma {:induction false} AddResponsesRows(t: Tables, rs: seq<FormResponse>)
    requires 0 <= t.lastResponseId
    requires StrictlyIncreasing(t.formResponses, ResponseKey)
    requires forall fr :: fr in t.formResponses ==> 0 < fr.id <= t.lastResponseId && ResponseRefsResolve(t, fr)
    requires forall fr :: fr in rs ==> ResponseRefsResolve(t, fr)
    ensures var rows := t.formResponses + AddResponses(t, rs).1;
      && StrictlyIncreasing(rows, ResponseKey)
      && forall fr :: fr in rows ==> 0 < fr.id <= t.lastResponseId + |rs| && ResponseRefsResolve(t, fr)
  {
    var out := AddResponses(t, rs).1;
    assert forall i, j :: 0 <= i < j < |out| ==> out[i].id < out[j].id;
    AppendIncreasing(t.formResponses, out, ResponseKey, t.lastResponseId);
    forall fr | fr in t.formResponses + out
      ensures 0 < fr.id <= t.lastResponseId + |rs| && ResponseRefsResolve(t, fr)
    {
      if fr !in t.formResponses {
        var i :| 0 <= i < |out| && out[i] == fr;
        assert rs[i] in rs;
      }
    }
  }

  /** Inserting responses whose references resolve keeps the database consistent. */
  lemma {:induction false} SaveNewResponsesValid(t: Tables, rs: seq<FormResponse>)
    requires Valid(t)
    requires SaveNewResponses(t, rs).Committed?
    ensures Valid(SaveNewResponses(t, rs).tables)
  {
    var (u, out) := AddResponses(t, rs);
    AddResponsesRows(t, rs);
    ResponsesReplacedValid(t, t.formResponses + out, t.lastResponseId + |rs|);
  }

  /**
   * Saving a response attached as Modified: an UPDATE of every column of the row with key
   * `row.id`, subject to both foreign keys.
   */
  function SaveModifiedResponse(t: Tables, row: FormResponse): (r: Saved<()>)
    ensures r.ConcurrencyFailure? <==> row.id !in ResponseIds(t)
    ensures r.Failed? <==> row.id in ResponseIds(t) && !ResponseRefsResolve(t, row)
    ensures r.Committed? ==> r.tables == t.(formResponses := Replace(t.formResponses, row, ResponseKey))
  {
    if row.id !in ResponseIds(t) then ConcurrencyFailure
    else if !ResponseRefsResolve(t, row) then Failed(ForeignKeyViolation)
    else Committed(t.(formResponses := Replace(t.formResponses, row, ResponseKey)), ())
  }

  /** The responses table after an update of an existing key: still in key order, within the counter, references resolving. */
  lemma {:induction false} ReplaceResponseRows(t: Tables, row: FormResponse)
    requires StrictlyIncreasing(t.formResponses, ResponseKey)
    requires forall fr :: fr in t.formResponses ==> 0 < fr.id <= t.lastResponseId && ResponseRefsResolve(t, fr)
    requires row.id in ResponseIds(t) && ResponseRefsResolve(t, row)
    ensures var rows := Replace(t.formResponses, row, ResponseKey);
      && StrictlyIncreasing(rows, ResponseKey)
      && forall fr :: fr in rows ==> 0 < fr.id <= t.lastResponseId && ResponseRefsResolve(t, fr)
  {
    var rows := Replace(t.formResponses, row, ResponseKey);
    forall i | 0 <= i < |rows|
      ensures rows[i].id == t.formResponses[i].id
    {
    }
    forall fr | fr in rows
      ensures 0 < fr.id <= t.lastResponseId && ResponseRefsResolve(t, fr)
    {
      var i :| 0 <= i < |rows| && rows[i] == fr;
      assert t.formResponses[i] in t.formResponses;
    }
  }

  /** A response update that keeps its key and resolves its references keeps the database consistent. */
  lemma {:induction false} SaveModifiedResponseValid(t: Tables, row: FormResponse)
    requires Valid(t)
    requires SaveModifiedResponse(t, row).Committed?
    ensures Valid(SaveModifiedResponse(t, row).tables)
  {
    var rows := Replace(t.formResponses, row, ResponseKey);
    ReplaceResponseRows(t, row);
    ResponsesReplacedValid(t, rows, t.lastResponseId);
    assert t.(formResponses := rows, lastResponseId := t.lastResponseId) == t.(formResponses := rows);
  }

  /** The shared database context: the tables, kept consistent between requests. */
  class DbContext {
    var projects: seq<Project>
    var documentRequests: seq<DocumentRequest>
    var requestTopics: seq<RequestTopic>
    var topicFields: seq<TopicField>
    var formResponses: seq<FormResponse>
    var lastRequestId: int
    var lastTopicId: int
    var lastFieldId: int
    var lastResponseId: int

    /** The current contents of the database. */
    function State(): Tables
      reads this
    {
      Tables(projects, documentRequests, requestTopics, topicFields, formResponses,
             lastRequestId, lastTopicId, lastFieldId, lastResponseId)
    }

    ghost predicate Valid()
      reads this
    {
      Schema.Valid(State())
    }

    /** A context over a freshly migrated database. */
    constructor (projects: seq<Project>)
      requires StrictlyIncreasing(projects, ProjectKey)
      ensures Valid()
      ensures State() == Migrated(projects)
    {
      this.projects := projects;
      documentRequests, requestTopics, topicFields, formResponses := [], [], [], [];
      lastRequestId, lastTopicId, lastFieldId, lastResponseId := 0, 0, 0, 0;
    }

    /** Commits the outcome of a successful save. */
    method Commit(t: Tables)
      requires Schema.Valid(t)
      modifies this
      ensures Valid()
      ensures State() == t
    {
      projects, documentRequests, requestTopics, topicFields, formResponses :=
        t.projects, t.documentRequests, t.requestTopics, t.topicFields, t.formResponses;
      lastRequestId, lastTopicId, lastFieldId, lastResponseId :=
        t.lastRequestId, t.lastTopicId, t.lastFieldId, t.lastResponseId;
    }
  }
}
