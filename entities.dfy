/**
 * The document-request entities (backend/CvApi/Models): plain property bags whose
 * property initialisers give the values a freshly constructed or freshly bound
 * object carries before anything is assigned to it.
 */
module Entities {
  import opened Wrappers

  /** A `DateTime` as a tick count; the clock itself is a parameter wherever it is read. */
  type Time = int

  /** The four statuses the comment on `DocumentRequest.Status` documents; the column accepts any text. */
  predicate IsDocumentedStatus(s: string) {
    s == "Draft" || s == "Sent" || s == "InProgress" || s == "Completed"
  }

  /** The priority tiers documented on `RequestTopic.Priority`. */
  predicate IsPriorityTier(p: string) {
    p == "Priority" || p == "Tier 1" || p == "Tier 2" || p == "Tier 3"
  }

  /** The field kinds documented on `TopicField.FieldType`. */
  predicate IsFieldType(t: string) {
    t == "Text" || t == "Number" || t == "Date" || t == "File" || t == "Dropdown"
  }

  /** The part of a project the request workflow sees: its key and its current title. */
  datatype Project = Project(id: int, title: string)

  /**
   * A request for documents about one project. `projectName` is a text column of its own,
   * never derived from `project`; `project` and `topics` are navigation properties.
   */
  datatype DocumentRequest = DocumentRequest(
    id: int,
    projectId: Option<int>,
    projectName: string,
    status: string,
    createdAt: Time,
    sentAt: Option<Time>,
    completedAt: Option<Time>,
    project: Option<Project>,
    topics: seq<RequestTopic>)

  /** One requested item of a request; `fields` is a navigation property. */
  datatype RequestTopic = RequestTopic(
    id: int,
    documentRequestId: int,
    categoryName: string,
    topicName: string,
    topicLabel: string,
    description: string,
    priority: string,
    isSelected: bool,
    hasFieldRequirements: bool,
    fields: seq<TopicField>)

  /** A structured sub-requirement of a topic; `options` holds a JSON array of dropdown choices. */
  datatype TopicField = TopicField(
    id: int,
    requestTopicId: int,
    fieldName: string,
    fieldType: string,
    isRequired: bool,
    defaultValue: Option<string>,
    options: Option<string>)

  /** A client's free-text answer to one topic of one request. */
  datatype FormResponse = FormResponse(
    id: int,
    documentRequestId: int,
    requestTopicId: int,
    responseText: string,
    createdAt: Time,
    updatedAt: Option<Time>)

  /** `new DocumentRequest()` at time `now`. */
  function NewDocumentRequest(now: Time): (r: DocumentRequest)
    ensures r.status == "Draft" && IsDocumentedStatus(r.status)
    ensures r.projectId.None? && r.projectName == ""
    ensures r.createdAt == now && r.sentAt.None? && r.completedAt.None?
    ensures r.project.None? && r.topics == []
  {
    DocumentRequest(0, None, "", "Draft", now, None, None, None, [])
  }

  /** `new RequestTopic()`. */
  function NewRequestTopic(): (t: RequestTopic)
    ensures t.priority == "Priority" && IsPriorityTier(t.priority)
    ensures t.categoryName == "" && t.topicName == "" && t.topicLabel == "" && t.description == ""
    ensures !t.isSelected && !t.hasFieldRequirements && t.fields == []
  {
    RequestTopic(0, 0, "", "", "", "", "Priority", false, false, [])
  }

  /** `new TopicField()`. */
  function NewTopicField(): (f: TopicField)
    ensures f.fieldType == "Text" && IsFieldType(f.fieldType)
    ensures f.fieldName == "" && !f.isRequired
    ensures f.defaultValue.None? && f.options.None?
  {
    TopicField(0, 0, "", "Text", false, None, None)
  }

  /** `new FormResponse()` at time `now`. */
  function NewFormResponse(now: Time): (r: FormResponse)
    ensures r.responseText == "" && r.createdAt == now && r.updatedAt.None?
  {
    FormResponse(0, 0, 0, "", now, None)
  }
}
