/**
 * The client fill-in form (frontend/src/components/ClientForm.jsx): the answers to a
 * request's topics kept as a map from topic id to text, filled from the stored
 * responses, edited one topic at a time, submitted as one batch, and exported as the
 * rows of a spreadsheet.
 */
module ClientForm {
  import opened Wrappers
  import opened Seqs
  import opened Js
  import opened Entities

  /**
   * The answers being edited, by topic id. The page keys a plain object by the id's
   * decimal string; since that string determines the id, the model keys by the id.
   */
  type Answers = map<int, string>

  // ---------------------------------------------------------------------------------
  // Loading and editing
  // ---------------------------------------------------------------------------------

  /** The reference: the stored responses applied in order, each overwriting its topic's answer. */
  function LatestTexts(responses: seq<FormResponse>): Answers
    decreases |responses|
  {
    if responses == [] then map[]
    else
      var last := responses[|responses| - 1];
      LatestTexts(responses[..|responses| - 1])[last.requestTopicId := last.responseText]
  }

  /** A topic has an answer exactly when some response is to it. */
  lemma {:induction false} LatestTextsKeys(responses: seq<FormResponse>)
    ensures forall k :: k in LatestTexts(responses) <==>
      exists i :: 0 <= i < |responses| && responses[i].requestTopicId == k
    decreases |responses|
  {
    if responses != [] {
      var n := |responses| - 1;
      var init := responses[..n];
      LatestTextsKeys(init);
      var m := LatestTexts(responses);
      assert m == LatestTexts(init)[responses[n].requestTopicId := responses[n].responseText];
      forall k | k in m
        ensures exists i :: 0 <= i < |responses| && responses[i].requestTopicId == k
      {
        if k != responses[n].requestTopicId {
          var i :| 0 <= i < |init| && init[i].requestTopicId == k;
          assert responses[i] == init[i];
        }
      }
      forall k | exists i :: 0 <= i < |responses| && responses[i].requestTopicId == k
        ensures k in m
      {
        var i :| 0 <= i < |responses| && responses[i].requestTopicId == k;
        if i < n {
          assert init[i] == responses[i];
        }
      }
    }
  }

  /** The answer a topic has is the text of the last response to it. */
  lemma {:induction false} LatestTextsValue(responses: seq<FormResponse>)
    ensures forall k :: k in LatestTexts(responses) ==>
      exists i :: 0 <= i < |responses| && responses[i].requestTopicId == k
        && LatestTexts(responses)[k] == responses[i].responseText
        && forall j :: i < j < |responses| ==> responses[j].requestTopicId != k
    decreases |responses|
  {
    if responses != [] {
      var n := |responses| - 1;
      var init := responses[..n];
      LatestTextsValue(init);
      var m := LatestTexts(responses);
      assert m == LatestTexts(init)[responses[n].requestTopicId := responses[n].responseText];
      forall k | k in m
        ensures exists i :: (0 <= i < |responses| && responses[i].requestTopicId == k
          && m[k] == responses[i].responseText
          && forall j :: i < j < |responses| ==> responses[j].requestTopicId != k)
      {
        if k == responses[n].requestTopicId {
          assert m[k] == responses[n].responseText;
        } else {
          assert k in LatestTexts(init) && m[k] == LatestTexts(init)[k];
          var i :| 0 <= i < |init| && init[i].requestTopicId == k && LatestTexts(init)[k] == init[i].responseText
            && forall j :: i < j < |init| ==> init[j].requestTopicId != k;
          assert responses[i] == init[i];
          assert forall j :: i < j < n ==> responses[j] == init[j];
        }
      }
    }
  }

  /**
   * A topic has an answer exactly when some response is to it, and the answer is the text
   * of the last response to it.
   */
  lemma {:induction false} LatestTextsLastWins(responses: seq<FormResponse>)
    ensures forall k :: k in LatestTexts(responses) <==>
      exists i :: 0 <= i < |responses| && responses[i].requestTopicId == k
    ensures forall k :: k in LatestTexts(responses) ==>
      exists i :: 0 <= i < |responses| && responses[i].requestTopicId == k
        && LatestTexts(responses)[k] == responses[i].responseText
        && forall j :: i < j < |responses| ==> responses[j].requestTopicId != k
  {
    LatestTextsKeys(responses);
    LatestTextsValue(responses);
  }

  /** Responses stored later override earlier ones: every topic the later ones answer keeps their latest text. */
  lemma {:induction false} LatestTextsAppend(earlier: seq<FormResponse>, later: seq<FormResponse>)
    ensures forall k :: k in LatestTexts(later) ==>
      k in LatestTexts(earlier + later) && LatestTexts(earlier + later)[k] == LatestTexts(later)[k]
    decreases |later|
  {
    if later != [] {
      var n := |later| - 1;
      LatestTextsAppend(earlier, later[..n]);
      assert (earlier + later)[..|earlier + later| - 1] == earlier + later[..n];
    }
  }

  /** Filling the answers from the stored responses, later responses overwriting earlier ones. */
  method ResponsesMap(responses: seq<FormResponse>) returns (responsesMap: Answers)
    ensures responsesMap == LatestTexts(responses)
  {
    responsesMap := map[];
    for i := 0 to |responses|
      invariant responsesMap == LatestTexts(responses[..i])
    {
      assert responses[..i + 1][..i] == responses[..i];
      responsesMap := responsesMap[responses[i].requestTopicId := responses[i].responseText];
    }
    assert responses[..|responses|] == responses;
  }

  /** `handleInputChange(topicId, value)`: the edited topic gets `value`; every other answer stays. */
  function InputChange(answers: Answers, topicId: int, value: string): (r: Answers)
    ensures topicId in r && r[topicId] == value
    ensures forall k :: k != topicId ==> (k in r <==> k in answers)
    ensures forall k :: k != topicId && k in answers ==> r[k] == answers[k]
  {
    answers[topicId := value]
  }

  // ---------------------------------------------------------------------------------
  // Submitting
  // ---------------------------------------------------------------------------------

  /** One element of the submitted batch; `documentRequestId` is `null` when the route id is no number. */
  datatype ResponseDraft = ResponseDraft(documentRequestId: Option<int>, requestTopicId: int, responseText: string)

  /** `formResponses[topic.id] || ''`. */
  function AnswerText(answers: Answers, topicId: int): string {
    if topicId in answers && answers[topicId] != "" then answers[topicId] else ""
  }

  /** `handleSubmit`'s batch: one element per topic of the request, in topic order. */
  function BuildBatch(topics: seq<RequestTopic>, requestId: string, answers: Answers): (r: seq<ResponseDraft>)
    ensures |r| == |topics|
    ensures forall i :: 0 <= i < |r| ==> r[i].documentRequestId == ParseInt(requestId)
  {
    seq(|topics|, i requires 0 <= i < |topics| =>
      ResponseDraft(ParseInt(requestId), topics[i].id, AnswerText(answers, topics[i].id)))
  }

  predicate UniqueTopicIds(topics: seq<RequestTopic>) {
    forall i, j :: 0 <= i < j < |topics| ==> topics[i].id != topics[j].id
  }

  /** The rows a batch turns into: same topics and texts, whatever keys and stamps the store gives them. */
  predicate StoredAs(rows: seq<FormResponse>, batch: seq<ResponseDraft>) {
    |rows| == |batch|
    && forall i :: 0 <= i < |rows| ==>
         rows[i].requestTopicId == batch[i].requestTopicId && rows[i].responseText == batch[i].responseText
  }

  /** The ids of `topics`. */
  function TopicIds(topics: seq<RequestTopic>): set<int> {
    set x | x in topics :: x.id
  }

  /** Each topic's answer as submitted, blank where there is none. */
  function SubmittedAnswers(topics: seq<RequestTopic>, answers: Answers): Answers {
    map t | t in TopicIds(topics) :: AnswerText(answers, t)
  }

  /** Rows that answer `topics` in order with their submitted texts. */
  predicate AnswersInOrder(rows: seq<FormResponse>, topics: seq<RequestTopic>, answers: Answers) {
    |rows| == |topics|
    && forall i :: 0 <= i < |rows| ==>
         rows[i].requestTopicId == topics[i].id && rows[i].responseText == AnswerText(answers, topics[i].id)
  }

  lemma {:induction false} AnswersInOrderLatest(rows: seq<FormResponse>, topics: seq<RequestTopic>, answers: Answers)
    requires AnswersInOrder(rows, topics, answers)
    ensures LatestTexts(rows) == SubmittedAnswers(topics, answers)
    decreases |topics|
  {
    if topics == [] {
      assert TopicIds(topics) == {};
    } else {
      var n := |topics| - 1;
      AnswersInOrderLatest(rows[..n], topics[..n], answers);
      assert TopicIds(topics) == TopicIds(topics[..n]) + {topics[n].id};
    }
  }

  /**
   * Submitting and loading back gives the form its answers again: the answers built from
   * the stored batch are each topic's answer, blank where there was none, and nothing for
   * topics the request does not have.
   */
  lemma {:induction false} BatchRoundTrip(topics: seq<RequestTopic>, requestId: string, answers: Answers, rows: seq<FormResponse>)
    requires StoredAs(rows, BuildBatch(topics, requestId, answers))
    ensures LatestTexts(rows) == SubmittedAnswers(topics, answers)
  {
    AnswersInOrderLatest(rows, topics, answers);
  }

  /** With distinct topic ids, the batch holds exactly one element for each topic. */
  lemma {:induction false} BatchOnePerTopic(topics: seq<RequestTopic>, requestId: string, answers: Answers, i: int)
    requires UniqueTopicIds(topics)
    requires 0 <= i < |topics|
    ensures Count(BuildBatch(topics, requestId, answers), (d: ResponseDraft) => d.requestTopicId == topics[i].id) == 1
  {
    var batch := BuildBatch(topics, requestId, answers);
    CountOnlyAt(batch, i, (d: ResponseDraft) => d.requestTopicId == topics[i].id);
  }

  // ---------------------------------------------------------------------------------
  // Exporting
  // ---------------------------------------------------------------------------------

  /** A spreadsheet cell; `LocaleDate` is a date the browser formats for its locale. */
  datatype Cell = Text(text: string) | Num(n: int) | LocaleDate(at: Time)

  /** The row array and the file name handed to the spreadsheet writer. */
  datatype Workbook = Workbook(rows: seq<seq<Cell>>, filename: string)

  const NoResponse := "(No response provided)"

  /** The column headings of the topic table. */
  function ColumnHeader(): seq<Cell> {
    [Text("#"), Text("Category"), Text("Topic Name"), Text("Label"), Text("Priority"), Text("Description"), Text("Response")]
  }

  /** The six rows above the topic table: title, project, status, creation date, id, blank. */
  function SheetHeader(dr: DocumentRequest): seq<seq<Cell>> {
    [ [Text("Document Request Form")],
      [Text("Project Name:"), Text(dr.projectName)],
      [Text("Status:"), Text(dr.status)],
      [Text("Created Date:"), LocaleDate(dr.createdAt)],
      [Text("Request ID:"), Num(dr.id)],
      [] ]
  }

  /** `formResponses[topic.id] || '(No response provided)'`. */
  function ExportAnswer(answers: Answers, topicId: int): string {
    if topicId in answers && answers[topicId] != "" then answers[topicId] else NoResponse
  }

  /** The row of the topic at `index` (0-based): its number, its columns and its answer. */
  function TopicRow(index: nat, topic: RequestTopic, answers: Answers): seq<Cell> {
    [ Num(index + 1), Text(topic.categoryName), Text(topic.topicName), Text(topic.topicLabel),
      Text(topic.priority), Text(topic.description), Text(ExportAnswer(answers, topic.id)) ]
  }

  /** The download name: the project name with each white-space run made one `_`, then the id. */
  function ExportFilename(projectName: string, id: int): string {
    ReplaceWhitespaceRuns(projectName) + "_Request_" + IntToString(id) + ".xlsx"
  }

  /**
   * `handleExportToExcel`: nothing without a loaded request; otherwise the six header rows,
   * the column headings, then a row per topic pushed in topic order, and the file name.
   */
  method ExportToExcel(documentRequest: Option<DocumentRequest>, answers: Answers) returns (workbook: Option<Workbook>)
    ensures workbook.None? <==> documentRequest.None?
    ensures workbook.Some? ==>
      var dr := documentRequest.value;
      var rows := workbook.value.rows;
      && |rows| == 7 + |dr.topics|
      && rows[..6] == SheetHeader(dr)
      && rows[6] == ColumnHeader()
      && (forall i :: 0 <= i < |dr.topics| ==> rows[7 + i] == TopicRow(i, dr.topics[i], answers))
      && workbook.value.filename == ExportFilename(dr.projectName, dr.id)
  {
    if documentRequest.None? {
      return None;
    }
    var dr := documentRequest.value;
    var excelData := SheetHeader(dr) + [ColumnHeader()];
    for i := 0 to |dr.topics|
      invariant |excelData| == 7 + i
      invariant excelData[..6] == SheetHeader(dr) && excelData[6] == ColumnHeader()
      invariant forall k :: 0 <= k < i ==> excelData[7 + k] == TopicRow(k, dr.topics[k], answers)
    {
      excelData := excelData + [TopicRow(i, dr.topics[i], answers)];
    }
    workbook := Some(Workbook(excelData, ExportFilename(dr.projectName, dr.id)));
  }

  /**
   * Every topic row is as wide as the headings and numbered from 1, and its answer cell is
   * the submitted text, or the placeholder where the submitted text would be blank.
   */
  lemma {:induction false} TopicRowMatchesBatch(topics: seq<RequestTopic>, requestId: string, answers: Answers, i: nat)
    requires i < |topics|
    ensures |TopicRow(i, topics[i], answers)| == |ColumnHeader()|
    ensures TopicRow(i, topics[i], answers)[0] == Num(i + 1)
    ensures var text := BuildBatch(topics, requestId, answers)[i].responseText;
      TopicRow(i, topics[i], answers)[6] == Text(if text == "" then NoResponse else text)
  {
  }

  /** The file name has no white space and ends in ".xlsx". */
  lemma {:induction false} ExportFilenameShape(projectName: string, id: int)
    ensures forall c :: c in ExportFilename(projectName, id) ==> !IsWhitespace(c)
    ensures |ExportFilename(projectName, id)| >= 5
    ensures ExportFilename(projectName, id)[|ExportFilename(projectName, id)| - 5..] == ".xlsx"
  {
    var name, middle, number, extension := ReplaceWhitespaceRuns(projectName), "_Request_", IntToString(id), ".xlsx";
    var stem := name + middle + number;
    assert ExportFilename(projectName, id) == stem + extension;
    assert forall c :: c in middle ==> c == '_' || 'A' <= c <= 'z';
    assert forall c :: c in extension ==> c == '.' || 'a' <= c <= 'z';
    assert forall c :: c in name ==> !IsWhitespace(c) by {
      forall c | c in name ensures !IsWhitespace(c) {
        var i :| 0 <= i < |name| && name[i] == c;
      }
    }
    assert forall c :: c in number ==> !IsWhitespace(c) by {
      forall c | c in number ensures !IsWhitespace(c) {
        var i :| 0 <= i < |number| && number[i] == c;
      }
    }
  }

  /** A project name without white space appears in the file name as it is. */
  lemma {:induction false} ExportFilenameKeepsName(projectName: string, id: int)
    requires forall i :: 0 <= i < |projectName| ==> !IsWhitespace(projectName[i])
    ensures ExportFilename(projectName, id) == projectName + "_Request_" + IntToString(id) + ".xlsx"
  {
    ReplaceWhitespaceRunsIdentity(projectName);
  }

  /** `getPriorityClass(priority)`: the style of a priority badge. */
  function PriorityClass(priority: string): (r: string)
    ensures r == "priority-tier-1" <==> priority == "Tier 1"
    ensures r == "priority-tier-2" <==> priority == "Tier 2"
    ensures r == "priority-tier-3" <==> priority == "Tier 3"
    ensures r == "priority-default" <==> priority != "Tier 1" && priority != "Tier 2" && priority != "Tier 3"
  {
    match priority
    case "Tier 1" => "priority-tier-1"
    case "Tier 2" => "priority-tier-2"
    case "Tier 3" => "priority-tier-3"
    case _ => "priority-default"
  }
}
