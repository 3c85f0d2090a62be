# Document requests: a verified model

This project models the document-request workflow of a CV/portfolio site. On the back end it covers four stored entities and their migrated tables:

- a **document request**: a project's request for documents, with a status and timestamps;
- its **request topics**: one per document category and topic, each with a priority tier and a selection flag;
- the **topic fields** of each topic;
- the **form responses** a client gives per topic.

Two controllers serve these tables over HTTP:

- `DocumentRequestsController`: list, get, list by project, create, update, delete;
- `FormResponsesController`: list, get, list by request, create, create a batch, update, delete.

On the front end it covers three pages:

- the request builder page (`DocumentRequest.jsx`): toggle topics, change priorities, filter, group by category, and build the create payload;
- the client form (`ClientForm.jsx`): reload earlier answers, edit them, submit them as a batch, export a spreadsheet, and map priorities to CSS classes;
- the home page's skill grouping and social links (`Home.jsx`).

Modules:

- **Entities**: the entity records and their initial values.
- **Schema**: the tables, their keys and foreign keys, and the cascading and restricting deletes of the two migrations.
- **Store**: SQLite saves, each of which commits as a whole or fails with the constraint it violates, plus a `DbContext` class holding the current tables.
- **Actions**: the HTTP results.
- **DocumentRequestsController** and **FormResponsesController**: the two controllers, each action a method on the `DbContext`.
- **Js**: the JavaScript semantics the pages rely on: `parseInt`, number-to-string, `/\s+/g` replacement, truthiness, `||` and property keys.
- **RequestBuilder**, **ClientForm** and **Home**: the three pages.
- **Workflow**: the pages and the controllers together. It covers the create request from the builder page, and a client's submission followed by the reload of the form, each through the model validation that runs before the action.
- **Binding**: ASP.NET model validation of a request body: the implicit `[Required]` that refuses a blank non-nullable string.
- **Seqs**, **Ordering**, **Grouping** and **Wrappers**: generic helpers for filtering, stable sorting, the JavaScript group-into-an-object idiom, and Option.

Where the entity class and the migration disagree, the model follows what runs against the database, which is the migration:

- `DocumentRequest.ProjectId` is declared `int?` in the entity, but the `ProjectId` column is created NOT NULL.
- So a request created without a project id fails with a NOT NULL fault, and the controller turns that into a 500.
- The builder page sends `parseInt(id)`, which for the route `new` is NaN and goes over the wire as `null`. `Workflow.WordRouteRejected` proves that this create always fails.

The model also follows the code, not the declared intent, on column lengths. The declared maximum lengths are not enforced anywhere in the code: SQLite does not check `TEXT` lengths and EF Core does not validate `MaxLength` on save. They are kept as predicates only (`Schema.FitsDocumentRequestColumns` and the others), not as failures.

## Model

| member | source | states |
|---|---|---|
| Entities.NewDocumentRequest | backend/CvApi/Models/DocumentRequest.cs:3-16 | a new request is a "Draft" (a documented status), with no project, an empty project name, created now, never sent or completed, and no topics |
| Entities.NewRequestTopic | backend/CvApi/Models/RequestTopic.cs:3-18 | a new topic has priority "Priority" (a documented tier), empty texts, is unselected, has no field requirements and no fields |
| Entities.NewTopicField | backend/CvApi/Models/TopicField.cs:3-15 | a new field is of type "Text" (a documented type), unnamed, optional, with no default and no options |
| Entities.NewFormResponse | backend/CvApi/Models/FormResponse.cs:3-15 | a new response has empty text, is created now and has never been updated |
| Schema.Migrated | backend/CvApi/Migrations/20251104211824_AddDocumentRequestSystem.cs:14-86 | after the migrations the four new tables are empty and the database satisfies its keys and foreign keys |
| Schema.RemoveProject | backend/CvApi/Migrations/20251104211824_AddDocumentRequestSystem.cs:30-35 | deleting a project is refused exactly when a request refers to it; otherwise only that project goes |
| Schema.RemoveProjectValid | backend/CvApi/Migrations/20251104211824_AddDocumentRequestSystem.cs:30-35 | a permitted project delete keeps every foreign key valid and removes the project's id |
| Schema.RemoveTopicsValid | backend/CvApi/Migrations/20251104211824_AddDocumentRequestSystem.cs:80-85 | removing topics, cascading to their fields and responses, keeps keys and foreign keys valid |
| Schema.RemoveTopicsKeys | backend/CvApi/Migrations/20251104211824_AddDocumentRequestSystem.cs:79-85 | removing topics with their cascaded rows keeps every table's keys increasing |
| Schema.RemoveTopicsForeignKeys | backend/CvApi/Migrations/20251104213245_AddFormResponses.cs:35-40 | after removing topics, every surviving field and response still refers to a surviving topic |
| Schema.RemoveRequestValid | backend/CvApi/Migrations/20251104211824_AddDocumentRequestSystem.cs:56-61 | deleting a request, cascading to its topics, their fields and its responses, leaves a valid database |
| Schema.RemoveRequestForeignKeys | backend/CvApi/Migrations/20251104213245_AddFormResponses.cs:29-40 | after the cascade every remaining request, topic, field and response refers only to rows that remain |
| Schema.OtherTopicSurvives | backend/CvApi/Migrations/20251104211824_AddDocumentRequestSystem.cs:56-61 | a topic of another request is not among the deleted request's topics |
| Schema.RemoveRequestExact | backend/CvApi/Migrations/20251104211824_AddDocumentRequestSystem.cs:56-61 | the cascade removes exactly the request's own topics and keeps every topic of another request |
| Schema.RemoveResponseValid | backend/CvApi/Controllers/FormResponsesController.cs:116-118 | deleting a response keeps the database valid, removes that id and keeps every other response |
| Store.TopicRows | backend/CvApi/Migrations/20251104211824_AddDocumentRequestSystem.cs:38-52 | the stored topic rows are the topics' columns, one per topic, in order |
| Store.KeyFields | backend/CvApi/Migrations/20251104211824_AddDocumentRequestSystem.cs:68-70 | inserted fields get consecutive new ids and their topic's id, and keep all else |
| Store.KeyTopics | backend/CvApi/Migrations/20251104211824_AddDocumentRequestSystem.cs:42-44 | inserted topics get consecutive new ids and the new request's id, and keep all else |
| Store.KeyTopicsFieldKeys | backend/CvApi/Migrations/20251104211824_AddDocumentRequestSystem.cs:68-69 | the fields of all inserted topics get consecutive ids from the next autoincrement value |
| Store.KeyTopicsFieldParents | backend/CvApi/Migrations/20251104211824_AddDocumentRequestSystem.cs:80-85 | every inserted field refers to the topic it was nested in |
| Store.ProjectOf | backend/CvApi/Controllers/DocumentRequestsController.cs:36 | the included project is the stored project with the request's project id, or none when there is no such project |
| Store.FindRequest | backend/CvApi/Controllers/DocumentRequestsController.cs:33-37 | a lookup by id finds nothing exactly when no row has that id, and otherwise a stored row with that id |
| Store.FindResponse | backend/CvApi/Controllers/FormResponsesController.cs:32-35 | a lookup by id finds nothing exactly when no row has that id, and otherwise a stored row with that id |
| Store.FindTopic | backend/CvApi/Controllers/FormResponsesController.cs:49 | the topic a response includes is the stored topic with its id, or none |
| Store.TopicsWithFields | backend/CvApi/Controllers/DocumentRequestsController.cs:34-35 | a request is loaded with each of its topics, in stored order, each with exactly its own fields |
| Store.CheckProject | backend/CvApi/Migrations/20251104211824_AddDocumentRequestSystem.cs:20-35 | a request row is accepted exactly when its project id is present and names a stored project |
| Store.SaveNewGraph | backend/CvApi/Controllers/DocumentRequestsController.cs:68-69 | saving a new request fails exactly when the project check fails; on success the request gets the next id and keeps everything it was given except ids |
| Store.SaveNewGraphInserts | backend/CvApi/Controllers/DocumentRequestsController.cs:68-69 | a committed create appends the request row, its topics under consecutive new ids and their fields under consecutive new ids, each pointing at its parent |
| Store.InsertGraphKeys | backend/CvApi/Migrations/20251104211824_AddDocumentRequestSystem.cs:18-19 | after the insert every table's keys still increase |
| Store.InsertGraphForeignKeys | backend/CvApi/Migrations/20251104211824_AddDocumentRequestSystem.cs:30-85 | after the insert every request, topic and field refers to an existing parent |
| Store.SaveNewGraphValid | backend/CvApi/Controllers/DocumentRequestsController.cs:68-69 | any outcome of a create leaves a valid database |
| Store.SaveNewGraphThenLoad | backend/CvApi/Controllers/DocumentRequestsController.cs:33-37 | after a create, looking up the new id finds the stored row, and loading its topics gives back exactly the saved topics with their fields |
| Store.Replace | backend/CvApi/Controllers/DocumentRequestsController.cs:90-94 | an update rewrites the row with the same key and leaves every other row in place |
| Store.ReplaceRequestKeys | backend/CvApi/Controllers/DocumentRequestsController.cs:90-94 | an update keeps the set of ids and their order |
| Store.SaveModifiedRequest | backend/CvApi/Controllers/DocumentRequestsController.cs:90-94 | an update is a concurrency failure exactly when the row is missing; it fails exactly when the row exists but the project check fails; otherwise it replaces the row's columns |
| Store.SaveModifiedRequestValid | backend/CvApi/Controllers/DocumentRequestsController.cs:90-94 | an update of a request keeps the database valid and its set of request ids |
| Store.AddResponses | backend/CvApi/Controllers/FormResponsesController.cs:74-75 | added responses get consecutive new ids, in order, and are appended to the table |
| Store.SaveNewResponses | backend/CvApi/Controllers/FormResponsesController.cs:74-75 | adding responses fails exactly when one of them refers to a missing request or topic; otherwise all of them are added |
| Store.SaveNewResponsesValid | backend/CvApi/Controllers/FormResponsesController.cs:74-75 | any outcome of adding responses leaves a valid database |
| Store.SaveModifiedResponse | backend/CvApi/Controllers/FormResponsesController.cs:89-93 | an update of a response is a concurrency failure exactly when it is missing, fails exactly when its references do not resolve, and otherwise replaces it |
| Store.SaveModifiedResponseValid | backend/CvApi/Controllers/FormResponsesController.cs:89-93 | an update of a response keeps the database valid |
| Store.DbContext.constructor | backend/CvApi/Migrations/20251104213245_AddFormResponses.cs:12-52 | a fresh context holds the migrated, valid database |
| Store.DbContext.Commit | backend/CvApi/Controllers/DocumentRequestsController.cs:69 | a save installs the committed tables, which must be valid, so the context stays valid |
| Actions.StatusCode | backend/CvApi/Controllers/DocumentRequestsController.cs:71-78 | every result has an HTTP status; it is a success exactly for Ok, Created and NoContent, and it is 500 exactly for an error body or an unhandled exception |
| Ordering.SortBy | backend/CvApi/Controllers/DocumentRequestsController.cs:26 | ordering a list gives a permutation of it |
| Ordering.SortBySorted | backend/CvApi/Controllers/DocumentRequestsController.cs:26 | under a total preorder the ordered list is sorted |
| Ordering.OrdinalLeTotal | backend/CvApi/Controllers/FormResponsesController.cs:51-52 | ordinal string comparison relates any two strings |
| Ordering.OrdinalLeAntisymmetric | backend/CvApi/Controllers/FormResponsesController.cs:51-52 | two strings each at most the other are equal |
| Ordering.OrdinalLeTransitive | backend/CvApi/Controllers/FormResponsesController.cs:51-52 | ordinal string comparison is transitive |
| Ordering.PairLeTotalPreorder | backend/CvApi/Controllers/FormResponsesController.cs:51-52 | ordering by category then by topic name is a total preorder |
| DocumentRequestsController.NewestFirstTotalPreorder | backend/CvApi/Controllers/DocumentRequestsController.cs:26 | newest-first by creation time is a total preorder |
| DocumentRequestsController.LoadAll | backend/CvApi/Controllers/DocumentRequestsController.cs:22-27 | each listed row is loaded with its topics, fields and, when included, its project |
| DocumentRequestsController.GetDocumentRequests | backend/CvApi/Controllers/DocumentRequestsController.cs:19-28 | the list holds every stored request, loaded, each exactly once, newest first |
| DocumentRequestsController.GetDocumentRequest | backend/CvApi/Controllers/DocumentRequestsController.cs:30-45 | Not Found exactly when no request has the id; otherwise the row stored under that id, every column as stored, with its topics, their fields and its project |
| DocumentRequestsController.LoadedOfProject | backend/CvApi/Controllers/DocumentRequestsController.cs:47-56 | every loaded request of a project has that project id and no included project |
| DocumentRequestsController.GetDocumentRequestsByProject | backend/CvApi/Controllers/DocumentRequestsController.cs:47-56 | exactly the project's requests, one entry per row, without the project included, newest first |
| DocumentRequestsController.DocumentRequestExists | backend/CvApi/Controllers/DocumentRequestsController.cs:123-126 | true exactly when a request has the id |
| DocumentRequestsController.PostDocumentRequest | backend/CvApi/Controllers/DocumentRequestsController.cs:58-80 | the create stamps now and drops the project object; it answers with an error body (500) exactly when the project id is missing or unknown, leaving the database as it was; otherwise Created with the saved request, which is now stored |
| DocumentRequestsController.PutDocumentRequest | backend/CvApi/Controllers/DocumentRequestsController.cs:82-106 | Bad Request exactly on an id mismatch; Not Found exactly when the row is missing; an unhandled update exception exactly when the project check fails; otherwise No Content with the row's columns replaced. Only No Content changes the database |
| DocumentRequestsController.DeleteDocumentRequest | backend/CvApi/Controllers/DocumentRequestsController.cs:108-121 | Not Found (no change) exactly when the id is missing; otherwise No Content with the request and everything cascading from it removed |
| DocumentRequestsController.PostThenGet | backend/CvApi/Controllers/DocumentRequestsController.cs:58-80 | fetching a just-created request returns what the create returned, with its project included |
| DocumentRequestsController.ReplaceRequestFinds | backend/CvApi/Controllers/DocumentRequestsController.cs:90 | after an update, a lookup of its id finds the new row |
| DocumentRequestsController.PutThenGet | backend/CvApi/Controllers/DocumentRequestsController.cs:82-106 | after an update, a fetch returns the new columns with the topics already stored (topics in the body are ignored) |
| DocumentRequestsController.DeleteThenGet | backend/CvApi/Controllers/DocumentRequestsController.cs:108-121 | after a delete the request is not found and no topic or response of it remains |
| FormResponsesController.LaterFirstTotalPreorder | backend/CvApi/Controllers/FormResponsesController.cs:25 | latest-first by creation time is a total preorder |
| FormResponsesController.GetFormResponses | backend/CvApi/Controllers/FormResponsesController.cs:19-27 | the list is a permutation of the stored responses, latest first |
| FormResponsesController.GetFormResponse | backend/CvApi/Controllers/FormResponsesController.cs:29-43 | Not Found exactly when no response has the id; otherwise the stored response with that id |
| FormResponsesController.ByTopicTotalPreorder | backend/CvApi/Controllers/FormResponsesController.cs:51-52 | ordering responses by their topic's category and then topic name is a total preorder |
| FormResponsesController.GetFormResponsesByRequest | backend/CvApi/Controllers/FormResponsesController.cs:45-54 | exactly the request's responses, each once, sorted by their topic's category and name |
| FormResponsesController.Stamped | backend/CvApi/Controllers/FormResponsesController.cs:69-72 | each response gets creation time now and keeps all else |
| FormResponsesController.StampCreatedAt | backend/CvApi/Controllers/FormResponsesController.cs:69-72 | the loop stamps every element of the array in place |
| FormResponsesController.PropagateKeys | backend/CvApi/Controllers/FormResponsesController.cs:74-77 | after the save the caller's list holds the generated ids |
| FormResponsesController.PostFormResponse | backend/CvApi/Controllers/FormResponsesController.cs:56-64 | an unhandled update exception, with no change, exactly when the response refers to a missing request or topic; otherwise Created with the stamped response under a new id, now stored |
| FormResponsesController.PostFormResponsesBatch | backend/CvApi/Controllers/FormResponsesController.cs:66-78 | the batch is stamped and saved as a whole: Ok with all of them under new ids, or an unhandled exception with nothing saved |
| FormResponsesController.FormResponseExists | backend/CvApi/Controllers/FormResponsesController.cs:122-125 | true exactly when a response has the id |
| FormResponsesController.PutFormResponse | backend/CvApi/Controllers/FormResponsesController.cs:80-105 | Bad Request exactly on an id mismatch; Not Found exactly when missing; a foreign-key exception exactly when its references do not resolve; otherwise No Content with the response, stamped as updated now, replacing the stored one |
| FormResponsesController.DeleteFormResponse | backend/CvApi/Controllers/FormResponsesController.cs:107-120 | Not Found (no change) exactly when the id is missing; otherwise No Content with that response removed |
| FormResponsesController.BatchAccumulates | backend/CvApi/Controllers/FormResponsesController.cs:66-78 | a committed batch leaves a request's earlier responses in place and appends its new ones, so the count grows by the batch's responses to it |
| FormResponsesController.RekeyedCount | backend/CvApi/Controllers/FormResponsesController.cs:74-75 | assigning ids does not change how many responses address a request |
| FormResponsesController.PostThenGet | backend/CvApi/Controllers/FormResponsesController.cs:56-64 | fetching a just-created response returns it |
| Js.DigitValue | frontend/src/components/ClientForm.jsx:66 | a character's digit value is below 10 exactly for decimal digits |
| Js.TrimStart | frontend/src/components/ClientForm.jsx:66 | `parseInt` skips exactly the leading whitespace |
| Js.DigitPrefix | frontend/src/components/ClientForm.jsx:66 | `parseInt` reads the longest prefix of digits |
| Js.ParseIntNoDigits | frontend/src/components/DocumentRequest.jsx:209 | a string starting with anything but whitespace, a sign or a digit parses to NaN |
| Js.DecimalDigit | frontend/src/components/ClientForm.jsx:140 | each digit value is written as its character |
| Js.NatToString | frontend/src/components/ClientForm.jsx:140 | a number is written as a non-empty string of digits whose value is that number |
| Js.IntToString | frontend/src/components/ClientForm.jsx:140 | an integer is written as digits with an optional minus sign |
| Js.AllDigitsPrefix | frontend/src/components/ClientForm.jsx:66 | on a string of digits the digit prefix is the whole string |
| Js.ParseUnsignedOfNatToString | frontend/src/components/ClientForm.jsx:66 | reading back a written natural number gives the number |
| Js.ParseSignedNegative | frontend/src/components/ClientForm.jsx:66 | a written negative number reads back as itself |
| Js.ParseSignedNonNegative | frontend/src/components/ClientForm.jsx:66 | a written non-negative number reads back as itself |
| Js.ParseIntOfIntToString | frontend/src/components/ClientForm.jsx:66 | `parseInt` of an integer's decimal string is that integer |
| Js.TrimStartSkips | frontend/src/components/ClientForm.jsx:66 | leading whitespace does not change what remains after trimming |
| Js.ParseIntSkipsWhitespace | frontend/src/components/ClientForm.jsx:66 | leading whitespace does not change what `parseInt` returns |
| Js.ReplaceWhitespaceRuns | frontend/src/components/ClientForm.jsx:140 | `replace(/\s+/g, '_')` leaves no whitespace and never lengthens the string |
| Js.StepwiseSkipsRun | frontend/src/components/ClientForm.jsx:140 | inside a whitespace run the rest of the run adds nothing |
| Js.ReplaceWhitespaceRunsStepwise | frontend/src/components/ClientForm.jsx:140 | the replacement agrees with a character-by-character reference that emits one underscore per run |
| Js.ReplaceWhitespaceRunsIdentity | frontend/src/components/ClientForm.jsx:140 | a string without whitespace is unchanged |
| Js.Or | frontend/src/components/Home.jsx:79 | `a \|\| b` is truthy exactly when either operand is |
| RequestBuilder.ToggleTopic | frontend/src/components/DocumentRequest.jsx:162-166 | the entries with the id flip their selection and change nothing else; the other entries are unchanged |
| RequestBuilder.ToggleTwice | frontend/src/components/DocumentRequest.jsx:162-166 | toggling twice gives back the original list |
| RequestBuilder.ToggleSelectedCount | frontend/src/components/DocumentRequest.jsx:162-166 | a toggle moves the entries with that id into or out of the selection, and the count changes accordingly |
| RequestBuilder.ToggleChangesCountByOne | frontend/src/components/DocumentRequest.jsx:196 | with unique ids a toggle changes the selected count by exactly one, in the right direction |
| RequestBuilder.ChangePriority | frontend/src/components/DocumentRequest.jsx:168-172 | the entries with the id take the new priority and change nothing else; the other entries are unchanged |
| RequestBuilder.ChangePriorityKeepsSelection | frontend/src/components/DocumentRequest.jsx:168-172 | a priority change does not change the selected count |
| RequestBuilder.ChangePriorityLaterWins | frontend/src/components/DocumentRequest.jsx:168-172 | the later of two priority changes wins, and toggling commutes with a priority change |
| RequestBuilder.SelectedCount | frontend/src/components/DocumentRequest.jsx:196 | selected and unselected entries together are all entries |
| RequestBuilder.FilteredTopics | frontend/src/components/DocumentRequest.jsx:174-182 | "selected" keeps exactly the selected entries, "non-selected" exactly the others, and any other mode everything |
| RequestBuilder.FilterModesPartition | frontend/src/components/DocumentRequest.jsx:174-182 | the two filtered views split the list: together they hold every entry, with its multiplicity |
| RequestBuilder.GroupByCategoryMembers | frontend/src/components/DocumentRequest.jsx:184-194 | the groups are exactly the categories of the entries, and an entry is in a group exactly when it has that category |
| RequestBuilder.AddTopic | frontend/src/components/DocumentRequest.jsx:187-192 | the callback appends the entry to its category's array, opening the array on first use, and changes no other category |
| RequestBuilder.GroupEntries | frontend/src/components/DocumentRequest.jsx:186-193 | the loop over the list builds exactly its grouping by category |
| RequestBuilder.TopicsByCategory | frontend/src/components/DocumentRequest.jsx:184-194 | the categories built from the filtered list are its grouping: each category with its entries in list order |
| RequestBuilder.CategorySizesSum | frontend/src/components/DocumentRequest.jsx:184-194 | the group sizes add up to the number of entries grouped |
| RequestBuilder.RequestPayload | frontend/src/components/DocumentRequest.jsx:199-222 | nothing is sent exactly when no topic is selected; otherwise a Draft for the parsed route id and the chosen project name, whose topics are the selected entries' payloads in list order |
| RequestBuilder.RequestPayloadTopics | frontend/src/components/DocumentRequest.jsx:208-222 | every payload topic is the payload of a selected entry (its fields copied under the API names, selected, with no topic fields), and every selected entry has its payload in the body |
| RequestBuilder.MockTopics | frontend/src/components/DocumentRequest.jsx:30-141 | the catalogue has its eleven fixed entries |
| RequestBuilder.MockTopicsUniqueIds | frontend/src/components/DocumentRequest.jsx:30-141 | the catalogue's ids are distinct |
| RequestBuilder.MockTopicsPriorities | frontend/src/components/DocumentRequest.jsx:30-141 | every catalogue entry has a documented priority tier |
| RequestBuilder.MockTopicsReady | frontend/src/components/DocumentRequest.jsx:30-141 | five catalogue entries start selected, so a request can be created straight away |
| ClientForm.LatestTextsKeys | frontend/src/components/ClientForm.jsx:31-35 | a topic has a reloaded answer exactly when some stored response is to it |
| ClientForm.LatestTextsValue | frontend/src/components/ClientForm.jsx:31-35 | a reloaded answer is the text of the last stored response to its topic |
| ClientForm.LatestTextsLastWins | frontend/src/components/ClientForm.jsx:31-35 | the reloaded answers have a key exactly for each answered topic, holding that topic's last response |
| ClientForm.LatestTextsAppend | frontend/src/components/ClientForm.jsx:31-35 | responses listed later override earlier ones for the same topic |
| ClientForm.ResponsesMap | frontend/src/components/ClientForm.jsx:31-35 | the loop builds the last-response-wins map |
| ClientForm.InputChange | frontend/src/components/ClientForm.jsx:52-57 | an edit sets that topic's answer and keeps every other answer |
| ClientForm.BuildBatch | frontend/src/components/ClientForm.jsx:65-69 | one response per topic, in order, each for the parsed request id |
| ClientForm.AnswersInOrderLatest | frontend/src/components/ClientForm.jsx:31-35 | reloading responses stored one per topic in order gives back the submitted answers |
| ClientForm.BatchRoundTrip | frontend/src/components/ClientForm.jsx:65-69 | reloading a stored batch gives each topic the text submitted for it, empty when unanswered |
| ClientForm.BatchOnePerTopic | frontend/src/components/ClientForm.jsx:65-69 | with distinct topic ids the batch holds exactly one response per topic |
| ClientForm.ExportToExcel | frontend/src/components/ClientForm.jsx:92-147 | nothing is exported without a request; otherwise six header rows, the column header, one row per topic in order, and the file name built from the project name and the id |
| ClientForm.TopicRowMatchesBatch | frontend/src/components/ClientForm.jsx:109-119 | each topic row is numbered from one and shows the submitted text, or the placeholder when it is empty |
| ClientForm.ExportFilenameShape | frontend/src/components/ClientForm.jsx:140 | the file name has no whitespace and ends in ".xlsx" |
| ClientForm.ExportFilenameKeepsName | frontend/src/components/ClientForm.jsx:140 | a project name without whitespace is kept verbatim in the file name |
| ClientForm.PriorityClass | frontend/src/components/ClientForm.jsx:149-156 | each tier maps to its own class, and anything else to the default class |
| Grouping.GroupByAppend | frontend/src/components/Home.jsx:87-91 | pushing one more element onto its key's array, opened on first use, extends the grouping by that element |
| Grouping.GroupByMembers | frontend/src/components/Home.jsx:74-92 | the groups are exactly the keys of the kept elements, each group is non-empty, and holds exactly the projections of the kept elements with that key |
| Grouping.GroupSizesSum | frontend/src/components/DocumentRequest.jsx:184-194 | the group sizes over all keys add up to the number of kept elements |
| Home.KeptIsObject | frontend/src/components/Home.jsx:75-86 | every skill the grouping keeps is an object |
| Home.AddSkill | frontend/src/components/Home.jsx:74-91 | the callback skips an absent skill or one without a category, and otherwise appends the normalised skill to its category's array |
| Home.SkillsByCategory | frontend/src/components/Home.jsx:74-92 | an array of skills is folded into the reference grouping; anything else gives no groups |
| Home.SkillGroupsMembers | frontend/src/components/Home.jsx:74-92 | a group exists exactly for a category some kept skill has; it holds exactly those skills normalised and is never empty |
| Home.NormalisedFields | frontend/src/components/Home.jsx:90 | a normalised skill reads back its category, name and id, under either spelling, through the camelCase names |
| Home.Present | frontend/src/components/Home.jsx:146 | `.filter(Boolean)` keeps exactly the present links |
| Home.PresentOfThree | frontend/src/components/Home.jsx:127-146 | of three candidates, the present ones are kept in order |
| Home.SocialLinks | frontend/src/components/Home.jsx:127-146 | at most three links, exactly the present candidates |
| Home.SocialLinksOrder | frontend/src/components/Home.jsx:127-146 | the links come in the order email, LinkedIn, GitHub |
| Home.SocialLinksExactly | frontend/src/components/Home.jsx:127-146 | a link is shown exactly when it is one of the three candidates and that candidate is present |
| Home.SocialLinksKinds | frontend/src/components/Home.jsx:127-146 | there is a link of each kind exactly when the profile has a truthy value for it under either spelling |
| Home.SocialLinksTargets | frontend/src/components/Home.jsx:127-146 | the email link opens "mailto:" and the address in the same tab; LinkedIn and GitHub open the stored URL in a new tab |
| Workflow.CreateStoresSelection | frontend/src/components/DocumentRequest.jsx:199-230 | a committed create from the builder stores a Draft for the parsed route id, created now, holding exactly the selected topics in order, each carrying its entry's fields and no topic fields |
| Workflow.UnparsableRouteRejected | backend/CvApi/Migrations/20251104211824_AddDocumentRequestSystem.cs:20 | when the route id does not parse, the create fails with a NOT NULL fault on the project id and answers 500 |
| Workflow.WordRouteRejected | frontend/src/components/DocumentRequest.jsx:147 | creating from the route `new` always fails |
| Workflow.PayloadPasses | backend/CvApi/Models/DocumentRequest.cs:7-8 | the builder's body passes model validation exactly when the project name is not blank and every selected entry has non-blank category, name, label, description and priority |
| Workflow.CreateRequest | frontend/src/components/DocumentRequest.jsx:199-230 | no call and no change exactly when nothing is selected; Bad Request exactly when the project name or a text of a selected entry is blank; otherwise an error exactly when the route id names no project, and Created when the create's save commits, the database then holding exactly the saved tables and the result being the saved request with the selection; the tables change only on Created |
| Workflow.BindBatchAllowingBlank | frontend/src/components/ClientForm.jsx:239 | with blank answers accepted, a batch binds exactly when every element has a request id; bound responses keep their ids and texts |
| Workflow.BindBatch | backend/CvApi/Models/FormResponse.cs:6-8 | a batch binds exactly when every element has a request id (a NaN id does not bind) and a non-blank text; bound responses keep their ids and texts and all pass validation |
| Workflow.BoundSubmission | frontend/src/components/ClientForm.jsx:65-69 | the bound batch of a numeric request id with every topic answered has one response per topic addressed to that request, with the answer text |
| Workflow.ResponsesAfterBatch | backend/CvApi/Controllers/FormResponsesController.cs:66-78 | after a batch addressed to one request, that request's responses are the earlier ones followed by the batch |
| Workflow.SubmitThenReload | frontend/src/components/ClientForm.jsx:31-69 | after a committed submission with every topic answered, reloading gives every topic the text just submitted; with no earlier responses it gives exactly the submitted answers |
| Workflow.BatchBinds | frontend/src/components/ClientForm.jsx:65-69 | the submission fails to bind exactly when there is a topic and either the request id does not parse or some topic's answer is blank |
| Workflow.BlankInBatch | frontend/src/components/ClientForm.jsx:65-69 | an element of the submitted batch is blank exactly when some topic's answer is blank |
| Workflow.AnswersStored | backend/CvApi/Controllers/FormResponsesController.cs:66-78 | a committed batch answering the topics in order is stored as the form built it, addressed to the request, after its earlier responses |
| Workflow.ReloadAfterAnswers | frontend/src/components/ClientForm.jsx:31-69 | after such a batch, the request's responses read back give every topic its answer, and exactly the submitted answers on a first submission |
| Workflow.UnansweredTopicRefused | frontend/src/components/ClientForm.jsx:68 | a submission with a topic left unanswered never binds |
| Workflow.OptionalAnswersBind | frontend/src/components/ClientForm.jsx:239 | with blank answers accepted, the form's batch for a request always binds, one response per topic in order, "" for an unanswered topic |
| Workflow.CommittedBatchStoredAs | backend/CvApi/Controllers/FormResponsesController.cs:74-77 | a committed batch stores one response per element, with its topic and text, in order |
| Workflow.SubmitAnswers | frontend/src/components/ClientForm.jsx:59-83 | Bad Request exactly when there is a topic and the id does not parse or some answer is blank; the database changes only on Ok, when it holds exactly the tables of the committed save of the bound batch, which stores the answers one per topic, in order |

## Findings

| source | as written | input that shows it | evidently intended | confidence | as-written member | corrected member |
|---|---|---|---|---|---|---|
| backend/CvApi/Models/FormResponse.cs:8 | `ResponseText` is a non-nullable `string`, so model validation refuses an empty text with 400, while the form labels every answer "(Optional)" and sends `''` for a topic left unanswered (frontend/src/components/ClientForm.jsx:68, 239) | a request with two topics where the client answers only the first: the whole batch is refused and nothing is saved | a blank answer is accepted and stored as "" | high; not executed | Workflow.UnansweredTopicRefused | Workflow.OptionalAnswersBind |

## Left out

- Network and API client (`services/api.js`): the pages call the controller actions directly with values.
- React state, effects, alerts, modals, navigation, success messages and timers: the page handlers are functions or methods over the values the state holds.
- The builder's default project name and the project fetch (`getProject`): the chosen project name is a parameter.
- JSON serialisation: NaN is taken to arrive as `null`, and property order in objects is not modelled (maps).
- Request-body validation by ASP.NET model binding: the implicit `[Required]` on non-nullable strings is modelled (module Binding) for the two bodies the pages send, the create body and the response batch. The controller actions themselves take bodies that passed binding. Numbers outside the 32-bit range of an `int` property are refused by binding too, which the model does not capture.
- Store: client-supplied non-zero ids on create are not modelled; the store always assigns fresh ids.
- Column maximum lengths: not enforced. Neither SQLite nor EF Core checks them on save, so they stay predicates.
- Navigation includes on responses (`Include(fr => fr.DocumentRequest)` and `Include(fr => fr.RequestTopic)`): the listed responses are the stored rows. The topic is used only as the sort key.
- Tables come from the two migrations. `Data/CvDbContext.cs` declares no sets for these four tables and is not part of this model.
- Console logging in the create handler and on the home page: not modelled.
- Concurrency: a real concurrent update that loses a race is not modelled. An update conflicts only when its row is missing, so the `throw` after a conflict on an existing row cannot occur in the model.
- PutDocumentRequest: topics in the body are ignored, because the code marks only the root entity as modified.
- Dates: `createdAt`, `updatedAt` and the clock are an opaque `Time` parameter. The locale date in the export header is a cell holding the raw time.
- FormResponsesController.Stamped: every element of a batch is stamped with the one `now`, while the action reads the clock once per element, so the elements of one batch may carry distinct `CreatedAt` values that the model does not capture.
- ExportToExcel: the XLSX library calls, column widths and file download are left out. The workbook is its rows plus its file name.
- JavaScript numbers: modelled as unbounded integers, so precision loss beyond 2^53 is left out. `parseInt` itself is modelled as written: it reads hexadecimal after `0x`/`0X` and stops at the first character that is no digit, such as `.` or `e`.
- Home: property names that collide with `Object.prototype` (such as `constructor`) are treated as ordinary keys.
- GetFormResponsesByRequest: the order of responses with equal category and topic name is left unspecified, because the database does not define it.
- Workflow.SubmitThenReload: the reload is stated over the request's responses in stored order, not over the category/topic-name sorted listing the page actually receives. That listing is a permutation of the same responses (GetFormResponsesByRequest), but when an earlier response shares a topic with a new one the sort does not fix which comes last, so the page may show the earlier text.
- Projects, CV info, skills, education and work-experience controllers, and the pages outside the core: not modelled.
