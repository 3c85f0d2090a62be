/**
 * The request builder page (frontend/src/components/DocumentRequest.jsx): a list of
 * candidate topics the user selects and prioritises, viewed through a filter and grouped
 * by category, and turned into the body of a create call.
 */
module RequestBuilder {
  import opened Wrappers
  import opened Seqs
  import opened Grouping
  import opened Js
  import opened Entities

  /** One entry of the builder's topic list. */
  datatype Topic = Topic(
    id: int,
    category: string,
    name: string,
    labelText: string,    // `label`
    description: string,
    priority: string,
    isSelected: bool,
    hasFieldRequirements: bool)

  predicate IsSelected(t: Topic) {
    t.isSelected
  }

  predicate IsUnselected(t: Topic) {
    !t.isSelected
  }

  /** No two entries share an id, as in the initial list. */
  predicate UniqueIds(topics: seq<Topic>) {
    forall i, j :: 0 <= i < j < |topics| ==> topics[i].id != topics[j].id
  }

  // ---------------------------------------------------------------------------------
  // Editing the list
  // ---------------------------------------------------------------------------------

  /** `handleTopicToggle(topicId)`: a new list in which the entries with that id are flipped. */
  function ToggleTopic(topics: seq<Topic>, topicId: int): (r: seq<Topic>)
    ensures |r| == |topics|
    ensures forall i :: 0 <= i < |topics| && topics[i].id != topicId ==> r[i] == topics[i]
    ensures forall i :: 0 <= i < |topics| && topics[i].id == topicId ==>
      r[i].isSelected == !topics[i].isSelected && r[i].(isSelected := topics[i].isSelected) == topics[i]
  {
    seq(|topics|, i requires 0 <= i < |topics| =>
      if topics[i].id == topicId then topics[i].(isSelected := !topics[i].isSelected) else topics[i])
  }

  /** Toggling the same topic twice gives back the list it started from. */
  lemma {:induction false} ToggleTwice(topics: seq<Topic>, topicId: int)
    ensures ToggleTopic(ToggleTopic(topics, topicId), topicId) == topics
  {
    var r := ToggleTopic(ToggleTopic(topics, topicId), topicId);
    forall i | 0 <= i < |topics|
      ensures r[i] == topics[i]
    {
      if topics[i].id == topicId {
        assert ToggleTopic(topics, topicId)[i].id == topicId;
      }
    }
  }

  /**
   * A toggle moves the selected entries with that id out of the selection and the
   * unselected ones in; every other entry keeps its state.
   */
  lemma {:induction false} ToggleSelectedCount(topics: seq<Topic>, topicId: int)
    ensures SelectedCount(ToggleTopic(topics, topicId))
      + Count(topics, (t: Topic) => t.id == topicId && t.isSelected)
      == SelectedCount(topics)
      + Count(topics, (t: Topic) => t.id == topicId && !t.isSelected)
    decreases |topics|
  {
    if topics != [] {
      var r := ToggleTopic(topics, topicId);
      assert r[1..] == ToggleTopic(topics[1..], topicId);
      ToggleSelectedCount(topics[1..], topicId);
    }
  }

  /** With unique ids, toggling a listed topic changes the selected count by exactly one. */
  lemma {:induction false} ToggleChangesCountByOne(topics: seq<Topic>, i: int)
    requires UniqueIds(topics)
    requires 0 <= i < |topics|
    ensures SelectedCount(ToggleTopic(topics, topics[i].id)) ==
      if topics[i].isSelected then SelectedCount(topics) - 1 else SelectedCount(topics) + 1
  {
    var id := topics[i].id;
    ToggleSelectedCount(topics, id);
    var mine := (t: Topic) => t.id == id && t.isSelected;
    var others := (t: Topic) => t.id == id && !t.isSelected;
    CountOnlyAt(topics, i, mine);
    CountOnlyAt(topics, i, others);
  }

  /** `handlePriorityChange(topicId, newPriority)`: a new list with that priority on the entries with that id. */
  function ChangePriority(topics: seq<Topic>, topicId: int, newPriority: string): (r: seq<Topic>)
    ensures |r| == |topics|
    ensures forall i :: 0 <= i < |topics| && topics[i].id != topicId ==> r[i] == topics[i]
    ensures forall i :: 0 <= i < |topics| && topics[i].id == topicId ==>
      r[i].priority == newPriority && r[i].(priority := topics[i].priority) == topics[i]
  {
    seq(|topics|, i requires 0 <= i < |topics| =>
      if topics[i].id == topicId then topics[i].(priority := newPriority) else topics[i])
  }

  /** A priority change leaves the selection alone. */
  lemma {:induction false} ChangePriorityKeepsSelection(topics: seq<Topic>, topicId: int, p: string)
    ensures SelectedCount(ChangePriority(topics, topicId, p)) == SelectedCount(topics)
    decreases |topics|
  {
    if topics != [] {
      assert ChangePriority(topics, topicId, p)[1..] == ChangePriority(topics[1..], topicId, p);
      ChangePriorityKeepsSelection(topics[1..], topicId, p);
    }
  }

  /** Of two priority changes to the same topic the later one wins, and toggling commutes with a priority change. */
  lemma {:induction false} ChangePriorityLaterWins(topics: seq<Topic>, topicId: int, p: string, q: string, other: int)
    ensures ChangePriority(ChangePriority(topics, topicId, p), topicId, q) == ChangePriority(topics, topicId, q)
    ensures ToggleTopic(ChangePriority(topics, topicId, p), other) == ChangePriority(ToggleTopic(topics, other), topicId, p)
  {
  }

  // ---------------------------------------------------------------------------------
  // Viewing the list
  // ---------------------------------------------------------------------------------

  /** `selectedCount`: the number of selected entries. */
  function SelectedCount(topics: seq<Topic>): (n: nat)
    ensures n <= |topics|
    ensures n + Count(topics, IsUnselected) == |topics|
  {
    FilterPartition(topics, IsSelected, IsUnselected);
    Count(topics, IsSelected)
  }

  /**
   * `getFilteredTopics()`: the selected entries for "selected", the unselected ones for
   * "non-selected", and the whole list for any other mode, always in list order.
   */
  function FilteredTopics(topics: seq<Topic>, filterMode: string): (r: seq<Topic>)
    ensures forall t :: t in r <==>
      t in topics
      && (filterMode == "selected" ==> t.isSelected)
      && (filterMode == "non-selected" ==> !t.isSelected)
    ensures filterMode != "selected" && filterMode != "non-selected" ==> r == topics
  {
    if filterMode == "selected" then Filter(topics, IsSelected)
    else if filterMode == "non-selected" then Filter(topics, IsUnselected)
    else topics
  }

  /** The "selected" and "non-selected" views split the list: every entry is in exactly one. */
  lemma {:induction false} FilterModesPartition(topics: seq<Topic>)
    ensures multiset(FilteredTopics(topics, "selected")) + multiset(FilteredTopics(topics, "non-selected"))
      == multiset(topics)
    ensures |FilteredTopics(topics, "selected")| == SelectedCount(topics)
    ensures |FilteredTopics(topics, "non-selected")| == |topics| - SelectedCount(topics)
  {
    FilterPartition(topics, IsSelected, IsUnselected);
  }

  predicate AnyTopic(t: Topic) {
    true
  }

  function CategoryOf(t: Topic): string {
    t.category
  }

  function SameTopic(t: Topic): Topic {
    t
  }

  /** The categories that occur in `topics`. */
  function CategoriesOf(topics: seq<Topic>): set<string> {
    KeysOf(topics, AnyTopic, CategoryOf)
  }

  /** The reference grouping: for each category that occurs, its entries in list order. */
  function GroupByCategory(topics: seq<Topic>): map<string, seq<Topic>> {
    GroupBy(topics, AnyTopic, CategoryOf, SameTopic)
  }

  /** The categories that occur are the categories of the entries. */
  lemma {:induction false} CategoriesOfEntries(topics: seq<Topic>)
    ensures CategoriesOf(topics) == set t | t in topics :: t.category
  {
  }

  /**
   * Every entry is in exactly the group of its category, and only categories that occur
   * have a group, never an empty one.
   */
  lemma {:induction false} GroupByCategoryMembers(topics: seq<Topic>)
    ensures GroupByCategory(topics).Keys == set t | t in topics :: t.category
    ensures forall c, t :: c in GroupByCategory(topics) ==>
      (t in GroupByCategory(topics)[c] <==> t in topics && t.category == c)
    ensures forall t :: t in topics ==> t.category in GroupByCategory(topics)
    ensures forall c :: c in GroupByCategory(topics) ==> GroupByCategory(topics)[c] != []
  {
    var g := GroupByCategory(topics);
    GroupByMembers(topics, AnyTopic, CategoryOf, SameTopic);
    CategoriesOfEntries(topics);
    forall c, t | c in g && t in g[c]
      ensures t in topics && t.category == c
    {
      var x :| x in topics && AnyTopic(x) && CategoryOf(x) == c && t == SameTopic(x);
    }
    forall c, t | c in g && t in topics && t.category == c
      ensures t in g[c]
    {
      assert AnyTopic(t) && SameTopic(t) == t;
    }
  }

  /** The `forEach` callback of `getTopicsByCategory`: opens the entry's category on first use and pushes the entry. */
  method AddTopic(categories: map<string, seq<Topic>>, topic: Topic) returns (next: map<string, seq<Topic>>)
    ensures next == categories[topic.category :=
      (if topic.category in categories then categories[topic.category] else []) + [topic]]
  {
    next := categories;
    if topic.category !in next {
      next := next[topic.category := []];
    }
    next := next[topic.category := next[topic.category] + [topic]];
  }

  /** The `forEach` loop of `getTopicsByCategory`: one pass over a list, grouping it by category. */
  method GroupEntries(filtered: seq<Topic>) returns (categories: map<string, seq<Topic>>)
    ensures categories == GroupByCategory(filtered)
  {
    categories := map[];
    assert filtered[..0] == [];
    for i := 0 to |filtered|
      invariant categories == GroupByCategory(filtered[..i])
    {
      var topic := filtered[i];
      categories := AddTopic(categories, topic);
      GroupByAppendKept(filtered[..i], topic, AnyTopic, CategoryOf, SameTopic);
      assert filtered[..i + 1] == filtered[..i] + [topic];
    }
    assert filtered[..|filtered|] == filtered;
  }

  /** `getTopicsByCategory()`: the entries the filter mode shows, grouped by category. */
  method TopicsByCategory(topics: seq<Topic>, filterMode: string) returns (categories: map<string, seq<Topic>>)
    ensures categories == GroupByCategory(FilteredTopics(topics, filterMode))
  {
    categories := GroupEntries(FilteredTopics(topics, filterMode));
  }

  /**
   * The groups together hold every entry once: for any listing of the categories without
   * repeats, the group sizes add up to the length of the list.
   */
  lemma {:induction false} CategorySizesSum(topics: seq<Topic>, keys: seq<string>)
    requires Distinct(keys)
    requires forall k :: k in keys <==> k in CategoriesOf(topics)
    ensures GroupSizes(GroupByCategory(topics), keys) == |topics|
  {
    GroupSizesSum(topics, AnyTopic, CategoryOf, SameTopic, keys);
    FilterAll(topics, AnyTopic);
  }

  // ---------------------------------------------------------------------------------
  // Creating the request
  // ---------------------------------------------------------------------------------

  /**
   * One entry of the create body's `topics` array, as the create action's model binding
   * reads it: no key and no parent key yet, no fields.
   */
  function TopicPayload(t: Topic): RequestTopic {
    RequestTopic(0, 0, t.category, t.name, t.labelText, t.description, t.priority, t.isSelected,
                 t.hasFieldRequirements, [])
  }

  /**
   * `handleCreateRequest`: with no entry selected the user is alerted and nothing is sent
   * (`None`); otherwise the body sent to the create action, as its model binding reads it:
   * status "Draft", the route id parsed as an integer (`null` when it is no number), the
   * chosen project name, and the selected entries in list order.
   */
  function RequestPayload(topics: seq<Topic>, routeId: string, selectedProject: string): (r: Option<DocumentRequest>)
    ensures r.None? <==> SelectedCount(topics) == 0
    ensures r.Some? ==>
      && r.value.status == "Draft"
      && r.value.projectId == ParseInt(routeId)
      && r.value.projectName == selectedProject
      && r.value.id == 0 && r.value.project.None?
      && |r.value.topics| == SelectedCount(topics)
      && forall i :: 0 <= i < |r.value.topics| ==> r.value.topics[i] == TopicPayload(Filter(topics, IsSelected)[i])
  {
    var selected := Filter(topics, IsSelected);
    if |selected| == 0 then None
    else
      var payloads := seq(|selected|, i requires 0 <= i < |selected| => TopicPayload(selected[i]));
      assert forall i :: 0 <= i < |payloads| ==> payloads[i] == TopicPayload(selected[i]);
      Some(DocumentRequest(0, ParseInt(routeId), selectedProject, "Draft", 0, None, None, None, payloads))
  }

  /** Payloads made entry by entry from the selected entries hold exactly the selected entries' payloads. */
  lemma {:induction false} PayloadsOf(topics: seq<Topic>, selected: seq<Topic>, payloads: seq<RequestTopic>)
    requires forall t :: t in selected <==> t in topics && t.isSelected
    requires |payloads| == |selected|
    requires forall i :: 0 <= i < |payloads| ==> payloads[i] == TopicPayload(selected[i])
    ensures forall x :: x in payloads ==>
      x.isSelected && x.fields == [] && exists t :: t in topics && t.isSelected && x == TopicPayload(t)
    ensures forall t :: t in topics && t.isSelected ==> TopicPayload(t) in payloads
  {
    forall x | x in payloads
      ensures x.isSelected && x.fields == [] && exists t :: t in topics && t.isSelected && x == TopicPayload(t)
    {
      var i :| 0 <= i < |payloads| && payloads[i] == x;
      assert selected[i] in selected;
    }
    forall t | t in topics && t.isSelected
      ensures TopicPayload(t) in payloads
    {
      var i :| 0 <= i < |selected| && selected[i] == t;
      assert payloads[i] == TopicPayload(t);
    }
  }

  /**
   * The body's topics are exactly the selected entries: each is a selected entry copied
   * field for field with `isSelected` true and no fields, and every selected entry is there.
   */
  lemma {:induction false} RequestPayloadTopics(topics: seq<Topic>, routeId: string, selectedProject: string)
    requires SelectedCount(topics) > 0
    ensures var body := RequestPayload(topics, routeId, selectedProject).value;
      && (forall x :: x in body.topics ==>
            x.isSelected && x.fields == [] && exists t :: t in topics && t.isSelected && x == TopicPayload(t))
      && (forall t :: t in topics && t.isSelected ==> TopicPayload(t) in body.topics)
  {
    var selected := Filter(topics, IsSelected);
    var payloads := RequestPayload(topics, routeId, selectedProject).value.topics;
    assert |payloads| == |selected|;
    PayloadsOf(topics, selected, payloads);
  }

  // The descriptions of `mockTopics`, by topic id.
  const MockDescription1 := "HR Data - Employee census and payroll information, see field requirement for more detail"
  const MockDescription2 := "Independent contractors HR data, see field requirement for more detail"
  const MockDescription3 := "Open positions list see field requirement for more details"
  const MockDescription4 := "Vendor spend for HR services (recruiting, outsourced HR functions and processes, IT)"
  const MockDescription5 := "Recruiting & staffing vendors utilized by function, annual placements, costs & standard pricing agreements. Other outsourced vendors used for payroll, benefits, training etc."
  const MockDescription6 := "Vendor spend for HR services (recruiting, outsourced HR functions and processes, IT)"
  const MockDescription7 := "Budget & YTD, at the lowest level of detail (by cost center, be department, spend type)"
  const MockDescription8 := "Technology capex spending by location/category (actual v budget) for past 3 years, and 3 year capex plan"
  const MockDescription9 := "Complete chart of accounts with descriptions"
  const MockDescription10 := "List of all vendors with contact information"
  const MockDescription11 := "Current organizational structure diagrams"

  /** `mockTopics`: the list the page starts from. */
  function MockTopics(): (r: seq<Topic>)
    ensures |r| == 11
  {
    [ Topic(1, "General", "Personnel Data", "Personnel",
            MockDescription1,
            "Priority", false, false),
      Topic(2, "General", "Contingent Labor", "Labor",
            MockDescription2,
            "Tier 2", true, true),
      Topic(3, "General", "Open Positions", "Openings",
            MockDescription3,
            "Priority", false, false),
      Topic(4, "Human Resources", "Vendor Spend for Service Providers KPIs", "VendorSpendKPI",
            MockDescription4,
            "Priority", false, false),
      Topic(5, "Human Resources", "Recruiting Service Providers", "Recruiting Ext",
            MockDescription5,
            "Tier 3", true, true),
      Topic(6, "Human Resources", "HR workflows", "HR",
            MockDescription6,
            "Tier 2", true, true),
      Topic(7, "Financial Reports", "FY25 Plan", "FY25",
            MockDescription7,
            "Tier 3", true, true),
      Topic(8, "Financial Reports", "Technology Capital Expense Detail", "Tech Expense Det",
            MockDescription8,
            "Tier 1", true, true),
      Topic(9, "Financial Reports", "Chart of Accounts", "Acc Chart",
            MockDescription9,
            "Priority", false, false),
      Topic(10, "3rd party vendor", "Vendor List", "Vendors",
            MockDescription10,
            "Priority", false, false),
      Topic(11, "Other files", "Organizational Charts", "Org Charts",
            MockDescription11,
            "Tier 1", false, false) ]
  }

  /** The starting list has unique ids. */
  lemma {:induction false} MockTopicsUniqueIds()
    ensures UniqueIds(MockTopics())
  {
    var m := MockTopics();
    assert forall i :: 0 <= i < |m| ==> m[i].id == i + 1;
  }

  /** The starting list uses only documented priority tiers. */
  lemma {:induction false} MockTopicsPriorities()
    ensures forall t :: t in MockTopics() ==> IsPriorityTier(t.priority)
  {
    var m := MockTopics();
    forall t | t in m
      ensures IsPriorityTier(t.priority)
    {
      var i :| 0 <= i < |m| && m[i] == t;
      assert m[i].priority in ["Priority", "Tier 1", "Tier 2", "Tier 3"];
    }
  }

  predicate Holds(b: bool) {
    b
  }

  /** The selected count of a list is the number of `true`s among its selection flags. */
  lemma {:induction false} SelectedCountByFlags(topics: seq<Topic>, flags: seq<bool>)
    requires |flags| == |topics|
    requires forall i :: 0 <= i < |topics| ==> topics[i].isSelected == flags[i]
    ensures SelectedCount(topics) == Count(flags, Holds)
    decreases |topics|
  {
    if topics != [] {
      SelectedCountByFlags(topics[1..], flags[1..]);
    }
  }

  /** The selection flags of the starting list. */
  const MockSelection := [false, true, false, false, true, true, true, true, false, false, false]

  lemma {:induction false} MockTopicsSelection()
    ensures |MockTopics()| == |MockSelection|
    ensures forall i :: 0 <= i < |MockTopics()| ==> MockTopics()[i].isSelected == MockSelection[i]
  {
  }

  /** Five of the starting flags are set. */
  lemma {:induction false} MockSelectionCount()
    ensures Count(MockSelection, Holds) == 5
  {
    var flags := MockSelection;
    assert flags[11..] == [];
    assert flags[10..][1..] == flags[11..];
    assert flags[9..][1..] == flags[10..];
    assert flags[8..][1..] == flags[9..];
    assert flags[7..][1..] == flags[8..];
    assert flags[6..][1..] == flags[7..];
    assert flags[5..][1..] == flags[6..];
    assert flags[4..][1..] == flags[5..];
    assert flags[3..][1..] == flags[4..];
    assert flags[2..][1..] == flags[3..];
    assert flags[1..][1..] == flags[2..];
    assert flags[0..][1..] == flags[1..];
    assert flags[0..] == flags;
  }

  /** Five entries of the starting list are already selected, so a create succeeds without any toggling. */
  lemma {:induction false} MockTopicsReady(routeId: string, selectedProject: string)
    ensures SelectedCount(MockTopics()) == 5
    ensures RequestPayload(MockTopics(), routeId, selectedProject).Some?
  {
    MockTopicsSelection();
    MockSelectionCount();
    SelectedCountByFlags(MockTopics(), MockSelection);
  }
}
