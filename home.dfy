/**
 * The home page's view logic (frontend/src/components/Home.jsx): the skills from the API
 * grouped by category, tolerating camelCase and PascalCase property names and skipping
 * malformed entries, and the list of social links shown under the name.
 */
module Home {
  import opened Wrappers
  import opened Seqs
  import opened Grouping
  import opened Js

  // ---------------------------------------------------------------------------------
  // Skills by category
  // ---------------------------------------------------------------------------------

  /** `skill.category || skill.Category`. */
  function CategoryOf(skill: JsValue): JsValue {
    Or(Member(skill, "category"), Member(skill, "Category"))
  }

  /** `skill.name || skill.Name`. */
  function NameOf(skill: JsValue): JsValue {
    Or(Member(skill, "name"), Member(skill, "Name"))
  }

  /** `skill.id || skill.Id`. */
  function IdOf(skill: JsValue): JsValue {
    Or(Member(skill, "id"), Member(skill, "Id"))
  }

  /** A skill the grouping keeps: present, and with a category under either spelling. */
  predicate Kept(skill: JsValue) {
    Truthy(skill) && Truthy(CategoryOf(skill))
  }

  /** The group a kept skill goes to: its category as a property key. */
  function GroupKey(skill: JsValue): string {
    PropertyKey(CategoryOf(skill))
  }

  /**
   * `{ ...skill, category, name: skillName, id: skillId }`: the skill's own properties with
   * the three normalised ones written over them (a kept skill is always an object).
   */
  function Normalised(skill: JsValue): JsValue {
    var own := if skill.Object? then skill.props else map[];
    Object(own["category" := CategoryOf(skill)]["name" := NameOf(skill)]["id" := IdOf(skill)])
  }

  /** Only objects carry a category, so every kept skill is an object. */
  lemma {:induction false} KeptIsObject(skill: JsValue)
    requires Kept(skill)
    ensures skill.Object?
  {
  }

  /** The reference grouping: for each key a kept skill has, those skills normalised, in input order. */
  function SkillGroups(skills: seq<JsValue>): map<string, seq<JsValue>> {
    GroupBy(skills, Kept, GroupKey, Normalised)
  }

  /**
   * The `reduce` callback of `skillsByCategory`: skips an absent skill or one without a
   * category, and otherwise pushes the skill, normalised, onto its category's array, opening
   * the array on first use.
   */
  method AddSkill(acc: map<string, seq<JsValue>>, skill: JsValue) returns (next: map<string, seq<JsValue>>)
    ensures next == if Kept(skill)
      then acc[GroupKey(skill) := (if GroupKey(skill) in acc then acc[GroupKey(skill)] else []) + [Normalised(skill)]]
      else acc
  {
    next := acc;
    if !Truthy(skill) {
      return;
    }
    var category := CategoryOf(skill);
    if !Truthy(category) {
      return;
    }
    var key := PropertyKey(category);
    if key !in next {
      next := next[key := []];
    }
    next := next[key := next[key] + [Normalised(skill)]];
  }

  /**
   * `skillsByCategory`: for an array, the callback folded over it from an empty object;
   * anything that is not an array gives no groups.
   */
  method SkillsByCategory(skills: JsValue) returns (acc: map<string, seq<JsValue>>)
    ensures acc == if skills.Array? then SkillGroups(skills.items) else map[]
  {
    acc := map[];
    if !skills.Array? {
      return;
    }
    var items := skills.items;
    assert KeysOf(items[..0], Kept, GroupKey) == {};
    for i := 0 to |items|
      invariant acc == SkillGroups(items[..i])
    {
      acc := AddSkill(acc, items[i]);
      GroupByAppend(items[..i], items[i], Kept, GroupKey, Normalised);
      assert items[..i + 1] == items[..i] + [items[i]];
    }
    assert items[..|items|] == items;
  }

  /**
   * Each group holds exactly the kept skills of its key, normalised: every entry has the
   * group's category and the name and id read under either spelling, and no group is empty.
   */
  lemma {:induction false} SkillGroupsMembers(skills: seq<JsValue>)
    ensures forall k :: k in SkillGroups(skills) <==> exists s :: s in skills && Kept(s) && GroupKey(s) == k
    ensures forall k, x :: k in SkillGroups(skills) && x in SkillGroups(skills)[k] ==>
      exists s :: s in skills && Kept(s) && GroupKey(s) == k && x == Normalised(s)
    ensures forall s :: s in skills && Kept(s) ==>
      GroupKey(s) in SkillGroups(skills) && Normalised(s) in SkillGroups(skills)[GroupKey(s)]
    ensures forall k :: k in SkillGroups(skills) ==> SkillGroups(skills)[k] != []
  {
    GroupByMembers(skills, Kept, GroupKey, Normalised);
  }

  /** A normalised skill reads back its category, name and id under the camelCase names. */
  lemma {:induction false} NormalisedFields(skill: JsValue)
    ensures Member(Normalised(skill), "category") == CategoryOf(skill)
    ensures Member(Normalised(skill), "name") == NameOf(skill)
    ensures Member(Normalised(skill), "id") == IdOf(skill)
    ensures Kept(skill) ==> GroupKey(Normalised(skill)) == GroupKey(skill)
  {
  }

  // ---------------------------------------------------------------------------------
  // Social links
  // ---------------------------------------------------------------------------------

  /** One link under the name; `url` is whatever value the profile holds for it. */
  datatype Link = Link(kind: string, url: JsValue, caption: string, external: bool)  // `caption` is `label`

  /** `cvInfo?.email || cvInfo?.Email`. */
  function EmailOf(cvInfo: JsValue): JsValue {
    Or(Member(cvInfo, "email"), Member(cvInfo, "Email"))
  }

  /** `cvInfo?.linkedInUrl || cvInfo?.LinkedInUrl`. */
  function LinkedInOf(cvInfo: JsValue): JsValue {
    Or(Member(cvInfo, "linkedInUrl"), Member(cvInfo, "LinkedInUrl"))
  }

  /** `cvInfo?.gitHubUrl || cvInfo?.GitHubUrl`. */
  function GitHubOf(cvInfo: JsValue): JsValue {
    Or(Member(cvInfo, "gitHubUrl"), Member(cvInfo, "GitHubUrl"))
  }

  /** The present entries of a candidate list, in order: `.filter(Boolean)`. */
  function Present(candidates: seq<Option<Link>>): (r: seq<Link>)
    ensures |r| <= |candidates|
    ensures forall l :: l in r <==> Some(l) in candidates
    decreases |candidates|
  {
    if candidates == [] then []
    else
      var rest := Present(candidates[1..]);
      assert forall c :: c in candidates[1..] ==> c in candidates;
      assert forall c :: c in candidates ==> c == candidates[0] || c in candidates[1..];
      match candidates[0]
      case None => rest
      case Some(l) => [l] + rest
  }

  /** A candidate as a list of at most one link. */
  function Listed(candidate: Option<Link>): seq<Link> {
    match candidate
    case None => []
    case Some(l) => [l]
  }

  /** The position of a link kind in the fixed order email, LinkedIn, GitHub. */
  function KindRank(kind: string): int {
    if kind == "email" then 0 else if kind == "linkedin" then 1 else 2
  }

  /** The link candidates: one per kind, present when the profile holds a truthy value for it. */
  function LinkCandidates(cvInfo: JsValue): seq<Option<Link>> {
    var email, linkedIn, gitHub := EmailOf(cvInfo), LinkedInOf(cvInfo), GitHubOf(cvInfo);
    [ if Truthy(email) then Some(Link("email", Str("mailto:" + PropertyKey(email)), "Email", false)) else None,
      if Truthy(linkedIn) then Some(Link("linkedin", linkedIn, "LinkedIn", true)) else None,
      if Truthy(gitHub) then Some(Link("github", gitHub, "GitHub", true)) else None ]
  }

  /** The first candidate, if present, comes before the present entries of the rest. */
  lemma {:induction false} PresentCons(candidates: seq<Option<Link>>)
    requires candidates != []
    ensures Present(candidates) == Listed(candidates[0]) + Present(candidates[1..])
  {
    match candidates[0]
    case None =>
    case Some(l) =>
  }

  /** Keeping the present entries of three candidates lists each one in turn. */
  lemma {:induction false} PresentOfThree(a: Option<Link>, b: Option<Link>, c: Option<Link>)
    ensures Present([a, b, c]) == Listed(a) + Listed(b) + Listed(c)
  {
    var s := [a, b, c];
    PresentCons(s);
    assert s[1..] == [b, c];
    PresentCons(s[1..]);
    assert s[1..][1..] == [c];
    PresentCons(s[1..][1..]);
    assert s[1..][1..][1..] == [];
  }

  /** The social links: the present candidates, in order (at most one per kind). */
  function SocialLinks(cvInfo: JsValue): (r: seq<Link>)
    ensures |r| <= 3
    ensures forall l :: l in r <==> Some(l) in LinkCandidates(cvInfo)
  {
    Present(LinkCandidates(cvInfo))
  }

  /** The links come in the fixed order email, LinkedIn, GitHub. */
  lemma {:induction false} SocialLinksOrder(cvInfo: JsValue)
    ensures forall i, j :: 0 <= i < j < |SocialLinks(cvInfo)| ==>
      KindRank(SocialLinks(cvInfo)[i].kind) < KindRank(SocialLinks(cvInfo)[j].kind)
  {
    var c := LinkCandidates(cvInfo);
    PresentOfThree(c[0], c[1], c[2]);
    assert c == [c[0], c[1], c[2]];
  }

  /** A link is shown exactly when it is one of the three candidates and that candidate is present. */
  lemma {:induction false} SocialLinksExactly(cvInfo: JsValue)
    ensures var c := LinkCandidates(cvInfo);
      forall l :: l in SocialLinks(cvInfo) <==> Some(l) == c[0] || Some(l) == c[1] || Some(l) == c[2]
  {
    var c := LinkCandidates(cvInfo);
    PresentOfThree(c[0], c[1], c[2]);
    assert c == [c[0], c[1], c[2]];
  }

  /** There is a link of each kind exactly when the profile holds a truthy value for it under either spelling. */
  lemma {:induction false} SocialLinksKinds(cvInfo: JsValue)
    ensures (exists l :: l in SocialLinks(cvInfo) && l.kind == "email") <==> Truthy(EmailOf(cvInfo))
    ensures (exists l :: l in SocialLinks(cvInfo) && l.kind == "linkedin") <==> Truthy(LinkedInOf(cvInfo))
    ensures (exists l :: l in SocialLinks(cvInfo) && l.kind == "github") <==> Truthy(GitHubOf(cvInfo))
  {
    SocialLinksExactly(cvInfo);
  }

  /**
   * The email link goes to "mailto:" and the address, in the same tab; the others go to the
   * value as held, in a new tab.
   */
  lemma {:induction false} SocialLinksTargets(cvInfo: JsValue)
    ensures forall l :: l in SocialLinks(cvInfo) && l.kind == "email" ==>
      l.url == Str("mailto:" + PropertyKey(EmailOf(cvInfo))) && !l.external
    ensures forall l :: l in SocialLinks(cvInfo) && l.kind != "email" ==>
      l.external && l.url == (if l.kind == "linkedin" then LinkedInOf(cvInfo) else GitHubOf(cvInfo))
  {
    SocialLinksExactly(cvInfo);
  }
}
