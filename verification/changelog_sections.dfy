/** ChangelogSections: the configured section list of the current generator
    and its collation, where an issue lands in the first matching section of
    every group. */
module ChangelogSections {
  import opened Wrappers
  import opened Payload
  import opened SelectIssues
  import Collation
  import Strings

  /** Global or per-section issue ordering. */
  datatype IssueSort = Created | Title

  /** A section as configured: the title, group, sort and labels that `adapt`
      reads. An absent group is bound as the group named "default" and an
      absent sort falls back to the global one. */
  datatype SectionProperties = SectionProperties(
    title: string,
    group: Option<string>,
    sort: Option<IssueSort>,
    labels: seq<string>)

  /** A resolved section of the changelog. Its display string is its title.
      The group is `None` for the built-in sections, whose group is null. The
      issue-type filter is `Any` for every section that `adapt` or the
      built-ins create, since neither passes a type. */
  datatype Section = Section(
    title: string,
    group: Option<string>,
    sort: Option<IssueSort>,
    labels: seq<string>,
    issueType: IssueType)

  /** The group a configured section without a group is bound to. */
  const UngroupedName: string := "default"

  /** A built-in section: null group, null sort, every issue type. */
  function DefaultSection(title: string, labels: seq<string>): Section {
    Section(title, None, None, labels, Any)
  }

  /** DEFAULT_SECTIONS, in this order, all in the null group. */
  const DefaultSections: seq<Section> := [
    DefaultSection(":star: New Features", ["enhancement"]),
    DefaultSection(":lady_beetle: Bug Fixes", ["bug", "regression"]),
    DefaultSection(":notebook_with_decorative_cover: Documentation", ["documentation"]),
    DefaultSection(":hammer: Dependency Upgrades", ["dependency-upgrade"])
  ]

  /** adapt: a configured section keeps its title, sort and labels, filters
      no issue type, and has a group. */
  function AdaptSection(p: SectionProperties): (r: Section)
    ensures r.title == p.title && r.sort == p.sort && r.labels == p.labels && r.issueType == Any
    ensures r.group.Some? && (p.group.Some? ==> r.group == p.group)
    ensures p.group.None? ==> r.group == Some(UngroupedName)
  {
    Section(p.title, Some(p.group.GetOr(UngroupedName)), p.sort, p.labels, Any)
  }

  /** adapt: no custom sections gives the defaults; otherwise the custom
      sections, after the defaults when `addSections` is set. */
  function Adapt(custom: seq<SectionProperties>, addSections: bool): (r: seq<Section>)
    ensures |custom| == 0 ==> r == DefaultSections
    ensures |custom| > 0 && addSections ==>
              |r| == |DefaultSections| + |custom| && r[..|DefaultSections|] == DefaultSections
    ensures |custom| > 0 && !addSections ==> |r| == |custom|
    ensures |custom| > 0 ==> r[|r| - |custom|..] == AdaptAll(custom)
  {
    if |custom| == 0 then DefaultSections
    else if addSections then DefaultSections + AdaptAll(custom)
    else AdaptAll(custom)
  }

  /** The configured sections, each adapted, in order. */
  function AdaptAll(custom: seq<SectionProperties>): (r: seq<Section>)
    ensures |r| == |custom| && forall k :: 0 <= k < |custom| ==> r[k] == AdaptSection(custom[k])
  {
    seq(|custom|, k requires 0 <= k < |custom| => AdaptSection(custom[k]))
  }

  /** A section matches an issue through its label tokens and its type filter. */
  predicate Matches(section: Section, issue: Issue) {
    WithLabelNamesContaining(section.labels, issue) && WithType(section.issueType, issue)
  }

  /** The specification of getSections: section `j` matches and no earlier
      section of the same group matches. */
  ghost predicate FirstInGroup(sections: seq<Section>, issue: Issue, j: int) {
    && 0 <= j < |sections|
    && Matches(sections[j], issue)
    && forall k :: 0 <= k < j && Matches(sections[k], issue) ==> sections[k].group != sections[j].group
  }

  /** The groups claimed by the matching sections before index `i`. */
  ghost function ClaimedGroups(sections: seq<Section>, issue: Issue, i: nat): set<Option<string>>
    requires i <= |sections|
  {
    set k | 0 <= k < i && Matches(sections[k], issue) :: sections[k].group
  }

  /** The loop of getSections from index `i`, with the group claims so far. */
  function ClaimsFrom(sections: seq<Section>, issue: Issue, i: nat, claimed: set<Option<string>>): (r: seq<nat>)
    requires i <= |sections|
    ensures forall k :: 0 <= k < |r| ==> i <= r[k] < |sections|
    ensures forall a, b :: 0 <= a < b < |r| ==> r[a] < r[b]
    decreases |sections| - i
  {
    if i == |sections| then []
    else if Matches(sections[i], issue) && sections[i].group !in claimed then
      [i] + ClaimsFrom(sections, issue, i + 1, claimed + {sections[i].group})
    else
      ClaimsFrom(sections, issue, i + 1, claimed)
  }

  /** getSections: the indices of the sections the issue is added to, ascending. */
  function Claims(sections: seq<Section>, issue: Issue): (r: seq<nat>)
    ensures forall k :: 0 <= k < |r| ==> r[k] < |sections|
    ensures forall a, b :: 0 <= a < b < |r| ==> r[a] < r[b]
  {
    ClaimsFrom(sections, issue, 0, {})
  }

  /** The claims of every issue against the section list, as the collation takes them. */
  function ClaimsOf(sections: seq<Section>): Issue -> seq<nat> {
    issue => Claims(sections, issue)
  }

  lemma {:induction false} ClaimsFromSpec(sections: seq<Section>, issue: Issue, i: nat, j: int)
    requires i <= |sections|
    ensures j in ClaimsFrom(sections, issue, i, ClaimedGroups(sections, issue, i))
            <==> i <= j && FirstInGroup(sections, issue, j)
    decreases |sections| - i
  {
    if i < |sections| {
      ClaimsFromSpec(sections, issue, i + 1, j);
      ClaimsFromStep(sections, issue, i, j);
    }
  }

  /** One step of the getSections loop, as membership of index `j`: section
      `i` is added when it is the first of its group to match. */
  lemma ClaimsFromStep(sections: seq<Section>, issue: Issue, i: nat, j: int)
    requires i < |sections|
    ensures j in ClaimsFrom(sections, issue, i, ClaimedGroups(sections, issue, i))
            <==> (FirstInGroup(sections, issue, i) && j == i)
                 || j in ClaimsFrom(sections, issue, i + 1, ClaimedGroups(sections, issue, i + 1))
  {
    var claimed := ClaimedGroups(sections, issue, i);
    var next := ClaimedGroups(sections, issue, i + 1);
    ClaimedGroupsNext(sections, issue, i);
    FiresIffFirstInGroup(sections, issue, i);
    if !(Matches(sections[i], issue) && sections[i].group !in claimed) {
      assert next == claimed;
    }
  }

  /** The groups claimed before `i + 1`: those before `i`, plus section `i`'s
      group when it matches. */
  lemma ClaimedGroupsNext(sections: seq<Section>, issue: Issue, i: nat)
    requires i < |sections|
    ensures var claimed := ClaimedGroups(sections, issue, i);
            ClaimedGroups(sections, issue, i + 1)
            == if Matches(sections[i], issue) then claimed + {sections[i].group} else claimed
  {
  }

  /** Section `i` adds the issue exactly when it is the first of its group to match. */
  lemma FiresIffFirstInGroup(sections: seq<Section>, issue: Issue, i: nat)
    requires i < |sections|
    ensures Matches(sections[i], issue) && sections[i].group !in ClaimedGroups(sections, issue, i)
            <==> FirstInGroup(sections, issue, i)
  {
    if Matches(sections[i], issue) && sections[i].group in ClaimedGroups(sections, issue, i) {
      var k :| 0 <= k < i && Matches(sections[k], issue) && sections[k].group == sections[i].group;
    }
  }

  /** A section is claimed exactly when it is the earliest matching section
      of its group. */
  lemma ClaimsAreFirstInGroup(sections: seq<Section>, issue: Issue, j: int)
    ensures j in Claims(sections, issue) <==> FirstInGroup(sections, issue, j)
  {
    assert ClaimedGroups(sections, issue, 0) == {};
    ClaimsFromSpec(sections, issue, 0, j);
  }

  /** An issue is added to at most one section of each group. */
  lemma AtMostOnePerGroup(sections: seq<Section>, issue: Issue, a: int, b: int)
    requires a in Claims(sections, issue) && b in Claims(sections, issue)
    requires sections[a].group == sections[b].group
    ensures a == b
  {
    ClaimsAreFirstInGroup(sections, issue, a);
    ClaimsAreFirstInGroup(sections, issue, b);
  }

  /** If some section of a group matches, the earliest matching one of that
      group is claimed, so every group with a match gets the issue once. */
  lemma MatchedGroupIsClaimed(sections: seq<Section>, issue: Issue, j: int)
    requires 0 <= j < |sections| && Matches(sections[j], issue)
    ensures exists c :: 0 <= c <= j && c in Claims(sections, issue) && sections[c].group == sections[j].group
  {
    var c := j;
    while exists k :: 0 <= k < c && Matches(sections[k], issue) && sections[k].group == sections[j].group
      invariant 0 <= c <= j && Matches(sections[c], issue) && sections[c].group == sections[j].group
      decreases c
    {
      var earlier :| 0 <= earlier < c && Matches(sections[earlier], issue)
                     && sections[earlier].group == sections[j].group;
      c := earlier;
    }
    ClaimsAreFirstInGroup(sections, issue, c);
  }

  /** An issue matching no section is claimed by none. */
  lemma UnmatchedIsUnclaimed(sections: seq<Section>, issue: Issue)
    requires forall k :: 0 <= k < |sections| ==> !Matches(sections[k], issue)
    ensures Claims(sections, issue) == []
  {
    if Claims(sections, issue) != [] {
      ClaimsAreFirstInGroup(sections, issue, Claims(sections, issue)[0]);
    }
  }

  /** With the default sections, which all share the null group, a label that
      merely contains "bug" puts the issue in Bug Fixes, and in no other
      section. */
  lemma BugFixLabelLandsInBugFixes(x: Issue)
    requires x.labels == ["bug-fix"]
    ensures Claims(DefaultSections, x) == [1]
  {
    var s := DefaultSections;
    assert Strings.OccursAt("bug-fix", "bug", 0);
    assert Matches(s[1], x) by {
      assert "bug-fix" in x.labels && "bug" in s[1].labels;
    }
    assert !Matches(s[0], x) by {
      assert forall n, t :: n in x.labels && t in s[0].labels ==> n == "bug-fix" && t == "enhancement";
      assert forall i :: !Strings.OccursAt("bug-fix", "enhancement", i);
    }
    ClaimsAreFirstInGroup(s, x, 1);
    var c := Claims(s, x);
    forall k | 0 <= k < |c|
      ensures c[k] == 1
    {
      AtMostOnePerGroup(s, x, c[k], 1);
    }
    assert 1 in c;
  }

  /** The built-in sections (null group) never share a group with a
      configured section added after them. */
  lemma BuiltInGroupIsApart(custom: seq<SectionProperties>, a: int, b: int)
    requires |custom| > 0
    requires 0 <= a < |DefaultSections| <= b < |Adapt(custom, true)|
    ensures Adapt(custom, true)[a].group != Adapt(custom, true)[b].group
  {
    var cs := AdaptAll(custom);
    assert Adapt(custom, true) == DefaultSections + cs;
    BuiltInsAreUngrouped(a);
    assert cs[b - |DefaultSections|] == AdaptSection(custom[b - |DefaultSections|]);
    UngroupedBeforeGrouped(DefaultSections, cs, a, b);
  }

  lemma BuiltInsAreUngrouped(a: int)
    requires 0 <= a < |DefaultSections|
    ensures DefaultSections[a].group == None
  {
  }

  lemma UngroupedBeforeGrouped(pre: seq<Section>, cs: seq<Section>, a: int, b: int)
    requires 0 <= a < |pre| <= b < |pre| + |cs|
    requires pre[a].group.None? && cs[b - |pre|].group.Some?
    ensures (pre + cs)[a].group != (pre + cs)[b].group
  {
    assert (pre + cs)[a] == pre[a];
    assert (pre + cs)[b] == cs[b - |pre|];
  }

  /** Sections without a group in front of grouped ones do not keep a grouped
      section that is first of its group among the grouped ones from its claim. */
  lemma UngroupedPrefixIsApart(pre: seq<Section>, cs: seq<Section>, x: Issue, b: int)
    requires forall k :: 0 <= k < |pre| ==> pre[k].group.None?
    requires 0 <= b < |cs| && cs[b].group.Some? && Matches(cs[b], x)
    requires forall k :: 0 <= k < b && Matches(cs[k], x) ==> cs[k].group != cs[b].group
    ensures |pre| + b in Claims(pre + cs, x)
  {
    var r := pre + cs;
    var d := |pre|;
    forall k | 0 <= k < d + b && Matches(r[k], x)
      ensures r[k].group != r[d + b].group
    {
      if k < d {
        assert r[k] == pre[k];
      } else {
        assert r[k] == cs[k - d];
      }
    }
    ClaimsAreFirstInGroup(r, x, d + b);
  }

  /** With the sections added to the built-in ones, a configured section
      that is the first match of its group among the configured sections
      gets the issue, whatever the built-in sections do with it. */
  lemma ConfiguredSectionIgnoresBuiltIns(custom: seq<SectionProperties>, x: Issue, b: nat)
    requires b < |custom| && Matches(AdaptSection(custom[b]), x)
    requires forall k :: 0 <= k < b && Matches(AdaptSection(custom[k]), x) ==>
               AdaptSection(custom[k]).group != AdaptSection(custom[b]).group
    ensures |DefaultSections| + b in Claims(Adapt(custom, true), x)
  {
    var cs := AdaptAll(custom);
    assert Adapt(custom, true) == DefaultSections + cs;
    forall k | 0 <= k < |DefaultSections|
      ensures DefaultSections[k].group.None?
    {
      BuiltInsAreUngrouped(k);
    }
    UngroupedPrefixIsApart(DefaultSections, cs, x, b);
  }

  /** A configured "Bugs" section without a group, added to the built-in
      sections, lists a "bug" issue next to Bug Fixes: the built-in sections
      are in the null group and the configured one in "default". */
  lemma UngroupedBugsSectionAlsoClaims(x: Issue)
    requires x.labels == ["bug"]
    ensures var c := Claims(Adapt([SectionProperties("Bugs", None, None, ["bug"])], true), x);
            1 in c && |DefaultSections| in c
  {
    var custom := [SectionProperties("Bugs", None, None, ["bug"])];
    assert Strings.OccursAt("bug", "bug", 0);
    assert Matches(AdaptSection(custom[0]), x) by {
      assert "bug" in x.labels && "bug" in AdaptSection(custom[0]).labels;
    }
    ConfiguredSectionIgnoresBuiltIns(custom, x, 0);
    BugIssueFirstInBugFixes(x);
    assert Adapt(custom, true) == DefaultSections + AdaptAll(custom);
    PrefixClaimStays(DefaultSections, AdaptAll(custom), x, 1);
  }

  /** Among the built-in sections, Bug Fixes is the first match of a "bug" issue. */
  lemma BugIssueFirstInBugFixes(x: Issue)
    requires x.labels == ["bug"]
    ensures FirstInGroup(DefaultSections, x, 1)
  {
    var s := DefaultSections;
    assert Strings.OccursAt("bug", "bug", 0);
    assert Matches(s[1], x) by {
      assert "bug" in x.labels && "bug" in s[1].labels;
    }
    assert !Matches(s[0], x) by {
      assert forall n, t :: n in x.labels && t in s[0].labels ==> n == "bug" && t == "enhancement";
      assert forall i :: !Strings.OccursAt("bug", "enhancement", i);
    }
  }

  /** What sections come after does not change the claims of the earlier ones. */
  lemma PrefixClaimStays(pre: seq<Section>, cs: seq<Section>, x: Issue, j: int)
    requires FirstInGroup(pre, x, j)
    ensures j in Claims(pre + cs, x)
  {
    var r := pre + cs;
    assert r[j] == pre[j];
    forall k | 0 <= k < j
      ensures r[k] == pre[k]
    {
    }
    ClaimsAreFirstInGroup(r, x, j);
  }

  /** collate: one bucket per section that received an issue, in section
      order, each holding its issues in input order. */
  method Collate(sections: seq<Section>, issues: seq<Issue>) returns (r: seq<Collation.Bucket<Issue>>)
    ensures Collation.IsCollation(r, |sections|, issues, ClaimsOf(sections))
    ensures r == Collation.CollationOf(|sections|, issues, ClaimsOf(sections))
    ensures forall k, x :: 0 <= k < |r| && x in r[k].items ==>
              x in issues && FirstInGroup(sections, x, r[k].section)
  {
    r := Collation.Collate(|sections|, issues, ClaimsOf(sections));
    forall k, x | 0 <= k < |r| && x in r[k].items
      ensures x in issues && FirstInGroup(sections, x, r[k].section)
    {
      ClaimsAreFirstInGroup(sections, x, r[k].section);
    }
  }
}
