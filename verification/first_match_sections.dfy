/** The section lists of the older generations (generator/Sections and
    ReleaseNotesSections): an issue goes to the first matching section only. */
module FirstMatchSections {
  import opened Wrappers
  import opened Payload
  import opened ChangelogSection
  import ChangelogSections
  import SelectIssues
  import Collation

  /** Sections.DEFAULT_SECTIONS of the generator package. */
  const DefaultSections: seq<ChangelogSection> := [
    ChangelogSection("New Features", ":star:", ["enhancement"]),
    ChangelogSection("Bug Fixes", ":beetle:", ["bug", "regression"]),
    ChangelogSection("Documentation", ":notebook_with_decorative_cover:", ["documentation"]),
    ChangelogSection("Dependency Upgrades", ":hammer:", ["dependency-upgrade"])
  ]

  /** ReleaseNotesSections.SECTIONS: the same four sections, not configurable. */
  const ReleaseNotesSections: seq<ChangelogSection> := DefaultSections

  /** Sections.adapt: configured sections replace the defaults entirely. */
  function Adapt(custom: seq<ChangelogSection>): (r: seq<ChangelogSection>)
    ensures |custom| == 0 ==> r == DefaultSections
    ensures |custom| > 0 ==> r == custom
  {
    if |custom| == 0 then DefaultSections else custom
  }

  /** The loop of getSection from index `i`. */
  function FirstMatchFrom(sections: seq<ChangelogSection>, issue: Issue, i: nat): (r: Option<nat>)
    requires i <= |sections|
    ensures r.None? <==> forall k :: i <= k < |sections| ==> !IsMatchFor(sections[k], issue)
    ensures r.Some? ==> i <= r.value < |sections| && IsMatchFor(sections[r.value], issue)
                        && forall k :: i <= k < r.value ==> !IsMatchFor(sections[k], issue)
    decreases |sections| - i
  {
    if i == |sections| then None
    else if IsMatchFor(sections[i], issue) then Some(i)
    else FirstMatchFrom(sections, issue, i + 1)
  }

  /** getSection: the first section, in list order, that matches the issue. */
  function FirstMatch(sections: seq<ChangelogSection>, issue: Issue): (r: Option<nat>)
    ensures r.None? <==> forall k :: 0 <= k < |sections| ==> !IsMatchFor(sections[k], issue)
    ensures r.Some? ==> r.value < |sections| && IsMatchFor(sections[r.value], issue)
                        && forall k :: 0 <= k < r.value ==> !IsMatchFor(sections[k], issue)
  {
    FirstMatchFrom(sections, issue, 0)
  }

  /** The sections an issue is added to: its first match, if any. */
  function Claim(sections: seq<ChangelogSection>, issue: Issue): (r: seq<nat>)
    ensures |r| <= 1
  {
    match FirstMatch(sections, issue)
    case None => []
    case Some(j) => [j]
  }

  /** The claims of every issue against the section list, as the collation takes them. */
  function ClaimOf(sections: seq<ChangelogSection>): Issue -> seq<nat> {
    issue => Claim(sections, issue)
  }

  /** collate: one bucket per section that received an issue, in section
      order; an issue is in at most one bucket, that of its first match. */
  method Collate(sections: seq<ChangelogSection>, issues: seq<Issue>) returns (r: seq<Collation.Bucket<Issue>>)
    ensures Collation.IsCollation(r, |sections|, issues, ClaimOf(sections))
    ensures r == Collation.CollationOf(|sections|, issues, ClaimOf(sections))
    ensures forall k, x :: 0 <= k < |r| && x in r[k].items ==>
              x in issues && FirstMatch(sections, x) == Some(r[k].section)
    ensures forall a, b, x :: 0 <= a < |r| && 0 <= b < |r| && x in r[a].items && x in r[b].items ==> a == b
  {
    r := Collation.Collate(|sections|, issues, ClaimOf(sections));
  }

  /** A first-match section as a section of the per-group rule: all in the
      null group of the built-in sections, accepting every issue type. */
  function Lift(sections: seq<ChangelogSection>): (r: seq<ChangelogSections.Section>)
    ensures |r| == |sections|
    ensures forall k :: 0 <= k < |r| ==>
              r[k].group == None && r[k].issueType == SelectIssues.Any
              && r[k].labels == sections[k].labels
  {
    seq(|sections|, k requires 0 <= k < |sections| =>
          ChangelogSections.DefaultSection(Display(sections[k]), sections[k].labels))
  }

  /** A lifted section matches exactly when the original does. */
  lemma LiftKeepsMatches(sections: seq<ChangelogSection>, issue: Issue)
    ensures forall k :: 0 <= k < |sections| ==>
              (ChangelogSections.Matches(Lift(sections)[k], issue) <==> IsMatchFor(sections[k], issue))
  {
  }

  /** The first match is the matching section with no match before it. */
  lemma FirstMatchIs(sections: seq<ChangelogSection>, issue: Issue, j: int)
    requires 0 <= j < |sections| && IsMatchFor(sections[j], issue)
    requires forall k :: 0 <= k < j ==> !IsMatchFor(sections[k], issue)
    ensures FirstMatch(sections, issue) == Some(j)
  {
    var r := FirstMatch(sections, issue);
    assert r.Some?;
    assert !(r.value < j) && !(j < r.value);
  }

  /** With one group, the first of its group is the first match. */
  lemma SingleGroupFirst(sections: seq<ChangelogSection>, issue: Issue, j: int)
    ensures ChangelogSections.FirstInGroup(Lift(sections), issue, j) <==> FirstMatch(sections, issue) == Some(j)
  {
    var lifted := Lift(sections);
    LiftKeepsMatches(sections, issue);
    if ChangelogSections.FirstInGroup(lifted, issue, j) {
      forall k | 0 <= k < j
        ensures !IsMatchFor(sections[k], issue)
      {
        assert lifted[k].group == lifted[j].group;
      }
      FirstMatchIs(sections, issue, j);
    }
  }

  /** The section a first-match list puts an issue in is the section the
      per-group rule claims when every section shares one group and accepts
      every issue type: the older rule is the single-group case of the newer. */
  lemma FirstMatchIsSingleGroupClaim(sections: seq<ChangelogSection>, issue: Issue, j: int)
    ensures j in ChangelogSections.Claims(Lift(sections), issue) <==> FirstMatch(sections, issue) == Some(j)
  {
    SingleGroupFirst(sections, issue, j);
    ChangelogSections.ClaimsAreFirstInGroup(Lift(sections), issue, j);
  }
}
