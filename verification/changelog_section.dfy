/** ChangelogSection: a titled changelog bucket identified by label tokens.
    The same shape (title, emoji, tokens) is used by the generator and
    release-notes packages for their fixed section lists. */
module ChangelogSection {
  import opened Wrappers
  import opened Strings
  import opened Payload
  import SelectIssues

  datatype ChangelogSection = ChangelogSection(title: string, emoji: string, labels: seq<string>)

  /** The constructor's assertions: a title with text, an emoji with text and
      at least one label token, checked in that order. */
  function Create(title: string, emoji: string, labels: seq<string>): (r: Result<ChangelogSection, string>)
    ensures r.Success? <==> HasText(title) && HasText(emoji) && |labels| > 0
    ensures r.Success? ==> r.value.title == title && r.value.emoji == emoji && r.value.labels == labels
    ensures !HasText(title) ==> r == Failure("Title must not be empty")
    ensures HasText(title) && !HasText(emoji) ==> r == Failure("Emoji must not be empty")
    ensures HasText(title) && HasText(emoji) && |labels| == 0 ==> r == Failure("Labels must not be empty")
  {
    if !HasText(title) then Failure("Title must not be empty")
    else if !HasText(emoji) then Failure("Emoji must not be empty")
    else if |labels| == 0 then Failure("Labels must not be empty")
    else Success(ChangelogSection(title, emoji, labels))
  }

  /** isMatchFor: tokens in the outer loop, labels in the inner one, true at
      the first label name that contains a token. */
  function IsMatchFor(section: ChangelogSection, issue: Issue): (r: bool)
    ensures r <==> SelectIssues.WithLabelNamesContaining(section.labels, issue)
  {
    MatchFrom(section.labels, issue.labels)
  }

  function MatchFrom(tokens: seq<string>, labels: seq<string>): (r: bool)
    ensures r <==> exists n, t :: n in labels && t in tokens && Contains(n, t)
  {
    if |tokens| == 0 then false
    else if LabelsContain(labels, tokens[0]) then
      assert tokens[0] in tokens;
      true
    else
      var r := MatchFrom(tokens[1..], labels);
      assert tokens == [tokens[0]] + tokens[1..];
      assert forall t :: t in tokens <==> t == tokens[0] || t in tokens[1..];
      r
  }

  /** The inner loop of isMatchFor: some label name contains `token`. */
  function LabelsContain(labels: seq<string>, token: string): (r: bool)
    ensures r <==> exists n :: n in labels && Contains(n, token)
  {
    if |labels| == 0 then false
    else if Contains(labels[0], token) then
      assert labels[0] in labels;
      true
    else
      var r := LabelsContain(labels[1..], token);
      assert labels == [labels[0]] + labels[1..];
      assert forall n :: n in labels <==> n == labels[0] || n in labels[1..];
      r
  }

  /** An issue without labels matches no section. */
  lemma UnlabelledNeverMatches(section: ChangelogSection, issue: Issue)
    requires issue.labels == []
    ensures !IsMatchFor(section, issue)
  {
  }

  /** Matching is monotone in the labels: adding labels never loses a match. */
  lemma MatchIsMonotone(section: ChangelogSection, issue: Issue, extra: seq<string>)
    ensures IsMatchFor(section, issue) ==> IsMatchFor(section, issue.(labels := issue.labels + extra))
  {
    if IsMatchFor(section, issue) {
      var n, t :| n in issue.labels && t in section.labels && Contains(n, t);
      assert n in (issue.labels + extra);
    }
  }

  /** toString: the emoji, a space, then the title; both parts can be read back. */
  function Display(section: ChangelogSection): (r: string)
    ensures |r| == |section.emoji| + 1 + |section.title|
    ensures r[..|section.emoji|] == section.emoji && r[|section.emoji|] == ' '
    ensures r[|section.emoji| + 1..] == section.title
  {
    section.emoji + " " + section.title
  }
}
