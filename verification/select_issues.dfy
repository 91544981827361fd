/** SelectIssues: the label-content and issue-type predicates that decide
    whether an issue belongs to a changelog section. */
module SelectIssues {
  import opened Strings
  import opened Payload

  /** The issue-type filter of a section: ANY, ISSUE or PULL_REQUEST. */
  datatype IssueType = Any | PlainIssue | PullRequest

  /** Some token occurs in `name`. */
  function NameContainsAny(name: string, tokens: seq<string>): (r: bool)
    ensures r <==> exists t :: t in tokens && Contains(name, t)
  {
    if |tokens| == 0 then false
    else if Contains(name, tokens[0]) then
      assert tokens[0] in tokens;
      true
    else
      var r := NameContainsAny(name, tokens[1..]);
      assert tokens == [tokens[0]] + tokens[1..];
      assert forall t :: t in tokens <==> t == tokens[0] || t in tokens[1..];
      r
  }

  /** Some label name contains some token. */
  function AnyLabelContains(labels: seq<string>, tokens: seq<string>): (r: bool)
    ensures r <==> exists n, t :: n in labels && t in tokens && Contains(n, t)
  {
    if |labels| == 0 then false
    else if NameContainsAny(labels[0], tokens) then
      assert labels[0] in labels;
      true
    else
      var r := AnyLabelContains(labels[1..], tokens);
      assert labels == [labels[0]] + labels[1..];
      assert forall n :: n in labels <==> n == labels[0] || n in labels[1..];
      r
  }

  /** withLabelNamesContaining: the issue has a label whose name contains one
      of the tokens as a substring (not necessarily equal to it). */
  function WithLabelNamesContaining(tokens: seq<string>, issue: Issue): (r: bool)
    ensures r <==> exists n, t :: n in issue.labels && t in tokens && Contains(n, t)
  {
    AnyLabelContains(issue.labels, tokens)
  }

  /** withType: ANY selects everything, ISSUE selects issues without the
      pull-request marker and PULL_REQUEST those with it. */
  predicate WithType(issueType: IssueType, issue: Issue) {
    match issueType
    case Any => true
    case PlainIssue => !issue.pullRequest
    case PullRequest => issue.pullRequest
  }

  /** With no tokens, nothing is selected. */
  lemma NoTokensSelectNothing(issue: Issue)
    ensures !WithLabelNamesContaining([], issue)
  {
  }

  /** Every issue passes ANY and exactly one of ISSUE and PULL_REQUEST. */
  lemma TypesPartitionIssues(issue: Issue)
    ensures WithType(Any, issue)
    ensures WithType(PlainIssue, issue) != WithType(PullRequest, issue)
  {
  }

  /** A label that equals a token, or merely contains it ("type: bug" for
      "bug"), selects the issue. */
  lemma SubstringSelects(issue: Issue, name: string, token: string, tokens: seq<string>, i: nat)
    requires name in issue.labels && token in tokens
    requires i + |token| <= |name| && name[i..i + |token|] == token
    ensures WithLabelNamesContaining(tokens, issue)
  {
    assert OccursAt(name, token, i);
  }
}
