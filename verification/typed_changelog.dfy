/** The changelog generator of the `releasenotesgenerator` generation: issues
    are grouped by the type their labels name, in the declaration order of
    the types, and the thank-you summary follows the groups. */
module TypedChangelogGenerator {
  import opened Wrappers
  import opened Strings
  import opened Payload
  import opened IssueTypes
  import Collation
  import SortGroup
  import Contributors
  import Markdown
  import Pagination

  const ThankYou: string := "## :heart: Contributors\n\nWe\U{2019}d like to thank all the contributors who worked on our current release!"

  datatype GenerationError =
    | IssuesUnavailable(fetchError: Pagination.FetchError)
    | PullRequestWithoutUser(number: string)

  /** Issue.getType. */
  function TypeOf(issue: Issue): Option<Type> {
    FromLabels(issue.labels)
  }

  /** The sort key of an issue: its type's position in declaration order,
      or none for an untyped issue (which the stream filters out). */
  function TypeKey(issue: Issue): (r: Option<nat>)
    ensures r.Some? <==> TypeOf(issue).Some?
    ensures r.Some? ==> r.value < |AllTypes| && AllTypes[r.value] == TypeOf(issue).value
  {
    match TypeOf(issue)
    case None => None
    case Some(t) => Some(Ordinal(t))
  }

  /** sortIssues: the typed issues, stably sorted by type and grouped; each
      group holds exactly the issues of its type, in input order. */
  function SortIssues(issues: seq<Issue>): (r: seq<Collation.Bucket<Issue>>)
    ensures Collation.IsCollation(r, |AllTypes|, issues, SortGroup.KeyClaims(TypeKey))
  {
    SortGroup.SortAndGroup(issues, TypeKey, |AllTypes|)
  }

  /** An issue is in the group of type `t` exactly when its labels name `t`. */
  lemma GroupMembership(issues: seq<Issue>, k: nat, x: Issue)
    requires k < |SortIssues(issues)|
    ensures x in SortIssues(issues)[k].items <==> x in issues && TypeOf(x) == Some(AllTypes[SortIssues(issues)[k].section])
  {
    var g := SortIssues(issues)[k];
    assert g.items == Collation.Claimants(issues, SortGroup.KeyClaims(TypeKey), g.section);
    SortGroup.KeyClaimed(TypeKey, x, g.section);
    if TypeOf(x) == Some(AllTypes[g.section]) {
      assert Ordinal(AllTypes[g.section]) == g.section;
    }
  }

  // ---------------------------------------------------------------------
  // Content
  // ---------------------------------------------------------------------

  function RawTitle(issue: Issue): string {
    issue.title
  }

  /** getOutput: the type's heading, then the bullets of its issues. */
  function Output(t: Type, issues: seq<Issue>): string {
    "## " + Emoji(t) + " " + Description(t) + "\n\n" + Markdown.IssueLines(issues, RawTitle)
  }

  /** The groups' outputs, in group order. */
  function Outputs(groups: seq<Collation.Bucket<Issue>>): seq<string>
    requires forall k :: 0 <= k < |groups| ==> groups[k].section < |AllTypes|
  {
    seq(|groups|, k requires 0 <= k < |groups| => Output(AllTypes[groups[k].section], groups[k].items))
  }

  /** The fifth character of an output is the second of its emoji, which
      tells the four types apart. */
  lemma OutputNamesType(t: Type, issues: seq<Issue>)
    ensures |Output(t, issues)| > 4 && Output(t, issues)[4] == Emoji(t)[1]
  {
    var head := "## " + Emoji(t);
    EmojiIsLong(t);
    assert head[4] == Emoji(t)[1];
    var o := Output(t, issues);
    assert o == head + " " + Description(t) + "\n\n" + Markdown.IssueLines(issues, RawTitle);
  }

  lemma EmojiIsLong(t: Type)
    ensures |Emoji(t)| > 1
  {
  }

  /** Outputs of different types differ, whatever their issues. */
  lemma OutputsDiffer(t: Type, u: Type, a: seq<Issue>, b: seq<Issue>)
    requires t != u
    ensures Output(t, a) != Output(u, b)
  {
    OutputNamesType(t, a);
    OutputNamesType(u, b);
  }

  /** Outputs of different groups differ, so the LinkedHashSet drops nothing. */
  lemma OutputsAreDistinct(issues: seq<Issue>)
    ensures var outs := Outputs(SortIssues(issues));
            forall i, j :: 0 <= i < j < |outs| ==> outs[i] != outs[j]
  {
    var groups := SortIssues(issues);
    var outs := Outputs(groups);
    forall i, j | 0 <= i < j < |outs|
      ensures outs[i] != outs[j]
    {
      var a, b := groups[i].section, groups[j].section;
      assert a < b;
      assert Ordinal(AllTypes[a]) == a && Ordinal(AllTypes[b]) == b;
      OutputsDiffer(AllTypes[a], AllTypes[b], groups[i].items, groups[j].items);
    }
  }

  function Identity(s: string): string {
    s
  }

  function SameUser(user: User): User {
    user
  }

  /** formatContributors: a bullet without a line end. */
  function ContributorEntry(user: User): string {
    "- [@" + user.name + "](" + user.url + ")"
  }

  /** getContributors: the pull-request authors, one per login and URL. */
  function ContributorsOf(issues: seq<Issue>): (r: Result<seq<User>, GenerationError>)
    ensures r.Failure? <==> exists i :: 0 <= i < |issues| && issues[i].pullRequest && issues[i].user.None?
    ensures r.Success? ==> forall u :: u in r.value <==>
              exists i :: 0 <= i < |issues| && issues[i].pullRequest && issues[i].user == Some(u)
    ensures r.Success? ==> forall i, j :: 0 <= i < j < |r.value| ==> r.value[i] != r.value[j]
  {
    match Contributors.PullRequestAuthors(issues)
    case Failure(n) => Failure(PullRequestWithoutUser(n))
    case Success(us) =>
      Contributors.DistinctSpec(us, SameUser);
      Success(Contributors.Distinct(us, SameUser))
  }

  /** The contributors joined with line ends between them. */
  function Users(users: seq<User>): string {
    Join(seq(|users|, k requires 0 <= k < |users| => ContributorEntry(users[k])), "\n")
  }

  /** getContributorSummary: the thank-you, a blank line and the users, when
      there is any text; nothing otherwise. */
  function Summary(users: string): (r: string)
    ensures HasText(users) ==> ThankYou + "\n\n" <= r && r[|ThankYou| + 2..] == users
    ensures !HasText(users) ==> r == ""
  {
    if HasText(users) then ThankYou + "\n\n" + users else ""
  }

  /** generateContent. */
  function GenerateContent(issues: seq<Issue>): (r: Result<string, GenerationError>)
    ensures r.Success? <==> ContributorsOf(issues).Success?
    ensures r.Success? ==>
              r.value == Join(Outputs(SortIssues(issues)), "\n") + "\n" + Summary(Users(ContributorsOf(issues).value))
  {
    match ContributorsOf(issues)
    case Failure(e) => Failure(e)
    case Success(cs) =>
      OutputsKeepAll(issues);
      var groups := SortIssues(issues);
      var outputs := Contributors.Distinct(Outputs(groups), Identity);
      Success(Join(outputs, "\n") + "\n" + Summary(Users(cs)))
  }

  /** generate, up to the file write. */
  function Generate(milestone: int, issuesFor: int -> Result<seq<Issue>, Pagination.FetchError>): (r: Result<string, GenerationError>)
    ensures issuesFor(milestone).Failure? ==> r == Failure(IssuesUnavailable(issuesFor(milestone).error))
    ensures issuesFor(milestone).Success? ==> r == GenerateContent(issuesFor(milestone).value)
    ensures issuesFor(milestone).Success? ==>
              (r.Failure? <==> exists i :: 0 <= i < |issuesFor(milestone).value| &&
                                 issuesFor(milestone).value[i].pullRequest && issuesFor(milestone).value[i].user.None?)
  {
    Pagination.ContentOf(issuesFor(milestone), e => IssuesUnavailable(e), GenerateContent)
  }

  // ---------------------------------------------------------------------
  // Properties
  // ---------------------------------------------------------------------

  /** The de-duplication of outputs changes nothing. */
  lemma OutputsKeepAll(issues: seq<Issue>)
    ensures Contributors.Distinct(Outputs(SortIssues(issues)), Identity) == Outputs(SortIssues(issues))
  {
    OutputsAreDistinct(issues);
    Contributors.DistinctFromKeepsDistinct(Outputs(SortIssues(issues)), Identity, {});
  }

  /** The thank-you summary appears exactly when some pull request has an author. */
  lemma SummaryIffContributors(users: seq<User>)
    ensures Summary(Users(users)) != "" <==> |users| > 0
  {
    if |users| > 0 {
      var entries := seq(|users|, k requires 0 <= k < |users| => ContributorEntry(users[k]));
      assert Users(users)[0] == '-' by {
        if |users| > 1 {
          assert Users(users) == entries[0] + "\n" + Join(entries[1..], "\n");
        }
        assert entries[0][0] == '-';
      }
      assert !IsWhitespace(Users(users)[0]);
    } else {
      assert Users(users) == "";
    }
  }

  /** The output of a type lists each of its issues. */
  lemma OutputListsIssue(t: Type, items: seq<Issue>, x: Issue)
    requires x in items
    ensures exists i :: OccursAt(Output(t, items), Markdown.IssueLine(x.title, x), i)
  {
    var head := "## " + Emoji(t) + " " + Description(t) + "\n\n";
    Markdown.IssueLineOccurs(items, RawTitle, x);
    var i :| OccursAt(Markdown.IssueLines(items, RawTitle), Markdown.IssueLine(x.title, x), i);
    Markdown.OccursInside(head, Markdown.IssueLines(items, RawTitle), "", Markdown.IssueLine(x.title, x), i);
    assert head + Markdown.IssueLines(items, RawTitle) + "" == Output(t, items);
  }

  /** The joined outputs list every issue whose labels name a type. */
  lemma OutputsListTypedIssue(issues: seq<Issue>, x: Issue)
    requires x in issues && TypeOf(x).Some?
    ensures exists i :: OccursAt(Join(Outputs(SortIssues(issues)), "\n"), Markdown.IssueLine(x.title, x), i)
  {
    var groups := SortIssues(issues);
    var outs := Outputs(groups);
    var line := Markdown.IssueLine(x.title, x);
    var j := Ordinal(TypeOf(x).value);
    SortGroup.KeyClaimed(TypeKey, x, j);
    assert x in Collation.Claimants(issues, SortGroup.KeyClaims(TypeKey), j);
    var k :| 0 <= k < |groups| && groups[k].section == j;
    OutputListsIssue(AllTypes[j], groups[k].items, x);
    var i :| OccursAt(outs[k], line, i);
    Markdown.PartOccursInJoin(outs, "\n", k);
    var p :| OccursAt(Join(outs, "\n"), outs[k], p);
    Markdown.OccursTransitive(Join(outs, "\n"), outs[k], line, p, i);
  }

  /** Every issue whose labels name a type has its bullet in the release notes. */
  lemma TypedIssueIsListed(issues: seq<Issue>, x: Issue)
    requires GenerateContent(issues).Success?
    requires x in issues && TypeOf(x).Some?
    ensures exists i :: OccursAt(GenerateContent(issues).value, Markdown.IssueLine(x.title, x), i)
  {
    var joined := Join(Outputs(SortIssues(issues)), "\n");
    OutputsListTypedIssue(issues, x);
    assert "" + joined <= GenerateContent(issues).value;
    Markdown.OccursInPrefixPart(GenerateContent(issues).value, "", joined, Markdown.IssueLine(x.title, x));
  }

  /** The joined bullets hold each user's bullet. */
  lemma UsersListEntry(users: seq<User>, u: User)
    requires u in users
    ensures exists p :: OccursAt(Users(users), ContributorEntry(u), p)
  {
    var k :| 0 <= k < |users| && users[k] == u;
    var entries := seq(|users|, n requires 0 <= n < |users| => ContributorEntry(users[n]));
    assert Users(users) == Join(entries, "\n");
    Markdown.PartOccursInJoin(entries, "\n", k);
  }

  /** The summary of a non-empty list carries the thank-you and each user's bullet. */
  lemma SummaryThanksEveryUser(users: seq<User>, u: User)
    requires u in users
    ensures exists k :: OccursAt(Summary(Users(users)), ThankYou, k)
    ensures exists k :: OccursAt(Summary(Users(users)), ContributorEntry(u), k)
  {
    var text := Users(users);
    SummaryIffContributors(users);
    UsersListEntry(users, u);
    var p :| OccursAt(text, ContributorEntry(u), p);
    assert Summary(text) == ThankYou + "\n\n" + text;
    Markdown.HeadingThenBody(ThankYou, "\n\n", text, ContributorEntry(u), p);
  }

  /** Every pull-request author is thanked with a bullet of its own. */
  lemma ThanksEveryAuthor(issues: seq<Issue>, i: int)
    requires GenerateContent(issues).Success?
    requires 0 <= i < |issues| && issues[i].pullRequest
    ensures issues[i].user.Some?
    ensures exists k :: OccursAt(GenerateContent(issues).value, ThankYou, k)
    ensures issues[i].user.Some? ==>
              exists k :: OccursAt(GenerateContent(issues).value, ContributorEntry(issues[i].user.value), k)
  {
    var u := issues[i].user.value;
    var cs := ContributorsOf(issues).value;
    assert u in cs;
    SummaryThanksEveryUser(cs, u);
    var content := GenerateContent(issues).value;
    var prefix := Join(Outputs(SortIssues(issues)), "\n") + "\n";
    var summary := Summary(Users(cs));
    assert prefix + summary <= content;
    Markdown.OccursInPrefixPart(content, prefix, summary, ThankYou);
    Markdown.OccursInPrefixPart(content, prefix, summary, ContributorEntry(u));
  }

  /** Without typed issues there are no groups. */
  lemma NoTypedIssuesNoGroups(issues: seq<Issue>)
    requires forall i :: 0 <= i < |issues| ==> TypeOf(issues[i]).None?
    ensures SortIssues(issues) == []
  {
    var claims := SortGroup.KeyClaims(TypeKey);
    forall x, j | x in issues
      ensures j !in claims(x)
    {
      var i :| 0 <= i < |issues| && issues[i] == x;
      SortGroup.KeyClaimed(TypeKey, x, j);
    }
    Collation.CollationEmptyIffUnclaimed(|AllTypes|, issues, claims);
    Collation.CollationIsUnique(SortIssues(issues), |AllTypes|, issues, claims);
  }

  /** Without pull requests nobody is credited. */
  lemma NoPullRequestsNoContributors(issues: seq<Issue>)
    requires forall i :: 0 <= i < |issues| ==> !issues[i].pullRequest
    ensures ContributorsOf(issues) == Success([])
  {
  }

  /** Without typed issues and without pull requests the file is one line end. */
  lemma NothingToReport(issues: seq<Issue>)
    requires forall i :: 0 <= i < |issues| ==> TypeOf(issues[i]).None? && !issues[i].pullRequest
    ensures GenerateContent(issues) == Success("\n")
  {
    NoTypedIssuesNoGroups(issues);
    NoPullRequestsNoContributors(issues);
    EmptyContent(issues);
  }

  lemma EmptyContent(issues: seq<Issue>)
    requires SortIssues(issues) == [] && ContributorsOf(issues) == Success([])
    ensures GenerateContent(issues) == Success("\n")
  {
    var none: seq<string> := [];
    var outputs := Outputs(SortIssues(issues));
    assert outputs == none;
    assert GenerateContent(issues) == Success(Join(Contributors.Distinct(outputs, Identity), "\n") + "\n" + Summary(Users([])));
    EmptyParts();
  }

  lemma EmptyParts()
    ensures Join(Contributors.Distinct([], Identity), "\n") + "\n" + Summary(Users([])) == "\n"
  {
    var none: seq<string> := [];
    assert Contributors.Distinct(none, Identity) == none;
    assert Users([]) == "";
    assert !HasText("");
    assert Join(none, "\n") == "";
  }
}
