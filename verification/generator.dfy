/** The generator of the second generation (generator/Generator): first-match
    sections, mentions quoted, every pull-request author thanked. Numeric
    milestone arguments are taken as numbers, anything else is looked up. */
module Generator {
  import opened Wrappers
  import opened Strings
  import opened Payload
  import opened ChangelogSection
  import FirstMatchSections
  import Collation
  import Mentions
  import Contributors
  import Markdown
  import GitHubService
  import Pagination
  import ChangelogGenerator

  const ThankYou: string := "## :heart: Contributors\n\nWe'd like to thank all the contributors who worked on this release!"

  datatype GenerationError =
    | MilestoneLookupFailed(serviceError: GitHubService.ServiceError)
    | IssuesUnavailable(fetchError: Pagination.FetchError)
    | PullRequestWithoutUser(number: string)

  /** getMilestoneNumber: Integer.parseInt, and on NumberFormatException the
      lookup by title. */
  function MilestoneNumber(milestone: string, lookup: string -> Result<int, GitHubService.ServiceError>): (r: Result<int, GenerationError>)
    ensures ParseInt(milestone).Some? ==> r == Success(ParseInt(milestone).value)
    ensures ParseInt(milestone).None? ==> (r.Success? <==> lookup(milestone).Success?)
    ensures ParseInt(milestone).None? && r.Success? ==> r.value == lookup(milestone).value
  {
    match ParseInt(milestone)
    case Some(n) => Success(n)
    case None =>
      match lookup(milestone)
      case Success(n) => Success(n)
      case Failure(e) => Failure(MilestoneLookupFailed(e))
  }

  /** A milestone named by the decimal text of an int never reaches the lookup. */
  lemma NumericMilestoneSkipsLookup(n: int, lookup: string -> Result<int, GitHubService.ServiceError>)
    requires IntMin <= n <= IntMax
    ensures MilestoneNumber(IntToString(n), lookup) == Success(n)
  {
    ParseIntOfIntToString(n);
  }

  /** The block of one section: "## " + emoji + " " + title, then its bullets. */
  function SectionBlock(section: ChangelogSection, issues: seq<Issue>, title: Issue -> string): string {
    Markdown.Heading(Display(section)) + Markdown.IssueLines(issues, title)
  }

  /** The blocks of the collated sections, in section order. */
  function SectionBlocks(sections: seq<ChangelogSection>, issues: seq<Issue>, title: Issue -> string): (r: seq<string>)
    ensures |r| == |Collation.CollationOf(|sections|, issues, FirstMatchSections.ClaimOf(sections))|
    ensures forall b :: 0 <= b < |r| ==> |r[b]| > 0
  {
    var buckets := Collation.CollationOf(|sections|, issues, FirstMatchSections.ClaimOf(sections));
    seq(|buckets|, b requires 0 <= b < |buckets| => SectionBlock(sections[buckets[b].section], buckets[b].items, title))
  }

  /** addSectionContent over collate, with the title as `title` prints it. */
  function SectionsContent(sections: seq<ChangelogSection>, issues: seq<Issue>, title: Issue -> string): string {
    Join(SectionBlocks(sections, issues, title), "\n")
  }

  /** addContributorsContent. */
  function ContributorsBlock(users: seq<User>): string {
    "\n" + ThankYou + "\n\n" + Markdown.ContributorLines(users)
  }

  function Login(user: User): string {
    user.name
  }

  /** getContributors: the pull-request authors, one per login (User equality
      is the login in this generation). */
  function ContributorsOf(issues: seq<Issue>): (r: Result<seq<User>, GenerationError>)
    ensures r.Failure? <==> exists i :: 0 <= i < |issues| && issues[i].pullRequest && issues[i].user.None?
    ensures r.Success? ==> forall u :: u in r.value ==>
              exists i :: 0 <= i < |issues| && issues[i].pullRequest && issues[i].user == Some(u)
    ensures r.Success? ==> forall i, j :: 0 <= i < j < |r.value| ==> r.value[i].name != r.value[j].name
    ensures r.Success? ==> forall u :: u in Contributors.PullRequestAuthors(issues).value ==>
              exists v :: v in r.value && v.name == u.name
  {
    match Contributors.PullRequestAuthors(issues)
    case Failure(n) => Failure(PullRequestWithoutUser(n))
    case Success(us) =>
      Contributors.DistinctSpec(us, Login);
      Success(Contributors.Distinct(us, Login))
  }

  /** generateContent. */
  function GenerateContent(sections: seq<ChangelogSection>, issues: seq<Issue>): (r: Result<string, GenerationError>)
    ensures r.Success? <==> ContributorsOf(issues).Success?
    ensures r.Success? ==> SectionsContent(sections, issues, ChangelogGenerator.EscapedTitle) <= r.value
    ensures r.Success? && |ContributorsOf(issues).value| > 0 ==>
              r.value == SectionsContent(sections, issues, ChangelogGenerator.EscapedTitle) + ContributorsBlock(ContributorsOf(issues).value)
    ensures r.Success? && ContributorsOf(issues).value == [] ==>
              r.value == SectionsContent(sections, issues, ChangelogGenerator.EscapedTitle)
  {
    match ContributorsOf(issues)
    case Failure(e) => Failure(e)
    case Success(cs) =>
      Success(SectionsContent(sections, issues, ChangelogGenerator.EscapedTitle)
              + (if |cs| > 0 then ContributorsBlock(cs) else ""))
  }

  /** generate, up to the file write. */
  function Generate(sections: seq<ChangelogSection>, milestone: string,
                    lookup: string -> Result<int, GitHubService.ServiceError>,
                    issuesFor: int -> Result<seq<Issue>, Pagination.FetchError>): (r: Result<string, GenerationError>)
    ensures r.Success? ==> MilestoneNumber(milestone, lookup).Success?
                           && issuesFor(MilestoneNumber(milestone, lookup).value).Success?
    ensures MilestoneNumber(milestone, lookup).Failure? ==> r == Failure(MilestoneNumber(milestone, lookup).error)
    ensures MilestoneNumber(milestone, lookup).Success? && issuesFor(MilestoneNumber(milestone, lookup).value).Success? ==>
              r == GenerateContent(sections, issuesFor(MilestoneNumber(milestone, lookup).value).value)
  {
    match MilestoneNumber(milestone, lookup)
    case Failure(e) => Failure(e)
    case Success(n) =>
      match issuesFor(n)
      case Failure(e) => Failure(IssuesUnavailable(e))
      case Success(issues) => GenerateContent(sections, issues)
  }

  // ---------------------------------------------------------------------
  // Properties
  // ---------------------------------------------------------------------

  /** A section block shows the bullet of each of its issues. */
  lemma BlockListsIssue(section: ChangelogSection, items: seq<Issue>, title: Issue -> string, x: Issue)
    requires x in items
    ensures exists i :: OccursAt(SectionBlock(section, items, title), Markdown.IssueLine(title(x), x), i)
  {
    Markdown.IssueLineOccurs(items, title, x);
    var i :| OccursAt(Markdown.IssueLines(items, title), Markdown.IssueLine(title(x), x), i);
    var heading := Markdown.Heading(Display(section));
    Markdown.OccursInside(heading, Markdown.IssueLines(items, title), "", Markdown.IssueLine(title(x), x), i);
    assert heading + Markdown.IssueLines(items, title) + "" == SectionBlock(section, items, title);
  }

  /** The first match of a listed issue has a bucket, and the issue is in it. */
  lemma FirstMatchHasBucket(sections: seq<ChangelogSection>, issues: seq<Issue>, x: Issue, j: nat)
    requires x in issues && FirstMatchSections.FirstMatch(sections, x) == Some(j)
    ensures var buckets := Collation.CollationOf(|sections|, issues, FirstMatchSections.ClaimOf(sections));
            exists k :: 0 <= k < |buckets| && buckets[k].section == j && x in buckets[k].items
  {
    var claims := FirstMatchSections.ClaimOf(sections);
    var buckets := Collation.CollationOf(|sections|, issues, claims);
    assert FirstMatchSections.Claim(sections, x) == [j];
    assert j in claims(x);
    var here := Collation.Claimants(issues, claims, j);
    assert x in here;
    var k :| 0 <= k < |buckets| && buckets[k].section == j;
    assert buckets[k].items == here;
  }

  /** An issue with a matching section has its bullet in its first match's block. */
  lemma FirstMatchIsListed(sections: seq<ChangelogSection>, issues: seq<Issue>, title: Issue -> string, x: Issue, j: nat)
    requires x in issues && FirstMatchSections.FirstMatch(sections, x) == Some(j)
    ensures exists i :: OccursAt(SectionsContent(sections, issues, title), Markdown.IssueLine(title(x), x), i)
  {
    var buckets := Collation.CollationOf(|sections|, issues, FirstMatchSections.ClaimOf(sections));
    var blocks := SectionBlocks(sections, issues, title);
    var content := SectionsContent(sections, issues, title);
    var line := Markdown.IssueLine(title(x), x);
    FirstMatchHasBucket(sections, issues, x, j);
    var k :| 0 <= k < |buckets| && buckets[k].section == j && x in buckets[k].items;
    BlockListsIssue(sections[j], buckets[k].items, title, x);
    assert blocks[k] == SectionBlock(sections[j], buckets[k].items, title);
    var i :| OccursAt(blocks[k], line, i);
    Markdown.PartOccursInJoin(blocks, "\n", k);
    var p :| OccursAt(content, blocks[k], p);
    Markdown.OccursTransitive(content, blocks[k], line, p, i);
  }

  /** The contributors block carries the thank-you and every contributor's bullet. */
  lemma BlockThanksEveryContributor(users: seq<User>, u: User)
    requires u in users
    ensures exists i :: OccursAt(ContributorsBlock(users), ThankYou, i)
    ensures exists i :: OccursAt(ContributorsBlock(users), Markdown.ContributorLine(u), i)
  {
    var lines := Markdown.ContributorLines(users);
    assert ContributorsBlock(users) == "\n" + ThankYou + ("\n\n" + lines);
    assert ThankYou[0..|ThankYou|] == ThankYou;
    Markdown.OccursInside("\n", ThankYou, "\n\n" + lines, ThankYou, 0);
    Markdown.ContributorLineOccurs(users, u);
    var i :| OccursAt(lines, Markdown.ContributorLine(u), i);
    assert ContributorsBlock(users) == ("\n" + ThankYou + "\n\n") + lines + "";
    Markdown.OccursInside("\n" + ThankYou + "\n\n", lines, "", Markdown.ContributorLine(u), i);
  }

  /** Every pull-request author's login is among the contributors. */
  lemma AuthorIsListed(issues: seq<Issue>, i: int)
    requires ContributorsOf(issues).Success?
    requires 0 <= i < |issues| && issues[i].pullRequest
    ensures issues[i].user.Some?
    ensures issues[i].user.Some? ==> ChangelogGenerator.ListsLogin(ContributorsOf(issues).value, issues[i].user.value.name)
  {
    assert issues[i].user.value in Contributors.PullRequestAuthors(issues).value;
  }

  /** A listed contributor gets the thank-you and a bullet in the changelog. */
  lemma ContributorIsThanked(sections: seq<ChangelogSection>, issues: seq<Issue>, v: User)
    requires GenerateContent(sections, issues).Success?
    requires v in ContributorsOf(issues).value
    ensures exists k :: OccursAt(GenerateContent(sections, issues).value, ThankYou, k)
    ensures exists k :: OccursAt(GenerateContent(sections, issues).value, Markdown.ContributorLine(v), k)
  {
    var cs := ContributorsOf(issues).value;
    var content := GenerateContent(sections, issues).value;
    var sc := SectionsContent(sections, issues, ChangelogGenerator.EscapedTitle);
    assert sc + ContributorsBlock(cs) <= content;
    BlockThanksEveryContributor(cs, v);
    Markdown.OccursInPrefixPart(content, sc, ContributorsBlock(cs), ThankYou);
    Markdown.OccursInPrefixPart(content, sc, ContributorsBlock(cs), Markdown.ContributorLine(v));
  }

  /** A login among the contributors is thanked in the changelog. */
  lemma ListedLoginIsThanked(sections: seq<ChangelogSection>, issues: seq<Issue>, name: string)
    requires GenerateContent(sections, issues).Success?
    requires ChangelogGenerator.ListsLogin(ContributorsOf(issues).value, name)
    ensures exists k :: OccursAt(GenerateContent(sections, issues).value, ThankYou, k)
    ensures ChangelogGenerator.ShowsLogin(GenerateContent(sections, issues).value, name)
  {
    var v :| v in ContributorsOf(issues).value && v.name == name;
    ContributorIsThanked(sections, issues, v);
  }

  /** End to end: the changelog thanks every pull-request author, under the
      author's login. */
  lemma ThanksEveryAuthor(sections: seq<ChangelogSection>, issues: seq<Issue>, i: int)
    requires GenerateContent(sections, issues).Success?
    requires 0 <= i < |issues| && issues[i].pullRequest
    ensures issues[i].user.Some?
    ensures exists k :: OccursAt(GenerateContent(sections, issues).value, ThankYou, k)
    ensures issues[i].user.Some? ==>
              ChangelogGenerator.ShowsLogin(GenerateContent(sections, issues).value, issues[i].user.value.name)
  {
    AuthorIsListed(issues, i);
    ListedLoginIsThanked(sections, issues, issues[i].user.value.name);
  }

  /** Without pull requests there is nothing but the sections. */
  lemma NoPullRequestsNoThanks(sections: seq<ChangelogSection>, issues: seq<Issue>)
    requires forall i :: 0 <= i < |issues| ==> !issues[i].pullRequest
    ensures GenerateContent(sections, issues) == Success(SectionsContent(sections, issues, ChangelogGenerator.EscapedTitle))
  {
    var sc := SectionsContent(sections, issues, ChangelogGenerator.EscapedTitle);
    assert sc + "" == sc;
  }
}

/** The release-notes generator of the first generation: the fixed four
    sections, titles printed as they are, every pull-request author thanked. */
module ReleaseNotesGenerator {
  import opened Wrappers
  import opened Strings
  import opened Payload
  import FirstMatchSections
  import Mentions
  import Contributors
  import Markdown
  import Pagination
  import Collation
  import ChangelogSection
  import Generator
  import ChangelogGenerator

  datatype GenerationError =
    | IssuesUnavailable(fetchError: Pagination.FetchError)
    | PullRequestWithoutUser(number: string)

  /** getFormattedIssue prints the title unchanged. */
  function RawTitle(issue: Issue): string {
    issue.title
  }

  function Identity(user: User): User {
    user
  }

  /** getContributors: the pull-request authors, one per login and URL (User
      equality compares both in this generation). */
  function ContributorsOf(issues: seq<Issue>): (r: Result<seq<User>, GenerationError>)
    ensures r.Failure? <==> exists i :: 0 <= i < |issues| && issues[i].pullRequest && issues[i].user.None?
    ensures r.Success? ==> forall u :: u in r.value <==>
              exists i :: 0 <= i < |issues| && issues[i].pullRequest && issues[i].user == Some(u)
    ensures r.Success? ==> forall i, j :: 0 <= i < j < |r.value| ==> r.value[i] != r.value[j]
  {
    match Contributors.PullRequestAuthors(issues)
    case Failure(n) => Failure(PullRequestWithoutUser(n))
    case Success(us) =>
      Contributors.DistinctSpec(us, Identity);
      Success(Contributors.Distinct(us, Identity))
  }

  /** generateContent over ReleaseNotesSections. */
  function GenerateContent(issues: seq<Issue>): (r: Result<string, GenerationError>)
    ensures r.Success? <==> ContributorsOf(issues).Success?
    ensures r.Success? ==> Generator.SectionsContent(FirstMatchSections.ReleaseNotesSections, issues, RawTitle) <= r.value
    ensures r.Success? && |ContributorsOf(issues).value| > 0 ==>
              r.value == Generator.SectionsContent(FirstMatchSections.ReleaseNotesSections, issues, RawTitle)
                         + Generator.ContributorsBlock(ContributorsOf(issues).value)
    ensures r.Success? && ContributorsOf(issues).value == [] ==>
              r.value == Generator.SectionsContent(FirstMatchSections.ReleaseNotesSections, issues, RawTitle)
  {
    match ContributorsOf(issues)
    case Failure(e) => Failure(e)
    case Success(cs) =>
      Success(Generator.SectionsContent(FirstMatchSections.ReleaseNotesSections, issues, RawTitle)
              + (if |cs| > 0 then Generator.ContributorsBlock(cs) else ""))
  }

  /** generate, up to the file write: the milestone is already a number. */
  function Generate(milestone: int, issuesFor: int -> Result<seq<Issue>, Pagination.FetchError>): (r: Result<string, GenerationError>)
    ensures issuesFor(milestone).Failure? ==> r == Failure(IssuesUnavailable(issuesFor(milestone).error))
    ensures issuesFor(milestone).Success? ==> r == GenerateContent(issuesFor(milestone).value)
  {
    Pagination.ContentOf(issuesFor(milestone), e => IssuesUnavailable(e), GenerateContent)
  }

  /** The release notes thank every pull-request author with the author's own bullet. */
  lemma ThanksEveryAuthor(issues: seq<Issue>, i: int)
    requires GenerateContent(issues).Success?
    requires 0 <= i < |issues| && issues[i].pullRequest
    ensures issues[i].user.Some?
    ensures exists k :: OccursAt(GenerateContent(issues).value, Generator.ThankYou, k)
    ensures issues[i].user.Some? ==>
              exists k :: OccursAt(GenerateContent(issues).value, Markdown.ContributorLine(issues[i].user.value), k)
  {
    var u := issues[i].user.value;
    var cs := ContributorsOf(issues).value;
    assert u in cs;
    var content := GenerateContent(issues).value;
    var sc := Generator.SectionsContent(FirstMatchSections.ReleaseNotesSections, issues, RawTitle);
    assert sc + Generator.ContributorsBlock(cs) <= content;
    Generator.BlockThanksEveryContributor(cs, u);
    Markdown.OccursInPrefixPart(content, sc, Generator.ContributorsBlock(cs), Generator.ThankYou);
    Markdown.OccursInPrefixPart(content, sc, Generator.ContributorsBlock(cs), Markdown.ContributorLine(u));
  }

  /** Bullets of the same issues with pointwise-equal titles are equal. */
  lemma IssueLinesAgree(issues: seq<Issue>, a: Issue -> string, b: Issue -> string)
    requires forall x :: x in issues ==> a(x) == b(x)
    ensures Markdown.IssueLines(issues, a) == Markdown.IssueLines(issues, b)
  {
    var la := seq(|issues|, i requires 0 <= i < |issues| => Markdown.IssueLine(a(issues[i]), issues[i]));
    var lb := seq(|issues|, i requires 0 <= i < |issues| => Markdown.IssueLine(b(issues[i]), issues[i]));
    assert la == lb;
  }

  /** When no title holds an '@', printing titles raw and quoting mentions
      give the same sections. */
  lemma RawMatchesEscapedWithoutMentions(sections: seq<ChangelogSection.ChangelogSection>, issues: seq<Issue>)
    requires forall i :: 0 <= i < |issues| ==> '@' !in issues[i].title
    ensures Generator.SectionsContent(sections, issues, RawTitle)
            == Generator.SectionsContent(sections, issues, ChangelogGenerator.EscapedTitle)
  {
    forall x | x in issues
      ensures RawTitle(x) == ChangelogGenerator.EscapedTitle(x)
    {
      Mentions.NoAtUnchanged(x.title, true);
    }
    var buckets := Collation.CollationOf(|sections|, issues, FirstMatchSections.ClaimOf(sections));
    forall b | 0 <= b < |buckets|
      ensures Markdown.IssueLines(buckets[b].items, RawTitle) == Markdown.IssueLines(buckets[b].items, ChangelogGenerator.EscapedTitle)
    {
      IssueLinesAgree(buckets[b].items, RawTitle, ChangelogGenerator.EscapedTitle);
    }
    assert Generator.SectionBlocks(sections, issues, RawTitle) == Generator.SectionBlocks(sections, issues, ChangelogGenerator.EscapedTitle);
  }

  /** One login with two profile URLs is thanked twice here and once in the
      later generations. */
  lemma SameLoginTwoUrls()
    ensures |Contributors.Distinct([User("a", "u1"), User("a", "u2")], Identity)| == 2
    ensures |Contributors.Distinct([User("a", "u1"), User("a", "u2")], Generator.Login)| == 1
  {
    var a, b := User("a", "u1"), User("a", "u2");
    assert a != b && Identity(a) == a && Identity(b) == b && Generator.Login(a) == "a" && Generator.Login(b) == "a";
    assert [a, b][1..] == [b] && [b][1..] == [];
    var noUsers: set<User>, noLogins: set<string> := {}, {};
    assert noUsers + {a} == {a} && noLogins + {"a"} == {"a"};
    assert Contributors.DistinctFrom([b], Identity, {a}) == [b] + Contributors.DistinctFrom([], Identity, {a, b});
    assert Contributors.DistinctFrom([a, b], Identity, noUsers) == [a] + Contributors.DistinctFrom([b], Identity, {a});
    assert Contributors.DistinctFrom([b], Generator.Login, {"a"}) == Contributors.DistinctFrom([], Generator.Login, {"a"});
    assert Contributors.DistinctFrom([a, b], Generator.Login, noLogins) == [a] + Contributors.DistinctFrom([b], Generator.Login, {"a"});
  }
}
