/** The changelog generator of the current generation: it resolves the
    milestone, fetches its closed issues, drops the excluded ones, collates
    them into the configured sections and writes Markdown with a contributors
    block and an external-links block. HTTP, the port patterns and the file
    write are parameters or left to the caller. */
module ChangelogGenerator {
  import opened Wrappers
  import opened Strings
  import opened Payload
  import opened ChangelogSections
  import Collation
  import TitleSort
  import Mentions
  import Porting
  import Contributors
  import Markdown
  import GitHubService
  import Pagination
  import RepositoryRef

  /** How the milestone argument names the milestone. */
  datatype MilestoneReference = ByTitle | ById

  datatype ExternalLink = ExternalLink(name: string, location: string)

  /** The application properties the generator reads. */
  datatype Config = Config(
    repository: RepositoryRef.Repository,
    milestoneReference: MilestoneReference,
    sort: Option<IssueSort>,
    excludeLabels: set<string>,
    ports: seq<Porting.PortRule>,
    excludeContributors: set<string>,
    contributorsTitle: Option<string>,
    sections: seq<Section>,
    externalLinks: seq<ExternalLink>)

  datatype GenerationError =
    | MilestoneLookupFailed(serviceError: GitHubService.ServiceError)
    | MilestoneIdNotANumber(text: string)  // Integer.parseInt throws
    | IssuesUnavailable(fetchError: Pagination.FetchError)
    | PortFailed(portError: Porting.PortError)
    | PullRequestWithoutUser(number: string)  // the contributor filter dereferences the user

  const DefaultContributorsTitle: string := ":heart: Contributors"
  const ThankYou: string := "We'd like to thank all the contributors who worked on this release!"

  // ---------------------------------------------------------------------
  // Milestone and issue selection
  // ---------------------------------------------------------------------

  /** resolveMilestoneReference: a title is looked up, an id is parsed. */
  function ResolveMilestoneReference(reference: MilestoneReference, milestone: string,
                                     lookup: string -> Result<int, GitHubService.ServiceError>): (r: Result<int, GenerationError>)
    ensures reference == ById ==> (r.Success? <==> ParseInt(milestone).Some?)
    ensures reference == ById && r.Failure? ==> r.error == MilestoneIdNotANumber(milestone)
    ensures reference == ByTitle ==> (r.Success? <==> lookup(milestone).Success?)
    ensures reference == ByTitle && r.Success? ==> r.value == lookup(milestone).value
  {
    match reference
    case ByTitle =>
      (match lookup(milestone)
       case Success(n) => Success(n)
       case Failure(e) => Failure(MilestoneLookupFailed(e)))
    case ById =>
      (match ParseInt(milestone)
       case Some(n) => Success(n)
       case None => Failure(MilestoneIdNotANumber(milestone)))
  }

  /** An id reference reads back any int written in decimal, without a lookup. */
  lemma IdReferenceReadsBack(n: int, lookup: string -> Result<int, GitHubService.ServiceError>)
    requires IntMin <= n <= IntMax
    ensures ResolveMilestoneReference(ById, IntToString(n), lookup) == Success(n)
  {
    ParseIntOfIntToString(n);
  }

  /** isExcluded: some label's name is one of the excluded names, exactly. */
  predicate IsExcluded(excludes: set<string>, issue: Issue) {
    exists k :: 0 <= k < |issue.labels| && issue.labels[k] in excludes
  }

  /** getIssues after removeIf(isExcluded). */
  function WithoutExcluded(excludes: set<string>, issues: seq<Issue>): (r: seq<Issue>)
    ensures forall x :: x in r <==> x in issues && !IsExcluded(excludes, x)
    ensures |r| <= |issues|
  {
    if |issues| == 0 then []
    else
      var rest := WithoutExcluded(excludes, issues[1..]);
      assert forall x :: x in issues <==> x == issues[0] || x in issues[1..];
      (if IsExcluded(excludes, issues[0]) then [] else [issues[0]]) + rest
  }

  /** Removal works item by item, so the kept issues keep their order. */
  lemma {:induction false} WithoutExcludedAppend(excludes: set<string>, a: seq<Issue>, b: seq<Issue>)
    ensures WithoutExcluded(excludes, a + b) == WithoutExcluded(excludes, a) + WithoutExcluded(excludes, b)
    decreases |a|
  {
    if |a| > 0 {
      var x, rest := a[0], a[1..];
      ConsShape(a, b);
      var h := if IsExcluded(excludes, x) then [] else [x];
      var left, right := WithoutExcluded(excludes, rest), WithoutExcluded(excludes, b);
      WithoutExcludedAppend(excludes, rest, b);
      WithoutExcludedCons(excludes, x, rest + b);
      WithoutExcludedCons(excludes, x, rest);
      assert WithoutExcluded(excludes, a + b) == h + (left + right);
      assert WithoutExcluded(excludes, a) == h + left;
      assert h + (left + right) == (h + left) + right;
    } else {
      assert a + b == b;
    }
  }

  lemma ConsShape<T>(a: seq<T>, b: seq<T>)
    requires |a| > 0
    ensures a == [a[0]] + a[1..] && a + b == [a[0]] + (a[1..] + b)
  {
  }

  /** The first issue is kept exactly when it is not excluded. */
  lemma WithoutExcludedCons(excludes: set<string>, x: Issue, xs: seq<Issue>)
    ensures WithoutExcluded(excludes, [x] + xs)
            == (if IsExcluded(excludes, x) then [] else [x]) + WithoutExcluded(excludes, xs)
  {
    assert ([x] + xs)[0] == x && ([x] + xs)[1..] == xs;
  }

  // ---------------------------------------------------------------------
  // Sections
  // ---------------------------------------------------------------------

  function TitleOf(issue: Issue): string {
    issue.title
  }

  /** The title as printed: mentions quoted. */
  function EscapedTitle(issue: Issue): string {
    Mentions.Escape(issue.title)
  }

  /** sort: the section's own order, else the global one; title order is the
      stable case-insensitive sort, any other order leaves the list alone. */
  function SortIssues(own: Option<IssueSort>, global: Option<IssueSort>, issues: seq<Issue>): (r: seq<Issue>)
    ensures multiset(r) == multiset(issues)
    ensures (own == Some(Title) || (own.None? && global == Some(Title))) ==>
              && TitleSort.Sorted(r, TitleOf)
              && forall t :: TitleSort.WithTitle(r, TitleOf, t) == TitleSort.WithTitle(issues, TitleOf, t)
    ensures !(own == Some(Title) || (own.None? && global == Some(Title))) ==> r == issues
  {
    var sort := if own.Some? then own else global;
    if sort == Some(Title) then
      TitleSort.SortByTitleSpec(issues, TitleOf);
      TitleSort.SortByTitle(issues, TitleOf)
    else issues
  }

  /** The block of one section: its heading and its issues' bullets. */
  function SectionBlock(section: Section, issues: seq<Issue>, global: Option<IssueSort>): string {
    Markdown.Heading(section.title) + Markdown.IssueLines(SortIssues(section.sort, global, issues), EscapedTitle)
  }

  /** The blocks of the collated sections, in section order. */
  function SectionBlocks(sections: seq<Section>, issues: seq<Issue>, global: Option<IssueSort>): (r: seq<string>)
    ensures |r| == |Collation.CollationOf(|sections|, issues, ClaimsOf(sections))|
    ensures forall b :: 0 <= b < |r| ==> |r[b]| > 0
  {
    var buckets := Collation.CollationOf(|sections|, issues, ClaimsOf(sections));
    seq(|buckets|, b requires 0 <= b < |buckets| =>
      SectionBlock(sections[buckets[b].section], buckets[b].items, global))
  }

  /** addSectionContent over collate. */
  function SectionsContent(sections: seq<Section>, issues: seq<Issue>, global: Option<IssueSort>): string {
    Join(SectionBlocks(sections, issues, global), "\n")
  }

  // ---------------------------------------------------------------------
  // Contributors
  // ---------------------------------------------------------------------

  function Login(user: User): string {
    user.name
  }

  /** The issue that gets the credit for `issue`: the end of its port chain. */
  function Credited(config: Config, issue: Issue, matcher: (string, string) -> Option<string>,
                    lookup: string -> Option<Issue>, fuel: nat): Result<Issue, Porting.PortError> {
    Porting.Resolve(config.ports, issue, matcher, lookup, fuel)
  }

  /** The stream of getContributors before it is collected: issue by issue,
      the credited issue, kept when it is a pull request, its user kept
      unless the login is excluded. The first failing issue decides the error. */
  function CreditedAuthors(config: Config, issues: seq<Issue>, matcher: (string, string) -> Option<string>,
                           lookup: string -> Option<Issue>, fuel: nat): (r: Result<seq<User>, GenerationError>)
    ensures r.Failure? <==> exists i :: (0 <= i < |issues| &&
              var c := Credited(config, issues[i], matcher, lookup, fuel);
              c.Failure? || (c.value.pullRequest && c.value.user.None?))
    ensures r.Success? ==> forall u :: u in r.value <==>
              u.name !in config.excludeContributors &&
              exists i :: 0 <= i < |issues| &&
                var c := Credited(config, issues[i], matcher, lookup, fuel);
                c.Success? && c.value.pullRequest && c.value.user == Some(u)
  {
    if |issues| == 0 then Success([])
    else
      var rest := CreditedAuthors(config, issues[1..], matcher, lookup, fuel);
      assert forall i :: 1 <= i < |issues| ==> issues[i] == issues[1..][i - 1];
      match Credited(config, issues[0], matcher, lookup, fuel)
      case Failure(e) => Failure(PortFailed(e))
      case Success(c) =>
        if !c.pullRequest then rest
        else if c.user.None? then Failure(PullRequestWithoutUser(c.number))
        else match rest
          case Failure(e) => Failure(e)
          case Success(us) =>
            Success((if c.user.value.name in config.excludeContributors then [] else [c.user.value]) + us)
  }

  /** getContributors: nobody when "*" is excluded; otherwise the credited
      authors, one per login (User equality is the login). */
  function ContributorsOf(config: Config, issues: seq<Issue>, matcher: (string, string) -> Option<string>,
                          lookup: string -> Option<Issue>, fuel: nat): (r: Result<seq<User>, GenerationError>)
    ensures "*" in config.excludeContributors ==> r == Success([])
    ensures "*" !in config.excludeContributors ==>
              r.Success? == CreditedAuthors(config, issues, matcher, lookup, fuel).Success?
    ensures r.Success? ==> forall i, j :: 0 <= i < j < |r.value| ==> r.value[i].name != r.value[j].name
    ensures r.Success? ==> forall u :: u in r.value ==> u.name !in config.excludeContributors
    ensures r.Success? && "*" !in config.excludeContributors ==>
              forall u :: u in r.value ==> u in CreditedAuthors(config, issues, matcher, lookup, fuel).value
    ensures r.Success? && "*" !in config.excludeContributors ==>
              forall u :: u in CreditedAuthors(config, issues, matcher, lookup, fuel).value ==>
                exists v :: v in r.value && v.name == u.name
  {
    if "*" in config.excludeContributors then Success([])
    else match CreditedAuthors(config, issues, matcher, lookup, fuel)
      case Failure(e) => Failure(e)
      case Success(us) =>
        Contributors.DistinctSpec(us, Login);
        Success(Contributors.Distinct(us, Login))
  }

  /** Some user in the list has this login. */
  ghost predicate ListsLogin(users: seq<User>, name: string) {
    exists v :: v in users && v.name == name
  }

  /** A credited pull request has an author, and that author's login is among
      the contributors unless the login is excluded. */
  lemma ContributorsAreCredited(config: Config, issues: seq<Issue>, matcher: (string, string) -> Option<string>,
                                lookup: string -> Option<Issue>, fuel: nat, i: int, c: Issue)
    requires "*" !in config.excludeContributors
    requires ContributorsOf(config, issues, matcher, lookup, fuel).Success?
    requires 0 <= i < |issues|
    requires Credited(config, issues[i], matcher, lookup, fuel) == Success(c) && c.pullRequest
    ensures c.user.Some?
    ensures c.user.Some? && c.user.value.name !in config.excludeContributors ==>
              ListsLogin(ContributorsOf(config, issues, matcher, lookup, fuel).value, c.user.value.name)
  {
    var authors := CreditedAuthors(config, issues, matcher, lookup, fuel).value;
    if c.user.value.name !in config.excludeContributors {
      assert c.user.value in authors;
      Contributors.DistinctSpec(authors, Login);
      assert Login(c.user.value) == c.user.value.name;
    }
  }

  // ---------------------------------------------------------------------
  // Content
  // ---------------------------------------------------------------------

  /** addContributorsContent. */
  function ContributorsBlock(title: Option<string>, users: seq<User>): string {
    "\n## " + title.GetOr(DefaultContributorsTitle) + "\n\n" + ThankYou + "\n\n" + Markdown.ContributorLines(users)
  }

  function ExternalLinkLine(link: ExternalLink): string {
    "- [" + link.name + "](" + link.location + ")\n"
  }

  /** addExternalLinksContent. */
  function ExternalLinksBlock(links: seq<ExternalLink>): string {
    "\n## External Links\n\n"
      + Markdown.Concat(seq(|links|, k requires 0 <= k < |links| => ExternalLinkLine(links[k])))
  }

  /** The three parts of the changelog; the last two only when non-empty. */
  function Content(config: Config, issues: seq<Issue>, contributors: seq<User>): string {
    SectionsContent(config.sections, issues, config.sort)
      + (if |contributors| > 0 then ContributorsBlock(config.contributorsTitle, contributors) else "")
      + (if |config.externalLinks| > 0 then ExternalLinksBlock(config.externalLinks) else "")
  }

  /** generateContent. */
  function GenerateContent(config: Config, issues: seq<Issue>, matcher: (string, string) -> Option<string>,
                           lookup: string -> Option<Issue>, fuel: nat): (r: Result<string, GenerationError>)
    ensures r.Success? <==> ContributorsOf(config, issues, matcher, lookup, fuel).Success?
    ensures r.Success? ==> SectionsContent(config.sections, issues, config.sort) <= r.value
    ensures r.Success? && |ContributorsOf(config, issues, matcher, lookup, fuel).value| > 0 ==>
              SectionsContent(config.sections, issues, config.sort)
                + ContributorsBlock(config.contributorsTitle, ContributorsOf(config, issues, matcher, lookup, fuel).value) <= r.value
    ensures r.Success? && |config.externalLinks| > 0 ==>
              |ExternalLinksBlock(config.externalLinks)| <= |r.value|
              && r.value[|r.value| - |ExternalLinksBlock(config.externalLinks)|..] == ExternalLinksBlock(config.externalLinks)
    ensures r.Success? && ContributorsOf(config, issues, matcher, lookup, fuel).value == [] && config.externalLinks == [] ==>
              r.value == SectionsContent(config.sections, issues, config.sort)
    ensures r.Success? && ContributorsOf(config, issues, matcher, lookup, fuel).value == [] && |config.externalLinks| > 0 ==>
              r.value == SectionsContent(config.sections, issues, config.sort) + ExternalLinksBlock(config.externalLinks)
    ensures r.Success? && |ContributorsOf(config, issues, matcher, lookup, fuel).value| > 0 && config.externalLinks == [] ==>
              r.value == SectionsContent(config.sections, issues, config.sort)
                         + ContributorsBlock(config.contributorsTitle, ContributorsOf(config, issues, matcher, lookup, fuel).value)
  {
    match ContributorsOf(config, issues, matcher, lookup, fuel)
    case Failure(e) => Failure(e)
    case Success(cs) =>
      ContentLayout(config, issues, cs);
      Success(Content(config, issues, cs))
  }

  /** The parts of the changelog, in order, each present exactly when it has something to show. */
  lemma ContentLayout(config: Config, issues: seq<Issue>, cs: seq<User>)
    ensures var sc, c := SectionsContent(config.sections, issues, config.sort), Content(config, issues, cs);
            && sc <= c
            && (|cs| > 0 ==> sc + ContributorsBlock(config.contributorsTitle, cs) <= c)
            && (|config.externalLinks| > 0 ==>
                  |ExternalLinksBlock(config.externalLinks)| <= |c|
                  && c[|c| - |ExternalLinksBlock(config.externalLinks)|..] == ExternalLinksBlock(config.externalLinks))
            && (cs == [] && config.externalLinks == [] ==> c == sc)
            && (cs == [] && |config.externalLinks| > 0 ==> c == sc + ExternalLinksBlock(config.externalLinks))
            && (|cs| > 0 && config.externalLinks == [] ==> c == sc + ContributorsBlock(config.contributorsTitle, cs))
  {
    var sc := SectionsContent(config.sections, issues, config.sort);
    var cb := if |cs| > 0 then ContributorsBlock(config.contributorsTitle, cs) else "";
    var lb := if |config.externalLinks| > 0 then ExternalLinksBlock(config.externalLinks) else "";
    assert Content(config, issues, cs) == sc + cb + lb;
    Markdown.ThreeParts(sc, cb, lb);
  }

  /** getMilestoneNumber of the service, for the configured repository. */
  function MilestoneLookup(config: Config, milestones: map<string, Pagination.Response<Milestone>>,
                           next: Option<string> -> Option<string>, fuel: nat): string -> Result<int, GitHubService.ServiceError> {
    t => GitHubService.GetMilestoneNumber(milestones, next, config.repository, t, fuel)
  }

  /** getIssue of the service, for the configured repository. */
  function SingleIssueLookup(config: Config, single: map<string, Issue>): string -> Option<Issue> {
    n => GitHubService.GetIssue(single, config.repository, n)
  }

  /** generate, up to the file write: the milestone, its issues from the
      paged listing, the exclusions, then the content. Single issues for
      port resolution come from `single`, keyed by request path. */
  function Generate(config: Config, milestone: string,
                    milestones: map<string, Pagination.Response<Milestone>>,
                    listing: map<string, Pagination.Response<Issue>>,
                    single: map<string, Issue>,
                    next: Option<string> -> Option<string>,
                    matcher: (string, string) -> Option<string>, fuel: nat): (r: Result<string, GenerationError>)
    ensures var number := ResolveMilestoneReference(config.milestoneReference, milestone, MilestoneLookup(config, milestones, next, fuel));
            r.Success? ==> number.Success? && GitHubService.GetIssuesForMilestone(listing, next, config.repository, number.value, fuel).Success?
    ensures var number := ResolveMilestoneReference(config.milestoneReference, milestone, MilestoneLookup(config, milestones, next, fuel));
            number.Failure? ==> r == Failure(number.error)
    ensures var number := ResolveMilestoneReference(config.milestoneReference, milestone, MilestoneLookup(config, milestones, next, fuel));
            number.Success? && GitHubService.GetIssuesForMilestone(listing, next, config.repository, number.value, fuel).Failure? ==>
              r == Failure(IssuesUnavailable(GitHubService.GetIssuesForMilestone(listing, next, config.repository, number.value, fuel).error))
    ensures var number := ResolveMilestoneReference(config.milestoneReference, milestone, MilestoneLookup(config, milestones, next, fuel));
            number.Success? && GitHubService.GetIssuesForMilestone(listing, next, config.repository, number.value, fuel).Success? ==>
              r == GenerateContent(config, WithoutExcluded(config.excludeLabels,
                                     GitHubService.GetIssuesForMilestone(listing, next, config.repository, number.value, fuel).value),
                                   matcher, SingleIssueLookup(config, single), fuel)
  {
    var lookup := MilestoneLookup(config, milestones, next, fuel);
    match ResolveMilestoneReference(config.milestoneReference, milestone, lookup)
    case Failure(e) => Failure(e)
    case Success(number) =>
      match GitHubService.GetIssuesForMilestone(listing, next, config.repository, number, fuel)
      case Failure(e) => Failure(IssuesUnavailable(e))
      case Success(all) =>
        GenerateContent(config, WithoutExcluded(config.excludeLabels, all), matcher,
                        SingleIssueLookup(config, single), fuel)
  }

  // ---------------------------------------------------------------------
  // What the changelog shows
  // ---------------------------------------------------------------------

  /** A section block shows the bullet of each of its issues. */
  lemma BlockListsIssue(section: Section, issues: seq<Issue>, global: Option<IssueSort>, x: Issue)
    requires x in issues
    ensures exists i :: OccursAt(SectionBlock(section, issues, global), Markdown.IssueLine(EscapedTitle(x), x), i)
  {
    var sorted := SortIssues(section.sort, global, issues);
    assert x in multiset(sorted);
    Markdown.IssueLineOccurs(sorted, EscapedTitle, x);
    var i :| OccursAt(Markdown.IssueLines(sorted, EscapedTitle), Markdown.IssueLine(EscapedTitle(x), x), i);
    var heading := Markdown.Heading(section.title);
    Markdown.OccursInside(heading, Markdown.IssueLines(sorted, EscapedTitle), "", Markdown.IssueLine(EscapedTitle(x), x), i);
    assert heading + Markdown.IssueLines(sorted, EscapedTitle) + "" == SectionBlock(section, issues, global);
  }

  /** An issue that some section claims has its bullet, mentions quoted, in
      the sections part of the changelog. */
  lemma ClaimedIssueIsListed(sections: seq<Section>, issues: seq<Issue>, global: Option<IssueSort>, x: Issue, j: nat)
    requires x in issues && j in Claims(sections, x)
    ensures exists i :: OccursAt(SectionsContent(sections, issues, global), Markdown.IssueLine(Mentions.Escape(x.title), x), i)
  {
    var claims := ClaimsOf(sections);
    var buckets := Collation.CollationOf(|sections|, issues, claims);
    var blocks := SectionBlocks(sections, issues, global);
    assert j < |sections|;
    assert x in Collation.Claimants(issues, claims, j);
    var k :| 0 <= k < |buckets| && buckets[k].section == j;
    assert x in buckets[k].items;
    BlockListsIssue(sections[j], buckets[k].items, global, x);
    var i :| OccursAt(blocks[k], Markdown.IssueLine(EscapedTitle(x), x), i);
    Markdown.PartOccursInJoin(blocks, "\n", k);
    var p :| OccursAt(SectionsContent(sections, issues, global), blocks[k], p);
    Markdown.OccursTransitive(SectionsContent(sections, issues, global), blocks[k], Markdown.IssueLine(EscapedTitle(x), x), p, i);
  }

  /** The generated changelog lists every kept issue that a section claims. */
  lemma ChangelogListsClaimedIssue(config: Config, issues: seq<Issue>, matcher: (string, string) -> Option<string>,
                                   lookup: string -> Option<Issue>, fuel: nat, x: Issue, j: nat)
    requires GenerateContent(config, issues, matcher, lookup, fuel).Success?
    requires x in issues && j in Claims(config.sections, x)
    ensures exists i :: OccursAt(GenerateContent(config, issues, matcher, lookup, fuel).value,
                                 Markdown.IssueLine(Mentions.Escape(x.title), x), i)
  {
    var content := GenerateContent(config, issues, matcher, lookup, fuel).value;
    var sc := SectionsContent(config.sections, issues, config.sort);
    ClaimedIssueIsListed(config.sections, issues, config.sort, x, j);
    var i :| OccursAt(sc, Markdown.IssueLine(Mentions.Escape(x.title), x), i);
    Markdown.OccursInPrefix(content, sc, Markdown.IssueLine(Mentions.Escape(x.title), x), i);
  }

  /** The sections part is empty exactly when no section claims any issue. */
  lemma SectionsContentEmptyIffNothingClaimed(sections: seq<Section>, issues: seq<Issue>, global: Option<IssueSort>)
    ensures SectionsContent(sections, issues, global) == "" <==>
            forall x :: x in issues ==> Claims(sections, x) == []
  {
    var claims := ClaimsOf(sections);
    Markdown.JoinIsEmptyOnlyForNoParts(SectionBlocks(sections, issues, global), "\n");
    Collation.CollationEmptyIffUnclaimed(|sections|, issues, claims);
    if exists x :: x in issues && Claims(sections, x) != [] {
      var x :| x in issues && Claims(sections, x) != [];
      assert Claims(sections, x)[0] in claims(x);
    }
  }

  /** The contributors block thanks every contributor, one bullet each. */
  lemma BlockThanksEveryContributor(title: Option<string>, users: seq<User>, u: User)
    requires u in users
    ensures exists i :: OccursAt(ContributorsBlock(title, users), ThankYou, i)
    ensures exists i :: OccursAt(ContributorsBlock(title, users), Markdown.ContributorLine(u), i)
  {
    var head := "\n## " + title.GetOr(DefaultContributorsTitle) + "\n\n";
    var lines := Markdown.ContributorLines(users);
    assert ContributorsBlock(title, users) == head + ThankYou + ("\n\n" + lines);
    assert ThankYou[0..|ThankYou|] == ThankYou;
    Markdown.OccursInside(head, ThankYou, "\n\n" + lines, ThankYou, 0);
    Markdown.ContributorLineOccurs(users, u);
    var i :| OccursAt(lines, Markdown.ContributorLine(u), i);
    assert ContributorsBlock(title, users) == (head + ThankYou + "\n\n") + lines + "";
    Markdown.OccursInside(head + ThankYou + "\n\n", lines, "", Markdown.ContributorLine(u), i);
  }

  /** The changelog carries the thank-you and a bullet for every contributor. */
  lemma ChangelogThanksEveryContributor(config: Config, issues: seq<Issue>, matcher: (string, string) -> Option<string>,
                                        lookup: string -> Option<Issue>, fuel: nat, u: User)
    requires GenerateContent(config, issues, matcher, lookup, fuel).Success?
    requires u in ContributorsOf(config, issues, matcher, lookup, fuel).value
    ensures exists i :: OccursAt(GenerateContent(config, issues, matcher, lookup, fuel).value, ThankYou, i)
    ensures exists i :: OccursAt(GenerateContent(config, issues, matcher, lookup, fuel).value, Markdown.ContributorLine(u), i)
  {
    var content := GenerateContent(config, issues, matcher, lookup, fuel).value;
    var cs := ContributorsOf(config, issues, matcher, lookup, fuel).value;
    var sc := SectionsContent(config.sections, issues, config.sort);
    var block := ContributorsBlock(config.contributorsTitle, cs);
    assert sc + block <= content;
    BlockThanksEveryContributor(config.contributorsTitle, cs, u);
    Markdown.OccursInPrefixPart(content, sc, block, ThankYou);
    Markdown.OccursInPrefixPart(content, sc, block, Markdown.ContributorLine(u));
  }

  /** The text holds the contributor bullet of some user with this login. */
  ghost predicate ShowsLogin(content: string, name: string) {
    exists v: User, k :: v.name == name && OccursAt(content, Markdown.ContributorLine(v), k)
  }

  /** A login among the contributors has its bullet in the changelog. */
  lemma ListedLoginIsShown(config: Config, issues: seq<Issue>, matcher: (string, string) -> Option<string>,
                           lookup: string -> Option<Issue>, fuel: nat, v: User)
    requires GenerateContent(config, issues, matcher, lookup, fuel).Success?
    requires v in ContributorsOf(config, issues, matcher, lookup, fuel).value
    ensures ShowsLogin(GenerateContent(config, issues, matcher, lookup, fuel).value, v.name)
  {
    ChangelogThanksEveryContributor(config, issues, matcher, lookup, fuel, v);
  }

  /** A login among the contributors has its bullet in the changelog. */
  lemma ListedNameIsShown(config: Config, issues: seq<Issue>, matcher: (string, string) -> Option<string>,
                          lookup: string -> Option<Issue>, fuel: nat, name: string)
    requires GenerateContent(config, issues, matcher, lookup, fuel).Success?
    requires ListsLogin(ContributorsOf(config, issues, matcher, lookup, fuel).value, name)
    ensures ShowsLogin(GenerateContent(config, issues, matcher, lookup, fuel).value, name)
  {
    var v :| v in ContributorsOf(config, issues, matcher, lookup, fuel).value && v.name == name;
    ListedLoginIsShown(config, issues, matcher, lookup, fuel, v);
  }

  /** End to end: the author of every credited pull request whose login is
      not excluded gets a bullet under that login in the changelog. */
  lemma ChangelogCreditsAuthor(config: Config, issues: seq<Issue>, matcher: (string, string) -> Option<string>,
                               lookup: string -> Option<Issue>, fuel: nat, i: int, c: Issue)
    requires "*" !in config.excludeContributors
    requires GenerateContent(config, issues, matcher, lookup, fuel).Success?
    requires 0 <= i < |issues|
    requires Credited(config, issues[i], matcher, lookup, fuel) == Success(c) && c.pullRequest
    ensures c.user.Some?
    ensures c.user.Some? && c.user.value.name !in config.excludeContributors ==>
              ShowsLogin(GenerateContent(config, issues, matcher, lookup, fuel).value, c.user.value.name)
  {
    assert ContributorsOf(config, issues, matcher, lookup, fuel).Success?;
    ContributorsAreCredited(config, issues, matcher, lookup, fuel, i, c);
    if c.user.value.name !in config.excludeContributors {
      ListedNameIsShown(config, issues, matcher, lookup, fuel, c.user.value.name);
    }
  }

  /** An issue carrying an excluded label is in no section's bucket, whatever
      the listing it came from. */
  lemma ExcludedIssueIsInNoSection(config: Config, all: seq<Issue>, x: Issue)
    requires IsExcluded(config.excludeLabels, x)
    ensures forall b :: b in Collation.CollationOf(|config.sections|, WithoutExcluded(config.excludeLabels, all), ClaimsOf(config.sections))
              ==> x !in b.items
  {
    var kept := WithoutExcluded(config.excludeLabels, all);
    var buckets := Collation.CollationOf(|config.sections|, kept, ClaimsOf(config.sections));
    forall b | b in buckets
      ensures x !in b.items
    {
      var k :| 0 <= k < |buckets| && buckets[k] == b;
      assert b.items == Collation.Claimants(kept, ClaimsOf(config.sections), b.section);
    }
  }

  /** With every contributor excluded and no external links, the changelog is
      its sections and nothing else. */
  lemma StarLeavesOnlySections(config: Config, issues: seq<Issue>, matcher: (string, string) -> Option<string>,
                               lookup: string -> Option<Issue>, fuel: nat)
    requires "*" in config.excludeContributors && config.externalLinks == []
    ensures GenerateContent(config, issues, matcher, lookup, fuel)
            == Success(SectionsContent(config.sections, issues, config.sort))
  {
    var sc := SectionsContent(config.sections, issues, config.sort);
    assert Content(config, issues, []) == sc + "" + "";
    assert sc + "" + "" == sc;
  }
}
