/** The GitHub services of the three generations, over the pagination model:
    milestone lookup by title, the listing URLs, and single-issue lookup. */
module GitHubService {
  import opened Wrappers
  import opened Strings
  import opened Payload
  import opened Pagination
  import opened RepositoryRef

  datatype ServiceError =
    | InvalidArgument(message: string)
    | RequestFailed(cause: FetchError)
    | MilestoneNotFound(message: string)

  const BlankMilestone: string := "MilestoneName must not be empty"

  function MilestoneNotFoundMessage(title: string): string {
    "Unable to find milestone with title '" + title + "'"
  }

  /** Request path of the milestone listing of the current service. */
  function MilestonesPath(repository: Repository): string {
    "/repos/" + repository.owner + "/" + repository.name
      + "/milestones?state=all&sort=due_on&direction=desc&per_page=50"
  }

  /** The part of the closed-issues request after "repos/", shared by all generations. */
  function IssuesQuery(owner: string, name: string, milestone: int): string {
    owner + "/" + name + "/issues?milestone=" + IntToString(milestone) + "&state=closed"
  }

  /** Request path of the closed issues of a milestone (current service). */
  function IssuesPath(repository: Repository, milestone: int): string {
    "/repos/" + IssuesQuery(repository.owner, repository.name, milestone)
  }

  /** Request path of a single issue (current service). */
  function IssuePath(repository: Repository, number: string): string {
    "/repos/" + repository.owner + "/" + repository.name + "/issues/" + number
  }

  /** The absolute URL of the `releasenotes` service. */
  function ReleaseNotesIssuesUrl(organization: string, repository: string, milestone: int): string {
    "https://api.github.com/repos/" + IssuesQuery(organization, repository, milestone)
  }

  /** The URL of the `releasenotesgenerator` service, built by concatenation. */
  const RootUri: string := "https://api.github.com/"

  function ReleaseNotesGeneratorIssuesUrl(org: string, repo: string, milestone: int): string {
    RootUri + "repos/" + IssuesQuery(org, repo, milestone)
  }

  /** All three generations ask for the same listing: the older two build the
      same absolute URL, and the current one's path below the GitHub API root. */
  lemma IssueListingsAgree(owner: string, name: string, milestone: int)
    ensures ReleaseNotesIssuesUrl(owner, name, milestone) == ReleaseNotesGeneratorIssuesUrl(owner, name, milestone)
    ensures "https://api.github.com" + IssuesPath(Repository(owner, name), milestone)
         == ReleaseNotesIssuesUrl(owner, name, milestone)
  {
    var tail := IssuesQuery(owner, name, milestone);
    ApiRootsJoin();
    assert "https://api.github.com" + ("/repos/" + tail) == ("https://api.github.com" + "/repos/") + tail;
  }

  lemma ApiRootsJoin()
    ensures RootUri + "repos/" == "https://api.github.com/repos/"
    ensures "https://api.github.com" + "/repos/" == "https://api.github.com/repos/"
  {
  }

  /** The position of the first milestone whose title equals `title` ignoring case. */
  function FindMilestone(title: string, milestones: seq<Milestone>): (r: Option<nat>)
    ensures r.None? <==> forall i :: 0 <= i < |milestones| ==> !EqualsIgnoreCase(title, milestones[i].title)
    ensures r.Some? ==> r.value < |milestones| && EqualsIgnoreCase(title, milestones[r.value].title)
                        && forall i :: 0 <= i < r.value ==> !EqualsIgnoreCase(title, milestones[i].title)
  {
    if |milestones| == 0 then None
    else if EqualsIgnoreCase(title, milestones[0].title) then Some(0)
    else
      match FindMilestone(title, milestones[1..])
      case None => None
      case Some(k) => Some(k + 1)
  }

  /** getMilestoneNumber: a blank title is rejected before any request; the
      number of the first milestone of the listing whose title matches ignoring
      case; no match is an error. */
  function GetMilestoneNumber(server: map<string, Response<Milestone>>, next: Option<string> -> Option<string>,
                              repository: Repository, title: string, fuel: nat): (r: Result<int, ServiceError>)
    ensures !HasText(title) ==> r == Failure(InvalidArgument(BlankMilestone))
    ensures HasText(title) && Collect(server, next, Some(MilestonesPath(repository)), fuel).Failure? ==>
              r == Failure(RequestFailed(Collect(server, next, Some(MilestonesPath(repository)), fuel).error))
    ensures HasText(title) && Collect(server, next, Some(MilestonesPath(repository)), fuel).Success? ==>
              var ms := Collect(server, next, Some(MilestonesPath(repository)), fuel).value;
              (r.Success? <==> exists i :: 0 <= i < |ms| && EqualsIgnoreCase(title, ms[i].title))
              && (r.Success? ==> exists i :: 0 <= i < |ms| && EqualsIgnoreCase(title, ms[i].title) && r.value == ms[i].number
                                             && forall j :: 0 <= j < i ==> !EqualsIgnoreCase(title, ms[j].title))
              && (r.Failure? ==> r.error == MilestoneNotFound(MilestoneNotFoundMessage(title)))
  {
    if !HasText(title) then Failure(InvalidArgument(BlankMilestone))
    else
      match Collect(server, next, Some(MilestonesPath(repository)), fuel)
      case Failure(e) => Failure(RequestFailed(e))
      case Success(ms) =>
        match FindMilestone(title, ms)
        case None =>
          assert !exists i :: 0 <= i < |ms| && EqualsIgnoreCase(title, ms[i].title);
          Failure(MilestoneNotFound(MilestoneNotFoundMessage(title)))
        case Some(i) =>
          assert ms == Collect(server, next, Some(MilestonesPath(repository)), fuel).value;
          assert 0 <= i < |ms| && EqualsIgnoreCase(title, ms[i].title);
          assert exists k :: 0 <= k < |ms| && EqualsIgnoreCase(title, ms[k].title);
          Success(ms[i].number)
  }

  /** Lookup ignores the case of the title. */
  lemma MilestoneLookupIgnoresCase(server: map<string, Response<Milestone>>, next: Option<string> -> Option<string>,
                                   repository: Repository, a: string, b: string, fuel: nat)
    requires EqualsIgnoreCase(a, b)
    ensures GetMilestoneNumber(server, next, repository, a, fuel).Success?
        ==> GetMilestoneNumber(server, next, repository, a, fuel) == GetMilestoneNumber(server, next, repository, b, fuel)
  {
    var ms := Collect(server, next, Some(MilestonesPath(repository)), fuel);
    if GetMilestoneNumber(server, next, repository, a, fuel).Success? {
      assert HasText(a);
      assert HasText(b) by {
        var i :| 0 <= i < |a| && !IsWhitespace(a[i]);
        assert Lower(a)[i] == Lower(b)[i];
        assert LowerChar(a[i]) == LowerChar(b[i]);
        assert !IsWhitespace(b[i]);
      }
      FindMilestoneIgnoresCase(a, b, ms.value);
    }
  }

  lemma {:induction false} FindMilestoneIgnoresCase(a: string, b: string, milestones: seq<Milestone>)
    requires EqualsIgnoreCase(a, b)
    ensures FindMilestone(a, milestones) == FindMilestone(b, milestones)
    decreases |milestones|
  {
    if |milestones| > 0 {
      FindMilestoneIgnoresCase(a, b, milestones[1..]);
    }
  }

  /** getIssue: the issue at the request path, or nothing when the request
      fails; the server of single issues is a map from path to issue. */
  function GetIssue(issues: map<string, Issue>, repository: Repository, number: string): (r: Option<Issue>)
    ensures r.Some? <==> IssuePath(repository, number) in issues
    ensures r.Some? ==> r.value == issues[IssuePath(repository, number)]
  {
    var path := IssuePath(repository, number);
    if path in issues then Some(issues[path]) else None
  }

  /** getIssuesForMilestone of the current service. */
  function GetIssuesForMilestone(server: map<string, Response<Issue>>, next: Option<string> -> Option<string>,
                                 repository: Repository, milestone: int, fuel: nat): (r: Result<seq<Issue>, FetchError>)
    ensures r.Success? ==> IssuesPath(repository, milestone) in server
                           && server[IssuesPath(repository, milestone)].content <= r.value
  {
    var path := IssuesPath(repository, milestone);
    assert HasText(path) by { assert !IsWhitespace(path[0]); }
    Collect(server, next, Some(path), fuel)
  }
}
