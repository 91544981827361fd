/** The GitHub payload records the generators read: issues (pull requests
    included), their authors and milestones. Labels are kept as their names. */
module Payload {
  import opened Wrappers

  /** A GitHub user: login name and profile (html) URL. */
  datatype User = User(name: string, url: string)

  /** A closed issue or pull request of a milestone. `pullRequest` is the
      presence of the `pull_request` marker; `body` may be null. */
  datatype Issue = Issue(
    number: string,
    title: string,
    user: Option<User>,
    labels: seq<string>,
    url: string,
    pullRequest: bool,
    body: Option<string>)

  /** A milestone: its title and number. */
  datatype Milestone = Milestone(title: string, number: int)

  /** The issue carries a label whose name equals `name` exactly. */
  predicate HasLabelNamed(issue: Issue, name: string) {
    name in issue.labels
  }
}
