# A Dafny model of the GitHub changelog generator

The repository turns the closed issues and pull requests of a GitHub
milestone into a Markdown changelog. Its source holds four generations of the
same program side by side, and this model covers all four:

- **current** (`githubchangeloggenerator`): `ChangelogGenerator`,
  `ChangelogSections`, `ChangelogSection`, `SelectIssues`, `GitHubService` and
  `Repository`. This generation has configurable sections, each with a group and a
  sort. It also excludes issues by label,
  resolves ported issues and excludes contributors, and it writes an
  external-links block.
- **generator** (`githubchangeloggenerator.generator`): `Generator` and
  `Sections`. Each issue goes to its first matching section only.
- **releasenotes**: `ReleaseNotesGenerator`, `ReleaseNotesSections` and the
  templated `GithubService`. The four sections are fixed, and titles are
  printed raw.
- **releasenotesgenerator**: `ChangelogGenerator`, `Type`, the
  concatenating `GithubService` and `RegexLinkParser`. Issues are grouped by
  a type read from their labels.

## How the model is organised

| module (file) | what it holds |
|---|---|
| `Wrappers` (wrappers.dfy) | `Option` and `Result` |
| `Strings` (strings.dfy) | the Java and Spring text primitives: `hasText`, `trim`, `contains`, `indexOf`, comma splitting, case folding, `Integer.parseInt`/`toString` |
| `Payload` (payload.dfy) | `Issue`, `User`, `Milestone` |
| `SelectIssues`, `ChangelogSection`, `ChangelogSections`, `FirstMatchSections` | the section definitions and which sections an issue goes to |
| `Collation` (collation.dfy) | the shared `collate` engine, as a specification with a unique reference solution plus the imperative loop over a `TreeMap` |
| `SortGroup` (sort_group.dfy) | filtering, a stable sort by key, and `groupingBy` into a `LinkedHashMap`, shown to equal the collation by key |
| `TitleSort` (title_sort.dfy) | the stable sort by `String.CASE_INSENSITIVE_ORDER` |
| `Mentions` (mentions.dfy) | the replacement that wraps in backticks every @mention not preceded by a word character or a backtick |
| `Markdown` (markdown.dfy) | bullets, headings, and the `StringBuilder` block joining |
| `Contributors` (contributors.dfy) | pull-request authors and `Collectors.toSet` under a chosen equality |
| `Porting` (porting.dfy) | the ported-issue chain of the current generation |
| `LinkHeader`, `Pagination`, `GitHubService`, `RepositoryRef` | the Link header, the page loop, the request paths and milestone lookup, and `Repository.of` |
| `ChangelogGenerator`, `Generator`, `ReleaseNotesGenerator`, `TypedChangelogGenerator`, `IssueTypes` | the four generators and the issue types |

All collations go through one specification, `Collation.IsCollation`. It
holds a bucket list when:

- buckets are in strictly increasing section order;
- only sections that received an item have a bucket;
- each bucket holds exactly the items that claim its section, in input order.

The collations differ only in the claims:

- **per-group claims** (current): an issue goes to every section that is the first matching section of its group.
- **first-match claims** (`Sections`, `ReleaseNotesSections`): an issue goes to its first matching section only.
- **key claims** (`releasenotesgenerator`): an issue goes to the group of its type.

`FirstMatchSections.FirstMatchIsSingleGroupClaim` shows that first-match
claiming is per-group claiming with every section in one group.
`SortGroup.SortAndGroup` shows that the releasenotesgenerator's filter, sort
and group stream is the collation by type.

Network access is a parameter of the model:

- the server is a map from request URL to a response (body and Link header);
- single-issue lookups are a map from request path to issue;
- the port patterns are a `matcher` function.

An error path a generator takes becomes a `Failure`. This covers
`Assert` messages, a missing milestone, a `NumberFormatException`, a failed
page request, a port rule on an issue without a body, and a pull request
without a user (the source dereferences that user when it filters or
formats contributors).

## Behaviour as the code has it

- Mentions are the only thing title escaping quotes. The code has no HTML-tag
  or emphasis escaping.
- Contributors are one bullet each, `- [@name](url)`, not a sentence joined
  with "and".
- External links are written `- [name](location)`.
- The second default section of the current generation is
  `:lady_beetle: Bug Fixes`, as in `ChangelogSections`.
- Section classes differ by generation, and only one of them is part of
  this model:
  - `ChangelogSection.java` has the three-argument constructor
    `(title, emoji, labels)`. Its `isMatchFor` tests whether an issue label
    contains a section label, and its `toString` is the emoji, a space and
    the title. It is modelled as `ChangelogSection.ChangelogSection`.
  - The `generator` generation builds its own `Section` objects
    (`generator/Sections.java`, lines 51 and 68). The `releasenotes`
    generation builds `ReleaseNotesSection` objects
    (`ReleaseNotesSections.java`, lines 39-44). Neither class is part of
    this model. Both are modelled as `ChangelogSection.ChangelogSection`,
    taking their matching and display to be those of the three-argument
    class.
  - `ChangelogSections.java` calls a five-argument constructor
    `(title, group, sort, format, labels)`. That class is not part of this
    model either. Its sections are modelled as `ChangelogSections.Section`,
    with a group, a sort, label tokens and an issue-type filter from
    `SelectIssues`. Neither `adapt` nor the built-in sections pass a type,
    so every section the model builds has type `Any`.
- The `releasenotesgenerator` `Issue` shown has no `getType`. The model takes
  an issue's type to be `Type.fromLabels` of its labels, with the enum in
  declaration order.
- User equality differs by generation:
  - the current and `generator` generations compare the login only. This
    comes from `githubchangeloggenerator/github/payload/User.java` (lines
    41-55), which both generations import. That class as shown has no URL,
    yet both generators call `getUrl()` on it when they format a
    contributor. The model gives every `User` a login and a URL, and keys
    these two generations' de-duplication on the login alone;
  - `releasenotes` and `releasenotesgenerator` compare login and URL
    (`releasenotes/github/payload/User.java`, lines 48-64).
    `ReleaseNotesGenerator.SameLoginTwoUrls` shows the difference.
- Groups: the built-in sections of the current generation have a null group
  (`ChangelogSections.java`, line 54). A configured section without a group
  is bound to the group "default". The `ApplicationProperties.java` shown
  has no group property, so the model takes that binding from the
  repository's properties tests. A built-in section therefore never shares a
  group with a configured one. A configured section without a group still
  claims an issue beside a built-in section that matches it
  (`ChangelogSections.UngroupedBugsSectionAlsoClaims`).

## Model

| member | source | states |
|---|---|---|
| Strings.HasText | src/main/java/io/spring/githubchangeloggenerator/github/service/Repository.java:72 | true exactly when some character is not whitespace in the sense of Character.isWhitespace |
| Strings.Trim | src/main/java/io/spring/githubchangeloggenerator/github/service/GitHubService.java:119 | the result is an infix of the input, everything cut off is a character up to U+0020, and the result neither starts nor ends with one |
| Strings.Contains | src/main/java/io/spring/githubchangeloggenerator/ChangelogSection.java:57 | true exactly when the token occurs at some position of the name; the empty token occurs everywhere |
| Strings.IndexOf | src/main/java/io/spring/githubchangeloggenerator/github/service/Repository.java:73 | none exactly when the character is absent; otherwise the position of its first occurrence |
| Strings.SplitAtCommas | src/main/java/io/spring/githubchangeloggenerator/github/service/GitHubService.java:118 | at least one piece, no piece holds a comma, and joining the pieces with commas gives the input back |
| Strings.CommaDelimitedList | src/main/java/io/spring/githubchangeloggenerator/github/service/GitHubService.java:117-118 | an absent or empty header gives no entries; any other gives comma-free pieces, empty pieces kept, that join back to it |
| Strings.NatToString | src/main/java/io/spring/releasenotesgenerator/github/GithubService.java:52-53 | decimal digits whose value is the number, with no leading zero unless the number is zero |
| Strings.CanonicalIsNatToString | src/main/java/io/spring/releasenotesgenerator/github/GithubService.java:52-53 | a digit string without a leading zero is the decimal text of its own value, so the text of a number is unique |
| Strings.ParseInt | src/main/java/io/spring/githubchangeloggenerator/generator/Generator.java:80-86 | an accepted text always lies in the 32-bit int range |
| Strings.ParseIntOfIntToString | src/main/java/io/spring/githubchangeloggenerator/generator/Generator.java:80-86 | Integer.parseInt reads back Integer.toString for every int |
| SelectIssues.NameContainsAny | src/main/java/io/spring/githubchangeloggenerator/SelectIssues.java:46 | a label name is selected exactly when some token occurs in it |
| SelectIssues.AnyLabelContains | src/main/java/io/spring/githubchangeloggenerator/SelectIssues.java:43-46 | some label name contains some token, in both directions |
| SelectIssues.WithLabelNamesContaining | src/main/java/io/spring/githubchangeloggenerator/SelectIssues.java:42-47 | an issue is selected exactly when one of its label names contains one of the tokens |
| SelectIssues.NoTokensSelectNothing | src/main/java/io/spring/githubchangeloggenerator/SelectIssues.java:42-47 | with no tokens no issue is selected |
| SelectIssues.TypesPartitionIssues | src/main/java/io/spring/githubchangeloggenerator/SelectIssues.java:49-57 | ANY selects every issue, and each issue passes exactly one of ISSUE and PULL_REQUEST |
| SelectIssues.SubstringSelects | src/main/java/io/spring/githubchangeloggenerator/SelectIssues.java:42-47 | a label that merely contains a token, at any position, selects the issue |
| ChangelogSection.Create | src/main/java/io/spring/githubchangeloggenerator/ChangelogSection.java:45-52 | accepted exactly when the title and emoji have text and there is a label; each rejection carries the message of the first failing assertion |
| ChangelogSection.IsMatchFor | src/main/java/io/spring/githubchangeloggenerator/ChangelogSection.java:54-63 | a section matches exactly when the label-content predicate of SelectIssues holds for its tokens |
| ChangelogSection.MatchFrom | src/main/java/io/spring/githubchangeloggenerator/ChangelogSection.java:55-62 | the outer loop is true exactly when some label contains some remaining token |
| ChangelogSection.LabelsContain | src/main/java/io/spring/githubchangeloggenerator/ChangelogSection.java:56-60 | the inner loop is true exactly when some label name contains the token |
| ChangelogSection.UnlabelledNeverMatches | src/main/java/io/spring/githubchangeloggenerator/ChangelogSection.java:54-63 | an issue without labels matches no section |
| ChangelogSection.MatchIsMonotone | src/main/java/io/spring/githubchangeloggenerator/ChangelogSection.java:54-63 | adding labels to an issue never loses a match |
| ChangelogSection.Display | src/main/java/io/spring/githubchangeloggenerator/ChangelogSection.java:65-68 | the emoji, one space and the title, each recoverable from the result |
| ChangelogSections.AdaptSection | src/main/java/io/spring/githubchangeloggenerator/ChangelogSections.java:77-80 | title, sort and labels are kept, and no issue type is filtered, since adapt passes none; a given group is kept and an absent one becomes the group "default", so a configured section always has a group |
| ChangelogSections.Adapt | src/main/java/io/spring/githubchangeloggenerator/ChangelogSections.java:63-75 | no custom sections gives the defaults; with addSections the defaults come first, then every custom section adapted in order; otherwise only the custom ones |
| ChangelogSections.AdaptAll | src/main/java/io/spring/githubchangeloggenerator/ChangelogSections.java:68 | one adapted section per configured one, in order |
| ChangelogSections.ClaimsFrom | src/main/java/io/spring/githubchangeloggenerator/ChangelogSections.java:94-103 | the sections an issue is added to are strictly ascending indices from the loop position on |
| ChangelogSections.Claims | src/main/java/io/spring/githubchangeloggenerator/ChangelogSections.java:94-103 | the claimed sections are valid and in ascending order |
| ChangelogSections.ClaimsFromSpec | src/main/java/io/spring/githubchangeloggenerator/ChangelogSections.java:94-103 | the loop with the groups claimed so far adds exactly the later sections that are first of their group to match |
| ChangelogSections.ClaimsFromStep | src/main/java/io/spring/githubchangeloggenerator/ChangelogSections.java:97-101 | one iteration adds the current section exactly when it is first of its group to match |
| ChangelogSections.ClaimedGroupsNext | src/main/java/io/spring/githubchangeloggenerator/ChangelogSections.java:96-98 | groupClaimes grows by the group of each matching section |
| ChangelogSections.FiresIffFirstInGroup | src/main/java/io/spring/githubchangeloggenerator/ChangelogSections.java:98 | the add to groupClaimes succeeds for a matching section exactly when no earlier matching section has its group |
| ChangelogSections.ClaimsAreFirstInGroup | src/main/java/io/spring/githubchangeloggenerator/ChangelogSections.java:94-103 | an issue is added to a section exactly when that section matches and no earlier matching section shares its group |
| ChangelogSections.AtMostOnePerGroup | src/main/java/io/spring/githubchangeloggenerator/ChangelogSections.java:94-103 | an issue is added to at most one section of each group |
| ChangelogSections.MatchedGroupIsClaimed | src/main/java/io/spring/githubchangeloggenerator/ChangelogSections.java:94-103 | every group with a matching section receives the issue, in its earliest matching section |
| ChangelogSections.UnmatchedIsUnclaimed | src/main/java/io/spring/githubchangeloggenerator/ChangelogSections.java:94-103 | an issue that matches no section is added to none |
| ChangelogSections.BugFixLabelLandsInBugFixes | src/main/java/io/spring/githubchangeloggenerator/ChangelogSections.java:44-51 | with the default sections an issue labelled "bug-fix" is in Bug Fixes only, by substring match and the shared null group of the built-in sections |
| ChangelogSections.BuiltInGroupIsApart | src/main/java/io/spring/githubchangeloggenerator/ChangelogSections.java:53-55 | with addSections, no built-in section (null group) shares its group with a configured section |
| ChangelogSections.ConfiguredSectionIgnoresBuiltIns | src/main/java/io/spring/githubchangeloggenerator/ChangelogSections.java:94-103 | a matching configured section that is first of its group among the configured ones claims the issue, whatever the built-in sections do |
| ChangelogSections.UngroupedBugsSectionAlsoClaims | src/main/java/io/spring/githubchangeloggenerator/ChangelogSections.java:94-103 | a configured "bug" section without a group claims a "bug" issue beside the built-in Bug Fixes |
| ChangelogSections.BuiltInsAreUngrouped | src/main/java/io/spring/githubchangeloggenerator/ChangelogSections.java:53-55 | every built-in section has the null group |
| ChangelogSections.UngroupedBeforeGrouped | src/main/java/io/spring/githubchangeloggenerator/ChangelogSections.java:98 | a section of the null group and one with a group never share a group |
| ChangelogSections.UngroupedPrefixIsApart | src/main/java/io/spring/githubchangeloggenerator/ChangelogSections.java:94-103 | sections of the null group in front never stop a grouped section that is first of its group among the grouped ones |
| ChangelogSections.BugIssueFirstInBugFixes | src/main/java/io/spring/githubchangeloggenerator/ChangelogSections.java:44-51 | among the built-in sections, Bug Fixes is the first match of a "bug" issue |
| ChangelogSections.PrefixClaimStays | src/main/java/io/spring/githubchangeloggenerator/ChangelogSections.java:94-103 | a section that is the first of its group to match keeps its claim when more sections are appended |
| ChangelogSections.Collate | src/main/java/io/spring/githubchangeloggenerator/ChangelogSections.java:82-92 | the buckets are the unique collation: section order, only non-empty sections, each with its claimants in input order, and each item is first of its group there |
| FirstMatchSections.Adapt | src/main/java/io/spring/githubchangeloggenerator/generator/Sections.java:60-65 | configured sections replace the defaults entirely; none configured gives the four defaults |
| FirstMatchSections.FirstMatchFrom | src/main/java/io/spring/githubchangeloggenerator/generator/Sections.java:83-90 | from a position, none exactly when no later section matches; otherwise a matching section with no match between the position and it |
| FirstMatchSections.FirstMatch | src/main/java/io/spring/githubchangeloggenerator/generator/Sections.java:83-90 | none exactly when no section matches; otherwise the matching section with no earlier match |
| FirstMatchSections.Claim | src/main/java/io/spring/githubchangeloggenerator/generator/Sections.java:74-78 | an issue is added to at most one section |
| FirstMatchSections.Collate | src/main/java/io/spring/githubchangeloggenerator/generator/Sections.java:71-81 | the buckets are the collation under first-match claims; each item sits only in the bucket of its first match |
| FirstMatchSections.Lift | src/main/java/io/spring/githubchangeloggenerator/ChangelogSections.java:53-55 | the lifted sections are the same sections, all in the null group and of type ANY |
| FirstMatchSections.LiftKeepsMatches | src/main/java/io/spring/githubchangeloggenerator/SelectIssues.java:49-57 | a lifted section matches exactly when the original does, since ANY passes everything |
| FirstMatchSections.FirstMatchIs | src/main/java/io/spring/githubchangeloggenerator/generator/Sections.java:83-90 | a matching section with no earlier match is the first match |
| FirstMatchSections.SingleGroupFirst | src/main/java/io/spring/githubchangeloggenerator/ChangelogSections.java:94-103 | with every section in one group, being first of the group is being the first match |
| FirstMatchSections.FirstMatchIsSingleGroupClaim | src/main/java/io/spring/githubchangeloggenerator/ChangelogSections.java:94-103 | the per-group rule over one group claims exactly the first match of the older rule |
| Collation.Claimants | src/main/java/io/spring/githubchangeloggenerator/ChangelogSections.java:84-90 | the items collected for a section are exactly the input items that claim it |
| Collation.ClaimantsSnoc | src/main/java/io/spring/githubchangeloggenerator/ChangelogSections.java:84-90 | one more input item is appended to a section exactly when it claims it |
| Collation.ClaimantsAppend | src/main/java/io/spring/githubchangeloggenerator/ChangelogSections.java:84-90 | collecting over two item lists in turn collects over their concatenation |
| Collation.ClaimantsNone | src/main/java/io/spring/githubchangeloggenerator/ChangelogSections.java:84-90 | a section no item claims collects nothing |
| Collation.ClaimantsAll | src/main/java/io/spring/githubchangeloggenerator/ChangelogSections.java:84-90 | a section every item claims collects the whole input, in order |
| Collation.BucketsFromMeetsSpec | src/main/java/io/spring/githubchangeloggenerator/ChangelogSections.java:82-92 | the reference bucket list meets the collation specification |
| Collation.CollationOf | src/main/java/io/spring/githubchangeloggenerator/ChangelogSections.java:82-92 | the reference collation meets the specification |
| Collation.CollationIsUnique | src/main/java/io/spring/githubchangeloggenerator/ChangelogSections.java:82-92 | every bucket list meeting the specification equals the reference collation |
| Collation.CollationEmptyIffUnclaimed | src/main/java/io/spring/githubchangeloggenerator/ChangelogSections.java:82-92 | no buckets exactly when no item claims a section below the section count |
| Collation.AddToClaimedTracks | src/main/java/io/spring/githubchangeloggenerator/ChangelogSections.java:86-89 | computeIfAbsent then add, for every claimed section, keeps the map equal to the claimants of the prefix read so far |
| Collation.Collate | src/main/java/io/spring/githubchangeloggenerator/ChangelogSections.java:82-92 | the loop over the items and then the TreeMap iteration give the reference collation |
| Collation.ListsOneMore | src/main/java/io/spring/githubchangeloggenerator/ChangelogSections.java:83 | a present key is emitted after all smaller keys |
| Collation.ListsNoneMore | src/main/java/io/spring/githubchangeloggenerator/ChangelogSections.java:83 | an absent key emits nothing |
| Collation.InIndexOrder | src/main/java/io/spring/githubchangeloggenerator/ChangelogSections.java:83 | the sorted map is iterated one bucket per key, keys ascending |
| Collation.UnclaimedInNoBucket | src/main/java/io/spring/githubchangeloggenerator/ChangelogSections.java:82-92 | an item that claims no section is in no bucket |
| SortGroup.KeyClaimed | src/main/java/io/spring/releasenotesgenerator/ChangelogGenerator.java:105 | an item claims exactly the group of its key |
| SortGroup.ClaimantsHaveKey | src/main/java/io/spring/releasenotesgenerator/ChangelogGenerator.java:105 | every item collected for a key has that key |
| SortGroup.NoEarlierKey | src/main/java/io/spring/releasenotesgenerator/ChangelogGenerator.java:104 | the sorted stream from a key on holds no item of an earlier key |
| SortGroup.ByKeyMembers | src/main/java/io/spring/releasenotesgenerator/ChangelogGenerator.java:103-104 | the sorted stream holds only input items that have a key in range |
| SortGroup.ByKeySorted | src/main/java/io/spring/releasenotesgenerator/ChangelogGenerator.java:104 | the stream is in key order |
| SortGroup.ByKeyStable | src/main/java/io/spring/releasenotesgenerator/ChangelogGenerator.java:104 | the sort is stable: for every key the stream holds the input items of that key in input order |
| SortGroup.ByKeyStableFirst | src/main/java/io/spring/releasenotesgenerator/ChangelogGenerator.java:104 | stability for the first key of the stream |
| SortGroup.GroupRuns | src/main/java/io/spring/releasenotesgenerator/ChangelogGenerator.java:105-106 | grouping is empty only for an empty stream and starts with the group of the first item |
| SortGroup.GroupRunsPrependRun | src/main/java/io/spring/releasenotesgenerator/ChangelogGenerator.java:105-106 | a run of one key in front of a stream starting with another key becomes one group in front of that stream's groups |
| SortGroup.GroupsAreCollation | src/main/java/io/spring/releasenotesgenerator/ChangelogGenerator.java:103-106 | grouping the sorted stream gives the reference collation by key |
| SortGroup.SortAndGroup | src/main/java/io/spring/releasenotesgenerator/ChangelogGenerator.java:102-107 | filter, stable sort and groupingBy into a LinkedHashMap give the collation of the input by key |
| IssueTypes.Ordinal | src/main/java/io/spring/releasenotesgenerator/github/Type.java:27-47 | the position of a type in declaration order, and no other position holds it |
| IssueTypes.TypeOfLabel | src/main/java/io/spring/releasenotesgenerator/github/Type.java:67-80 | bug exactly for "bug" or "regression", else enhancement, else documentation, else dependency-upgrade, by substring |
| IssueTypes.FromLabels | src/main/java/io/spring/releasenotesgenerator/github/Type.java:66-83 | none exactly when no label names a type; otherwise the type of some label |
| IssueTypes.LaterLabelsIgnored | src/main/java/io/spring/releasenotesgenerator/github/Type.java:66-83 | labels after the first one that names a type do not change the result |
| IssueTypes.RegressionLabelIsBug | src/main/java/io/spring/releasenotesgenerator/github/Type.java:69-70 | the label "type: regression" makes an issue a bug |
| TypedChangelogGenerator.TypeKey | src/main/java/io/spring/releasenotesgenerator/ChangelogGenerator.java:103-104 | an issue has a key exactly when it has a type, and the key is that type's position in declaration order |
| TypedChangelogGenerator.SortIssues | src/main/java/io/spring/releasenotesgenerator/ChangelogGenerator.java:102-107 | the groups are the collation of the issues by type in declaration order |
| TypedChangelogGenerator.GroupMembership | src/main/java/io/spring/releasenotesgenerator/ChangelogGenerator.java:102-107 | an issue is in a group exactly when it is in the input and has that group's type |
| TypedChangelogGenerator.OutputNamesType | src/main/java/io/spring/releasenotesgenerator/ChangelogGenerator.java:113-119 | every output carries its type's emoji at a fixed position |
| TypedChangelogGenerator.OutputsDiffer | src/main/java/io/spring/releasenotesgenerator/ChangelogGenerator.java:113-114 | outputs of different types differ, whatever their issues |
| TypedChangelogGenerator.OutputsAreDistinct | src/main/java/io/spring/releasenotesgenerator/ChangelogGenerator.java:83-85 | the outputs of the groups are pairwise different |
| TypedChangelogGenerator.OutputsKeepAll | src/main/java/io/spring/releasenotesgenerator/ChangelogGenerator.java:83-86 | collecting the outputs into a LinkedHashSet drops none |
| TypedChangelogGenerator.ContributorsOf | src/main/java/io/spring/releasenotesgenerator/ChangelogGenerator.java:97-100 | fails exactly when a pull request has no user; otherwise holds exactly the pull-request authors, each once |
| TypedChangelogGenerator.Summary | src/main/java/io/spring/releasenotesgenerator/ChangelogGenerator.java:90-95 | empty when the users text has no text; otherwise the thank-you, a blank line, and then exactly the users text |
| TypedChangelogGenerator.SummaryIffContributors | src/main/java/io/spring/releasenotesgenerator/ChangelogGenerator.java:81-95 | the thank-you appears exactly when there is a contributor |
| TypedChangelogGenerator.GenerateContent | src/main/java/io/spring/releasenotesgenerator/ChangelogGenerator.java:80-88 | succeeds exactly when the contributors can be formatted; the text is every group's output joined with line ends, with none dropped by the set, a line end, and the summary of the contributors |
| TypedChangelogGenerator.OutputListsIssue | src/main/java/io/spring/releasenotesgenerator/ChangelogGenerator.java:113-119 | the output of a type lists each of its issues |
| TypedChangelogGenerator.OutputsListTypedIssue | src/main/java/io/spring/releasenotesgenerator/ChangelogGenerator.java:83-86 | the joined outputs list every issue whose labels name a type |
| TypedChangelogGenerator.TypedIssueIsListed | src/main/java/io/spring/releasenotesgenerator/ChangelogGenerator.java:80-88 | the release notes list every issue whose labels name a type |
| TypedChangelogGenerator.UsersListEntry | src/main/java/io/spring/releasenotesgenerator/ChangelogGenerator.java:81-82 | the joined contributors hold each contributor's bullet |
| TypedChangelogGenerator.SummaryThanksEveryUser | src/main/java/io/spring/releasenotesgenerator/ChangelogGenerator.java:90-95 | the summary of a non-empty list carries the thank-you and each user's bullet |
| TypedChangelogGenerator.ThanksEveryAuthor | src/main/java/io/spring/releasenotesgenerator/ChangelogGenerator.java:80-100 | end to end: the release notes carry the thank-you and the bullet of every pull-request author |
| TypedChangelogGenerator.Generate | src/main/java/io/spring/releasenotesgenerator/ChangelogGenerator.java:67-72 | a failed listing fails the generation; a listing leads to generateContent of it, which fails exactly when a pull request in it has no user |
| TypedChangelogGenerator.NoTypedIssuesNoGroups | src/main/java/io/spring/releasenotesgenerator/ChangelogGenerator.java:102-107 | without typed issues there are no groups |
| TypedChangelogGenerator.NoPullRequestsNoContributors | src/main/java/io/spring/releasenotesgenerator/ChangelogGenerator.java:97-100 | without pull requests nobody is credited |
| TypedChangelogGenerator.NothingToReport | src/main/java/io/spring/releasenotesgenerator/ChangelogGenerator.java:80-88 | without typed issues and pull requests the content is a single line end |
| TypedChangelogGenerator.EmptyContent | src/main/java/io/spring/releasenotesgenerator/ChangelogGenerator.java:80-88 | no groups and no contributors give a single line end |
| Contributors.DistinctFrom | src/main/java/io/spring/githubchangeloggenerator/generator/Generator.java:117-119 | the kept users come from the input with unseen keys, pairwise distinct by key |
| Contributors.DistinctFromCovers | src/main/java/io/spring/githubchangeloggenerator/generator/Generator.java:117-119 | every user with an unseen key is represented by a kept user with the same key |
| Contributors.DistinctSpec | src/main/java/io/spring/githubchangeloggenerator/generator/Generator.java:117-119 | the set holds input users only, one per key, and every input key is represented |
| Contributors.DistinctFromKeepsDistinct | src/main/java/io/spring/githubchangeloggenerator/generator/Generator.java:117-119 | a list already distinct by key comes back unchanged |
| Contributors.DistinctIsIdempotent | src/main/java/io/spring/githubchangeloggenerator/generator/Generator.java:117-119 | collecting into a set twice is collecting once |
| Contributors.PullRequestAuthors | src/main/java/io/spring/githubchangeloggenerator/generator/Generator.java:117-119 | fails exactly when a pull request has no user; otherwise holds exactly the pull-request authors, and none without pull requests |
| Markdown.JoinSnoc | src/main/java/io/spring/githubchangeloggenerator/ChangelogGenerator.java:145-152 | joining one more block adds the separator and the block, unless it is the first |
| Markdown.AppendBlocks | src/main/java/io/spring/githubchangeloggenerator/ChangelogGenerator.java:145-152 | appending each block after a line end unless the content is empty joins the non-empty blocks with line ends |
| Markdown.JoinIsEmptyOnlyForNoParts | src/main/java/io/spring/githubchangeloggenerator/ChangelogGenerator.java:145-152 | joined non-empty blocks are empty only when there are none |
| Markdown.PartOccursInConcat | src/main/java/io/spring/githubchangeloggenerator/ChangelogGenerator.java:150 | every bullet occurs in the concatenated bullets |
| Markdown.PartOccursInJoin | src/main/java/io/spring/githubchangeloggenerator/ChangelogGenerator.java:145-152 | every block occurs in the joined content |
| Markdown.IssueLineOccurs | src/main/java/io/spring/githubchangeloggenerator/ChangelogGenerator.java:150 | the bullet of every listed issue occurs in the listing |
| Markdown.ContributorLineOccurs | src/main/java/io/spring/githubchangeloggenerator/ChangelogGenerator.java:205 | the bullet of every contributor occurs in the contributor listing |
| Markdown.ThreeParts | src/main/java/io/spring/githubchangeloggenerator/ChangelogGenerator.java:132-143 | of three texts appended in turn, the first two form a prefix, the last a suffix, and an empty part drops out |
| Markdown.HeadingThenBody | src/main/java/io/spring/releasenotesgenerator/ChangelogGenerator.java:90-95 | a heading, a separator and a body hold the heading at the start and whatever the body holds after them |
| Mentions.Run | src/main/java/io/spring/githubchangeloggenerator/ChangelogGenerator.java:58 | the greedy run of word characters and hyphens, and the first character after it is neither |
| Mentions.EscapeOnlyAddsBackticks | src/main/java/io/spring/githubchangeloggenerator/ChangelogGenerator.java:161-165 | escaping only inserts backticks: without backticks the escaped title is the title |
| Mentions.NoAtUnchanged | src/main/java/io/spring/githubchangeloggenerator/ChangelogGenerator.java:163 | a title without '@' is printed unchanged |
| Mentions.MentionAfterSpaceIsQuoted | src/main/java/io/spring/githubchangeloggenerator/ChangelogGenerator.java:163 | "Bug 1 for @Value" is printed as "Bug 1 for `@Value`" |
| Mentions.MentionAfterWordCharIsKept | src/main/java/io/spring/githubchangeloggenerator/ChangelogGenerator.java:58 | a mention right after a word character, as in an e-mail address, is not quoted |
| Mentions.EscapeKeepsRun | src/main/java/io/spring/githubchangeloggenerator/ChangelogGenerator.java:58 | escaping never changes the leading run of word characters |
| Mentions.EscapeIdempotent | src/main/java/io/spring/githubchangeloggenerator/ChangelogGenerator.java:163 | escaping an escaped text changes nothing, from any position |
| Mentions.EscapeTwiceIsEscapeOnce | src/main/java/io/spring/githubchangeloggenerator/ChangelogGenerator.java:161-165 | escaping a title twice is escaping it once |
| Mentions.QuotedMentionIsKept | src/main/java/io/spring/githubchangeloggenerator/ChangelogGenerator.java:58 | an already quoted mention is left alone |
| TitleSort.LexLeqReflexive | src/main/java/io/spring/githubchangeloggenerator/ChangelogGenerator.java:55-56 | the character order of the comparator is reflexive |
| TitleSort.LexLeqTotal | src/main/java/io/spring/githubchangeloggenerator/ChangelogGenerator.java:55-56 | the character order relates every two strings |
| TitleSort.LexLeqAntisymmetric | src/main/java/io/spring/githubchangeloggenerator/ChangelogGenerator.java:55-56 | the character order is antisymmetric |
| TitleSort.LexLeqTransitive | src/main/java/io/spring/githubchangeloggenerator/ChangelogGenerator.java:55-56 | the character order is transitive |
| TitleSort.TitleOrderIsTotal | src/main/java/io/spring/githubchangeloggenerator/ChangelogGenerator.java:55-56 | the case-insensitive order relates every two titles and ranks two titles equal exactly when they fold to the same text |
| TitleSort.InsertSorted | src/main/java/io/spring/githubchangeloggenerator/ChangelogGenerator.java:157 | insertion keeps a sorted list sorted |
| TitleSort.InsertPermutes | src/main/java/io/spring/githubchangeloggenerator/ChangelogGenerator.java:157 | insertion adds exactly the one item |
| TitleSort.WithTitleAppend | src/main/java/io/spring/githubchangeloggenerator/ChangelogGenerator.java:157 | the items ranked equal to a title, over a concatenation, are those of each part in turn |
| TitleSort.InsertStable | src/main/java/io/spring/githubchangeloggenerator/ChangelogGenerator.java:157 | insertion keeps, for every title, the order of the items ranked equal to it |
| TitleSort.SortByTitleSpec | src/main/java/io/spring/githubchangeloggenerator/ChangelogGenerator.java:154-159 | the sort is a permutation of its input, in title order, and stable among equal titles |
| TitleSort.SortedIsPairwise | src/main/java/io/spring/githubchangeloggenerator/ChangelogGenerator.java:154-159 | in a sorted list every item is in title order with every later one |
| Porting.StepFrom | src/main/java/io/spring/githubchangeloggenerator/ChangelogGenerator.java:180-193 | no port exactly when every later rule passes; a port comes from a rule with every earlier rule passing |
| Porting.Resolve | src/main/java/io/spring/githubchangeloggenerator/ChangelogGenerator.java:179-195 | a resolved issue has no further port; an issue with no port is its own reference; a rule failure is the result |
| Porting.UnlabelledIsItself | src/main/java/io/spring/githubchangeloggenerator/ChangelogGenerator.java:180-182 | an issue without any port label credits itself |
| Porting.ResolveFollowsSteps | src/main/java/io/spring/githubchangeloggenerator/ChangelogGenerator.java:187-189 | resolving a ported issue is resolving the issue it references |
| Porting.ResolveMoreFuel | src/main/java/io/spring/githubchangeloggenerator/ChangelogGenerator.java:179-195 | more fuel never changes a completed resolution |
| Porting.PortCycleDoesNotResolve | src/main/java/io/spring/githubchangeloggenerator/ChangelogGenerator.java:189 | two issues that port each other never resolve |
| ChangelogGenerator.ResolveMilestoneReference | src/main/java/io/spring/githubchangeloggenerator/ChangelogGenerator.java:121-130 | an id is parsed and fails exactly when parseInt throws; a title is looked up and succeeds with the lookup's number |
| ChangelogGenerator.IdReferenceReadsBack | src/main/java/io/spring/githubchangeloggenerator/ChangelogGenerator.java:125-126 | an id reference reads back every int written in decimal |
| ChangelogGenerator.WithoutExcluded | src/main/java/io/spring/githubchangeloggenerator/ChangelogGenerator.java:107-119 | an issue is kept exactly when none of its label names is an excluded name |
| ChangelogGenerator.WithoutExcludedAppend | src/main/java/io/spring/githubchangeloggenerator/ChangelogGenerator.java:109 | removal works issue by issue, so the kept issues keep their order |
| ChangelogGenerator.WithoutExcludedCons | src/main/java/io/spring/githubchangeloggenerator/ChangelogGenerator.java:109 | the first issue is kept exactly when it is not excluded |
| ChangelogGenerator.SortIssues | src/main/java/io/spring/githubchangeloggenerator/ChangelogGenerator.java:154-159 | the section's own sort wins over the global one; title order gives a stable sorted permutation, any other leaves the list as it is |
| ChangelogGenerator.SectionBlocks | src/main/java/io/spring/githubchangeloggenerator/ChangelogGenerator.java:145-152 | one non-empty block per bucket of the collation |
| ChangelogGenerator.CreditedAuthors | src/main/java/io/spring/githubchangeloggenerator/ChangelogGenerator.java:175-176 | fails exactly when a port fails or a credited pull request has no user; otherwise holds exactly the users of credited pull requests whose login is not excluded |
| ChangelogGenerator.ContributorsOf | src/main/java/io/spring/githubchangeloggenerator/ChangelogGenerator.java:171-177 | "*" excludes everybody; otherwise distinct logins, none excluded, each the login of a credited author, and every credited author's login present |
| ChangelogGenerator.ContributorsAreCredited | src/main/java/io/spring/githubchangeloggenerator/ChangelogGenerator.java:171-199 | a credited pull request has a user, whose login is listed unless excluded |
| ChangelogGenerator.GenerateContent | src/main/java/io/spring/githubchangeloggenerator/ChangelogGenerator.java:132-143 | succeeds exactly when the contributors can be worked out; the sections part comes first, the contributors block follows it exactly when there are contributors, the external links block ends the text exactly when there are links, and with neither the text is the sections part |
| ChangelogGenerator.ContentLayout | src/main/java/io/spring/githubchangeloggenerator/ChangelogGenerator.java:132-143 | the sections part first, then the contributors block when there are contributors, then the external links block when there are links, with absent parts dropping out |
| ChangelogGenerator.Generate | src/main/java/io/spring/githubchangeloggenerator/ChangelogGenerator.java:100-111 | fails with the milestone error, then with the listing error; with both in hand the result is generateContent of the listing without excluded issues, the issue lookup going to the same service |
| ChangelogGenerator.BlockListsIssue | src/main/java/io/spring/githubchangeloggenerator/ChangelogGenerator.java:145-152 | a section block shows the bullet of each of its issues |
| ChangelogGenerator.ClaimedIssueIsListed | src/main/java/io/spring/githubchangeloggenerator/ChangelogGenerator.java:145-165 | an issue a section claims has its bullet, mentions quoted, in the sections part |
| ChangelogGenerator.ChangelogListsClaimedIssue | src/main/java/io/spring/githubchangeloggenerator/ChangelogGenerator.java:132-143 | the changelog lists every kept issue some section claims |
| ChangelogGenerator.SectionsContentEmptyIffNothingClaimed | src/main/java/io/spring/githubchangeloggenerator/ChangelogGenerator.java:145-152 | the sections part is empty exactly when no section claims any issue |
| ChangelogGenerator.StarLeavesOnlySections | src/main/java/io/spring/githubchangeloggenerator/ChangelogGenerator.java:171-174 | with "*" excluded and no external links the changelog is only its sections part |
| ChangelogGenerator.BlockThanksEveryContributor | src/main/java/io/spring/githubchangeloggenerator/ChangelogGenerator.java:201-205 | the contributors block carries the thank-you and the bullet of every contributor |
| ChangelogGenerator.ChangelogThanksEveryContributor | src/main/java/io/spring/githubchangeloggenerator/ChangelogGenerator.java:132-143 | the changelog carries the thank-you and the bullet of every contributor |
| ChangelogGenerator.ListedLoginIsShown | src/main/java/io/spring/githubchangeloggenerator/ChangelogGenerator.java:201-209 | every listed contributor has a bullet under its login in the changelog |
| ChangelogGenerator.ListedNameIsShown | src/main/java/io/spring/githubchangeloggenerator/ChangelogGenerator.java:201-209 | every login among the contributors has a bullet in the changelog |
| ChangelogGenerator.ChangelogCreditsAuthor | src/main/java/io/spring/githubchangeloggenerator/ChangelogGenerator.java:132-209 | end to end: the author of every credited pull request has a user and, unless excluded, a bullet under its login in the changelog |
| ChangelogGenerator.ExcludedIssueIsInNoSection | src/main/java/io/spring/githubchangeloggenerator/ChangelogGenerator.java:107-119 | an issue with an excluded label is in no section's bucket of the collation of the kept listing |
| GitHubService.IssueListingsAgree | src/main/java/io/spring/githubchangeloggenerator/github/service/GitHubService.java:49-53 | all three generations request the same closed-issues listing of a milestone |
| GitHubService.FindMilestone | src/main/java/io/spring/githubchangeloggenerator/github/service/GitHubService.java:71-75 | none exactly when no title equals the given one ignoring case; otherwise the first that does |
| GitHubService.GetMilestoneNumber | src/main/java/io/spring/githubchangeloggenerator/github/service/GitHubService.java:67-77 | a blank title fails before any request; a failed listing fails; otherwise the number of the first matching milestone or the not-found error |
| GitHubService.MilestoneLookupIgnoresCase | src/main/java/io/spring/githubchangeloggenerator/github/service/GitHubService.java:72 | titles that differ only in case find the same milestone |
| GitHubService.FindMilestoneIgnoresCase | src/main/java/io/spring/githubchangeloggenerator/github/service/GitHubService.java:72 | the search gives the same position for titles equal ignoring case |
| GitHubService.GetIssue | src/main/java/io/spring/githubchangeloggenerator/github/service/GitHubService.java:79-87 | the issue at the request path, or nothing exactly when the request fails |
| GitHubService.GetIssuesForMilestone | src/main/java/io/spring/githubchangeloggenerator/github/service/GitHubService.java:89-91 | a collected listing starts with the first page of the milestone's request path |
| Pagination.GetPage | src/main/java/io/spring/githubchangeloggenerator/github/service/GitHubService.java:103-109 | no page exactly for a blank URL, a failure exactly for an unanswered one, otherwise the server's response |
| Pagination.Collect | src/main/java/io/spring/githubchangeloggenerator/github/service/GitHubService.java:93-101 | no pages for a blank URL, a failure for an unanswered first URL, otherwise starts with the first page's content |
| Pagination.GetAll | src/main/java/io/spring/githubchangeloggenerator/github/service/GitHubService.java:93-101 | the page loop gives the collection |
| Pagination.CollectMoreFuel | src/main/java/io/spring/githubchangeloggenerator/github/service/GitHubService.java:93-101 | more fuel never changes a completed collection |
| Pagination.TwoPageChain | src/main/java/io/spring/githubchangeloggenerator/github/service/GitHubService.java:96-99 | a page linked to a last page gives both contents in order |
| Pagination.TwoPagesConcatenate | src/main/java/io/spring/releasenotesgenerator/github/GithubService.java:51-61 | the two-page scenario gives both pages' contents, under either next-link rule |
| Pagination.PageTwoIsNext | src/main/java/io/spring/githubchangeloggenerator/github/service/GitHubService.java:116-125 | the sample first-page header names "page-two" as next under either rule |
| Pagination.NoHeaderNoNext | src/main/java/io/spring/githubchangeloggenerator/github/service/GitHubService.java:117-118 | without a Link header there is no next page |
| LinkHeader.LastSplit | src/main/java/io/spring/githubchangeloggenerator/github/service/GitHubService.java:47 | the largest split position up to a bound, and none exactly when there is none |
| LinkHeader.Match | src/main/java/io/spring/githubchangeloggenerator/github/service/GitHubService.java:47 | a match exactly when the entry has no line terminator and splits; the url is the longest possible and both groups are non-empty |
| LinkHeader.MatchOfFormat | src/main/java/io/spring/githubchangeloggenerator/github/service/GitHubService.java:47 | matching reads back a formatted link whose rel holds no '>' and no line terminator |
| LinkHeader.LastSplitOfFormat | src/main/java/io/spring/githubchangeloggenerator/github/service/GitHubService.java:47 | the greedy group ends right after the url of a formatted link |
| LinkHeader.Entries | src/main/java/io/spring/githubchangeloggenerator/github/service/GitHubService.java:118-119 | one trimmed entry per comma-separated piece |
| LinkHeader.MatchAll | src/main/java/io/spring/githubchangeloggenerator/github/service/GitHubService.java:119-120 | every entry matched against the pattern |
| LinkHeader.FirstNext | src/main/java/io/spring/githubchangeloggenerator/github/service/GitHubService.java:116-125 | none exactly when no entry matches with rel "next"; otherwise the url of such an entry |
| LinkHeader.Parse | src/main/java/io/spring/releasenotesgenerator/github/RegexLinkParser.java:19-29 | every matching rel is mapped, to the url of its last entry |
| LinkHeader.FirstNextAgreesWithParsedNext | src/main/java/io/spring/releasenotesgenerator/github/RegexLinkParser.java:19-29 | with at most one "next" entry the loop and the parser find the same next URL |
| LinkHeader.TwoNextLinksDisagree | src/main/java/io/spring/releasenotesgenerator/github/RegexLinkParser.java:25 | with two "next" entries the loop takes the first and the parser the last |
| LinkHeader.SingleNextLink | src/main/java/io/spring/githubchangeloggenerator/github/service/GitHubService.java:116-125 | the sample first-page header gives "page-two" as next under both rules |
| LinkHeader.PageTwoHeaderMatches | src/main/java/io/spring/githubchangeloggenerator/github/service/GitHubService.java:47 | the sample first-page header matches as url "page-two" and rel "next" |
| LinkHeader.NoCommaIsOneEntry | src/main/java/io/spring/githubchangeloggenerator/github/service/GitHubService.java:118 | a non-empty header without a comma is one entry |
| LinkHeader.TrimKeepsUntrimmable | src/main/java/io/spring/githubchangeloggenerator/github/service/GitHubService.java:119 | trimming leaves a text with untrimmable ends alone |
| RepositoryRef.Of | src/main/java/io/spring/githubchangeloggenerator/github/service/Repository.java:71-76 | blank fails first, no slash fails next; otherwise cut at the first slash, so the owner has no slash |
| RepositoryRef.ToStringOfOf | src/main/java/io/spring/githubchangeloggenerator/github/service/Repository.java:66-76 | printing an accepted reference gives the reference back |
| RepositoryRef.OfToString | src/main/java/io/spring/githubchangeloggenerator/github/service/Repository.java:66-76 | parsing a printed repository gives it back exactly when its owner has no slash |
| RepositoryRef.OfIsInjective | src/main/java/io/spring/githubchangeloggenerator/github/service/Repository.java:45-55 | two accepted references name equal repositories exactly when they are equal |
| RepositoryRef.EmptyOwnerAccepted | src/main/java/io/spring/githubchangeloggenerator/github/service/Repository.java:71-76 | "/name" is accepted with an empty owner |
| RepositoryRef.NameKeepsSlashes | src/main/java/io/spring/githubchangeloggenerator/github/service/Repository.java:75 | the name keeps every slash after the first |
| RepositoryRef.ReferenceWithoutSlashRejected | src/main/java/io/spring/githubchangeloggenerator/github/service/Repository.java:73-74 | a reference without a slash fails with the slash message |
| RepositoryRef.BlankReferenceRejected | src/main/java/io/spring/githubchangeloggenerator/github/service/Repository.java:72 | a blank reference fails with the empty message |
| Generator.MilestoneNumber | src/main/java/io/spring/githubchangeloggenerator/generator/Generator.java:80-87 | a number is parsed; only when parseInt throws is the title looked up |
| Generator.NumericMilestoneSkipsLookup | src/main/java/io/spring/githubchangeloggenerator/generator/Generator.java:80-83 | a milestone written as an int never reaches the lookup |
| Generator.SectionBlocks | src/main/java/io/spring/githubchangeloggenerator/generator/Generator.java:99-105 | one non-empty block per bucket of the first-match collation |
| Generator.ContributorsOf | src/main/java/io/spring/githubchangeloggenerator/generator/Generator.java:117-120 | fails exactly when a pull request has no user; otherwise pull-request authors, one per login, every author's login present |
| Generator.GenerateContent | src/main/java/io/spring/githubchangeloggenerator/generator/Generator.java:89-97 | succeeds exactly when the contributors can be worked out; the text is the sections part, followed by the contributors block exactly when there are contributors |
| Generator.Generate | src/main/java/io/spring/githubchangeloggenerator/generator/Generator.java:73-78 | the milestone error, else generateContent of the fetched issues |
| Generator.BlockListsIssue | src/main/java/io/spring/githubchangeloggenerator/generator/Generator.java:99-111 | a section block shows the bullet of each of its issues |
| Generator.FirstMatchHasBucket | src/main/java/io/spring/githubchangeloggenerator/generator/Sections.java:71-81 | an issue's first match has a bucket and the issue is in it |
| Generator.FirstMatchIsListed | src/main/java/io/spring/githubchangeloggenerator/generator/Generator.java:89-111 | an issue with a matching section has its bullet in the content |
| Generator.NoPullRequestsNoThanks | src/main/java/io/spring/githubchangeloggenerator/generator/Generator.java:89-97 | without pull requests the content is the sections part only |
| Generator.BlockThanksEveryContributor | src/main/java/io/spring/githubchangeloggenerator/generator/Generator.java:122-129 | the contributors block carries the thank-you and the bullet of every contributor |
| Generator.AuthorIsListed | src/main/java/io/spring/githubchangeloggenerator/generator/Generator.java:117-120 | a pull request has a user, whose login is among the contributors |
| Generator.ContributorIsThanked | src/main/java/io/spring/githubchangeloggenerator/generator/Generator.java:89-97 | every contributor gets the thank-you and a bullet in the changelog |
| Generator.ListedLoginIsThanked | src/main/java/io/spring/githubchangeloggenerator/generator/Generator.java:89-97 | every login among the contributors has a bullet in the changelog |
| Generator.ThanksEveryAuthor | src/main/java/io/spring/githubchangeloggenerator/generator/Generator.java:89-129 | end to end: the changelog thanks every pull-request author under its login |
| ReleaseNotesGenerator.ContributorsOf | src/main/java/io/spring/releasenotes/generator/ReleaseNotesGenerator.java:105-108 | fails exactly when a pull request has no user; otherwise exactly the pull-request authors, pairwise different |
| ReleaseNotesGenerator.GenerateContent | src/main/java/io/spring/releasenotes/generator/ReleaseNotesGenerator.java:77-85 | succeeds exactly when the contributors can be worked out; the text is the sections part of the fixed four sections, followed by the contributors block exactly when there are contributors |
| ReleaseNotesGenerator.ThanksEveryAuthor | src/main/java/io/spring/releasenotes/generator/ReleaseNotesGenerator.java:77-112 | end to end: the release notes carry the thank-you and the bullet of every pull-request author |
| ReleaseNotesGenerator.Generate | src/main/java/io/spring/releasenotes/generator/ReleaseNotesGenerator.java:70-75 | a failed listing fails; a listing leads to generateContent of it |
| ReleaseNotesGenerator.RawMatchesEscapedWithoutMentions | src/main/java/io/spring/releasenotes/generator/ReleaseNotesGenerator.java:97-99 | without '@' in titles, printing titles raw equals quoting mentions |
| ReleaseNotesGenerator.SameLoginTwoUrls | src/main/java/io/spring/releasenotes/generator/ReleaseNotesGenerator.java:105-108 | one login with two URLs is thanked twice here, once where User equality is the login |

## Left out

- File writing (`writeContentToFile`): it is I/O. Every `Generate` function stops at the content string.
- HTTP, authentication, `RestTemplate` construction, JSON decoding and Spring wiring: these are I/O or configuration. The server is a map of responses, and issues arrive decoded.
- `String.format("%n")` is modelled as "\n". The platform line separator is not modelled.
- Regular expressions: the port rules' body patterns are a `matcher` parameter. The two fixed patterns, the Link pattern and the mention pattern, are modelled by hand for the inputs they see.
- Case folding in `equalsIgnoreCase` and `CASE_INSENSITIVE_ORDER` covers ASCII letters only. Unicode case mapping is not modelled.
- `Character.isWhitespace` in `hasText` is modelled by its fixed character list.
- `HashSet` iteration order: a contributor set is a sequence in first-occurrence order. Its properties are stated as set facts (who is in it, each once), because the source gives no order.
- `Set<PortedIssue>` iteration order: the port rules are a sequence. The model tries them in that order.
- The releasenotes `ApplicationProperties` and the `CommandProcessor` classes: they only bind configuration and arguments.
- Porting.Resolve: a fuel bound stands in for the unbounded recursion of `getPortedReferenceIssue`. A chain longer than the fuel, including any cycle, ends in `ChainTooLong`, where the source would overflow its stack.
- Pagination.Collect: a fuel bound limits the number of pages fetched. A listing with more pages than the fuel fails with an out-of-fuel error, where the source would keep fetching.
- GitHubService.GetIssuesForMilestone: states only that a collected listing starts with the first page of the milestone's request path. The full page chain is stated by `Pagination.Collect`, `Pagination.TwoPageChain` and `Pagination.CollectMoreFuel`.
- Strings.ParseInt: accepts an optional sign and ASCII digits only. `Integer.parseInt` also accepts the digits of other scripts, so `ParseInt("١")` is `None` where Java reads 1. A milestone argument written in such digits therefore takes a different path: `Generator.MilestoneNumber` looks it up by title, and `ChangelogGenerator.ResolveMilestoneReference` with a by-id reference fails. The contract states only the 32-bit range of an accepted value; the decimal reading is given by `Strings.ParseIntOfIntToString`. Leading zeros are accepted as in Java but are not related to it by a lemma.
- ChangelogGenerator.Generate: the content of a successful run is stated as `GenerateContent` of the listing with excluded issues removed. `ChangelogGenerator.ExcludedIssueIsInNoSection` states that an excluded issue lands in no section. Nothing is said about the file the source then writes.
- TitleOrderIsTotal, in `TitleSort`, and the title order `TitleSort.TitleLeq` with `TitleSort.LexLeq` below it compare titles character by character, where a character is a Unicode code point. `String.CASE_INSENSITIVE_ORDER` compares UTF-16 code units. The two orders differ between a supplementary character and a character from U+E000 to U+FFFF: U+1F41E sorts after U+FF01 here and before it in Java, whose high surrogate U+D83D is below U+FF01. Titles made only of characters of the Basic Multilingual Plane sort the same in both.
- Porting.Resolve: a `matcher` result of `None` stands for both "no match" and a pattern without a capture group. For the latter `Matcher.group(1)` throws `IndexOutOfBoundsException` in the source; the model treats it as no match.
- ChangelogSection.IsMatchFor and ChangelogSection.Display also stand for the `Section` class of the `generator` generation and the `ReleaseNotesSection` class of the `releasenotes` generation. Those classes are not part of this model, so their label matching and their display string are assumed to be those of the three-argument `ChangelogSection`: an issue label contains a section label, and the display is the emoji, a space and the title.
- ChangelogSections.Matches: the five-argument `ChangelogSection` of the current generation is not part of this model. Its `isMatchFor` is assumed to be the label-substring test of `SelectIssues.withLabelNamesContaining` together with the type filter of `SelectIssues.withType`. Because every section the model builds has type `Any`, the type filter never excludes an issue. The section's heading is assumed to be its title. Its `format` argument is not modelled.
