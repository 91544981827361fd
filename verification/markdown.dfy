/** The Markdown pieces the generators write: issue bullets, section
    headings, contributor bullets, and the joining of section blocks. The
    platform line separator (`%n`) is fixed to "\n". */
module Markdown {
  import opened Strings
  import opened Payload

  /** getLinkToIssue. */
  function IssueLink(issue: Issue): string {
    "[#" + issue.number + "](" + issue.url + ")"
  }

  /** getFormattedIssue, given the title as the generation prints it. */
  function IssueLine(title: string, issue: Issue): string {
    "- " + title + " " + IssueLink(issue) + "\n"
  }

  /** "## " heading of a block, followed by an empty line. */
  function Heading(text: string): string {
    "## " + text + "\n\n"
  }

  /** formatContributors of the generators that end each bullet with a newline. */
  function ContributorLine(user: User): string {
    "- [@" + user.name + "](" + user.url + ")\n"
  }

  /** The concatenation of the parts, in order. */
  function Concat(parts: seq<string>): (r: string)
    ensures |parts| == 0 ==> r == ""
  {
    if |parts| == 0 then "" else parts[0] + Concat(parts[1..])
  }

  /** The bullets of the issues, each with its printed title. */
  function IssueLines(issues: seq<Issue>, title: Issue -> string): string {
    Concat(seq(|issues|, i requires 0 <= i < |issues| => IssueLine(title(issues[i]), issues[i])))
  }

  function ContributorLines(users: seq<User>): string {
    Concat(seq(|users|, i requires 0 <= i < |users| => ContributorLine(users[i])))
  }

  // ---------------------------------------------------------------------
  // Joining section blocks
  // ---------------------------------------------------------------------

  lemma {:induction false} JoinSnoc(parts: seq<string>, sep: string, last: string)
    ensures Join(parts + [last], sep) == if |parts| == 0 then last else Join(parts, sep) + sep + last
    decreases |parts|
  {
    if |parts| == 1 {
      assert parts + [last] == [parts[0], last];
      assert [parts[0], last][1..] == [last];
    } else if |parts| > 1 {
      assert (parts + [last])[1..] == parts[1..] + [last];
      JoinSnoc(parts[1..], sep, last);
    } else {
      assert parts + [last] == [last];
    }
  }

  /** addSectionContent: every block is preceded by a newline unless nothing
      has been written yet. With non-empty blocks this is joining with "\n". */
  method AppendBlocks(blocks: seq<string>) returns (content: string)
    ensures (forall k :: 0 <= k < |blocks| ==> |blocks[k]| > 0) ==> content == Join(blocks, "\n")
  {
    content := "";
    var i := 0;
    while i < |blocks|
      invariant 0 <= i <= |blocks|
      invariant (forall k :: 0 <= k < |blocks| ==> |blocks[k]| > 0) ==> content == Join(blocks[..i], "\n")
    {
      JoinSnoc(blocks[..i], "\n", blocks[i]);
      assert blocks[..i + 1] == blocks[..i] + [blocks[i]];
      assert i > 0 && (forall k :: 0 <= k < |blocks| ==> |blocks[k]| > 0) ==> |Join(blocks[..i], "\n")| > 0 by {
        if i > 0 && (forall k :: 0 <= k < |blocks| ==> |blocks[k]| > 0) {
          JoinSnoc(blocks[..i - 1], "\n", blocks[i - 1]);
          assert blocks[..i] == blocks[..i - 1] + [blocks[i - 1]];
        }
      }
      content := content + (if |content| != 0 then "\n" else "") + blocks[i];
      i := i + 1;
    }
    assert blocks[..|blocks|] == blocks;
  }

  /** Joining non-empty blocks gives the empty text only for no blocks. */
  lemma JoinIsEmptyOnlyForNoParts(parts: seq<string>, sep: string)
    requires forall k :: 0 <= k < |parts| ==> |parts[k]| > 0
    ensures Join(parts, sep) == "" <==> |parts| == 0
  {
    if |parts| > 1 {
      assert |Join(parts, sep)| >= |parts[0]|;
    }
  }

  // ---------------------------------------------------------------------
  // What a concatenation contains
  // ---------------------------------------------------------------------

  lemma OccursInside(a: string, b: string, c: string, t: string, i: int)
    requires OccursAt(b, t, i)
    ensures OccursAt(a + b + c, t, |a| + i)
  {
    assert (a + b + c)[|a| + i..|a| + i + |t|] == b[i..i + |t|];
  }

  lemma OccursInPrefix(s: string, p: string, t: string, i: int)
    requires p <= s && OccursAt(p, t, i)
    ensures OccursAt(s, t, i)
  {
    assert s[..|p|] == p;
    assert s[i..i + |t|] == s[..|p|][i..i + |t|];
  }

  lemma OccursTransitive(s: string, m: string, t: string, i: int, j: int)
    requires OccursAt(s, m, i) && OccursAt(m, t, j)
    ensures OccursAt(s, t, i + j)
  {
    var a, b := s[i + j..i + j + |t|], m[j..j + |t|];
    forall k | 0 <= k < |t|
      ensures a[k] == b[k]
    {
      assert s[i + j + k] == s[i..i + |m|][j + k];
    }
    assert a == b;
  }

  /** Every part occurs in the concatenation. */
  lemma {:induction false} PartOccursInConcat(parts: seq<string>, k: int)
    requires 0 <= k < |parts|
    ensures exists i :: OccursAt(Concat(parts), parts[k], i)
    decreases |parts|
  {
    var rest := Concat(parts[1..]);
    if k == 0 {
      OccursInside("", parts[0], rest, parts[0], 0);
      assert "" + parts[0] + rest == Concat(parts);
    } else {
      PartOccursInConcat(parts[1..], k - 1);
      var i :| OccursAt(rest, parts[1..][k - 1], i);
      OccursInside(parts[0], rest, "", parts[k], i);
      assert parts[0] + rest + "" == Concat(parts);
    }
  }

  /** Every part occurs in the joined text. */
  lemma {:induction false} PartOccursInJoin(parts: seq<string>, sep: string, k: int)
    requires 0 <= k < |parts|
    ensures exists i :: OccursAt(Join(parts, sep), parts[k], i)
    decreases |parts|
  {
    if |parts| == 1 {
      assert parts[0][0..|parts[0]|] == parts[0];
      assert OccursAt(Join(parts, sep), parts[k], 0);
    } else {
      var rest := Join(parts[1..], sep);
      assert Join(parts, sep) == parts[0] + sep + rest;
      if k == 0 {
        OccursInside("", parts[0], sep + rest, parts[0], 0);
        assert "" + parts[0] + (sep + rest) == Join(parts, sep);
      } else {
        PartOccursInJoin(parts[1..], sep, k - 1);
        var i :| OccursAt(rest, parts[1..][k - 1], i);
        OccursInside(parts[0] + sep, rest, "", parts[k], i);
        assert parts[0] + sep + rest + "" == Join(parts, sep);
      }
    }
  }

  /** The bullet of every contributor occurs in the contributor listing. */
  lemma ContributorLineOccurs(users: seq<User>, u: User)
    requires u in users
    ensures exists i :: OccursAt(ContributorLines(users), ContributorLine(u), i)
  {
    var k :| 0 <= k < |users| && users[k] == u;
    var lines := seq(|users|, i requires 0 <= i < |users| => ContributorLine(users[i]));
    PartOccursInConcat(lines, k);
    assert lines[k] == ContributorLine(u);
    assert ContributorLines(users) == Concat(lines);
  }

  /** Three texts in a row: the first two are a prefix, the last a suffix,
      and an empty part drops out. */
  lemma ThreeParts(a: string, b: string, c: string)
    ensures a <= a + b + c && a + b <= a + b + c
    ensures |c| <= |a + b + c| && (a + b + c)[|a + b + c| - |c|..] == c
    ensures b == "" ==> a + b + c == a + c
    ensures c == "" ==> a + b + c == a + b
  {
    assert (a + b + c)[..|a|] == a;
    assert (a + b + c)[..|a + b|] == a + b;
  }

  /** A heading and a body joined by a separator hold the heading and whatever the body holds. */
  lemma HeadingThenBody(head: string, sep: string, body: string, t: string, p: int)
    requires OccursAt(body, t, p)
    ensures OccursAt(head + sep + body, head, 0)
    ensures OccursAt(head + sep + body, t, |head| + |sep| + p)
  {
    assert (head + sep + body)[0..|head|] == head;
    OccursInside(head + sep, body, "", t, p);
    assert head + sep + body + "" == head + sep + body;
  }

  /** What occurs in a part that follows a prefix of a text occurs in the text. */
  lemma OccursInPrefixPart(s: string, p: string, part: string, t: string)
    requires p + part <= s
    requires exists i :: OccursAt(part, t, i)
    ensures exists i :: OccursAt(s, t, i)
  {
    var i :| OccursAt(part, t, i);
    OccursInside(p, part, "", t, i);
    assert p + part + "" == p + part;
    OccursInPrefix(s, p + part, t, |p| + i);
  }

  /** The bullet of every listed issue occurs in the listing. */
  lemma IssueLineOccurs(issues: seq<Issue>, title: Issue -> string, x: Issue)
    requires x in issues
    ensures exists i :: OccursAt(IssueLines(issues, title), IssueLine(title(x), x), i)
  {
    var k :| 0 <= k < |issues| && issues[k] == x;
    var lines := seq(|issues|, i requires 0 <= i < |issues| => IssueLine(title(issues[i]), issues[i]));
    PartOccursInConcat(lines, k);
    assert lines[k] == IssueLine(title(x), x);
    assert IssueLines(issues, title) == Concat(lines);
  }
}
