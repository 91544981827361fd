/** The HTTP Link header of GitHub's paginated responses (the Link header field
    of RFC 8288, section 3), read the way the services read it: the header is
    cut at every comma, each piece is trimmed and fully matched against
    `<(.+)>; rel="(.+)"`. */
module LinkHeader {
  import opened Wrappers
  import opened Strings

  datatype Link = Link(url: string, rel: string)

  /** Characters that the regular expression `.` does not match. */
  predicate IsLineTerminator(c: char) {
    c == '\n' || c == '\r' || c == '\U{0085}' || c == '\U{2028}' || c == '\U{2029}'
  }

  predicate HasNoLineTerminator(s: string) {
    forall i :: 0 <= i < |s| ==> !IsLineTerminator(s[i])
  }

  /** The literal text between the two groups of the pattern. */
  const Middle: string := ">; rel=\""

  /** `e` is `<` + url + Middle + rel + `"` with the url ending just before
      position `k` and both groups non-empty. */
  predicate IsSplit(e: string, k: int) {
    2 <= k && k + |Middle| + 2 <= |e|
    && e[0] == '<' && e[|e| - 1] == '"' && e[k..k + |Middle|] == Middle
  }

  /** The largest split position not beyond `k`. */
  function LastSplit(e: string, k: int): (r: Option<nat>)
    ensures r.Some? ==> r.value <= k && IsSplit(e, r.value)
    ensures r.Some? ==> forall j :: r.value < j <= k ==> !IsSplit(e, j)
    ensures r.None? <==> forall j :: j <= k ==> !IsSplit(e, j)
    decreases k
  {
    if k < 2 then None
    else if IsSplit(e, k) then Some(k)
    else LastSplit(e, k - 1)
  }

  /** Matcher.matches() on a trimmed entry. The first group is greedy, so of
      all ways to read the entry the one with the longest url wins. */
  function Match(e: string): (r: Option<Link>)
    ensures r.Some? ==> exists k :: IsSplit(e, k) && r.value == Link(e[1..k], e[k + |Middle|..|e| - 1])
    ensures r.Some? ==> forall k :: IsSplit(e, k) ==> |e[1..k]| <= |r.value.url|
    ensures r.Some? ==> |r.value.url| > 0 && |r.value.rel| > 0
    ensures r.None? <==> !HasNoLineTerminator(e) || forall k :: !IsSplit(e, k)
  {
    if !HasNoLineTerminator(e) then None
    else
      match LastSplit(e, |e| - |Middle| - 2)
      case None => None
      case Some(k) => Some(Link(e[1..k], e[k + |Middle|..|e| - 1]))
  }

  /** How a link is written in a header. */
  function Format(l: Link): string {
    "<" + l.url + Middle + l.rel + "\""
  }

  /** Matching reads back a formatted link whenever the rel holds no '>'
      (a '>' followed by the middle text inside the rel would lengthen the url). */
  lemma MatchOfFormat(l: Link)
    requires |l.url| > 0 && |l.rel| > 0 && '>' !in l.rel
    requires HasNoLineTerminator(l.url) && HasNoLineTerminator(l.rel)
    ensures Match(Format(l)) == Some(l)
  {
    var e, k := Format(l), 1 + |l.url|;
    FormatHasNoLineTerminator(l);
    LastSplitOfFormat(l);
    FormatParts(l);
    assert Match(e) == Some(Link(e[1..k], e[k + |Middle|..|e| - 1]));
  }

  /** The greedy group ends right after the url of a formatted link. */
  lemma LastSplitOfFormat(l: Link)
    requires |l.url| > 0 && |l.rel| > 0 && '>' !in l.rel
    ensures LastSplit(Format(l), |Format(l)| - |Middle| - 2) == Some(1 + |l.url|)
  {
    FormatIsSplit(l);
    FormatHasNoLaterSplit(l);
    LastSplitIs(Format(l), |Format(l)| - |Middle| - 2, 1 + |l.url|);
  }

  /** The last split up to `bound` is the split with no split after it. */
  lemma LastSplitIs(e: string, bound: int, k: int)
    requires IsSplit(e, k) && k <= bound
    requires forall j :: k < j ==> !IsSplit(e, j)
    ensures LastSplit(e, bound) == Some(k)
  {
    var r := LastSplit(e, bound);
    assert r.Some?;
    assert r.value <= k;
  }

  /** A formatted link splits right after its url. */
  lemma FormatIsSplit(l: Link)
    requires |l.url| > 0 && |l.rel| > 0
    ensures IsSplit(Format(l), 1 + |l.url|)
    ensures 1 + |l.url| <= |Format(l)| - |Middle| - 2
  {
    FormatParts(l);
  }

  lemma FormatParts(l: Link)
    ensures var e, k := Format(l), 1 + |l.url|;
            |e| == k + |Middle| + |l.rel| + 1
            && e[..1] == "<" && e[1..k] == l.url && e[k..k + |Middle|] == Middle
            && e[k + |Middle|..|e| - 1] == l.rel && e[|e| - 1] == '"'
  {
  }

  lemma FormatHasNoLaterSplit(l: Link)
    requires '>' !in l.rel
    ensures forall j :: 1 + |l.url| < j ==> !IsSplit(Format(l), j)
  {
    var e, k := Format(l), 1 + |l.url|;
    FormatParts(l);
    forall j | k < j
      ensures !IsSplit(e, j)
    {
      if IsSplit(e, j) {
        FormatCharAt(l, j);
        assert false;
      }
    }
  }

  /** The characters after the url of a formatted link. */
  lemma FormatCharAt(l: Link, j: int)
    requires 1 + |l.url| <= j < |Format(l)| - 1
    ensures var k := 1 + |l.url|;
            Format(l)[j] == if j < k + |Middle| then Middle[j - k] else l.rel[j - k - |Middle|]
  {
    var e, k := Format(l), 1 + |l.url|;
    FormatParts(l);
    if j < k + |Middle| {
      assert e[j] == e[k..k + |Middle|][j - k];
    } else {
      assert e[j] == e[k + |Middle|..|e| - 1][j - k - |Middle|];
    }
  }

  lemma FormatHasNoLineTerminator(l: Link)
    requires HasNoLineTerminator(l.url) && HasNoLineTerminator(l.rel)
    ensures HasNoLineTerminator(Format(l))
  {
    var e, k := Format(l), 1 + |l.url|;
    FormatParts(l);
    forall i | 0 <= i < |e|
      ensures !IsLineTerminator(e[i])
    {
      if i == 0 {
        assert e[i] == e[..1][0];
      } else if i < k {
        assert e[i] == e[1..k][i - 1];
      } else if i < k + |Middle| {
        assert e[i] == e[k..k + |Middle|][i - k];
      } else if i < |e| - 1 {
        assert e[i] == e[k + |Middle|..|e| - 1][i - k - |Middle|];
      }
    }
  }

  /** The trimmed comma-separated entries of a header; an absent header has none. */
  function Entries(header: Option<string>): (r: seq<string>)
    ensures |r| == |CommaDelimitedList(header)|
  {
    var parts := CommaDelimitedList(header);
    seq(|parts|, i requires 0 <= i < |parts| => Trim(parts[i]))
  }

  /** Every entry matched against the pattern. */
  function MatchAll(entries: seq<string>): (r: seq<Option<Link>>)
    ensures |r| == |entries|
    ensures forall i :: 0 <= i < |r| ==> r[i] == Match(entries[i])
  {
    seq(|entries|, i requires 0 <= i < |entries| => Match(entries[i]))
  }

  /** Entry `i` matched and has the given rel. */
  predicate RelAt(links: seq<Option<Link>>, i: int, rel: string) {
    0 <= i < |links| && links[i].Some? && links[i].value.rel == rel
  }

  /** The loop of getNextUrl in the services of the current and the
      `releasenotes` generation: the url of the first "next" entry. */
  function FirstNext(links: seq<Option<Link>>): (r: Option<string>)
    ensures r.None? <==> forall i :: !RelAt(links, i, "next")
    ensures r.Some? ==> exists i :: RelAt(links, i, "next") && r.value == links[i].value.url
                                   && forall j :: 0 <= j < i ==> !RelAt(links, j, "next")
  {
    if |links| == 0 then None
    else if RelAt(links, 0, "next") then Some(links[0].value.url)
    else
      var r := FirstNext(links[1..]);
      assert forall i :: RelAt(links[1..], i, "next") <==> RelAt(links, i + 1, "next");
      assert forall i :: RelAt(links, i, "next") ==> i == 0 || RelAt(links[1..], i - 1, "next");
      r
  }

  /** Entry `i` is the last one with the given rel. */
  ghost predicate LastRelAt(links: seq<Option<Link>>, i: int, rel: string) {
    RelAt(links, i, rel) && forall j :: i < j < |links| ==> !RelAt(links, j, rel)
  }

  /** RegexLinkParser.parse: every matching entry maps its rel to its url, a
      later entry replacing an earlier one with the same rel. */
  function Parse(links: seq<Option<Link>>): (r: map<string, string>)
    ensures forall rel :: rel in r <==> exists i :: RelAt(links, i, rel)
    ensures forall rel :: rel in r ==> exists i :: LastRelAt(links, i, rel) && links[i].value.url == r[rel]
  {
    if |links| == 0 then map[]
    else
      var n := |links| - 1;
      var front := links[..n];
      var m := Parse(front);
      assert forall i, rel :: 0 <= i < n ==> (RelAt(front, i, rel) <==> RelAt(links, i, rel));
      match links[n]
      case None =>
        assert forall rel :: !RelAt(links, n, rel);
        assert forall rel, i :: LastRelAt(front, i, rel) ==> LastRelAt(links, i, rel);
        m
      case Some(l) =>
        var r := m[l.rel := l.url];
        assert LastRelAt(links, n, l.rel);
        assert forall rel, i :: rel != l.rel && LastRelAt(front, i, rel) ==> LastRelAt(links, i, rel);
        r
  }

  /** The next URL of the `releasenotesgenerator` service: the parser's "next" entry. */
  function ParsedNext(links: seq<Option<Link>>): Option<string> {
    var m := Parse(links);
    if "next" in m then Some(m["next"]) else None
  }

  /** The two ways of finding the next page agree when the header holds at
      most one "next" link. */
  lemma FirstNextAgreesWithParsedNext(links: seq<Option<Link>>)
    requires forall i, j :: RelAt(links, i, "next") && RelAt(links, j, "next") ==> i == j
    ensures FirstNext(links) == ParsedNext(links)
  {
  }

  /** With two "next" links the generations part ways: the loop takes the
      first, the parser's map keeps the last. */
  lemma TwoNextLinksDisagree()
    ensures FirstNext([Some(Link("a", "next")), Some(Link("b", "next"))]) == Some("a")
    ensures ParsedNext([Some(Link("a", "next")), Some(Link("b", "next"))]) == Some("b")
  {
    var links := [Some(Link("a", "next")), Some(Link("b", "next"))];
    assert links[..1] == [Some(Link("a", "next"))];
    assert links[..1][..0] == [];
  }

  /** Header of the first page in the service tests. */
  const PageTwoHeader: string := "<page-two>; rel=\"next\""

  lemma SingleNextLink()
    ensures FirstNext(MatchAll(Entries(Some(PageTwoHeader)))) == Some("page-two")
    ensures ParsedNext(MatchAll(Entries(Some(PageTwoHeader)))) == Some("page-two")
  {
    PageTwoHeaderIsOneEntry();
    PageTwoHeaderMatches();
    var links := MatchAll([PageTwoHeader]);
    assert links == [Some(Link("page-two", "next"))];
    assert RelAt(links, 0, "next");
  }

  lemma PageTwoHeaderMatches()
    ensures Match(PageTwoHeader) == Some(Link("page-two", "next"))
  {
    PageTwoHeaderIsFormatted();
    MatchOfFormat(Link("page-two", "next"));
  }

  lemma PageTwoHeaderIsFormatted()
    ensures PageTwoHeader == Format(Link("page-two", "next"))
    ensures '>' !in "next"
    ensures HasNoLineTerminator("page-two") && HasNoLineTerminator("next")
  {
  }

  lemma PageTwoHeaderIsOneEntry()
    ensures Entries(Some(PageTwoHeader)) == [PageTwoHeader]
  {
    PageTwoHeaderHasNoComma();
    OneUntrimmedEntry(PageTwoHeader);
  }

  /** A non-empty header without a comma whose ends are not trimmable is its own only entry. */
  lemma OneUntrimmedEntry(h: string)
    requires h != "" && ',' !in h && !IsTrimmable(h[0]) && !IsTrimmable(h[|h| - 1])
    ensures Entries(Some(h)) == [h]
  {
    NoCommaIsOneEntry(h);
    TrimKeepsUntrimmable(h);
    assert Entries(Some(h))[0] == Trim(h);
  }

  lemma PageTwoHeaderHasNoComma()
    ensures ',' !in PageTwoHeader
    ensures !IsTrimmable(PageTwoHeader[0]) && !IsTrimmable(PageTwoHeader[|PageTwoHeader| - 1])
  {
  }

  /** A non-empty header without a comma is a single entry. */
  lemma NoCommaIsOneEntry(h: string)
    requires h != "" && ',' !in h
    ensures CommaDelimitedList(Some(h)) == [h]
  {
  }

  lemma TrimKeepsUntrimmable(s: string)
    requires |s| > 0 && !IsTrimmable(s[0]) && !IsTrimmable(s[|s| - 1])
    ensures Trim(s) == s
  {
  }
}
