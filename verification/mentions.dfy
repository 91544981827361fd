/** Escaping of GitHub @mentions in issue titles: the replacement of every
    match of `(^|[^\w`])(@[\w-]+)` by "$1`$2`", so that a title such as
    "Bug for @Value" does not notify the user "Value". Java's `\w` is
    [a-zA-Z_0-9]; the matcher scans left to right, resumes after each match,
    and `^` holds only at the start of the title. */
module Mentions {

  predicate IsWordChar(c: char) {
    ('a' <= c <= 'z') || ('A' <= c <= 'Z') || ('0' <= c <= '9') || c == '_'
  }

  /** A character of `[\w-]`. */
  predicate IsMentionChar(c: char) {
    IsWordChar(c) || c == '-'
  }

  /** A character of `[^\w`]`, the one allowed before a mention. */
  predicate IsBoundary(c: char) {
    !IsWordChar(c) && c != '`'
  }

  /** Length of the greedy `[\w-]*` run at the start of `s`. */
  function Run(s: string): (r: nat)
    ensures r <= |s|
    ensures forall k :: 0 <= k < r ==> IsMentionChar(s[k])
    ensures r < |s| ==> !IsMentionChar(s[r])
  {
    if |s| > 0 && IsMentionChar(s[0]) then 1 + Run(s[1..]) else 0
  }

  /** `s` starts with `@[\w-]+`. */
  predicate StartsMention(s: string) {
    |s| > 0 && s[0] == '@' && Run(s[1..]) > 0
  }

  /** The replaceAll loop from some position of the title. `mayStart` says
      whether a match may put its '@' here: at the start of the title (`^`),
      or right after a `[^\w`]` character that no earlier match consumed. */
  function EscapeFrom(s: string, mayStart: bool): string
    decreases |s|
  {
    if |s| == 0 then ""
    else if mayStart && StartsMention(s) then
      var e := 1 + Run(s[1..]);
      "`" + s[..e] + "`" + EscapeFrom(s[e..], false)
    else
      [s[0]] + EscapeFrom(s[1..], IsBoundary(s[0]))
  }

  /** The escaped title. */
  function Escape(title: string): string {
    EscapeFrom(title, true)
  }

  // ---------------------------------------------------------------------
  // Escaping only inserts backticks
  // ---------------------------------------------------------------------

  /** `s` with every backtick removed. */
  function WithoutBackticks(s: string): (r: string)
    ensures '`' !in r
    ensures '`' !in s ==> r == s
  {
    if |s| == 0 then ""
    else
      var rest := WithoutBackticks(s[1..]);
      assert '`' !in s ==> s == [s[0]] + s[1..] && '`' !in s[1..];
      if s[0] == '`' then rest else [s[0]] + rest
  }

  lemma {:induction false} WithoutBackticksAppend(a: string, b: string)
    ensures WithoutBackticks(a + b) == WithoutBackticks(a) + WithoutBackticks(b)
    decreases |a|
  {
    if |a| > 0 {
      assert (a + b)[1..] == a[1..] + b;
      WithoutBackticksAppend(a[1..], b);
    } else {
      assert a + b == b;
    }
  }

  /** Quoting a backtick-free mention adds nothing once backticks are dropped. */
  lemma QuotedDropsBackticks(m: string, x: string)
    requires '`' !in m
    ensures WithoutBackticks("`" + m + "`" + x) == m + WithoutBackticks(x)
  {
    assert "`" + m + "`" + x == "`" + (m + ("`" + x));
    WithoutBackticksAppend("`", m + ("`" + x));
    WithoutBackticksAppend(m, "`" + x);
    WithoutBackticksAppend("`", x);
  }

  /** The mention at the start of `s` holds no backtick. */
  lemma MentionHasNoBacktick(s: string)
    requires StartsMention(s)
    ensures '`' !in s[..1 + Run(s[1..])]
  {
    var e := 1 + Run(s[1..]);
    var m := s[..e];
    assert forall k :: 1 <= k < e ==> m[k] == s[1..][k - 1];
  }

  /** Escaping only inserts backticks: deleting all backticks from the escaped
      title and from the title gives the same text. */
  lemma {:induction false} EscapeOnlyAddsBackticks(s: string, mayStart: bool)
    ensures WithoutBackticks(EscapeFrom(s, mayStart)) == WithoutBackticks(s)
    decreases |s|, 1
  {
    if |s| > 0 {
      if mayStart && StartsMention(s) {
        QuotedMentionStep(s);
      } else {
        PlainStep(s, mayStart);
      }
    }
  }

  /** The step of EscapeOnlyAddsBackticks for a title that starts with a mention. */
  lemma {:induction false} QuotedMentionStep(s: string)
    requires StartsMention(s)
    ensures WithoutBackticks(EscapeFrom(s, true)) == WithoutBackticks(s)
    decreases |s|, 0
  {
    var e := 1 + Run(s[1..]);
    var m := s[..e];
    var x := EscapeFrom(s[e..], false);
    assert EscapeFrom(s, true) == "`" + m + "`" + x;
    MentionHasNoBacktick(s);
    EscapeOnlyAddsBackticks(s[e..], false);
    QuotedDropsBackticks(m, x);
    WithoutBackticksSplit(s, e);
  }

  lemma WithoutBackticksSplit(s: string, e: nat)
    requires e <= |s|
    ensures WithoutBackticks(s) == WithoutBackticks(s[..e]) + WithoutBackticks(s[e..])
  {
    assert s == s[..e] + s[e..];
    WithoutBackticksAppend(s[..e], s[e..]);
  }

  /** The step of EscapeOnlyAddsBackticks for a character copied as it is. */
  lemma {:induction false} PlainStep(s: string, mayStart: bool)
    requires |s| > 0 && !(mayStart && StartsMention(s))
    ensures WithoutBackticks(EscapeFrom(s, mayStart)) == WithoutBackticks(s)
    decreases |s|, 0
  {
    var x := EscapeFrom(s[1..], IsBoundary(s[0]));
    assert EscapeFrom(s, mayStart) == [s[0]] + x;
    EscapeOnlyAddsBackticks(s[1..], IsBoundary(s[0]));
    WithoutBackticksAppend([s[0]], x);
    assert s == [s[0]] + s[1..];
    WithoutBackticksAppend([s[0]], s[1..]);
  }

  /** A title without '@' is left as it is. */
  lemma {:induction false} NoAtUnchanged(s: string, mayStart: bool)
    requires '@' !in s
    ensures EscapeFrom(s, mayStart) == s
    decreases |s|
  {
    if |s| > 0 {
      assert '@' !in s[1..];
      NoAtUnchanged(s[1..], IsBoundary(s[0]));
      assert s == [s[0]] + s[1..];
    }
  }

  /** Text without '@' passes through unchanged, and whether a mention may
      start right after it depends only on its last character. */
  lemma {:induction false} PlainPrefix(p: string, x: string, mayStart: bool)
    requires |p| > 0 && '@' !in p
    ensures EscapeFrom(p + x, mayStart) == p + EscapeFrom(x, IsBoundary(p[|p| - 1]))
    decreases |p|
  {
    var s := p + x;
    assert s[0] == p[0];
    if |p| == 1 {
      assert s[1..] == x;
    } else {
      assert s[1..] == p[1..] + x;
      assert '@' !in p[1..];
      PlainPrefix(p[1..], x, IsBoundary(p[0]));
      assert p == [p[0]] + p[1..];
    }
  }

  /** The example of the changelog tests: a mention after a space is quoted. */
  lemma MentionAfterSpaceIsQuoted()
    ensures Escape("Bug 1 for @Value") == "Bug 1 for `@Value`"
  {
    var p, m := "Bug 1 for ", "@Value";
    ValueMentionIsQuoted();
    PlainPrefix(p, m, true);
    ExampleSplits();
  }

  lemma ExampleSplits()
    ensures "Bug 1 for " + "@Value" == "Bug 1 for @Value"
    ensures "Bug 1 for " + "`@Value`" == "Bug 1 for `@Value`"
  {
  }

  lemma ValueMentionIsQuoted()
    ensures EscapeFrom("@Value", true) == "`@Value`"
  {
    var m := "@Value";
    assert Run("Value") == 5 by {
      assert "Value"[1..] == "alue" && "alue"[1..] == "lue" && "lue"[1..] == "ue" && "ue"[1..] == "e";
      assert "e"[1..] == "";
    }
    assert m[1..] == "Value";
    assert m[..6] == m && m[6..] == "";
  }

  /** A mention right after a word character is not a mention. */
  lemma MentionAfterWordCharIsKept()
    ensures Escape("a@b") == "a@b"
  {
    var s := "a@b";
    assert s[1..] == "@b" && s[1..][1..] == "b";
  }

  // ---------------------------------------------------------------------
  // Idempotence
  // ---------------------------------------------------------------------

  /** Escaping keeps the leading `[\w-]` run: a mention never starts inside one. */
  lemma {:induction false} EscapeKeepsRun(t: string, mayStart: bool)
    ensures Run(EscapeFrom(t, mayStart)) == Run(t)
    decreases |t|
  {
    if |t| > 0 && !(mayStart && StartsMention(t)) {
      var u := EscapeFrom(t, mayStart);
      assert u[1..] == EscapeFrom(t[1..], IsBoundary(t[0]));
      EscapeKeepsRun(t[1..], IsBoundary(t[0]));
    }
  }

  ghost predicate AllMentionChars(r: string) {
    forall k :: 0 <= k < |r| ==> IsMentionChar(r[k])
  }

  /** A `[\w-]` run closed by a backtick passes through unchanged. */
  lemma {:induction false} RunPassesThrough(r: string, x: string, mayStart: bool)
    requires AllMentionChars(r)
    ensures EscapeFrom(r + "`" + x, mayStart) == r + "`" + EscapeFrom(x, false)
    decreases |r|
  {
    var s := r + "`" + x;
    if |r| == 0 {
      assert s == "`" + x;
      assert s[1..] == x;
    } else {
      assert s[0] == r[0];
      assert s[1..] == r[1..] + "`" + x;
      assert AllMentionChars(r[1..]);
      RunPassesThrough(r[1..], x, IsBoundary(r[0]));
      assert r + "`" + EscapeFrom(x, false) == [r[0]] + (r[1..] + "`" + EscapeFrom(x, false));
    }
  }

  /** Escaping is idempotent: an escaped title is not escaped again, so
      "Bug for `@Value`" is kept as it is. */
  lemma {:induction false} EscapeIdempotent(t: string, mayStart: bool)
    ensures EscapeFrom(EscapeFrom(t, mayStart), mayStart) == EscapeFrom(t, mayStart)
    decreases |t|, 1
  {
    if |t| > 0 {
      if mayStart && StartsMention(t) {
        QuotedMentionIdempotent(t);
      } else {
        PlainIdempotent(t, mayStart);
      }
    }
  }

  /** The step of EscapeIdempotent for a title that starts with a mention: the
      quoted mention passes through the second escaping unchanged. */
  lemma {:induction false} QuotedMentionIdempotent(t: string)
    requires StartsMention(t)
    ensures EscapeFrom(EscapeFrom(t, true), true) == EscapeFrom(t, true)
    decreases |t|, 0
  {
    var e := 1 + Run(t[1..]);
    var r := t[1..e];
    var x := EscapeFrom(t[e..], false);
    var u := "`" + t[..e] + "`" + x;
    assert EscapeFrom(t, true) == u;
    EscapeIdempotent(t[e..], false);
    assert AllMentionChars(r) by {
      assert forall k :: 0 <= k < |r| ==> r[k] == t[1..][k];
    }
    assert t[..e] == "@" + r;
    assert u == "`" + ("@" + (r + "`" + x));
    assert u[1..] == "@" + (r + "`" + x);
    assert u[1..][1..] == r + "`" + x;
    RunPassesThrough(r, x, true);
  }

  /** The step of EscapeIdempotent for a character copied as it is. */
  lemma {:induction false} PlainIdempotent(t: string, mayStart: bool)
    requires |t| > 0 && !(mayStart && StartsMention(t))
    ensures EscapeFrom(EscapeFrom(t, mayStart), mayStart) == EscapeFrom(t, mayStart)
    decreases |t|, 0
  {
    var f := IsBoundary(t[0]);
    var x := EscapeFrom(t[1..], f);
    var u := [t[0]] + x;
    assert EscapeFrom(t, mayStart) == u;
    EscapeIdempotent(t[1..], f);
    EscapeKeepsRun(t[1..], f);
    assert u[0] == t[0] && u[1..] == x;
  }

  /** The title-level statement: escaping an escaped title changes nothing. */
  lemma EscapeTwiceIsEscapeOnce(title: string)
    ensures Escape(Escape(title)) == Escape(title)
  {
    EscapeIdempotent(title, true);
  }

  /** The second example of the changelog tests: an already quoted mention is kept. */
  lemma QuotedMentionIsKept()
    ensures Escape("Bug 1 for `@Value`") == "Bug 1 for `@Value`"
  {
    MentionAfterSpaceIsQuoted();
    EscapeTwiceIsEscapeOnce("Bug 1 for @Value");
  }
}
