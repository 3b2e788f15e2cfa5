/**
 * The regular expressions of the license policy: `kotlin.text.Regex` objects, the quoting of
 * literal text by `Regex.escape`, and the two patterns the plugin builds itself, whose languages
 * are given concretely. Patterns supplied by a build script keep an uninterpreted language.
 */
module Regexes {
  import opened Wrappers
  import opened Strings

  /**
   * A compiled `kotlin.text.Regex`: its pattern text (also what `toString()` gives) and
   * `matches(input)`, whether the whole input matches. `Regex` does not override `equals`, so
   * two regexes are the same only when they are the same object.
   */
  class Regex {
    const pattern: string
    const matches: string -> bool

    constructor (pattern: string, matches: string -> bool)
      ensures this.pattern == pattern && this.matches == matches
    {
      this.pattern := pattern;
      this.matches := matches;
    }
  }

  /** `regexes.any { it.matches(s) }`. */
  predicate AnyMatches(regexes: seq<Regex>, s: string) {
    exists i :: 0 <= i < |regexes| && regexes[i].matches(s)
  }

  // ---------------------------------------------------------------------------------------------
  // Quoting

  /** `\Q`, which starts a quoted section of a pattern. */
  const OpenQuote: string := "\\Q"
  /** `\E`, which ends one. */
  const CloseQuote: string := "\\E"
  /** `\\E`: an escaped backslash and a letter `E`, which match the text `\E`. */
  const EscapedE: string := "\\\\E"

  /** `\E` starts at `k` in `p`. */
  predicate CloseAt(p: string, k: int) {
    0 <= k && k + 1 < |p| && p[k] == '\\' && p[k + 1] == 'E'
  }

  /** Position of the first `\E` of `p` at or after `from`, or `|p|` when there is none. */
  function QuoteEnd(p: string, from: nat): (k: nat)
    requires from <= |p|
    ensures from <= k <= |p|
    ensures k < |p| ==> CloseAt(p, k)
    ensures forall j :: from <= j < k ==> !CloseAt(p, j)
    decreases |p| - from
  {
    if from == |p| then |p|
    else if CloseAt(p, from) then from
    else QuoteEnd(p, from + 1)
  }

  /** The body of `Pattern.quote(s)` after its opening `\Q`: the text up to each `\E` of `s`,
      found from left to right, then `\E`, `\\E` and `\Q` in place of that `\E`; finally the
      rest and a closing `\E`. */
  function QuoteBody(s: string): (r: string)
    decreases |s|
  {
    var i := QuoteEnd(s, 0);
    if i == |s| then s + CloseQuote
    else s[..i] + CloseQuote + EscapedE + OpenQuote + QuoteBody(s[i + 2..])
  }

  /** `Regex.escape(literal)`, i.e. `Pattern.quote`: a pattern that matches exactly `literal`. */
  function Quote(s: string): string {
    OpenQuote + QuoteBody(s)
  }

  /**
   * The text a pattern made of quoted sections `\Q…\E`, escaped backslashes `\\` and letters
   * matches, read the way `java.util.regex.Pattern` reads them: a quoted section runs to the
   * next `\E` or to the end of the pattern. `None` for any other pattern.
   */
  function Unquote(p: string): (r: Option<string>)
    decreases |p|
  {
    if p == [] then Some([])
    else if |p| >= 2 && p[0] == '\\' && p[1] == 'Q' then
      var k := QuoteEnd(p, 2);
      if k == |p| then Some(p[2..])
      else
        match Unquote(p[k + 2..])
        case None => None
        case Some(rest) => Some(p[2..k] + rest)
    else if |p| >= 2 && p[0] == '\\' && p[1] == '\\' then
      match Unquote(p[2..])
      case None => None
      case Some(rest) => Some("\\" + rest)
    else if 'A' <= p[0] <= 'Z' || 'a' <= p[0] <= 'z' then
      match Unquote(p[1..])
      case None => None
      case Some(rest) => Some([p[0]] + rest)
    else None
  }

  /** Quoting is correct: the quoted pattern matches exactly the text that was quoted. */
  lemma {:induction false} UnquoteQuote(s: string)
    ensures Unquote(Quote(s)) == Some(s)
    decreases |s|
  {
    var i := QuoteEnd(s, 0);
    QuoteEndPrefix(s, i, 0);
    if i == |s| {
      assert s[..i] == s;
      assert Quote(s) == OpenQuote + (s + CloseQuote + []);
      UnquoteSection(s, []);
      assert s + [] == s;
    } else {
      var rest := s[i + 2..];
      UnquoteQuote(rest);
      UnquoteEscapedE(rest);
      QuoteSplit(s);
      UnquoteSection(s[..i], EscapedE + Quote(rest));
      SplitAtClose(s, i);
    }
  }

  /** The text around its first `\E`. */
  lemma SplitAtClose(s: string, i: nat)
    requires CloseAt(s, i)
    ensures s[..i] + (CloseQuote + s[i + 2..]) == s
  {
  }

  /** The quoting of a text with a `\E`, regrouped: its part before the first one, `\E`, then
      `\\E` and the quoting of the rest. */
  lemma QuoteSplit(s: string)
    requires QuoteEnd(s, 0) < |s|
    ensures var i := QuoteEnd(s, 0);
      Quote(s) == OpenQuote + (s[..i] + CloseQuote + (EscapedE + Quote(s[i + 2..])))
  {
    var i := QuoteEnd(s, 0);
    var body := QuoteBody(s[i + 2..]);
    assert QuoteBody(s) == s[..i] + CloseQuote + EscapedE + OpenQuote + body;
    Associative4(s[..i] + CloseQuote, EscapedE, OpenQuote, body);
  }

  /** Searching from the second character of `s` is searching `s[1..]`, shifted by one. */
  lemma QuoteEndShift(s: string, from: nat)
    requires 1 <= from <= |s|
    ensures QuoteEnd(s, from) == QuoteEnd(s[1..], from - 1) + 1
    decreases |s| - from
  {
    if from < |s| && !CloseAt(s, from) {
      assert CloseAt(s[1..], from - 1) == CloseAt(s, from);
      QuoteEndShift(s, from + 1);
    }
  }

  /** The search stops at the first `\E`. */
  lemma QuoteEndFirst(p: string, from: nat, k: nat)
    requires from <= k && CloseAt(p, k)
    requires forall j :: from <= j < k ==> !CloseAt(p, j)
    ensures QuoteEnd(p, from) == k
    decreases k - from
  {
    if from < k {
      QuoteEndFirst(p, from + 1, k);
    }
  }

  /** The prefix of `s` before its first `\E` holds no `\E`. */
  lemma QuoteEndPrefix(s: string, i: nat, from: nat)
    requires i == QuoteEnd(s, 0) && from <= i
    ensures QuoteEnd(s[..i], from) == i
    decreases i - from
  {
    if from < i {
      assert CloseAt(s[..i], from) ==> CloseAt(s, from);
      QuoteEndPrefix(s, i, from + 1);
    }
  }

  /** In `a + "\E" + b`, where `a` holds no `\E`, the first `\E` is the one after `a`: even when
      `a` ends in a backslash, that backslash is followed by another one, not by `E`. */
  lemma QuoteEndAt(a: string, b: string)
    requires QuoteEnd(a, 0) == |a|
    ensures QuoteEnd(a + CloseQuote + b, 0) == |a|
  {
    var p := a + CloseQuote + b;
    forall j | 0 <= j < |a| ensures !CloseAt(p, j) {
      assert p[j] == a[j];
      if j + 1 < |a| {
        assert p[j + 1] == a[j + 1];
        assert !CloseAt(a, j);
      } else {
        assert p[j + 1] == '\\';
      }
    }
    assert p[|a|] == '\\' && p[|a| + 1] == 'E';
    QuoteEndFirst(p, 0, |a|);
  }

  /** Searching `"\Q" + q` from its third character is searching `q`, shifted by two. */
  lemma QuoteEndShiftBy2(q: string)
    ensures QuoteEnd(OpenQuote + q, 2) == QuoteEnd(q, 0) + 2
  {
    var p := OpenQuote + q;
    QuoteEndShift(p, 2);
    assert p[1..] == "Q" + q;
    QuoteEndShift(p[1..], 1);
    assert p[1..][1..] == q;
  }

  /** Reading a pattern that opens a quoted section closed before its end. */
  lemma UnquoteOpen(p: string)
    requires |p| >= 2 && p[0] == '\\' && p[1] == 'Q' && QuoteEnd(p, 2) < |p|
    ensures Unquote(p) == (match Unquote(p[QuoteEnd(p, 2) + 2..])
                           case None => None
                           case Some(rest) => Some(p[2..QuoteEnd(p, 2)] + rest))
  {
  }

  /** Reading a quoted section `\Q a \E` followed by `b`. */
  lemma UnquoteSection(a: string, b: string)
    requires QuoteEnd(a, 0) == |a|
    ensures Unquote(OpenQuote + (a + CloseQuote + b)) ==
      (match Unquote(b) case None => None case Some(rest) => Some(a + rest))
  {
    var q := a + CloseQuote + b;
    var p := OpenQuote + q;
    QuoteEndShiftBy2(q);
    QuoteEndAt(a, b);
    assert QuoteEnd(p, 2) == |a| + 2;
    assert p[2..|a| + 2] == a;
    assert p[|a| + 4..] == b;
    UnquoteOpen(p);
  }

  /** Reading `\\E` followed by the quoting of `s`: a backslash, an `E`, then `s`. */
  lemma UnquoteEscapedE(s: string)
    requires Unquote(Quote(s)) == Some(s)
    ensures Unquote(EscapedE + Quote(s)) == Some(CloseQuote + s)
  {
    var q := Quote(s);
    var e := "E" + q;
    assert q[0] == '\\' && q[1] == 'Q';
    assert e[0] == 'E' && e[1..] == q;
    assert Unquote(e) == Some("E" + s);
    var p := EscapedE + q;
    assert p[0] == '\\' && p[1] == '\\' && p[2..] == e;
    assert Unquote(p) == Some("\\" + ("E" + s));
    assert "\\" + ("E" + s) == CloseQuote + s;
  }

  // ---------------------------------------------------------------------------------------------
  // The plugin's own patterns

  /** The language of `^\Q<name>\E`: exactly `name`. */
  predicate MatchesLiteral(name: string, s: string) {
    s == name
  }

  /** The language of `^\Q<prefix>\E(\.)?.*`: the texts that start with `prefix` and hold no line
      terminator after it (`.` matches none, and the optional dot is one more character `.*`
      would take). */
  predicate MatchesOwned(prefix: string, s: string) {
    |prefix| <= |s| && s[..|prefix|] == prefix && NoLineTerminator(s[|prefix|..])
  }

  /** The pattern of the owned-dependency regex for a prefix. */
  function OwnedPattern(prefix: string): (r: string)
    ensures r == "^" + Quote(prefix) + "(\\.)?.*"
  {
    "^" + Quote(prefix) + "(\\.)?.*"
  }

  /** `Regex("^${Regex.escape(prefix)}(\\.)?.*")`. */
  method OwnedRegex(prefix: string) returns (r: Regex)
    ensures fresh(r)
    ensures r.pattern == OwnedPattern(prefix)
    ensures forall s :: r.matches(s) <==> MatchesOwned(prefix, s)
  {
    r := new Regex(OwnedPattern(prefix), s => MatchesOwned(prefix, s));
  }

  /** `Regex("^${Regex.escape(name)}")`. */
  method LiteralRegex(name: string) returns (r: Regex)
    ensures fresh(r)
    ensures r.pattern == "^" + Quote(name)
    ensures forall s :: r.matches(s) <==> MatchesLiteral(name, s)
  {
    r := new Regex("^" + Quote(name), s => MatchesLiteral(name, s));
  }

  /** The owned language of a prefix holds the prefix itself and everything it continues to,
      up to a line terminator; the empty prefix holds every text without one. */
  lemma MatchesOwnedExtension(prefix: string, rest: string)
    ensures MatchesOwned(prefix, prefix + rest) <==> NoLineTerminator(rest)
  {
    assert (prefix + rest)[..|prefix|] == prefix && (prefix + rest)[|prefix|..] == rest;
  }
}
