/**
 * Character classes and string helpers of the JVM and the Kotlin standard library that the
 * core relies on: line terminators (what `.` in a regular expression refuses), `\s`,
 * `Char.isWhitespace`, `trim`, `joinToString` and `equals(ignoreCase = true)`.
 */
module Strings {

  /** Java's line terminators: `.` in a regular expression matches none of them. */
  predicate IsLineTerminator(c: char) {
    c == '\n' || c == '\r' || c == '\U{0085}' || c == '\U{2028}' || c == '\U{2029}'
  }

  predicate NoLineTerminator(s: string) {
    forall i :: 0 <= i < |s| ==> !IsLineTerminator(s[i])
  }

  /** `\s` of java.util.regex (without UNICODE_CHARACTER_CLASS): `[ \t\n\x0B\f\r]`. */
  predicate IsRegexSpace(c: char) {
    c == ' ' || c == '\t' || c == '\n' || c == '\U{000B}' || c == '\U{000C}' || c == '\r'
  }

  /** Kotlin's `Char.isWhitespace()` on the JVM: `Character.isWhitespace(c) || Character.isSpaceChar(c)`. */
  predicate IsWhitespace(c: char) {
    || c == '\t' || c == '\n' || c == '\U{000B}' || c == '\U{000C}' || c == '\r'
    || ('\U{001C}' <= c <= '\U{001F}') || c == ' ' || c == '\U{00A0}' || c == '\U{1680}'
    || ('\U{2000}' <= c <= '\U{200A}') || c == '\U{2028}' || c == '\U{2029}' || c == '\U{202F}'
    || c == '\U{205F}' || c == '\U{3000}'
  }

  lemma RegexSpaceIsWhitespace(c: char)
    requires IsRegexSpace(c)
    ensures IsWhitespace(c)
  {
  }

  predicate AllWhitespace(s: string) {
    forall i :: 0 <= i < |s| ==> IsWhitespace(s[i])
  }

  /** Number of leading whitespace characters. */
  function LeadingWhitespace(s: string): (k: nat)
    ensures k <= |s|
    ensures AllWhitespace(s[..k])
    ensures k == |s| || !IsWhitespace(s[k])
  {
    if s == [] || !IsWhitespace(s[0]) then 0
    else
      var k := 1 + LeadingWhitespace(s[1..]);
      assert s[..k] == [s[0]] + s[1..][..k - 1];
      k
  }

  /** Number of trailing whitespace characters. */
  function TrailingWhitespace(s: string): (k: nat)
    ensures k <= |s|
    ensures AllWhitespace(s[|s| - k..])
    ensures k == |s| || !IsWhitespace(s[|s| - k - 1])
  {
    if s == [] || !IsWhitespace(s[|s| - 1]) then 0
    else
      var k := 1 + TrailingWhitespace(s[..|s| - 1]);
      assert s[|s| - k..] == s[..|s| - 1][|s| - k..] + [s[|s| - 1]];
      k
  }

  /** Kotlin's `CharSequence.trim()`: drops whitespace at both ends and keeps the middle. */
  function Trim(s: string): (r: string)
    ensures LeadingWhitespace(s) + |r| <= |s|
    ensures r == s[LeadingWhitespace(s)..LeadingWhitespace(s) + |r|]
    ensures AllWhitespace(s[LeadingWhitespace(s) + |r|..])
    ensures r == [] || (!IsWhitespace(r[0]) && !IsWhitespace(r[|r| - 1]))
  {
    var a := LeadingWhitespace(s);
    var rest := s[a..];
    var k := TrailingWhitespace(rest);
    var b := |s| - k;
    assert s[b..] == rest[|rest| - k..];
    assert a < b ==> s[a..b][0] == s[a] && s[a..b][b - a - 1] == rest[|rest| - k - 1];
    s[a..b]
  }

  /** Whitespace around a text that already begins and ends with a non-whitespace character is all `trim` removes. */
  lemma TrimPadded(pre: string, r: string, post: string)
    requires AllWhitespace(pre) && AllWhitespace(post)
    requires r == [] || (!IsWhitespace(r[0]) && !IsWhitespace(r[|r| - 1]))
    ensures Trim(pre + r + post) == r
  {
    if r == [] {
      TrimAllWhitespace(pre, post);
    } else {
      TrimPaddedNonEmpty(pre, r, post);
    }
  }

  lemma TrimAllWhitespace(pre: string, post: string)
    requires AllWhitespace(pre) && AllWhitespace(post)
    ensures Trim(pre + [] + post) == []
  {
    var s := pre + [] + post;
    forall i | 0 <= i < |s| ensures IsWhitespace(s[i]) {
      if i < |pre| { assert s[i] == pre[i]; } else { assert s[i] == post[i - |pre|]; }
    }
    assert LeadingWhitespace(s) == |s|;
  }

  /** The leading whitespace of `s` is exactly its first `k` characters when `s[k]` is not whitespace. */
  lemma LeadingWhitespaceExact(s: string, k: nat)
    requires k < |s| && AllWhitespace(s[..k]) && !IsWhitespace(s[k])
    ensures LeadingWhitespace(s) == k
  {
    var j := LeadingWhitespace(s);
    forall i | 0 <= i < k ensures IsWhitespace(s[i]) {
      assert s[i] == s[..k][i];
    }
    forall i | 0 <= i < j ensures IsWhitespace(s[i]) {
      assert s[i] == s[..j][i];
    }
  }

  lemma TrimPaddedNonEmpty(pre: string, r: string, post: string)
    requires AllWhitespace(pre) && AllWhitespace(post)
    requires r != [] && !IsWhitespace(r[0]) && !IsWhitespace(r[|r| - 1])
    ensures Trim(pre + r + post) == r
  {
    var s := pre + r + post;
    assert s[..|pre|] == pre;
    assert s[|pre|] == r[0];
    LeadingWhitespaceExact(s, |pre|);
    var t := Trim(s);
    var e := |pre| + |t|;
    forall i | e <= i < |s| ensures IsWhitespace(s[i]) {
      assert s[i] == s[e..][i - e];
    }
    forall i | |pre| + |r| <= i < |s| ensures IsWhitespace(s[i]) {
      assert s[i] == post[i - |pre| - |r|];
    }
    assert s[|pre| + |r| - 1] == r[|r| - 1];
    assert t != [] ==> t[|t| - 1] == s[e - 1];
    assert s[|pre|..|pre| + |r|] == r;
  }

  lemma Associative(a: string, b: string, c: string)
    ensures a + b + c == a + (b + c)
  {
  }

  lemma Associative4(a: string, b: string, c: string, d: string)
    ensures a + b + c + d == a + (b + (c + d))
  {
  }

  /** The concatenation of `parts`, in order. */
  function Concat(parts: seq<string>): string {
    if parts == [] then "" else parts[0] + Concat(parts[1..])
  }

  lemma ConcatAppend(a: seq<string>, b: seq<string>)
    ensures Concat(a + b) == Concat(a) + Concat(b)
  {
    if a != [] {
      assert (a + b)[0] == a[0] && (a + b)[1..] == a[1..] + b;
      ConcatAppend(a[1..], b);
    } else {
      assert a + b == b;
    }
  }

  lemma ConcatSnoc(parts: seq<string>, i: nat)
    requires i < |parts|
    ensures Concat(parts[..i + 1]) == Concat(parts[..i]) + parts[i]
  {
    ConcatAppend(parts[..i], [parts[i]]);
    assert parts[..i + 1] == parts[..i] + [parts[i]];
    assert [parts[i]][1..] == [];
  }

  /** Kotlin's `joinToString(separator)`. */
  function JoinToString(items: seq<string>, separator: string): string {
    if items == [] then ""
    else if |items| == 1 then items[0]
    else items[0] + separator + JoinToString(items[1..], separator)
  }

  /** Upper-case mapping of `Character.toUpperCase`, written out for the ASCII letters and the
      two non-ASCII letters whose upper case is an ASCII letter (dotless i, long s). */
  function UpperCase(c: char): char {
    if 'a' <= c <= 'z' then (c as int - 32) as char
    else if c == '\U{0131}' then 'I'
    else if c == '\U{017F}' then 'S'
    else c
  }

  /** Lower-case mapping of `Character.toLowerCase`, written out for the ASCII letters and the
      two non-ASCII letters whose lower case is an ASCII letter (dotted capital I, Kelvin sign). */
  function LowerCase(c: char): char {
    if 'A' <= c <= 'Z' then (c as int + 32) as char
    else if c == '\U{0130}' then 'i'
    else if c == '\U{212A}' then 'k'
    else c
  }

  /** The per-character test of `String.equals(other, ignoreCase = true)`. */
  predicate CharEqualsIgnoreCase(a: char, b: char) {
    a == b || UpperCase(a) == UpperCase(b) || LowerCase(UpperCase(a)) == LowerCase(UpperCase(b))
  }

  /** `a.equals(b, ignoreCase = true)`: same length and pairwise equal ignoring case. */
  predicate EqualsIgnoreCase(a: string, b: string) {
    |a| == |b| && forall i :: 0 <= i < |a| ==> CharEqualsIgnoreCase(a[i], b[i])
  }

  /** `s` is made of the capital ASCII letters only, as the name of an enum constant is. */
  predicate CapitalLetters(s: string) {
    forall i :: 0 <= i < |s| ==> 'A' <= s[i] <= 'Z'
  }

  /** A character equals at most one capital ASCII letter ignoring case. */
  lemma CharIgnoreCaseUnique(a: char, b: char, x: char)
    requires 'A' <= a <= 'Z' && 'A' <= b <= 'Z'
    requires CharEqualsIgnoreCase(a, x) && CharEqualsIgnoreCase(b, x)
    ensures a == b
  {
    assert UpperCase(a) == a && UpperCase(b) == b;
  }

  /** A text equals at most one name made of capital letters ignoring case. */
  lemma EqualsIgnoreCaseUnique(a: string, b: string, s: string)
    requires CapitalLetters(a) && CapitalLetters(b)
    requires EqualsIgnoreCase(a, s) && EqualsIgnoreCase(b, s)
    ensures a == b
  {
    forall i | 0 <= i < |a| ensures a[i] == b[i] {
      CharIgnoreCaseUnique(a[i], b[i], s[i]);
    }
  }

  /** ASCII lower case, Kotlin's `lowercase()` on the strings the model applies it to. */
  function ToLowerCase(s: string): (r: string)
    ensures |r| == |s| && forall i :: 0 <= i < |s| ==> r[i] == LowerCase(s[i])
  {
    seq(|s|, i requires 0 <= i < |s| => LowerCase(s[i]))
  }

  /** A name made of capital letters equals its lower-case spelling ignoring case. */
  lemma EqualsIgnoreCaseLower(a: string)
    requires CapitalLetters(a)
    ensures EqualsIgnoreCase(a, ToLowerCase(a))
  {
    var l := ToLowerCase(a);
    forall i | 0 <= i < |a| ensures CharEqualsIgnoreCase(a[i], l[i]) {
      assert UpperCase(l[i]) == a[i];
    }
  }

  /** `s` holds no `c`. */
  predicate Lacks(s: string, c: char) {
    forall k :: 0 <= k < |s| ==> s[k] != c
  }

  lemma LacksAppend(a: string, b: string, c: char)
    requires Lacks(a, c) && Lacks(b, c)
    ensures Lacks(a + b, c)
  {
    assert forall k :: |a| <= k < |a + b| ==> (a + b)[k] == b[k - |a|];
  }

  /** `split(c)`: the pieces between the occurrences of `c`, empty ones included, so there is
      always one piece more than there are separators. */
  function Split(s: string, c: char): (r: seq<string>)
    ensures |r| >= 1
    ensures forall i :: 0 <= i < |r| ==> Lacks(r[i], c)
    ensures JoinToString(r, [c]) == s
    decreases |s|
  {
    if s == [] then [""]
    else
      var rest := Split(s[1..], c);
      assert s == [s[0]] + s[1..];
      if s[0] == c then
        assert JoinToString([""] + rest, [c]) == "" + [c] + JoinToString(rest, [c]) by {
          assert ([""] + rest)[1..] == rest;
        }
        [""] + rest
      else
        var r := [[s[0]] + rest[0]] + rest[1..];
        assert r[1..] == rest[1..];
        assert JoinToString(r, [c]) == [s[0]] + JoinToString(rest, [c]) by {
          if |rest| > 1 {
            Associative([s[0]], rest[0], [c] + JoinToString(rest[1..], [c]));
          }
        }
        r
  }

  /** `take(n).joinToString(c)` of the pieces of `s` is the text before the `n`-th `c`, or all of
      `s` when it has fewer. */
  lemma {:induction false} JoinTake(parts: seq<string>, n: nat, c: char)
    requires 1 <= n <= |parts|
    ensures var t := JoinToString(parts[..n], [c]);
      && |t| <= |JoinToString(parts, [c])| && JoinToString(parts, [c])[..|t|] == t
      && (n < |parts| ==> |t| < |JoinToString(parts, [c])| && JoinToString(parts, [c])[|t|] == c)
    decreases n
  {
    var all := JoinToString(parts, [c]);
    if n == 1 {
      assert parts[..1] == [parts[0]];
      if |parts| > 1 {
        assert all == parts[0] + [c] + JoinToString(parts[1..], [c]);
      }
    } else {
      var tail := parts[1..];
      JoinTake(tail, n - 1, c);
      assert parts[..n][1..] == tail[..n - 1];
      var t := JoinToString(tail[..n - 1], [c]);
      assert JoinToString(parts[..n], [c]) == parts[0] + [c] + t;
      assert all == parts[0] + [c] + JoinToString(tail, [c]);
      Associative(parts[0], [c], t);
      Associative(parts[0], [c], JoinToString(tail, [c]));
    }
  }

  /** A join of more than one piece: the first piece, the separator, then the join of the rest. */
  lemma JoinCons(parts: seq<string>, separator: string)
    requires |parts| >= 2
    ensures JoinToString(parts, separator) == parts[0] + separator + JoinToString(parts[1..], separator)
  {
  }

  /** Pieces without `c` are determined by their join with `c`. */
  lemma {:induction false} JoinInjective(p: seq<string>, q: seq<string>, c: char)
    requires |p| >= 1 && |q| >= 1
    requires forall i :: 0 <= i < |p| ==> Lacks(p[i], c)
    requires forall i :: 0 <= i < |q| ==> Lacks(q[i], c)
    requires JoinToString(p, [c]) == JoinToString(q, [c])
    ensures p == q
    decreases |p|
  {
    var s := JoinToString(p, [c]);
    JoinFirst(p, c);
    JoinFirst(q, c);
    if |p[0]| == |q[0]| {
      assert p[0] == s[..|p[0]|] == q[0];
      if |p| > 1 && |q| > 1 {
        assert JoinToString(p[1..], [c]) == s[|p[0]| + 1..] == JoinToString(q[1..], [c]);
        JoinInjective(p[1..], q[1..], c);
        assert p == [p[0]] + p[1..] && q == [q[0]] + q[1..];
      }
    }
  }

  /** The join starts with the first piece, followed by `c` and the join of the rest when there is
      a rest. */
  lemma JoinFirst(p: seq<string>, c: char)
    requires |p| >= 1
    ensures var s := JoinToString(p, [c]);
      && |p[0]| <= |s| && s[..|p[0]|] == p[0]
      && (|p| == 1 ==> s == p[0])
      && (|p| > 1 ==> |p[0]| < |s| && s[|p[0]|] == c && s[|p[0]| + 1..] == JoinToString(p[1..], [c]))
  {
    if |p| > 1 {
      JoinCons(p, [c]);
    }
  }

  /** `split` undoes `joinToString` on pieces that do not hold the separator. */
  lemma SplitJoin(parts: seq<string>, c: char)
    requires |parts| >= 1
    requires forall i :: 0 <= i < |parts| ==> Lacks(parts[i], c)
    ensures Split(JoinToString(parts, [c]), c) == parts
  {
    JoinInjective(Split(JoinToString(parts, [c]), c), parts, c);
  }

  /** Joining two non-empty lists of pieces is joining each and putting the separator between. */
  lemma {:induction false} JoinAppend(a: seq<string>, b: seq<string>, separator: string)
    requires |a| >= 1 && |b| >= 1
    ensures JoinToString(a + b, separator) == JoinToString(a, separator) + separator + JoinToString(b, separator)
    decreases |a|
  {
    if |a| == 1 {
      assert (a + b)[0] == a[0] && (a + b)[1..] == b;
    } else {
      JoinAppend(a[1..], b, separator);
      assert (a + b)[0] == a[0] && (a + b)[1..] == a[1..] + b;
      Associative4(a[0], separator, JoinToString(a[1..], separator), separator + JoinToString(b, separator));
      Associative(JoinToString(a[1..], separator), separator, JoinToString(b, separator));
      Associative(a[0] + separator, JoinToString(a[1..], separator), separator + JoinToString(b, separator));
      Associative(a[0] + separator + JoinToString(a[1..], separator), separator, JoinToString(b, separator));
    }
  }

  /** Each line followed by a line break: `appendLine` once per line. */
  function Lines(lines: seq<string>): (r: string)
  {
    if lines == [] then "" else lines[0] + "\n" + Lines(lines[1..])
  }

  /** Lines are their join with line breaks, and an empty last line. */
  lemma {:induction false} LinesJoin(lines: seq<string>)
    ensures Lines(lines) == JoinToString(lines + [""], "\n")
    decreases |lines|
  {
    if lines == [] {
      assert [] + [""] == [""];
    } else {
      LinesJoin(lines[1..]);
      assert (lines + [""])[0] == lines[0] && (lines + [""])[1..] == lines[1..] + [""];
      JoinCons(lines + [""], "\n");
    }
  }

  /** Appending one more line. */
  lemma {:induction false} LinesSnoc(lines: seq<string>, line: string)
    ensures Lines(lines + [line]) == Lines(lines) + line + "\n"
    decreases |lines|
  {
    if lines == [] {
      assert [] + [line] == [line];
      assert [line][1..] == [];
    } else {
      LinesSnoc(lines[1..], line);
      assert (lines + [line])[0] == lines[0] && (lines + [line])[1..] == lines[1..] + [line];
      Associative4(lines[0], "\n", Lines(lines[1..]), line + "\n");
      Associative(Lines(lines[1..]), line, "\n");
      Associative(lines[0] + "\n", Lines(lines[1..]), line);
      Associative(lines[0] + "\n" + Lines(lines[1..]), line, "\n");
      assert lines[0] + "\n" + Lines(lines[1..]) == Lines(lines);
    }
  }

  /** Lines of two lists of lines, one after the other. */
  lemma {:induction false} LinesAppend(a: seq<string>, b: seq<string>)
    ensures Lines(a + b) == Lines(a) + Lines(b)
    decreases |a|
  {
    if a == [] {
      assert a + b == b;
    } else {
      LinesAppend(a[1..], b);
      assert (a + b)[0] == a[0] && (a + b)[1..] == a[1..] + b;
      Associative4(a[0], "\n", Lines(a[1..]), Lines(b));
      Associative(a[0], "\n", Lines(a[1..]));
    }
  }

  /** `s.startsWith(prefix)`. */
  predicate StartsWith(s: string, prefix: string) {
    |prefix| <= |s| && s[..|prefix|] == prefix
  }

  /** `part` occurs in `s` at position `i`. */
  predicate OccursAt(s: string, part: string, i: int) {
    0 <= i <= |s| - |part| && s[i..i + |part|] == part
  }

  /** `s.contains(part)`: `part` occurs in `s` at some position. */
  predicate Contains(s: string, part: string) {
    exists i :: 0 <= i <= |s| && OccursAt(s, part, i)
  }

  /**
   * `a.compareTo(b) <= 0` for `String`: lexicographic by character, a proper prefix first. Java
   * compares UTF-16 code units, which agree with characters on the ASCII texts compared here.
   */
  predicate NotAfterText(a: string, b: string) {
    a == [] || (b != [] && (a[0] < b[0] || (a[0] == b[0] && NotAfterText(a[1..], b[1..]))))
  }

  /** `String.compareTo` is a total order. */
  lemma {:induction false} NotAfterTextIsTotalOrder(a: string, b: string, c: string)
    ensures NotAfterText(a, a)
    ensures NotAfterText(a, b) && NotAfterText(b, a) ==> a == b
    ensures NotAfterText(a, b) && NotAfterText(b, c) ==> NotAfterText(a, c)
    ensures NotAfterText(a, b) || NotAfterText(b, a)
  {
    if a != [] && b != [] {
      NotAfterTextIsTotalOrder(a[1..], b[1..], if c != [] then c[1..] else b[1..]);
      assert a == [a[0]] + a[1..] && b == [b[0]] + b[1..];
    } else if a != [] {
      NotAfterTextIsTotalOrder(a[1..], a[1..], a[1..]);
    }
  }
}
