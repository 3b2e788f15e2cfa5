/**
 * One entry of an OWASP dependency-check suppression file: the record, the XML tag it is written
 * as, the DOM tree that text denotes, and how a `<suppress>` node is read back into a record.
 */
module Suppression {
  import opened Wrappers
  import opened Strings
  import opened Xml
  import opened Calendar
  import opened IsoDateTime

  /** The kind of a suppressed vulnerability, identified by the element it is written as. */
  datatype VulnerabilityType = VulnerabilityType(nodeName: string)

  /** The children of `<suppress>` in the suppression schema that name a vulnerability. */
  predicate IsVulnerabilityElement(name: string) {
    name == "cve" || name == "vulnerabilityName" || name == "cwe" || name == "cvssBelow"
  }

  /** `VulnerabilityType.VulnerabilityName`. */
  const VulnerabilityNameType: VulnerabilityType := VulnerabilityType("vulnerabilityName")

  datatype Vulnerability = Vulnerability(kind: VulnerabilityType, name: string)

  /** `Vulnerability.from(node)`: an element that names a vulnerability, with its text. */
  function VulnerabilityFrom(n: Node): (r: Option<Vulnerability>)
    ensures r.Some? <==> n.Element? && IsVulnerabilityElement(n.name)
    ensures r.Some? ==> r.value == Vulnerability(VulnerabilityType(n.name), TextContent(n))
  {
    if n.Element? && IsVulnerabilityElement(n.name) then Some(Vulnerability(VulnerabilityType(n.name), TextContent(n)))
    else None
  }

  /** `mapNotNull { Vulnerability.from(it) }`. */
  function VulnerabilitiesOf(ns: seq<Node>): (r: seq<Vulnerability>)
    ensures |r| <= |ns|
  {
    if ns == [] then []
    else
      var rest := VulnerabilitiesOf(ns[1..]);
      match VulnerabilityFrom(ns[0])
      case None => rest
      case Some(v) => [v] + rest
  }

  lemma VulnerabilitiesOfAppend(a: seq<Node>, b: seq<Node>)
    ensures VulnerabilitiesOf(a + b) == VulnerabilitiesOf(a) + VulnerabilitiesOf(b)
  {
    if a != [] {
      assert (a + b)[0] == a[0] && (a + b)[1..] == a[1..] + b;
      VulnerabilitiesOfAppend(a[1..], b);
    } else {
      assert a + b == b;
    }
  }

  datatype SuppressionEntry = SuppressionEntry(
    packageUrl: string,
    vulnerabilities: seq<Vulnerability>,
    notes: Option<string>,
    suppressUntil: Option<ZonedTime>,
    packageUrlPattern: bool)

  /** The constructor with its defaults: no notes, no expiry, and the package URL taken as a regular expression. */
  function NewEntry(packageUrl: string, vulnerabilities: seq<Vulnerability>): (e: SuppressionEntry)
    ensures e.packageUrl == packageUrl && e.vulnerabilities == vulnerabilities
    ensures e.notes.None? && e.suppressUntil.None? && e.packageUrlPattern
  {
    SuppressionEntry(packageUrl, vulnerabilities, None, None, true)
  }

  // ---------------------------------------------------------------------------------------------
  // Notes

  const Indent4: string := "    "
  const Indent8: string := "        "
  const Indent12: string := "            "

  /** Length of the run of `\s` characters at the start of `s`. */
  function SpaceRun(s: string): (k: nat)
    ensures k <= |s|
    ensures forall i :: 0 <= i < k ==> IsRegexSpace(s[i])
    ensures k == |s| || !IsRegexSpace(s[k])
  {
    if s == [] || !IsRegexSpace(s[0]) then 0 else 1 + SpaceRun(s[1..])
  }

  /**
   * `replace(Regex("(\r?\n)\\s*")) { it.groups[1].value + 12 spaces }`: every line break ("\n"
   * or "\r\n"), together with the run of `\s` after it, becomes that line break followed by
   * twelve spaces. Matches are searched left to right and each takes as much as it can, so
   * blank lines disappear.
   */
  function Reindent(s: string): (r: string)
    ensures s != [] ==> r != [] && r[0] == s[0]
    decreases |s|
  {
    if s == [] then []
    else if s[0] == '\n' then "\n" + Indent12 + Reindent(s[1 + SpaceRun(s[1..])..])
    else if s[0] == '\r' && |s| > 1 && s[1] == '\n' then "\r\n" + Indent12 + Reindent(s[2 + SpaceRun(s[2..])..])
    else [s[0]] + Reindent(s[1..])
  }

  /** Twelve spaces and then a character that is not `\s` form a run of exactly twelve. */
  lemma SpaceRunIndent12(u: string)
    requires u == [] || !IsRegexSpace(u[0])
    ensures SpaceRun(Indent12 + u) == 12
  {
    var s := Indent12 + u;
    var k := SpaceRun(s);
    assert forall i :: 0 <= i < 12 ==> s[i] == ' ';
    assert |s| == 12 || s[12] == u[0];
  }

  /** Re-indenting twice is re-indenting once. */
  lemma {:induction false} ReindentIdempotent(s: string)
    ensures Reindent(Reindent(s)) == Reindent(s)
    decreases |s|
  {
    if s == [] {
    } else if s[0] == '\n' {
      var t := s[1 + SpaceRun(s[1..])..];
      ReindentIdempotent(t);
      ReindentAfterBreak("\n", t);
    } else if s[0] == '\r' && |s| > 1 && s[1] == '\n' {
      var t := s[2 + SpaceRun(s[2..])..];
      ReindentIdempotent(t);
      ReindentAfterBreak("\r\n", t);
    } else {
      var r := Reindent(s);
      ReindentIdempotent(s[1..]);
      assert r == [s[0]] + Reindent(s[1..]);
      assert r[1..] == Reindent(s[1..]);
      assert |r| > 1 ==> r[1] == s[1];
    }
  }

  /** Re-indenting a line break, twelve spaces and a re-indented text that does not start with
      `\s` re-indents only that text. */
  lemma ReindentAfterBreak(b: string, t: string)
    requires b == "\n" || b == "\r\n"
    requires t == [] || !IsRegexSpace(t[0])
    ensures Reindent(b + Indent12 + Reindent(t)) == b + Indent12 + Reindent(Reindent(t))
  {
    var u := Reindent(t);
    var r := b + Indent12 + u;
    SpaceRunIndent12(u);
    assert r[|b|..] == Indent12 + u;
    assert r[|b| + 12..] == u;
    if b == "\n" {
      assert r[0] == '\n';
      assert Reindent(r) == "\n" + Indent12 + Reindent(u);
    } else {
      assert r[0] == '\r' && r[1] == '\n';
      assert Reindent(r) == "\r\n" + Indent12 + Reindent(u);
    }
  }

  /** Re-indenting keeps the last character when it is not `\s`. */
  lemma {:induction false} ReindentLast(s: string)
    requires s != [] && !IsRegexSpace(s[|s| - 1])
    ensures Reindent(s)[|Reindent(s)| - 1] == s[|s| - 1]
    decreases |s|
  {
    ReindentStep(s);
    if s[0] == '\n' {
      var t := s[1 + SpaceRun(s[1..])..];
      SkipRunKeepsLast(s, 1);
      ReindentLast(t);
      LastOfAppend("\n" + Indent12, Reindent(t));
    } else if s[0] == '\r' && |s| > 1 && s[1] == '\n' {
      var t := s[2 + SpaceRun(s[2..])..];
      SkipRunKeepsLast(s, 2);
      ReindentLast(t);
      LastOfAppend("\r\n" + Indent12, Reindent(t));
    } else if |s| > 1 {
      assert s[1..][|s| - 2] == s[|s| - 1];
      ReindentLast(s[1..]);
      LastOfAppend([s[0]], Reindent(s[1..]));
    }
  }

  /** One step of `Reindent`: a line break with the `\s` run after it, or one character. */
  lemma ReindentStep(s: string)
    requires s != []
    ensures s[0] == '\n' ==> Reindent(s) == "\n" + Indent12 + Reindent(s[1 + SpaceRun(s[1..])..])
    ensures s[0] != '\n' && s[0] == '\r' && |s| > 1 && s[1] == '\n' ==>
      Reindent(s) == "\r\n" + Indent12 + Reindent(s[2 + SpaceRun(s[2..])..])
    ensures s[0] != '\n' && !(s[0] == '\r' && |s| > 1 && s[1] == '\n') ==> Reindent(s) == [s[0]] + Reindent(s[1..])
  {
  }

  /** Skipping a run of `\s` from position `j` leaves a non-empty rest that ends as `s` does. */
  lemma SkipRunKeepsLast(s: string, j: nat)
    requires j < |s| && !IsRegexSpace(s[|s| - 1])
    ensures var t := s[j + SpaceRun(s[j..])..]; t != [] && t[|t| - 1] == s[|s| - 1]
  {
    var u := s[j..];
    assert u[|u| - 1] == s[|s| - 1];
    var k := SpaceRun(u);
    assert k < |u|;
    assert s[j + k..] == u[k..];
  }

  lemma LastOfAppend(p: string, q: string)
    requires q != []
    ensures (p + q)[|p + q| - 1] == q[|q| - 1]
  {
  }

  /** The text of the CDATA section the notes are written into: the notes trimmed and
      re-indented, on a line of their own indented by twelve spaces. */
  function NotesContent(notes: string): string {
    "\n" + Indent12 + Reindent(Trim(notes)) + "\n" + Indent8
  }

  /** Reading the written notes back and writing them again gives the same CDATA text. */
  lemma NotesContentIdempotent(notes: string)
    ensures NotesContent(NotesContent(notes)) == NotesContent(notes)
  {
    var t := Trim(notes);
    ReindentedEnds(t);
    TrimCData(Reindent(t));
    ReindentIdempotent(t);
  }

  /** Re-indenting a trimmed text keeps it trimmed. */
  lemma ReindentedEnds(t: string)
    requires t == [] || (!IsWhitespace(t[0]) && !IsWhitespace(t[|t| - 1]))
    ensures var r := Reindent(t); r == [] || (!IsWhitespace(r[0]) && !IsWhitespace(r[|r| - 1]))
  {
    if t != [] {
      RegexSpaceNotWhitespace(t[|t| - 1]);
      ReindentLast(t);
    }
  }

  /** Trimming the CDATA text of the notes gives back the re-indented notes. */
  lemma TrimCData(r: string)
    requires r == [] || (!IsWhitespace(r[0]) && !IsWhitespace(r[|r| - 1]))
    ensures Trim("\n" + Indent12 + r + "\n" + Indent8) == r
  {
    var pre := "\n" + Indent12;
    var post := "\n" + Indent8;
    assert AllWhitespace(pre) by {
      forall i | 0 <= i < |pre| ensures IsWhitespace(pre[i]) {
        assert pre[i] == '\n' || pre[i] == ' ';
      }
    }
    assert AllWhitespace(post) by {
      forall i | 0 <= i < |post| ensures IsWhitespace(post[i]) {
        assert post[i] == '\n' || post[i] == ' ';
      }
    }
    TrimPadded(pre, r, post);
    Associative(pre + r, "\n", Indent8);
  }

  lemma RegexSpaceNotWhitespace(c: char)
    requires !IsWhitespace(c)
    ensures !IsRegexSpace(c)
  {
  }

  // ---------------------------------------------------------------------------------------------
  // The XML tag, as text

  /** The `until` attribute value: the ISO date of the expiry seen in the desired zone. */
  function UntilText(t: ZonedTime, zone: Offset): string {
    FormatIsoDate(WithZoneSameInstant(t, zone))
  }

  /** The `until` attribute written for an entry, if it has an expiry. */
  function UntilValue(e: SuppressionEntry, zone: Offset): Option<string> {
    if e.suppressUntil.Some? then Some(UntilText(e.suppressUntil.value, zone)) else None
  }

  /** The CDATA text written for an entry's notes, if it has notes. */
  function NotesValue(e: SuppressionEntry): Option<string> {
    if e.notes.Some? then Some(NotesContent(e.notes.value)) else None
  }

  function OpeningLine(until: Option<string>): string {
    if until.Some? then "    <suppress until=\"" + until.value + "\">\n" else "    <suppress>\n"
  }

  function NotesLine(content: Option<string>): string {
    if content.Some? then "        <notes><![CDATA[" + content.value + "]]></notes>\n" else ""
  }

  function PackageUrlLine(e: SuppressionEntry): string {
    if e.packageUrlPattern then "        <packageUrl regex=\"true\">" + e.packageUrl + "</packageUrl>\n"
    else "        <packageUrl>" + e.packageUrl + "</packageUrl>\n"
  }

  function VulnerabilityLine(v: Vulnerability): string {
    "        <" + v.kind.nodeName + ">" + v.name + "</" + v.kind.nodeName + ">\n"
  }

  function VulnerabilityLines(vs: seq<Vulnerability>): string {
    if vs == [] then "" else VulnerabilityLine(vs[0]) + VulnerabilityLines(vs[1..])
  }

  lemma VulnerabilityLinesAppend(a: seq<Vulnerability>, b: seq<Vulnerability>)
    ensures VulnerabilityLines(a + b) == VulnerabilityLines(a) + VulnerabilityLines(b)
  {
    if a != [] {
      assert (a + b)[0] == a[0] && (a + b)[1..] == a[1..] + b;
      VulnerabilityLinesAppend(a[1..], b);
    } else {
      assert a + b == b;
    }
  }

  /** `asXmlTag(zone)`: the `<suppress>` element of the entry, indented by four spaces, one
      line per child, each line ended by a line break. */
  function XmlTag(e: SuppressionEntry, zone: Offset): string {
    TagText(UntilValue(e, zone), NotesValue(e), e)
  }

  /** The text of the tag, given the `until` value and the notes text it is written with. */
  function TagText(until: Option<string>, content: Option<string>, e: SuppressionEntry): string {
    OpeningLine(until) + NotesLine(content) + PackageUrlLine(e) + VulnerabilityLines(e.vulnerabilities) + "    </suppress>\n"
  }

  lemma VulnerabilityLinesSnoc(vs: seq<Vulnerability>, i: nat)
    requires i < |vs|
    ensures VulnerabilityLines(vs[..i + 1]) == VulnerabilityLines(vs[..i]) + VulnerabilityLine(vs[i])
  {
    VulnerabilityLinesAppend(vs[..i], [vs[i]]);
    assert vs[..i + 1] == vs[..i] + [vs[i]];
  }

  /** `asXmlTag`, building the text line by line. */
  method AsXmlTag(e: SuppressionEntry, zone: Offset) returns (text: string)
    ensures text == XmlTag(e, zone)
  {
    if e.suppressUntil.Some? {
      text := "    <suppress until=\"" + UntilText(e.suppressUntil.value, zone) + "\">\n";
    } else {
      text := "    <suppress>\n";
    }
    assert text == OpeningLine(UntilValue(e, zone));
    if e.notes.Some? {
      text := text + ("        <notes><![CDATA[" + NotesContent(e.notes.value) + "]]></notes>\n");
    }
    assert text == OpeningLine(UntilValue(e, zone)) + NotesLine(NotesValue(e));
    if e.packageUrlPattern {
      text := text + ("        <packageUrl regex=\"true\">" + e.packageUrl + "</packageUrl>\n");
    } else {
      text := text + ("        <packageUrl>" + e.packageUrl + "</packageUrl>\n");
    }
    text := AppendVulnerabilityLines(text, e.vulnerabilities);
    text := text + "    </suppress>\n";
  }

  /** The `vulnerabilities.forEach { appendLine(...) }` of `asXmlTag`: one line per vulnerability, in order. */
  method AppendVulnerabilityLines(head: string, vs: seq<Vulnerability>) returns (text: string)
    ensures text == head + VulnerabilityLines(vs)
  {
    text := head;
    var i := 0;
    while i < |vs|
      invariant 0 <= i <= |vs|
      invariant text == head + VulnerabilityLines(vs[..i])
    {
      VulnerabilityLinesSnoc(vs, i);
      Associative(head, VulnerabilityLines(vs[..i]), VulnerabilityLine(vs[i]));
      text := text + VulnerabilityLine(vs[i]);
      i := i + 1;
    }
    assert vs[..i] == vs;
  }

  // ---------------------------------------------------------------------------------------------
  // The XML tag, as a DOM tree

  function UntilAttributes(until: Option<string>): seq<(string, string)> {
    if until.Some? then [("until", until.value)] else []
  }

  function NotesNodes(content: Option<string>): seq<Node> {
    if content.Some? then [Element("notes", [], [CData(content.value)])] else []
  }

  function PackageUrlNode(e: SuppressionEntry): Node {
    Element("packageUrl", if e.packageUrlPattern then [("regex", "true")] else [], TextNodes(e.packageUrl))
  }

  function VulnerabilityNode(v: Vulnerability): Node {
    Element(v.kind.nodeName, [], TextNodes(v.name))
  }

  function VulnerabilityNodes(vs: seq<Vulnerability>): (r: seq<Node>)
    ensures |r| == |vs| && forall i :: 0 <= i < |vs| ==> r[i] == VulnerabilityNode(vs[i])
  {
    if vs == [] then [] else [VulnerabilityNode(vs[0])] + VulnerabilityNodes(vs[1..])
  }

  /** The child elements of `<suppress>`, in the order they are written. */
  function ChildElements(content: Option<string>, e: SuppressionEntry): seq<Node> {
    NotesNodes(content) + [PackageUrlNode(e)] + VulnerabilityNodes(e.vulnerabilities)
  }

  /** Each element on a line of its own, indented by eight spaces: the whitespace before an
      element is a text node of its own. */
  function Indented(ns: seq<Node>): seq<Node> {
    if ns == [] then [] else [Text("\n" + Indent8), ns[0]] + Indented(ns[1..])
  }

  lemma IndentedAppend(a: seq<Node>, b: seq<Node>)
    ensures Indented(a + b) == Indented(a) + Indented(b)
  {
    if a != [] {
      assert (a + b)[0] == a[0] && (a + b)[1..] == a[1..] + b;
      IndentedAppend(a[1..], b);
    } else {
      assert a + b == b;
    }
  }

  /** The `<suppress>` element of `TagText`. */
  function SuppressElement(until: Option<string>, content: Option<string>, e: SuppressionEntry): Node {
    Element("suppress", UntilAttributes(until), Indented(ChildElements(content, e)) + [Text("\n" + Indent4)])
  }

  /** The `<suppress>` element of `XmlTag`. */
  function SuppressNode(e: SuppressionEntry, zone: Offset): Node {
    SuppressElement(UntilValue(e, zone), NotesValue(e), e)
  }

  /** Lines of text, one per element, each indented by eight spaces. */
  function Lines(ns: seq<Node>): string {
    if ns == [] then "" else Indent8 + Render(ns[0]) + "\n" + Lines(ns[1..])
  }

  lemma LinesAppend(a: seq<Node>, b: seq<Node>)
    ensures Lines(a + b) == Lines(a) + Lines(b)
  {
    if a != [] {
      assert (a + b)[0] == a[0] && (a + b)[1..] == a[1..] + b;
      LinesAppend(a[1..], b);
    } else {
      assert a + b == b;
    }
  }

  lemma LinesOne(n: Node)
    ensures Lines([n]) == Indent8 + Render(n) + "\n"
  {
    assert [n][1..] == [];
  }

  lemma {:induction false} IndentedRender(ns: seq<Node>)
    ensures RenderAll(Indented(ns)) + "\n" == "\n" + Lines(ns)
  {
    if ns != [] {
      var head := [Text("\n" + Indent8), ns[0]];
      RenderAllAppend(head, Indented(ns[1..]));
      assert RenderAll(head) == "\n" + Indent8 + Render(ns[0]) by {
        assert head[1..] == [ns[0]];
        RenderAllOne(ns[0]);
      }
      IndentedRender(ns[1..]);
      IndentedStep(Indent8, Render(ns[0]), RenderAll(Indented(ns[1..])), Lines(ns[1..]));
    }
  }

  lemma IndentedStep(indent: string, first: string, rendered: string, lines: string)
    requires rendered + "\n" == "\n" + lines
    ensures "\n" + indent + first + rendered + "\n" == "\n" + (indent + first + "\n" + lines)
  {
    calc {
      "\n" + indent + first + rendered + "\n";
      "\n" + indent + first + (rendered + "\n");
      "\n" + indent + first + ("\n" + lines);
      "\n" + (indent + first + "\n" + lines);
    }
  }

  /** Regrouping a line made of an element's start tag, content and end tag. */
  lemma ElementLine(open: string, x: string, close: string)
    ensures Indent8 + (open + x + close) + "\n" == (Indent8 + open) + x + (close + "\n")
  {
  }

  lemma VulnerabilityTags(name: string)
    ensures Indent8 + OpenTag(name, []) == "        <" + name + ">"
    ensures CloseTag(name) + "\n" == "</" + name + ">\n"
  {
  }

  lemma VulnerabilityLineIsLine(v: Vulnerability)
    ensures VulnerabilityLine(v) == Indent8 + Render(VulnerabilityNode(v)) + "\n"
  {
    var n := v.kind.nodeName;
    VulnerabilityTags(n);
    ElementLine(OpenTag(n, []), v.name, CloseTag(n));
    assert VulnerabilityLine(v) == ("        <" + n + ">") + v.name + ("</" + n + ">\n");
  }

  lemma {:induction false} VulnerabilityLinesAreLines(vs: seq<Vulnerability>)
    ensures VulnerabilityLines(vs) == Lines(VulnerabilityNodes(vs))
  {
    if vs != [] {
      VulnerabilityLineIsLine(vs[0]);
      assert VulnerabilityNodes(vs)[1..] == VulnerabilityNodes(vs[1..]);
      VulnerabilityLinesAreLines(vs[1..]);
    }
  }

  lemma PackageUrlPatternTag()
    ensures Indent8 + OpenTag("packageUrl", [("regex", "true")]) == "        <packageUrl regex=\"true\">"
  {
  }

  lemma PackageUrlPlainTag()
    ensures Indent8 + OpenTag("packageUrl", []) == "        <packageUrl>"
  {
  }

  lemma PackageUrlCloseTag()
    ensures CloseTag("packageUrl") + "\n" == "</packageUrl>\n"
  {
  }

  lemma PackageUrlLineIsLine(e: SuppressionEntry)
    ensures PackageUrlLine(e) == Lines([PackageUrlNode(e)])
  {
    var p := PackageUrlNode(e);
    LinesOne(p);
    ElementLine(OpenTag("packageUrl", p.attributes), e.packageUrl, CloseTag("packageUrl"));
    PackageUrlCloseTag();
    if e.packageUrlPattern {
      PackageUrlPatternTag();
    } else {
      PackageUrlPlainTag();
    }
  }

  /** Regrouping a line made of an element that holds one CDATA section. */
  lemma CDataLine(open: string, start: string, x: string, end: string, close: string)
    ensures Indent8 + (open + (start + x + end) + close) + "\n" == (Indent8 + open + start) + x + (end + close + "\n")
  {
  }

  lemma NotesTags()
    ensures Indent8 + OpenTag("notes", []) + "<![CDATA[" == "        <notes><![CDATA["
    ensures "]]>" + CloseTag("notes") + "\n" == "]]></notes>\n"
  {
  }

  lemma NotesLineIsLine(content: Option<string>)
    ensures NotesLine(content) == Lines(NotesNodes(content))
  {
    if content.Some? {
      var n := NotesNodes(content)[0];
      LinesOne(n);
      RenderAllOne(CData(content.value));
      NotesTags();
      CDataLine(OpenTag("notes", []), "<![CDATA[", content.value, "]]>", CloseTag("notes"));
    }
  }

  lemma BodyLinesAreLines(content: Option<string>, e: SuppressionEntry)
    ensures NotesLine(content) + PackageUrlLine(e) + VulnerabilityLines(e.vulnerabilities) == Lines(ChildElements(content, e))
  {
    var p := PackageUrlNode(e);
    NotesLineIsLine(content);
    PackageUrlLineIsLine(e);
    VulnerabilityLinesAreLines(e.vulnerabilities);
    LinesAppend(NotesNodes(content), [p]);
    LinesAppend(NotesNodes(content) + [p], VulnerabilityNodes(e.vulnerabilities));
  }

  lemma UntilAttributeText(value: string)
    ensures RenderAttributes(UntilAttributes(Some(value))) == " until=\"" + value + "\""
  {
    var a := UntilAttributes(Some(value));
    assert a[1..] == [];
  }

  /** Regrouping a start tag with one attribute whose value is `x`. */
  lemma OpeningShape(indent: string, name: string, before: string, x: string, after: string)
    ensures indent + ("<" + name + (before + x + after) + ">") + "\n" == (indent + "<" + name + before) + x + (after + ">" + "\n")
  {
  }

  lemma SuppressOpenTag(until: Option<string>)
    ensures Indent4 + OpenTag("suppress", UntilAttributes(until)) + "\n" == OpeningLine(until)
  {
    if until.Some? {
      UntilAttributeText(until.value);
      OpeningShape(Indent4, "suppress", " until=\"", until.value, "\"");
      assert Indent4 + "<" + "suppress" + " until=\"" == "    <suppress until=\"";
      assert "\"" + ">" + "\n" == "\">\n";
    }
  }

  lemma SuppressCloseTag()
    ensures Indent4 + CloseTag("suppress") + "\n" == "    </suppress>\n"
  {
  }

  /** The concatenation steps of `TagTextRenders`, on opaque pieces. */
  lemma TagTextShape(opening: string, open: string, notes: string, url: string, vulns: string, body: string, closing: string, close: string)
    requires opening == Indent4 + open + "\n"
    requires body + "\n" == "\n" + (notes + url + vulns)
    requires closing == Indent4 + close + "\n"
    ensures opening + notes + url + vulns + closing == Indent4 + (open + (body + ("\n" + Indent4)) + close) + "\n"
  {
    calc {
      Indent4 + (open + (body + ("\n" + Indent4)) + close) + "\n";
      Indent4 + open + (body + "\n") + (Indent4 + close + "\n");
      Indent4 + open + ("\n" + (notes + url + vulns)) + closing;
      opening + notes + url + vulns + closing;
    }
  }

  /** The tag text is the `<suppress>` element, indented by four spaces and followed by a line break. */
  lemma TagTextRenders(until: Option<string>, content: Option<string>, e: SuppressionEntry)
    ensures TagText(until, content, e) == Indent4 + Render(SuppressElement(until, content, e)) + "\n"
  {
    var body := Indented(ChildElements(content, e));
    RenderAllAppend(body, [Text("\n" + Indent4)]);
    RenderAllOne(Text("\n" + Indent4));
    IndentedRender(ChildElements(content, e));
    BodyLinesAreLines(content, e);
    SuppressOpenTag(until);
    SuppressCloseTag();
    TagTextShape(OpeningLine(until), OpenTag("suppress", UntilAttributes(until)),
      NotesLine(content), PackageUrlLine(e), VulnerabilityLines(e.vulnerabilities), RenderAll(body),
      "    </suppress>\n", CloseTag("suppress"));
  }

  /** The text `asXmlTag` writes is the `<suppress>` element of `SuppressNode`, indented by four
      spaces and followed by a line break. */
  lemma XmlTagRenders(e: SuppressionEntry, zone: Offset)
    ensures XmlTag(e, zone) == Indent4 + Render(SuppressNode(e, zone)) + "\n"
  {
    TagTextRenders(UntilValue(e, zone), NotesValue(e), e);
  }

  // ---------------------------------------------------------------------------------------------
  // Reading a `<suppress>` node

  /** The expiry of a `<suppress>` node: `None` when its `until` attribute cannot be read by
      `parseToZoneDateTime` as written (it throws, and the whole file is rejected), `Some(None)`
      when there is no attribute. */
  function ReadUntil(n: Node): (r: Option<Option<ZonedTime>>)
    ensures r.None? <==> Attribute(n, "until").Some? && ParseToZonedDateTimeAsWritten(Attribute(n, "until").value).None?
    ensures r == Some(None) <==> Attribute(n, "until").None?
    ensures r.Some? && r.value.Some? ==> r.value == ParseToZonedDateTimeAsWritten(Attribute(n, "until").value)
  {
    match Attribute(n, "until")
    case None => Some(None)
    case Some(s) =>
      match ParseToZonedDateTimeAsWritten(s)
      case None => None
      case Some(t) => Some(Some(t))
  }

  /** A node whose expiry names a time of day other than midnight is not read: the plugin's
      parser throws on it, and the whole file is rejected. */
  lemma ReadUntilRejectsTimeOfDay(n: Node, d: Date, h: int, m: int)
    requires ValidDate(d) && -MaxYear <= d.year <= MaxYear && 0 <= h <= 23 && 0 <= m <= 59
    requires h != 0 || m != 0
    requires Attribute(n, "until") == Some(DateHourMinute(d, h, m))
    ensures ReadUntil(n).None?
  {
    AsWrittenRejectsTimeOfDay(d, h, m);
  }

  /** The entry a `<suppress>` node holds, given its expiry: none without a `packageUrl` child. */
  function EntryOf(n: Node, until: Option<ZonedTime>): (r: Option<SuppressionEntry>)
    ensures r.Some? <==> FirstNamed(ChildNodes(n), "packageUrl").Some?
    ensures r.Some? ==> r.value.suppressUntil == until
  {
    match FirstNamed(ChildNodes(n), "packageUrl")
    case None => None
    case Some(p) =>
      var notes := FirstNamed(ChildNodes(n), "notes");
      Some(SuppressionEntry(
        TextContent(p),
        VulnerabilitiesOf(ChildNodes(n)),
        if notes.Some? then Some(TextContent(notes.value)) else None,
        until,
        Attribute(p, "regex") == Some("true")))
  }

  /**
   * One node among the children of `<suppressions>`, read as `parseAsDependencyCheckSuppressionFile`
   * reads it. `None` when its `until` attribute cannot be read; `Some(None)` when it has no
   * `packageUrl` child (the node is skipped); otherwise the entry.
   */
  function ParseSuppression(n: Node): (r: Option<Option<SuppressionEntry>>)
    ensures r.None? <==> ReadUntil(n).None?
    ensures r.Some? ==> r.value == EntryOf(n, ReadUntil(n).value)
  {
    match ReadUntil(n)
    case None => None
    case Some(until) => Some(EntryOf(n, until))
  }

  /** What a parsed entry holds: the package URL is the text of the first `packageUrl` child and
      is a pattern exactly when that child's `regex` attribute is "true"; the vulnerabilities
      are the children that name one, in order; the notes are the text of the first `notes` child. */
  lemma ParsedEntry(n: Node, until: Option<ZonedTime>)
    requires EntryOf(n, until).Some?
    ensures var e := EntryOf(n, until).value;
      var p := FirstNamed(ChildNodes(n), "packageUrl").value;
      var notes := FirstNamed(ChildNodes(n), "notes");
      && e.packageUrl == TextContent(p)
      && (e.packageUrlPattern <==> Attribute(p, "regex") == Some("true"))
      && e.vulnerabilities == VulnerabilitiesOf(ChildNodes(n))
      && (e.notes.Some? <==> notes.Some?)
      && (notes.Some? ==> e.notes.value == TextContent(notes.value))
  {
  }

  /** A `<suppress>` with a `packageUrl` child and nothing else is kept, with no vulnerabilities,
      and without a `regex` attribute it is not a pattern, unlike the constructor's default. */
  lemma ParseKeepsBareEntry(url: string)
    ensures ParseSuppression(Element("suppress", [], [Element("packageUrl", [], [Text(url)])]))
      == Some(Some(SuppressionEntry(url, [], None, None, false)))
    ensures NewEntry(url, []).packageUrlPattern
  {
    var p := Element("packageUrl", [], [Text(url)]);
    assert FirstNamed([p], "packageUrl") == Some(p);
    assert FirstNamed([p], "notes") == None;
    TextContentAllOne(Text(url));
    assert VulnerabilitiesOf([p]) == [] + VulnerabilitiesOf([]);
  }

  /** Text without the markup characters XML would need to escape and without the carriage return
      a parser would normalise; the characters XML 1.0 forbids outright are not excluded. */
  predicate XmlText(s: string) {
    forall i :: 0 <= i < |s| ==> s[i] != '<' && s[i] != '&' && s[i] != '\r'
  }

  /** Text a CDATA section carries unchanged. */
  predicate CDataText(s: string) {
    && (forall i :: 0 <= i < |s| ==> s[i] != '\r')
    && (forall i :: 0 <= i < |s| - 2 ==> !(s[i] == ']' && s[i + 1] == ']' && s[i + 2] == '>'))
  }

  /** Vulnerabilities written as elements the suppression schema knows. */
  predicate KnownKinds(vs: seq<Vulnerability>) {
    forall i :: 0 <= i < |vs| ==> IsVulnerabilityElement(vs[i].kind.nodeName)
  }

  /**
   * The entries whose `XmlTag` text denotes the tree `SuppressNode` with every text node holding
   * exactly the entry's text (nothing to escape, no carriage return to normalise, no `]]>` inside
   * the CDATA section), with an expiry date that java.time can hold. The read-back is proved on
   * that tree; the characters XML 1.0 forbids outright are not excluded, since parsing text into
   * a tree is not part of this model.
   */
  predicate Writable(e: SuppressionEntry, zone: Offset) {
    && XmlText(e.packageUrl)
    && KnownKinds(e.vulnerabilities)
    && (forall i :: 0 <= i < |e.vulnerabilities| ==> XmlText(e.vulnerabilities[i].name))
    && (e.notes.Some? ==> CDataText(e.notes.value))
    && (e.suppressUntil.Some? ==>
          -MaxYear <= LocalDateOf(WithZoneSameInstant(e.suppressUntil.value, zone)).year <= MaxYear)
  }

  /** The expiry read back: midnight of its date in the zone it was written in. */
  function RereadUntil(t: ZonedTime, zone: Offset): ZonedTime {
    TruncatedToDay(WithZoneSameInstant(t, zone))
  }

  /** What reading a written entry gives back: the notes as the CDATA text they were written
      as, and the expiry as midnight of its date in the zone it was written in. */
  function Reread(e: SuppressionEntry, zone: Offset): SuppressionEntry {
    e.(notes := NotesValue(e),
       suppressUntil := if e.suppressUntil.Some? then Some(RereadUntil(e.suppressUntil.value, zone)) else None)
  }

  /** An `until` text written for an expiry reads back as midnight of that date. */
  lemma ReadUntilText(t: ZonedTime, zone: Offset)
    requires -MaxYear <= LocalDateOf(WithZoneSameInstant(t, zone)).year <= MaxYear
    ensures ParseToZonedDateTimeAsWritten(UntilText(t, zone)) == Some(RereadUntil(t, zone))
  {
    ParseFormatIsoDate(WithZoneSameInstant(t, zone));
  }

  lemma ReadUntilOfElement(until: Option<string>, content: Option<string>, e: SuppressionEntry)
    ensures Attribute(SuppressElement(until, content, e), "until") == until
  {
    if until.Some? {
      assert UntilAttributes(until)[0].0 == "until";
    }
  }

  /** The expiry of a written `<suppress>` node reads back as `Reread` says. */
  lemma ReadWrittenUntil(e: SuppressionEntry, zone: Offset)
    requires e.suppressUntil.Some? ==> -MaxYear <= LocalDateOf(WithZoneSameInstant(e.suppressUntil.value, zone)).year <= MaxYear
    ensures ReadUntil(SuppressNode(e, zone)) == Some(Reread(e, zone).suppressUntil)
  {
    ReadUntilOfElement(UntilValue(e, zone), NotesValue(e), e);
    if e.suppressUntil.Some? {
      ReadUntilText(e.suppressUntil.value, zone);
    }
  }

  lemma {:induction false} IndentedNames(vn: seq<Node>, name: string)
    requires name != "#text"
    requires forall i :: 0 <= i < |vn| ==> vn[i].Element? && vn[i].name != name
    ensures forall i :: 0 <= i < |Indented(vn)| ==> NodeName(Indented(vn)[i]) != name
  {
    if vn != [] {
      assert forall i :: 0 <= i < |vn[1..]| ==> vn[1..][i] == vn[i + 1];
      IndentedNames(vn[1..], name);
      var ind := Indented(vn);
      forall i | 0 <= i < |ind| ensures NodeName(ind[i]) != name {
        if i >= 2 {
          assert ind[i] == Indented(vn[1..])[i - 2];
        }
      }
    }
  }

  /** The indented vulnerability elements, and the whitespace after them, hold no element named `name`. */
  lemma NoneNamedAmongVulnerabilities(vs: seq<Vulnerability>, name: string)
    requires KnownKinds(vs) && !IsVulnerabilityElement(name) && name != "#text"
    ensures FirstNamed(Indented(VulnerabilityNodes(vs)) + [Text("\n" + Indent4)], name) == None
  {
    var vn := VulnerabilityNodes(vs);
    IndentedNames(vn, name);
    var tail := Indented(vn) + [Text("\n" + Indent4)];
    forall i | 0 <= i < |tail| ensures NodeName(tail[i]) != name {
      if i < |Indented(vn)| {
        assert tail[i] == Indented(vn)[i];
      }
    }
  }

  /** A vulnerability element the schema knows reads back as the vulnerability it was written for. */
  lemma VulnerabilityOfNode(v: Vulnerability)
    requires IsVulnerabilityElement(v.kind.nodeName)
    ensures VulnerabilityFrom(VulnerabilityNode(v)) == Some(v)
  {
    assert TextContent(VulnerabilityNode(v)) == v.name;
  }

  lemma VulnerabilitiesOfPair(n: Node, v: Vulnerability)
    requires VulnerabilityFrom(n) == Some(v)
    ensures VulnerabilitiesOf([Text("\n" + Indent8), n]) == [v]
  {
    var head := [Text("\n" + Indent8), n];
    assert head[1..] == [n];
    assert [n][1..] == [];
  }

  lemma KnownKindsTail(vs: seq<Vulnerability>)
    requires vs != [] && KnownKinds(vs)
    ensures KnownKinds(vs[1..])
  {
    forall i | 0 <= i < |vs| - 1 ensures IsVulnerabilityElement(vs[1..][i].kind.nodeName) {
      assert vs[1..][i] == vs[i + 1];
    }
  }

  lemma {:induction false} VulnerabilitiesOfIndented(vs: seq<Vulnerability>)
    requires KnownKinds(vs)
    ensures VulnerabilitiesOf(Indented(VulnerabilityNodes(vs))) == vs
  {
    if vs != [] {
      var vn := VulnerabilityNodes(vs);
      var head := [Text("\n" + Indent8), vn[0]];
      assert vn[1..] == VulnerabilityNodes(vs[1..]);
      VulnerabilityOfNode(vs[0]);
      KnownKindsTail(vs);
      calc {
        VulnerabilitiesOf(Indented(vn));
        VulnerabilitiesOf(head + Indented(vn[1..]));
        { VulnerabilitiesOfAppend(head, Indented(vn[1..])); }
        VulnerabilitiesOf(head) + VulnerabilitiesOf(Indented(vn[1..]));
        { VulnerabilitiesOfPair(vn[0], vs[0]); VulnerabilitiesOfIndented(vs[1..]); }
        [vs[0]] + vs[1..];
      }
      assert [vs[0]] + vs[1..] == vs;
    }
  }

  /** Two whitespace-and-element nodes in front of a list: the vulnerabilities and the first node
      of a name are those of the element and the list. */
  lemma PairInFront(n: Node, rest: seq<Node>)
    requires VulnerabilityFrom(n).None?
    ensures VulnerabilitiesOf([Text("\n" + Indent8), n] + rest) == VulnerabilitiesOf(rest)
    ensures forall name :: name != "#text" ==>
      FirstNamed([Text("\n" + Indent8), n] + rest, name) == if NodeName(n) == name then Some(n) else FirstNamed(rest, name)
  {
    var kids := [Text("\n" + Indent8), n] + rest;
    assert kids[1..][1..] == rest;
    assert kids[1..][0] == n;
  }

  /** Which children of a written `<suppress>` element the parser finds. */
  lemma ChildrenOfSuppressElement(content: Option<string>, e: SuppressionEntry)
    requires KnownKinds(e.vulnerabilities)
    ensures var kids := Indented(ChildElements(content, e)) + [Text("\n" + Indent4)];
      && FirstNamed(kids, "packageUrl") == Some(PackageUrlNode(e))
      && FirstNamed(kids, "notes") == (if content.Some? then Some(NotesNodes(content)[0]) else None)
      && VulnerabilitiesOf(kids) == e.vulnerabilities
  {
    var p := PackageUrlNode(e);
    var vn := VulnerabilityNodes(e.vulnerabilities);
    var rest := Indented(vn) + [Text("\n" + Indent4)];
    var tail := [Text("\n" + Indent8), p] + rest;
    IndentedAppend(NotesNodes(content), [p] + vn);
    IndentedAppend([p], vn);
    assert ChildElements(content, e) == NotesNodes(content) + ([p] + vn);
    assert Indented([p]) == [Text("\n" + Indent8), p];
    var kids := Indented(NotesNodes(content)) + tail;
    assert Indented(ChildElements(content, e)) + [Text("\n" + Indent4)] == kids;
    NoneNamedAmongVulnerabilities(e.vulnerabilities, "packageUrl");
    NoneNamedAmongVulnerabilities(e.vulnerabilities, "notes");
    PairInFront(p, rest);
    VulnerabilitiesOfIndented(e.vulnerabilities);
    VulnerabilitiesOfAppend(Indented(vn), [Text("\n" + Indent4)]);
    assert VulnerabilitiesOf([Text("\n" + Indent4)]) == VulnerabilitiesOf([]);
    if content.Some? {
      var nn := NotesNodes(content)[0];
      assert Indented(NotesNodes(content)) == [Text("\n" + Indent8), nn];
      PairInFront(nn, tail);
    } else {
      assert kids == tail;
    }
  }

  /** Reading a written `<suppress>` element, given its expiry, recovers the entry with the notes
      text it was written with. */
  lemma EntryOfSuppressElement(until: Option<string>, content: Option<string>, e: SuppressionEntry, t: Option<ZonedTime>)
    requires KnownKinds(e.vulnerabilities)
    ensures EntryOf(SuppressElement(until, content, e), t) == Some(e.(notes := content, suppressUntil := t))
  {
    ChildrenOfSuppressElement(content, e);
    var p := PackageUrlNode(e);
    assert TextContent(p) == e.packageUrl;
    if content.Some? {
      var nn := NotesNodes(content)[0];
      TextContentAllOne(CData(content.value));
      assert TextContent(nn) == content.value;
    }
    if e.packageUrlPattern {
      assert Attribute(p, "regex") == Some("true");
    } else {
      assert Attribute(p, "regex") == None;
    }
  }

  /** Reading back the tree of a written entry recovers its package URL, pattern flag and
      vulnerabilities; its notes and expiry as `Reread` says. */
  lemma ParseSuppressNode(e: SuppressionEntry, zone: Offset)
    requires Writable(e, zone)
    ensures ParseSuppression(SuppressNode(e, zone)) == Some(Some(Reread(e, zone)))
  {
    ReadWrittenUntil(e, zone);
    EntryOfSuppressElement(UntilValue(e, zone), NotesValue(e), e, Reread(e, zone).suppressUntil);
  }

  /** Notes read back from what was written are written again as the same CDATA text. */
  lemma NotesValueOfReread(e: SuppressionEntry, zone: Offset)
    ensures NotesValue(Reread(e, zone)) == NotesValue(e)
  {
    if e.notes.Some? {
      NotesContentIdempotent(e.notes.value);
    }
  }

  /** An expiry read back from what was written is written again as the same date. */
  lemma UntilValueOfReread(e: SuppressionEntry, zone: Offset)
    ensures UntilValue(Reread(e, zone), zone) == UntilValue(e, zone)
  {
    if e.suppressUntil.Some? {
      var t := WithZoneSameInstant(e.suppressUntil.value, zone);
      var r := TruncatedToDay(t);
      assert WithZoneSameInstant(r, zone) == r;
    }
  }

  /** Writing an entry that was read back from what was written gives the same text again. */
  lemma XmlTagOfReread(e: SuppressionEntry, zone: Offset)
    ensures XmlTag(Reread(e, zone), zone) == XmlTag(e, zone)
  {
    NotesValueOfReread(e, zone);
    UntilValueOfReread(e, zone);
    assert Reread(e, zone).vulnerabilities == e.vulnerabilities;
  }
}
