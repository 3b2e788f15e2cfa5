/**
 * Generating a suppression file from the JUnit-style report of a dependency-check scan: one new
 * entry per testcase of every failing suite, plus the entries of the previous suppression file
 * that still suppress a vulnerability the scan reports as skipped, narrowed to those.
 */
module GenerateSuppressionFile {
  import opened Wrappers
  import opened Xml
  import opened IsoDateTime
  import opened Sequences
  import opened Suppression
  import opened SuppressionFile
  import UpdateSuppressionFile

  // ---------------------------------------------------------------------------------------------
  // `String.toInt()`

  const MinInt: int := -0x8000_0000
  const MaxInt: int := 0x7fff_ffff

  /**
   * `String.toInt()` (`Integer.parseInt`): an optional sign, then at least one digit, and a value
   * that fits in 32 bits; `None` where Kotlin throws `NumberFormatException`.
   */
  function ToInt(s: string): (r: Option<int>)
    ensures r.Some? ==> MinInt <= r.value <= MaxInt
    ensures r.Some? ==> |s| > 0 && (AllDigits(s) || ((s[0] == '-' || s[0] == '+') && |s| > 1 && AllDigits(s[1..])))
  {
    if s == [] then None
    else if s[0] == '-' || s[0] == '+' then
      if |s| == 1 || !AllDigits(s[1..]) then None
      else
        var v: int := if s[0] == '-' then -(DigitsValue(s[1..]) as int) else DigitsValue(s[1..]) as int;
        if MinInt <= v <= MaxInt then Some(v) else None
    else if !AllDigits(s) then None
    else if DigitsValue(s) <= MaxInt then Some(DigitsValue(s))
    else None
  }

  /** The decimal text of an integer, with a minus sign when it is negative. */
  function IntText(n: int): (r: string)
    ensures r != []
  {
    if n < 0 then "-" + Decimal(-n) else Decimal(n)
  }

  /** Reading the decimal text of an integer gives it back exactly when it fits in 32 bits. */
  lemma ToIntOfIntText(n: int)
    ensures ToInt(IntText(n)) == (if MinInt <= n <= MaxInt then Some(n) else None)
  {
    if n < 0 {
      assert ("-" + Decimal(-n))[1..] == Decimal(-n);
    }
  }

  /** `attributes[key]?.value?.toInt() ?: 0`: no attribute counts as zero, a value that is not
      an integer makes the Gradle task fail (`None`). */
  function CountOf(n: Node, key: string): (r: Option<int>)
    ensures Attribute(n, key).None? ==> r == Some(0)
  {
    match Attribute(n, key)
    case None => Some(0)
    case Some(v) => ToInt(v)
  }

  /** The node's `key` count is a positive integer. */
  predicate Counted(n: Node, key: string) {
    CountOf(n, key).Some? && CountOf(n, key).value > 0
  }

  /**
   * `filter { (it.attributes[key]?.value?.toInt() ?: 0) > 0 }` over the children of the
   * top-level nodes of the report, consumed in full: `None` when any of them has a count that
   * is not an integer.
   */
  function CountedSuites(ns: seq<Node>, key: string): (r: Option<seq<Node>>)
    ensures r.None? <==> exists i :: 0 <= i < |ns| && CountOf(ns[i], key).None?
    ensures r.Some? ==> IsSubsequence(r.value, ns)
    ensures r.Some? ==> forall i :: 0 <= i < |r.value| ==> Counted(r.value[i], key)
    ensures r.Some? ==> forall i :: 0 <= i < |ns| ==> (Counted(ns[i], key) ==> ns[i] in r.value)
  {
    if ns == [] then Some([])
    else
      var rest := CountedSuites(ns[1..], key);
      assert ns == [ns[0]] + ns[1..];
      assert forall i :: 0 < i < |ns| ==> ns[i] == ns[1..][i - 1];
      if CountOf(ns[0], key).None? then None
      else if rest.None? then None
      else if Counted(ns[0], key) then
        SubsequenceCons(ns[0], rest.value, ns[1..]);
        Some([ns[0]] + rest.value)
      else
        SubsequenceSkip(ns[0], rest.value, ns[1..]);
        rest
  }

  // ---------------------------------------------------------------------------------------------
  // New entries

  const TodoNote: string := "TODO enter reason why this can be suppressed or otherwise fix it!\n"
  const NvdLink: string := "see details on http://web.nvd.nist.gov/view/vuln/detail?vulnId="

  /** The note of a new entry: the `message` of the testcase's first `skipped` child, otherwise a
      placeholder pointing at the vulnerability's NVD page. */
  function Note(testcase: Node, vulnerability: string): (r: string)
    ensures var skipped := FirstNamed(ChildNodes(testcase), "skipped");
      r == if skipped.Some? && Attribute(skipped.value, "message").Some?
           then Attribute(skipped.value, "message").value
           else TodoNote + NvdLink + vulnerability
  {
    match FirstNamed(ChildNodes(testcase), "skipped")
    case Some(skipped) => Attribute(skipped, "message").GetOr(TodoNote + NvdLink + vulnerability)
    case None => TodoNote + NvdLink + vulnerability
  }

  /** The entry for one testcase that names a vulnerability in its `classname`. */
  function NewEntryOf(testcase: Node, cutoff: Option<ZonedTime>): (r: Option<SuppressionEntry>)
    ensures r.Some? <==> Attribute(testcase, "classname").Some?
    ensures r.Some? ==>
      var vulnerability := Attribute(testcase, "classname").value;
      && r.value.packageUrl == Attribute(testcase, "name").GetOr("unknown")
      && r.value.vulnerabilities == [Vulnerability(VulnerabilityNameType, vulnerability)]
      && r.value.notes == Some(Note(testcase, vulnerability))
      && r.value.suppressUntil == cutoff
      && !r.value.packageUrlPattern
  {
    match Attribute(testcase, "classname")
    case None => None
    case Some(vulnerability) =>
      Some(SuppressionEntry(
        Attribute(testcase, "name").GetOr("unknown"),
        [Vulnerability(VulnerabilityNameType, vulnerability)],
        Some(Note(testcase, vulnerability)),
        cutoff,
        false))
  }

  /** The testcases with a `classname`, in order. */
  function WithClassname(ns: seq<Node>): (r: seq<Node>)
    ensures IsSubsequence(r, ns)
    ensures forall i :: 0 <= i < |r| ==> Attribute(r[i], "classname").Some?
    ensures forall i :: 0 <= i < |ns| ==> (Attribute(ns[i], "classname").Some? ==> ns[i] in r)
  {
    if ns == [] then []
    else
      var rest := WithClassname(ns[1..]);
      assert ns == [ns[0]] + ns[1..];
      assert forall i :: 0 < i < |ns| ==> ns[i] == ns[1..][i - 1];
      if Attribute(ns[0], "classname").Some? then
        SubsequenceCons(ns[0], rest, ns[1..]);
        [ns[0]] + rest
      else
        SubsequenceSkip(ns[0], rest, ns[1..]);
        rest
  }

  /** `mapNotNull` of `NewEntryOf` over the testcases: one entry per testcase with a
      `classname`, in order. */
  function NewEntries(testcases: seq<Node>, cutoff: Option<ZonedTime>): (r: seq<SuppressionEntry>)
    ensures |r| == |WithClassname(testcases)|
    ensures forall i :: 0 <= i < |r| ==>
              NewEntryOf(WithClassname(testcases)[i], cutoff) == Some(r[i])
  {
    if testcases == [] then []
    else
      var rest := NewEntries(testcases[1..], cutoff);
      match NewEntryOf(testcases[0], cutoff)
      case None => rest
      case Some(e) => [e] + rest
  }

  /** Every new entry suppresses exactly one vulnerability by name until the cutoff, and takes its
      package URL literally. */
  lemma NewEntriesShape(testcases: seq<Node>, cutoff: Option<ZonedTime>)
    ensures forall e :: e in NewEntries(testcases, cutoff) ==>
              && |e.vulnerabilities| == 1 && e.vulnerabilities[0].kind == VulnerabilityNameType
              && e.suppressUntil == cutoff && !e.packageUrlPattern && e.notes.Some?
  {
    var r := NewEntries(testcases, cutoff);
    forall e | e in r
      ensures |e.vulnerabilities| == 1 && e.vulnerabilities[0].kind == VulnerabilityNameType
      ensures e.suppressUntil == cutoff && !e.packageUrlPattern && e.notes.Some?
    {
      var i :| 0 <= i < |r| && r[i] == e;
      assert NewEntryOf(WithClassname(testcases)[i], cutoff) == Some(e);
    }
  }

  // ---------------------------------------------------------------------------------------------
  // Carrying entries forward

  /** The `classname`s of the testcases, in order (`mapNotNull { it.attributes["classname"]?.value }`). */
  function Classnames(ns: seq<Node>): (r: seq<string>)
    ensures forall i :: 0 <= i < |ns| && Attribute(ns[i], "classname").Some? ==>
              Attribute(ns[i], "classname").value in r
    ensures forall j :: 0 <= j < |r| ==> exists i :: 0 <= i < |ns| && Attribute(ns[i], "classname") == Some(r[j])
  {
    if ns == [] then []
    else
      var rest := Classnames(ns[1..]);
      assert forall i :: 0 < i < |ns| ==> ns[i] == ns[1..][i - 1];
      match Attribute(ns[0], "classname")
      case None => rest
      case Some(c) =>
        assert forall j :: 0 < j < |rest| + 1 ==> ([c] + rest)[j] == rest[j - 1];
        [c] + rest
  }

  /** The vulnerabilities the scan reports as skipped: the classnames of the testcases of the
      suites with a positive `skipped` count; `None` when a count is not an integer. */
  function SkippedVulnerabilities(report: seq<Node>): (r: Option<seq<string>>)
    ensures r.None? <==> CountedSuites(AllChildren(report), "skipped").None?
  {
    match CountedSuites(AllChildren(report), "skipped")
    case None => None
    case Some(suites) => Some(Classnames(AllChildren(suites)))
  }

  /** One of the entry's vulnerabilities is still skipped. */
  predicate StillSkipped(e: SuppressionEntry, skipped: seq<string>) {
    exists i :: 0 <= i < |e.vulnerabilities| && e.vulnerabilities[i].name in skipped
  }

  /** `vulnerabilities.filter { it.name in skippedVulnerabilities }`. */
  function Narrowed(vs: seq<Vulnerability>, skipped: seq<string>): (r: seq<Vulnerability>)
    ensures IsSubsequence(r, vs)
    ensures forall i :: 0 <= i < |r| ==> r[i].name in skipped
    ensures forall i :: 0 <= i < |vs| ==> (vs[i].name in skipped ==> vs[i] in r)
  {
    if vs == [] then []
    else
      var rest := Narrowed(vs[1..], skipped);
      assert vs == [vs[0]] + vs[1..];
      assert forall i :: 0 < i < |vs| ==> vs[i] == vs[1..][i - 1];
      if vs[0].name in skipped then
        SubsequenceCons(vs[0], rest, vs[1..]);
        [vs[0]] + rest
      else
        SubsequenceSkip(vs[0], rest, vs[1..]);
        rest
  }

  /** Something is left after narrowing exactly when one of the vulnerabilities is skipped. */
  lemma NarrowedNonEmpty(vs: seq<Vulnerability>, skipped: seq<string>)
    ensures Narrowed(vs, skipped) != [] <==> exists i :: 0 <= i < |vs| && vs[i].name in skipped
  {
    var r := Narrowed(vs, skipped);
    if i :| 0 <= i < |vs| && vs[i].name in skipped {
      assert vs[i] in r;
    }
    if r != [] {
      SubsequenceElements(r, vs);
      assert r[0] in vs;
    }
  }

  /** The entries to consider carrying: those with a vulnerability that is still skipped. */
  function StillSkippedEntries(entries: seq<SuppressionEntry>, skipped: seq<string>): (r: seq<SuppressionEntry>)
    ensures IsSubsequence(r, entries)
    ensures forall i :: 0 <= i < |r| ==> StillSkipped(r[i], skipped)
    ensures forall i :: 0 <= i < |entries| ==> (StillSkipped(entries[i], skipped) ==> entries[i] in r)
  {
    if entries == [] then []
    else
      var rest := StillSkippedEntries(entries[1..], skipped);
      assert entries == [entries[0]] + entries[1..];
      assert forall i :: 0 < i < |entries| ==> entries[i] == entries[1..][i - 1];
      if StillSkipped(entries[0], skipped) then
        SubsequenceCons(entries[0], rest, entries[1..]);
        [entries[0]] + rest
      else
        SubsequenceSkip(entries[0], rest, entries[1..]);
        rest
  }

  /**
   * One original entry carried forward: its vulnerabilities narrowed to the skipped ones and its
   * expiry re-stamped with the cutoff; `None` when nothing is left, which cannot happen for an
   * entry that is still skipped.
   */
  function Carry(e: SuppressionEntry, skipped: seq<string>, cutoff: Option<ZonedTime>): (r: Option<SuppressionEntry>)
    ensures r.Some? <==> StillSkipped(e, skipped)
    ensures r.Some? ==>
      && r.value.packageUrl == e.packageUrl && r.value.notes == e.notes
      && r.value.packageUrlPattern == e.packageUrlPattern
      && r.value.vulnerabilities == Narrowed(e.vulnerabilities, skipped) && r.value.vulnerabilities != []
      && r.value.suppressUntil == UpdateSuppressionFile.Restamp(e.suppressUntil, cutoff)
  {
    var suppressed := Narrowed(e.vulnerabilities, skipped);
    NarrowedNonEmpty(e.vulnerabilities, skipped);
    if suppressed != [] then
      Some(e.(vulnerabilities := suppressed,
              suppressUntil := UpdateSuppressionFile.Restamp(e.suppressUntil, cutoff)))
    else None
  }

  /** `mapNotNull` of `Carry`. */
  function CarryAll(entries: seq<SuppressionEntry>, skipped: seq<string>, cutoff: Option<ZonedTime>): (r: seq<SuppressionEntry>)
    ensures |r| <= |entries|
  {
    if entries == [] then []
    else
      var rest := CarryAll(entries[1..], skipped, cutoff);
      match Carry(entries[0], skipped, cutoff)
      case None => rest
      case Some(e) => [e] + rest
  }

  /** Over entries that are all still skipped, carrying drops none of them. */
  lemma {:induction false} CarryAllKeepsEvery(entries: seq<SuppressionEntry>, skipped: seq<string>, cutoff: Option<ZonedTime>)
    requires forall i :: 0 <= i < |entries| ==> StillSkipped(entries[i], skipped)
    ensures |CarryAll(entries, skipped, cutoff)| == |entries|
    ensures forall i :: 0 <= i < |entries| ==>
              Carry(entries[i], skipped, cutoff) == Some(CarryAll(entries, skipped, cutoff)[i])
    decreases |entries|
  {
    if entries != [] {
      assert forall i :: 0 < i < |entries| ==> entries[i] == entries[1..][i - 1];
      CarryAllKeepsEvery(entries[1..], skipped, cutoff);
    }
  }

  /** The carried-forward entries: `filter` by `StillSkipped`, then `mapNotNull` of `Carry`. */
  function CarriedEntries(entries: seq<SuppressionEntry>, skipped: seq<string>, cutoff: Option<ZonedTime>): (r: seq<SuppressionEntry>)
    ensures |r| == |StillSkippedEntries(entries, skipped)|
    ensures forall i :: 0 <= i < |r| ==>
              Carry(StillSkippedEntries(entries, skipped)[i], skipped, cutoff) == Some(r[i])
  {
    CarryAllKeepsEvery(StillSkippedEntries(entries, skipped), skipped, cutoff);
    CarryAll(StillSkippedEntries(entries, skipped), skipped, cutoff)
  }

  /** Every carried entry still suppresses something, and only vulnerabilities that are skipped. */
  lemma CarriedEntriesShape(entries: seq<SuppressionEntry>, skipped: seq<string>, cutoff: Option<ZonedTime>)
    ensures forall e :: e in CarriedEntries(entries, skipped, cutoff) ==>
              && e.vulnerabilities != []
              && forall k :: 0 <= k < |e.vulnerabilities| ==> e.vulnerabilities[k].name in skipped
  {
    var r := CarriedEntries(entries, skipped, cutoff);
    var f := StillSkippedEntries(entries, skipped);
    forall e | e in r
      ensures e.vulnerabilities != []
      ensures forall k :: 0 <= k < |e.vulnerabilities| ==> e.vulnerabilities[k].name in skipped
    {
      var i :| 0 <= i < |r| && r[i] == e;
      assert Carry(f[i], skipped, cutoff) == Some(e);
    }
  }

  // ---------------------------------------------------------------------------------------------
  // The Gradle task

  /**
   * The entries `generateSuppressionFile` writes, before sorting: the carried-forward entries
   * followed by the new ones, without removing duplicates. `report` and `original` are the
   * top-level nodes of the report and of the previous suppression file (`None` when there is
   * none); the result is `None` when the Gradle task fails on a count that is not an integer or an
   * expiry it cannot read.
   */
  function GeneratedEntries(report: seq<Node>, original: Option<seq<Node>>, cutoff: Option<ZonedTime>)
    : (r: Option<seq<SuppressionEntry>>)
    ensures r.None? <==>
      || CountedSuites(AllChildren(report), "failures").None?
      || (original.Some? && (SkippedVulnerabilities(report).None? || ParseFile(original.value).None?))
    ensures r.Some? && original.None? ==>
      r.value == NewEntries(AllChildren(CountedSuites(AllChildren(report), "failures").value), cutoff)
    ensures r.Some? && original.Some? ==>
      var carried := CarriedEntries(ParseFile(original.value).value, SkippedVulnerabilities(report).value, cutoff);
      var added := NewEntries(AllChildren(CountedSuites(AllChildren(report), "failures").value), cutoff);
      |r.value| == |carried| + |added| && r.value[..|carried|] == carried && r.value[|carried|..] == added
  {
    match CountedSuites(AllChildren(report), "failures")
    case None => None
    case Some(failing) =>
      var added := NewEntries(AllChildren(failing), cutoff);
      match original
      case None => Some(added)
      case Some(document) =>
        match SkippedVulnerabilities(report)
        case None => None
        case Some(skipped) =>
          match ParseFile(document)
          case None => None
          case Some(entries) =>
            var carried := CarriedEntries(entries, skipped, cutoff);
            assert (carried + added)[..|carried|] == carried && (carried + added)[|carried|..] == added;
            Some(carried + added)
  }

  /** `generateSuppressionFile`: the text written to the suppression file, or `None` when the
      task fails before writing. */
  function GenerateSuppression(report: seq<Node>, original: Option<seq<Node>>, cutoff: Option<ZonedTime>, zone: Offset)
    : (r: Option<string>)
    ensures r.Some? <==> GeneratedEntries(report, original, cutoff).Some?
    ensures r.Some? ==> r.value == FileText(GeneratedEntries(report, original, cutoff).value, zone)
  {
    match GeneratedEntries(report, original, cutoff)
    case None => None
    case Some(entries) => Some(FileText(entries, zone))
  }

  /** Without a previous suppression file, every entry written is a new one: it suppresses one
      vulnerability by name until the cutoff. */
  lemma GeneratedWithoutOriginal(report: seq<Node>, cutoff: Option<ZonedTime>)
    requires GeneratedEntries(report, None, cutoff).Some?
    ensures forall e :: e in GeneratedEntries(report, None, cutoff).value ==>
              && |e.vulnerabilities| == 1 && e.vulnerabilities[0].kind == VulnerabilityNameType
              && e.suppressUntil == cutoff && !e.packageUrlPattern
  {
    NewEntriesShape(AllChildren(CountedSuites(AllChildren(report), "failures").value), cutoff);
  }

  /** The file written is the rendering of the tree of its entries, sorted by expiry, and that
      tree reads back as those entries, each as `Reread` says, when every entry can be written. */
  lemma GeneratedFileReadsBack(report: seq<Node>, original: Option<seq<Node>>, cutoff: Option<ZonedTime>,
                               zone: Offset, entries: seq<SuppressionEntry>)
    requires GeneratedEntries(report, original, cutoff) == Some(entries)
    requires forall e :: e in entries ==> Writable(e, zone)
    ensures GenerateSuppression(report, original, cutoff, zone)
            == Some(Declaration + "\n" + Render(FileNode(entries, zone)) + "\n")
    ensures ParseFile([FileNode(entries, zone)]) == Some(Rereads(SortByUntil(entries), zone))
  {
    FileTextRenders(entries, zone);
    ParseWrittenFile(entries, zone);
  }
}
