/**
 * `CheckLicenseTaskJunitReport`: the allowed-licenses file handed to the license checker, and
 * what the Gradle task does with the checker's list of dependencies without an allowed license: an
 * error message per module and a JUnit XML report with one failing test suite per module.
 */
module CheckLicenseReport {
  import opened Wrappers
  import opened Strings
  import opened Sequences

  // ---------------------------------------------------------------------------------------------
  // The allowed-licenses file

  /** The first line of the allowed-licenses file. */
  const AllowedOpenLine: string := "{\"allowedLicenses\":["
  /** Its last line. */
  const AllowedCloseLine: string := "]}"

  /** The entry of one allowed license; the name is written as it is, without escaping. */
  function AllowedEntry(license: string): (r: string)
    ensures |r| == |license| + 22
  {
    "  {\"moduleLicense\":\"" + license + "\"}"
  }

  /** `allowedLicenses.joinToString(",\n", prefix, postfix) { entry }`. */
  function AllowedLicensesJson(licenses: seq<string>): string {
    AllowedOpenLine + "\n" + JoinToString(Map(licenses, AllowedEntry), ",\n") + "\n" + AllowedCloseLine
  }

  /** Every entry but the last followed by a comma. */
  function CommaTerminated(entries: seq<string>): (r: seq<string>)
    ensures |r| == |entries|
    ensures forall i :: 0 <= i < |entries| ==> r[i] == if i + 1 < |entries| then entries[i] + "," else entries[i]
  {
    seq(|entries|, i requires 0 <= i < |entries| => if i + 1 < |entries| then entries[i] + "," else entries[i])
  }

  /** Joining with a comma and a line break is joining the comma-terminated entries with a line
      break. */
  lemma {:induction false} CommaNewlineJoin(entries: seq<string>)
    ensures JoinToString(entries, ",\n") == JoinToString(CommaTerminated(entries), "\n")
    decreases |entries|
  {
    if |entries| == 1 {
      assert CommaTerminated(entries) == entries;
    } else if |entries| > 1 {
      var t := CommaTerminated(entries);
      CommaNewlineJoin(entries[1..]);
      assert t[1..] == CommaTerminated(entries[1..]);
      JoinCons(entries, ",\n");
      JoinCons(t, "\n");
      Associative(entries[0], ",", "\n");
      Associative(entries[0] + ",\n", "", JoinToString(t[1..], "\n"));
      assert entries[0] + ",\n" + JoinToString(t[1..], "\n") == entries[0] + "," + "\n" + JoinToString(t[1..], "\n");
    }
  }

  /** The lines of the allowed-licenses file: the opening line, one line per license (a comma
      after all but the last; one empty line when there is none), the closing line. */
  function AllowedLicensesLines(licenses: seq<string>): (r: seq<string>)
    ensures |r| == (if licenses == [] then 3 else |licenses| + 2)
    ensures r[0] == AllowedOpenLine && r[|r| - 1] == AllowedCloseLine
  {
    [AllowedOpenLine] + (if licenses == [] then [""] else CommaTerminated(Map(licenses, AllowedEntry))) + [AllowedCloseLine]
  }

  /** Read line by line, the allowed-licenses file lists the allowed licenses in order, one per
      line, when no license name holds a line break. */
  lemma AllowedLicensesJsonLines(licenses: seq<string>)
    requires forall i :: 0 <= i < |licenses| ==> Lacks(licenses[i], '\n')
    ensures Split(AllowedLicensesJson(licenses), '\n') == AllowedLicensesLines(licenses)
  {
    var entries := Map(licenses, AllowedEntry);
    var middle := if licenses == [] then [""] else CommaTerminated(entries);
    assert JoinToString(middle, "\n") == JoinToString(entries, ",\n") by {
      CommaNewlineJoin(entries);
    }
    JoinAppend([AllowedOpenLine], middle, "\n");
    JoinAppend([AllowedOpenLine] + middle, [AllowedCloseLine], "\n");
    var lines := [AllowedOpenLine] + middle + [AllowedCloseLine];
    assert JoinToString(lines, "\n") == AllowedLicensesJson(licenses);
    forall i | 0 <= i < |lines| ensures Lacks(lines[i], '\n') {
      if 0 < i < |lines| - 1 && licenses != [] {
        assert lines[i] == middle[i - 1];
        LacksAppend(licenses[i - 1], "\"}", '\n');
        LacksAppend("  {\"moduleLicense\":\"", licenses[i - 1] + "\"}", '\n');
        Associative("  {\"moduleLicense\":\"", licenses[i - 1], "\"}");
        LacksAppend(entries[i - 1], ",", '\n');
      }
    }
    SplitJoin(lines, '\n');
  }

  // ---------------------------------------------------------------------------------------------
  // The failures

  /** An element of `dependenciesWithoutAllowedLicenses`: its `moduleName` and `moduleLicense`,
      each absent or a text. */
  datatype UnallowedDependency = UnallowedDependency(moduleName: Option<string>, moduleLicense: Option<string>)

  /** A nullable text in a string template: `null` when absent. */
  function TemplateText(v: Option<string>): (r: string)
    ensures v.Some? ==> r == v.value
    ensures v.None? ==> r == "null"
  {
    match v
    case None => "null"
    case Some(s) => s
  }

  /** The module of a failure as the Gradle task writes it: the module name, a colon, and the module name
      again. */
  function ModuleKey(d: UnallowedDependency): string {
    TemplateText(d.moduleName) + ":" + TemplateText(d.moduleName)
  }

  /** `(module, license)` for each failure of the checker's result; the list is empty when the
      result has no `dependenciesWithoutAllowedLicenses`. */
  function FailurePairs(failures: Option<seq<UnallowedDependency>>): (r: seq<(string, string)>)
    ensures failures.None? ==> r == []
    ensures failures.Some? ==> |r| == |failures.value|
    ensures failures.Some? ==> forall i :: 0 <= i < |r| ==> r[i] == (ModuleKey(failures.value[i]), TemplateText(failures.value[i].moduleLicense))
  {
    match failures
    case None => []
    case Some(ds) => Map(ds, (d: UnallowedDependency) => (ModuleKey(d), TemplateText(d.moduleLicense)))
  }

  /** The keys of `groupBy(first, second)`, in the order of their first occurrence. */
  function GroupKeys(pairs: seq<(string, string)>): (r: seq<string>)
    ensures Distinct(r)
  {
    if pairs == [] then []
    else
      var init := GroupKeys(pairs[..|pairs| - 1]);
      var key := pairs[|pairs| - 1].0;
      if key in init then init else init + [key]
  }

  /** The keys are the keys of the pairs, and no others. */
  lemma {:induction false} GroupKeysMembers(pairs: seq<(string, string)>)
    ensures forall i :: 0 <= i < |pairs| ==> pairs[i].0 in GroupKeys(pairs)
    ensures forall j :: 0 <= j < |GroupKeys(pairs)| ==> exists i :: 0 <= i < |pairs| && pairs[i].0 == GroupKeys(pairs)[j]
    decreases |pairs|
  {
    if pairs != [] {
      var n := |pairs| - 1;
      GroupKeysMembers(pairs[..n]);
      assert pairs[..n + 1] == pairs;
      GroupKeysSnoc(pairs, n);
      var init := GroupKeys(pairs[..n]);
      var r := GroupKeys(pairs);
      assert forall i :: 0 <= i < n ==> pairs[i] == pairs[..n][i];
      forall j | 0 <= j < |r| ensures exists i :: 0 <= i < |pairs| && pairs[i].0 == r[j] {
        if j < |init| {
          var i :| 0 <= i < n && pairs[..n][i].0 == init[j];
          assert pairs[i].0 == r[j];
        } else {
          assert pairs[n].0 == r[j];
        }
      }
    } else {
      assert GroupKeys(pairs) == [];
    }
  }

  /** The keys of a prefix of the pairs are a prefix of the keys. */
  lemma {:induction false} GroupKeysPrefix(pairs: seq<(string, string)>, m: nat)
    requires m <= |pairs|
    ensures |GroupKeys(pairs[..m])| <= |GroupKeys(pairs)|
    ensures GroupKeys(pairs)[..|GroupKeys(pairs[..m])|] == GroupKeys(pairs[..m])
    decreases |pairs| - m
  {
    if m < |pairs| {
      GroupKeysPrefix(pairs, m + 1);
      GroupKeysSnoc(pairs, m);
    } else {
      assert pairs[..m] == pairs;
    }
  }

  /** The values of the pairs with key `key`, in order: exactly the values paired with `key`. */
  function Group(pairs: seq<(string, string)>, key: string): (r: seq<string>)
    ensures |r| <= |pairs|
    ensures forall v :: v in r <==> exists i :: 0 <= i < |pairs| && pairs[i] == (key, v)
    decreases |pairs|
  {
    if pairs == [] then []
    else
      var init := Group(pairs[..|pairs| - 1], key);
      assert forall i :: 0 <= i < |pairs| - 1 ==> pairs[..|pairs| - 1][i] == pairs[i];
      if pairs[|pairs| - 1].0 == key then init + [pairs[|pairs| - 1].1] else init
  }

  /** One more pair: its key is added when it is new. */
  lemma GroupKeysSnoc(pairs: seq<(string, string)>, i: nat)
    requires i < |pairs|
    ensures GroupKeys(pairs[..i + 1]) ==
      if pairs[i].0 in GroupKeys(pairs[..i]) then GroupKeys(pairs[..i]) else GroupKeys(pairs[..i]) + [pairs[i].0]
  {
    assert pairs[..i + 1][..i] == pairs[..i];
  }

  /** One more pair: its value is added to its key's values. */
  lemma GroupSnoc(pairs: seq<(string, string)>, i: nat, key: string)
    requires i < |pairs|
    ensures Group(pairs[..i + 1], key) == Group(pairs[..i], key) + (if pairs[i].0 == key then [pairs[i].1] else [])
  {
    assert pairs[..i + 1][..i] == pairs[..i];
  }

  /** One more pair, added to the groups of the pairs before it as `GroupBy` adds it. */
  lemma GroupStep(pairs: seq<(string, string)>, i: nat, groups: map<string, seq<string>>)
    requires i < |pairs|
    requires forall k :: k in groups ==> groups[k] == Group(pairs[..i], k)
    requires pairs[i].0 !in groups ==> Group(pairs[..i], pairs[i].0) == []
    ensures var key := pairs[i].0;
      var next := groups[key := (if key in groups then groups[key] else []) + [pairs[i].1]];
      forall k :: k in next ==> next[k] == Group(pairs[..i + 1], k)
  {
    forall k | k in groups || k == pairs[i].0 {
      GroupSnoc(pairs, i, k);
    }
  }

  /** A key that does not occur has no values, and one that does has some. */
  lemma {:induction false} GroupEmpty(pairs: seq<(string, string)>, key: string)
    ensures Group(pairs, key) == [] <==> key !in GroupKeys(pairs)
    decreases |pairs|
  {
    if pairs != [] {
      var n := |pairs| - 1;
      GroupEmpty(pairs[..n], key);
      assert pairs[..n + 1] == pairs;
      GroupKeysSnoc(pairs, n);
      GroupSnoc(pairs, n, key);
    }
  }

  /** `groupBy(first, second)`: each key with its values. */
  function Grouped(pairs: seq<(string, string)>): (r: map<string, seq<string>>)
    ensures forall k :: k in r <==> k in GroupKeys(pairs)
    ensures forall k :: k in r ==> r[k] == Group(pairs, k)
  {
    map k | k in GroupKeys(pairs) :: Group(pairs, k)
  }

  /** The keys come in the order of their first occurrence: before any occurrence of a later key
      there is an occurrence of each earlier one. */
  lemma GroupKeysInOrder(pairs: seq<(string, string)>, a: nat, b: nat, i: nat)
    requires a < b < |GroupKeys(pairs)|
    requires i < |pairs| && pairs[i].0 == GroupKeys(pairs)[b]
    ensures exists h :: 0 <= h < i && pairs[h].0 == GroupKeys(pairs)[a]
  {
    var r := GroupKeys(pairs);
    var prefix := pairs[..i + 1];
    var q := GroupKeys(prefix);
    GroupKeysPrefix(pairs, i + 1);
    GroupKeysMembers(prefix);
    assert prefix[i] == pairs[i];
    var t :| 0 <= t < |q| && q[t] == r[b];
    assert r[t] == r[b];
    assert q[a] == r[a];
    var h :| 0 <= h < |prefix| && prefix[h].0 == q[a];
    assert pairs[h] == prefix[h];
  }

  /**
   * The grouping as the Gradle task computes it: one pass over the pairs, a value appended to its key's
   * list, a key seen for the first time appended to the keys.
   */
  method GroupBy(pairs: seq<(string, string)>) returns (keys: seq<string>, groups: map<string, seq<string>>)
    ensures keys == GroupKeys(pairs)
    ensures groups == Grouped(pairs)
  {
    keys := [];
    groups := map[];
    var i := 0;
    while i < |pairs|
      invariant 0 <= i <= |pairs|
      invariant keys == GroupKeys(pairs[..i])
      invariant forall k :: k in groups <==> k in keys
      invariant forall k :: k in groups ==> groups[k] == Group(pairs[..i], k)
    {
      var (key, value) := pairs[i];
      GroupKeysSnoc(pairs, i);
      if key !in groups {
        GroupEmpty(pairs[..i], key);
        keys := keys + [key];
      }
      GroupStep(pairs, i, groups);
      groups := groups[key := (if key in groups then groups[key] else []) + [value]];
      i := i + 1;
    }
    assert pairs[..|pairs|] == pairs;
  }

  // ---------------------------------------------------------------------------------------------
  // The error messages and the report

  /** `List.toString()`: the items between brackets, separated by a comma and a space. */
  function ListText(items: seq<string>): string {
    "[" + JoinToString(items, ", ") + "]"
  }

  /** The error logged for one module. */
  function ErrorMessage(moduleKey: string, licenses: seq<string>): string {
    "licenses of the module " + moduleKey + " are not allowed (licenses are " + ListText(licenses) + ")"
  }

  /** The errors logged, one per module, in the order of the grouping. */
  function ErrorMessages(keys: seq<string>, groups: map<string, seq<string>>): (r: seq<string>)
    requires forall j :: 0 <= j < |keys| ==> keys[j] in groups
    ensures |r| == |keys|
    ensures forall j :: 0 <= j < |keys| ==> r[j] == ErrorMessage(keys[j], groups[keys[j]])
  {
    seq(|keys|, j requires 0 <= j < |keys| => ErrorMessage(keys[j], groups[keys[j]]))
  }

  const XmlDeclaration: string := "<?xml version=\"1.0\" encoding=\"UTF-8\"?>"
  const SuitesOpen: string := "<testsuites>"
  const SuitesClose: string := "</testsuites>"

  /** The one-test suite, with its failure, of a module whose licenses are not allowed. */
  function SuiteLine(moduleKey: string, licenses: seq<string>): string {
    SuiteStart + moduleKey + SuiteAttributes + moduleKey + CaseAttributes + ListText(licenses) + SuiteEnd
  }

  /** The pieces of a suite line around the module and the licenses. */
  const SuiteStart: string := "<testsuite name=\""
  const SuiteAttributes: string := "\" tests=\"1\" skipped=\"0\" failures=\"1\"><testcase name=\""
  const CaseAttributes: string := "\" classname=\"license-check\"><failure message=\"none of the following licenses is allowed "
  const SuiteEnd: string := "\" /></testcase></testsuite>"

  /** The suites of the modules, in the order of the grouping. */
  function SuiteLines(keys: seq<string>, groups: map<string, seq<string>>): (r: seq<string>)
    requires forall j :: 0 <= j < |keys| ==> keys[j] in groups
    ensures |r| == |keys|
    ensures forall j :: 0 <= j < |keys| ==> r[j] == SuiteLine(keys[j], groups[keys[j]])
  {
    seq(|keys|, j requires 0 <= j < |keys| => SuiteLine(keys[j], groups[keys[j]]))
  }

  /** The lines of the report: the declaration, the opening tag, one suite per module in the
      order of the grouping, the closing tag. */
  function ReportLines(keys: seq<string>, groups: map<string, seq<string>>): (r: seq<string>)
    requires forall j :: 0 <= j < |keys| ==> keys[j] in groups
    ensures |r| == |keys| + 3
    ensures r[0] == XmlDeclaration && r[1] == SuitesOpen && r[|r| - 1] == SuitesClose
    ensures forall j :: 0 <= j < |keys| ==> r[j + 2] == SuiteLine(keys[j], groups[keys[j]])
  {
    var suites := SuiteLines(keys, groups);
    var r := [XmlDeclaration, SuitesOpen] + suites + [SuitesClose];
    assert forall j :: 0 <= j < |keys| ==> r[j + 2] == suites[j];
    r
  }

  /** `buildString { appendLine(…) … }`: the report, line by line. */
  method WriteReport(keys: seq<string>, groups: map<string, seq<string>>) returns (report: string)
    requires forall j :: 0 <= j < |keys| ==> keys[j] in groups
    ensures report == Lines(ReportLines(keys, groups))
  {
    var suites := SuiteLines(keys, groups);
    ghost var header := [XmlDeclaration, SuitesOpen];
    report := XmlDeclaration + "\n";
    report := report + SuitesOpen + "\n";
    TwoLines(XmlDeclaration, SuitesOpen);
    report := AppendLines(report, suites);
    report := report + SuitesClose + "\n";
    LinesSnoc(header + suites, SuitesClose);
    LinesAppend(header, suites);
    assert ReportLines(keys, groups) == header + suites + [SuitesClose];
  }

  /** `appendLine` for each line, in order. */
  method AppendLines(start: string, lines: seq<string>) returns (text: string)
    ensures text == start + Lines(lines)
  {
    text := start;
    var i := 0;
    while i < |lines|
      invariant 0 <= i <= |lines|
      invariant text == start + Lines(lines[..i])
    {
      LinesSnoc(lines[..i], lines[i]);
      assert lines[..i + 1] == lines[..i] + [lines[i]];
      Associative4(start, Lines(lines[..i]), lines[i], "\n");
      text := text + lines[i] + "\n";
      i := i + 1;
    }
    assert lines[..|lines|] == lines;
  }

  /** Two lines. */
  lemma TwoLines(first: string, second: string)
    ensures Lines([first, second]) == first + "\n" + second + "\n"
  {
    assert [first, second][1..] == [second];
    assert [second][1..] == [];
    assert Lines([second]) == second + "\n";
    Associative4(first, "\n", second, "\n");
  }

  /** Read line by line, the report holds one test suite per module, in the order of the
      grouping, when no suite holds a line break (no module or license does). */
  lemma ReportText(keys: seq<string>, groups: map<string, seq<string>>)
    requires forall j :: 0 <= j < |keys| ==> keys[j] in groups
    requires forall j :: 0 <= j < |keys| ==> Lacks(SuiteLine(keys[j], groups[keys[j]]), '\n')
    ensures Split(Lines(ReportLines(keys, groups)), '\n') == ReportLines(keys, groups) + [""]
  {
    var lines := ReportLines(keys, groups) + [""];
    LinesJoin(ReportLines(keys, groups));
    forall i | 0 <= i < |lines| ensures Lacks(lines[i], '\n') {
      if 2 <= i < |keys| + 2 {
        assert lines[i] == SuiteLine(keys[i - 2], groups[keys[i - 2]]);
      }
    }
    SplitJoin(lines, '\n');
  }

  /**
   * What the Gradle task does once the checker has run, whether or not it failed: the errors it logs
   * and the report it writes, from the checker's list of failures.
   */
  method ReportFailures(failures: Option<seq<UnallowedDependency>>) returns (errors: seq<string>, report: string)
    ensures var pairs := FailurePairs(failures);
      && errors == ErrorMessages(GroupKeys(pairs), Grouped(pairs))
      && report == Lines(ReportLines(GroupKeys(pairs), Grouped(pairs)))
  {
    var pairs := FailurePairs(failures);
    var keys, groups := GroupBy(pairs);
    errors := ErrorMessages(keys, groups);
    report := WriteReport(keys, groups);
  }

  /** No failure is lost: each failure's module is a key of the grouping, and its license is
      among that module's licenses, which its suite lists. */
  lemma EveryFailureReported(failures: seq<UnallowedDependency>, i: nat)
    requires i < |failures|
    ensures ModuleKey(failures[i]) in Grouped(FailurePairs(Some(failures)))
    ensures TemplateText(failures[i].moduleLicense) in Grouped(FailurePairs(Some(failures)))[ModuleKey(failures[i])]
  {
    var pairs := FailurePairs(Some(failures));
    assert pairs[i] == (ModuleKey(failures[i]), TemplateText(failures[i].moduleLicense));
    GroupKeysMembers(pairs);
    assert TemplateText(failures[i].moduleLicense) in Group(pairs, ModuleKey(failures[i]));
  }
}
