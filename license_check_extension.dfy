/**
 * The license-check settings: the owned-dependency pattern derived from the project's group,
 * the builder behind the `whiteListedDependencies { … }` block, the warning about expired
 * entries, and the patterns and order of the filters applied to the license report.
 */
module LicenseCheckExtension {
  import opened Wrappers
  import opened Strings
  import opened Sequences
  import opened IsoDateTime
  import opened Regexes
  import opened WhiteListedDependencies
  import opened ProjectModel
  import WhiteListedDependencyFilter
  import MissingModuleDataDependencyFilter

  // ---------------------------------------------------------------------------------------------
  // Owned dependencies

  /** No two dots in `s`. */
  predicate AtMostOneDot(s: string) {
    forall i, j :: 0 <= i < j < |s| ==> !(s[i] == '.' && s[j] == '.')
  }

  /**
   * `group.split(".").take(2).joinToString(".")`: the group up to its second dot, or the whole
   * group when it has fewer than two.
   */
  function OwnedPrefix(group: string): (r: string)
    ensures |r| <= |group| && group[..|r|] == r
    ensures AtMostOneDot(r)
    ensures |r| < |group| ==> group[|r|] == '.' && exists k :: 0 <= k < |r| && r[k] == '.'
    ensures AtMostOneDot(group) ==> r == group
  {
    var parts := Split(group, '.');
    var n := if |parts| < 2 then |parts| else 2;
    JoinTake(parts, n, '.');
    var r := JoinToString(parts[..n], ".");
    OwnedPrefixDots(parts, n);
    r
  }

  /** The first one or two pieces, joined, hold at most the one dot between them, and do hold
      it when there are two. */
  lemma OwnedPrefixDots(parts: seq<string>, n: nat)
    requires 1 <= n <= 2 && n <= |parts|
    requires forall i :: 0 <= i < |parts| ==> Lacks(parts[i], '.')
    ensures AtMostOneDot(JoinToString(parts[..n], "."))
    ensures n == 2 ==> JoinToString(parts[..n], ".")[|parts[0]|] == '.'
  {
    var r := JoinToString(parts[..n], ".");
    if n == 1 {
      assert parts[..1] == [parts[0]];
    } else {
      assert parts[..2] == [parts[0], parts[1]];
      var items := parts[..2];
      assert items[0] == parts[0] && items[1..] == [parts[1]];
      assert JoinToString(items[1..], ".") == parts[1];
      assert r == parts[0] + "." + parts[1];
      forall i | 0 <= i < |r| && r[i] == '.' ensures i == |parts[0]| {
      }
    }
  }

  /** The default owned-dependency regex: `^<quoted prefix>(\.)?.*` for the group's prefix. */
  method DefaultOwnedDependency(group: string) returns (r: Regex)
    ensures fresh(r)
    ensures r.pattern == OwnedPattern(OwnedPrefix(group))
    ensures forall s :: r.matches(s) <==> MatchesOwned(OwnedPrefix(group), s)
  {
    r := OwnedRegex(OwnedPrefix(group));
  }

  /** The licenses allowed unless configured otherwise. */
  const DefaultAllowedLicenses: seq<string> := [
    "MIT License",
    "MIT-0",
    "Apache License, Version 2.0",
    "BSD Zero Clause License",
    "The 2-Clause BSD License",
    "The 3-Clause BSD License",
    "GNU GENERAL PUBLIC LICENSE, Version 2 + Classpath Exception",
    "GNU LESSER GENERAL PUBLIC LICENSE, Version 2.1",
    "GNU Lesser General Public License v3.0",
    "Go License",
    "Indiana University Extreme! Lab Software License",
    "COMMON DEVELOPMENT AND DISTRIBUTION LICENSE (CDDL) Version 1.0",
    "Eclipse Public License - v 1.0",
    "Eclipse Public License - v 2.0",
    "PUBLIC DOMAIN",
    "Bouncy Castle Licence"
  ]

  // ---------------------------------------------------------------------------------------------
  // White-listed dependencies

  /** The map's entries in the order of their keys. */
  function EntriesOf(keys: seq<Regex>, validUntil: map<Regex, int>): (r: seq<WhiteListedDependency>)
    requires forall i :: 0 <= i < |keys| ==> keys[i] in validUntil
    ensures |r| == |keys|
    ensures forall i :: 0 <= i < |keys| ==> r[i] == WhiteListedDependency(keys[i], validUntil[keys[i]])
  {
    seq(|keys|, i requires 0 <= i < |keys| => WhiteListedDependency(keys[i], validUntil[keys[i]]))
  }

  /**
   * `WhiteListedDependenciesBuilder`: its `mutableMapOf<Regex, Instant>()`, a map that keeps its
   * keys in insertion order (`patterns`). Regexes are keys by identity.
   */
  class WhiteListedDependenciesBuilder {
    var patterns: seq<Regex>
    var validUntil: map<Regex, int>

    /** Every key once, in insertion order, and nothing else. */
    ghost predicate Valid()
      reads this
    {
      && Distinct(patterns)
      && validUntil.Keys == set i | 0 <= i < |patterns| :: patterns[i]
    }

    /** The map's entries, in insertion order. */
    function Entries(): (r: seq<WhiteListedDependency>)
      reads this
      requires Valid()
      ensures Distinct(r)
      ensures |r| == |patterns|
      ensures forall i :: 0 <= i < |patterns| ==> r[i].moduleNamePattern == patterns[i] && r[i].validUntil == validUntil[patterns[i]]
    {
      assert forall i :: 0 <= i < |patterns| ==> patterns[i] in validUntil;
      EntriesOf(patterns, validUntil)
    }

    constructor ()
      ensures Valid()
      ensures patterns == [] && validUntil == map[]
    {
      patterns := [];
      validUntil := map[];
    }

    /** `pattern until instant`: the pattern's expiry is `instant`, whatever it was; a new
        pattern goes last. */
    method Until(pattern: Regex, instant: int)
      requires Valid()
      modifies this
      ensures Valid()
      ensures validUntil == old(validUntil)[pattern := instant]
      ensures patterns == if pattern in old(validUntil) then old(patterns) else old(patterns) + [pattern]
    {
      if pattern !in validUntil {
        ghost var before := patterns;
        patterns := patterns + [pattern];
        assert (set i | 0 <= i < |patterns| :: patterns[i]) == (set i | 0 <= i < |before| :: before[i]) + {pattern} by {
          assert patterns[|before|] == pattern;
          assert forall i :: 0 <= i < |before| ==> patterns[i] == before[i];
        }
      }
      validUntil := validUntil[pattern := instant];
    }

    /** `pattern until text`: the text read as an ISO instant; a text that is not one throws,
        which leaves the map as it was and is reported as `false`. */
    method UntilText(pattern: Regex, text: string) returns (parsed: bool)
      requires Valid()
      modifies this
      ensures Valid()
      ensures parsed <==> ParseInstant(text).Some?
      ensures parsed ==> validUntil == old(validUntil)[pattern := ParseInstant(text).value]
      ensures parsed ==> patterns == if pattern in old(validUntil) then old(patterns) else old(patterns) + [pattern]
      ensures !parsed ==> validUntil == old(validUntil) && patterns == old(patterns)
    {
      match ParseInstant(text)
      case None =>
        parsed := false;
      case Some(instant) =>
        Until(pattern, instant);
        parsed := true;
    }

    /** `add(pattern)`: white-listed until the distant future; the pattern is returned, so that
        an expiry can follow. */
    method Add(pattern: Regex) returns (r: Regex)
      requires Valid()
      modifies this
      ensures Valid()
      ensures r == pattern
      ensures validUntil == old(validUntil)[pattern := DistantFuture]
      ensures patterns == if pattern in old(validUntil) then old(patterns) else old(patterns) + [pattern]
    {
      Until(pattern, DistantFuture);
      r := pattern;
    }

    /** `add(name)`: a new regex that matches exactly `name`, white-listed until the distant
        future. */
    method AddName(name: string) returns (r: Regex)
      requires Valid()
      modifies this
      ensures Valid()
      ensures fresh(r) && r.pattern == "^" + Quote(name)
      ensures forall s :: r.matches(s) <==> s == name
      ensures validUntil == old(validUntil)[r := DistantFuture]
      ensures patterns == old(patterns) + [r]
    {
      var literal := LiteralRegex(name);
      assert literal !in validUntil;
      r := Add(literal);
    }
  }

  /** Appending to a set the elements it does not hold yet keeps it a set. */
  lemma AddAllDistinct<T>(current: seq<T>, added: seq<T>)
    requires Distinct(current)
    ensures Distinct(current + DedupFrom(added, current))
  {
    var d := DedupFrom(added, current);
    forall i, j | 0 <= i < j < |current + d| ensures (current + d)[i] != (current + d)[j] {
      if i < |current| && j >= |current| {
        assert (current + d)[j] == d[j - |current|];
        assert d[j - |current|] !in current;
      }
    }
  }

  /**
   * `LicenseCheckExtension`: the settings a build script sees. `ownedDependencies` is `None`
   * when the property has no value.
   */
  class LicenseCheckExtension {
    var skip: bool
    var ownedDependencies: Option<seq<Regex>>
    var whiteListedDependencies: seq<WhiteListedDependency>
    var allowedLicenses: seq<string>

    /** The conventions, for a project whose group is `group`. */
    constructor (group: string)
      ensures !skip
      ensures ownedDependencies.Some? && |ownedDependencies.value| == 1
      ensures ownedDependencies.value[0].pattern == OwnedPattern(OwnedPrefix(group))
      ensures forall s :: ownedDependencies.value[0].matches(s) <==> MatchesOwned(OwnedPrefix(group), s)
      ensures whiteListedDependencies == []
      ensures allowedLicenses == DefaultAllowedLicenses
    {
      var owned := DefaultOwnedDependency(group);
      skip := false;
      ownedDependencies := Some([owned]);
      whiteListedDependencies := [];
      allowedLicenses := DefaultAllowedLicenses;
    }

    /**
     * `whiteListedDependencies { … }`, with `builder` as the block left it: one entry per map
     * entry, in the map's order, added to the set (an equal entry already there stays where it
     * is). Nothing else changes.
     */
    method WhiteListedDependencies(builder: WhiteListedDependenciesBuilder)
      requires builder.Valid()
      modifies this
      ensures whiteListedDependencies == old(whiteListedDependencies) + DedupFrom(builder.Entries(), old(whiteListedDependencies))
      ensures forall i :: 0 <= i < |builder.patterns| ==>
                WhiteListedDependency(builder.patterns[i], builder.validUntil[builder.patterns[i]]) in whiteListedDependencies
      ensures Distinct(old(whiteListedDependencies)) ==> Distinct(whiteListedDependencies)
      ensures (forall i :: 0 <= i < |builder.Entries()| ==> builder.Entries()[i] !in old(whiteListedDependencies)) ==>
                whiteListedDependencies == old(whiteListedDependencies) + builder.Entries()
      ensures skip == old(skip) && ownedDependencies == old(ownedDependencies) && allowedLicenses == old(allowedLicenses)
    {
      var entries := builder.Entries();
      var previous := whiteListedDependencies;
      whiteListedDependencies := previous + DedupFrom(entries, previous);
      if Distinct(previous) {
        AddAllDistinct(previous, entries);
      }
      if forall i :: 0 <= i < |entries| ==> entries[i] !in previous {
        DedupDistinct(entries, previous);
      }
    }
  }

  // ---------------------------------------------------------------------------------------------
  // Expiry and the effective patterns

  /** The patterns of the expired entries, in order. */
  function ExpiredPatterns(entries: seq<WhiteListedDependency>, now: int): (r: seq<Regex>)
    ensures |r| <= |entries|
    ensures forall i :: 0 <= i < |entries| && IsExpired(entries[i], now) ==> entries[i].moduleNamePattern in r
    ensures forall j :: 0 <= j < |r| ==>
              exists i :: 0 <= i < |entries| && IsExpired(entries[i], now) && r[j] == entries[i].moduleNamePattern
  {
    var expired := Filter(entries, (d: WhiteListedDependency) => IsExpired(d, now));
    SubsequenceElements(expired, entries);
    Map(expired, (d: WhiteListedDependency) => d.moduleNamePattern)
  }

  /** The patterns of the entries still valid, in order. */
  function ValidPatterns(entries: seq<WhiteListedDependency>, now: int): (r: seq<Regex>)
    ensures forall i :: 0 <= i < |entries| && IsValid(entries[i], now) ==> entries[i].moduleNamePattern in r
    ensures forall j :: 0 <= j < |r| ==>
              exists i :: 0 <= i < |entries| && IsValid(entries[i], now) && r[j] == entries[i].moduleNamePattern
  {
    var valid := Filter(entries, (d: WhiteListedDependency) => IsValid(d, now));
    Map(valid, (d: WhiteListedDependency) => d.moduleNamePattern)
  }

  /** The warning logged after evaluation: the expired patterns, when there are any. */
  function ExpiryWarning(entries: seq<WhiteListedDependency>, now: int): (r: Option<string>)
    ensures r.None? <==> forall i :: 0 <= i < |entries| ==> IsValid(entries[i], now)
  {
    var expired := ExpiredPatterns(entries, now);
    if expired == [] then None
    else
      Some("The following whiteListedDependencies have expired: ["
           + JoinToString(Map(expired, (x: Regex) => x.pattern), ", ") + "]")
  }

  /**
   * The patterns given to the white-list filter: `ownedDependencies.zip(valid patterns) { a, b
   * -> a union b }`. Without owned dependencies the zip has no value; otherwise the owned
   * patterns first, then the patterns of the valid entries not among them, each once.
   */
  function EffectivePatterns(owned: Option<seq<Regex>>, entries: seq<WhiteListedDependency>, now: int): (r: Option<seq<Regex>>)
    ensures r.None? <==> owned.None?
    ensures r.Some? ==> Distinct(r.value)
    ensures r.Some? ==> forall i :: 0 <= i < |owned.value| ==> owned.value[i] in r.value
    ensures r.Some? ==> forall i :: 0 <= i < |entries| && IsValid(entries[i], now) ==> entries[i].moduleNamePattern in r.value
    ensures r.Some? ==> forall j :: 0 <= j < |r.value| ==>
              r.value[j] in owned.value ||
              exists i :: 0 <= i < |entries| && IsValid(entries[i], now) && r.value[j] == entries[i].moduleNamePattern
  {
    match owned
    case None => None
    case Some(a) =>
      var b := ValidPatterns(entries, now);
      var u := a + b;
      assert forall i :: 0 <= i < |a| ==> a[i] == u[i];
      assert forall i :: 0 <= i < |b| ==> b[i] == u[|a| + i];
      Some(Dedup(u))
  }

  /** The filters of the license report, in the order they run. */
  datatype DependencyFilter =
    | WhiteListedFilter(regexes: Option<seq<Regex>>)
    | MissingModuleDataFilter
    | OnDemandBundleNormalizerFilter

  /** `filters`: the white list first, then the missing module data, then the normalizer. */
  function Filters(owned: Option<seq<Regex>>, entries: seq<WhiteListedDependency>, now: int): (r: seq<DependencyFilter>)
    ensures |r| == 3
    ensures r[0] == WhiteListedFilter(EffectivePatterns(owned, entries, now))
    ensures r[1] == MissingModuleDataFilter && r[2] == OnDemandBundleNormalizerFilter
  {
    [WhiteListedFilter(EffectivePatterns(owned, entries, now)), MissingModuleDataFilter, OnDemandBundleNormalizerFilter]
  }

  /** What one filter makes of the report; `None` for the normalizer, which is not part of this
      model. */
  function Apply(f: DependencyFilter, data: ProjectData): (r: Option<ProjectData>)
    ensures r.None? <==> f.OnDemandBundleNormalizerFilter?
  {
    match f
    case WhiteListedFilter(regexes) => Some(WhiteListedDependencyFilter.Filter(data, regexes))
    case MissingModuleDataFilter => Some(MissingModuleDataDependencyFilter.Filter(data))
    case OnDemandBundleNormalizerFilter => None
  }

  /** The report after a chain of filters, each applied to the result of the one before. */
  function RunFilters(filters: seq<DependencyFilter>, data: ProjectData): (r: Option<ProjectData>)
    ensures r.None? <==> exists i :: 0 <= i < |filters| && filters[i].OnDemandBundleNormalizerFilter?
    decreases |filters|
  {
    if filters == [] then Some(data)
    else
      match Apply(filters[0], data)
      case None => None
      case Some(d) =>
        var r := RunFilters(filters[1..], d);
        assert forall i :: 0 <= i < |filters[1..]| ==> filters[1..][i] == filters[i + 1];
        r
  }

  /** The report after the first two filters; the normalizer is not part of this model. */
  function PolicyFiltered(source: ProjectData, owned: Option<seq<Regex>>, entries: seq<WhiteListedDependency>, now: int): ProjectData {
    MissingModuleDataDependencyFilter.Filter(WhiteListedDependencyFilter.Filter(source, EffectivePatterns(owned, entries, now)))
  }

  /**
   * Running the configured chain up to the normalizer is `PolicyFiltered`: the white list with
   * the effective patterns first, the missing module data on its result second.
   */
  lemma FiltersRunPolicy(source: ProjectData, owned: Option<seq<Regex>>, entries: seq<WhiteListedDependency>, now: int)
    ensures RunFilters(Filters(owned, entries, now)[..2], source) == Some(PolicyFiltered(source, owned, entries, now))
  {
    var fs := Filters(owned, entries, now);
    assert fs[..2] == [fs[0], fs[1]];
    RunTwoFilters(fs[0], fs[1], source);
  }

  /** A chain of two modelled filters applies the first, then the second to its result. */
  lemma RunTwoFilters(a: DependencyFilter, b: DependencyFilter, data: ProjectData)
    requires !a.OnDemandBundleNormalizerFilter? && !b.OnDemandBundleNormalizerFilter?
    ensures RunFilters([a, b], data) == Apply(b, Apply(a, data).value)
  {
    var d := Apply(a, data).value;
    assert [a, b][1..] == [b];
    assert RunFilters([b], d) == Apply(b, d) by {
      assert [b][1..] == [];
    }
  }

  /** A text no effective pattern matches is matched by no owned pattern and by the pattern
      of no valid entry. */
  lemma EffectivePatternsCover(owned: Option<seq<Regex>>, entries: seq<WhiteListedDependency>, now: int, s: string)
    requires owned.Some? && !AnyMatches(EffectivePatterns(owned, entries, now).value, s)
    ensures !AnyMatches(owned.value, s)
    ensures forall i :: 0 <= i < |entries| && IsValid(entries[i], now) ==> !entries[i].moduleNamePattern.matches(s)
  {
    var patterns := EffectivePatterns(owned, entries, now).value;
    forall x | 0 <= x < |owned.value| ensures !owned.value[x].matches(s) {
      assert owned.value[x] in patterns;
    }
    forall x | 0 <= x < |entries| && IsValid(entries[x], now) ensures !entries[x].moduleNamePattern.matches(s) {
      assert entries[x].moduleNamePattern in patterns;
    }
  }

  /** After the white-list filter and a mapper that keeps groups and names, no configuration
      module is matched by a white-listed pattern. */
  lemma WhiteListThenMapRemoves(source: ProjectData, patterns: seq<Regex>, out: ProjectData,
                                f: ModuleData -> ModuleData, g: ImportedModuleData -> ImportedModuleData, j: nat, k: nat)
    requires MappedFrom(out, WhiteListedDependencyFilter.Filter(source, Some(patterns)), f, g)
    requires forall m :: f(m).group == m.group && f(m).name == m.name
    requires j < |out.configurations| && k < |out.configurations[j].dependencies|
    ensures !AnyMatches(patterns, out.configurations[j].dependencies[k].group + ":" + out.configurations[j].dependencies[k].name)
  {
    var kept := WhiteListedDependencyFilter.Filter(source, Some(patterns));
    var m := out.configurations[j].dependencies[k];
    MappedKeepsCoordinates(out, kept, f, g, j, k);
    var ci, l :| 0 <= ci < |kept.configurations| && 0 <= l < |kept.configurations[ci].dependencies| &&
      kept.configurations[ci].dependencies[l].group == m.group && kept.configurations[ci].dependencies[l].name == m.name;
    WhiteListKeepsUnmatched(source, patterns, ci, l);
  }

  /** Every configuration module of a project rewritten by a mapper that keeps groups and
      names has the group and name of a module before it. */
  lemma MappedKeepsCoordinates(out: ProjectData, p: ProjectData, f: ModuleData -> ModuleData,
                               g: ImportedModuleData -> ImportedModuleData, j: nat, k: nat)
    requires MappedFrom(out, p, f, g)
    requires forall m :: f(m).group == m.group && f(m).name == m.name
    requires j < |out.configurations| && k < |out.configurations[j].dependencies|
    ensures var m := out.configurations[j].dependencies[k];
      exists ci, l :: 0 <= ci < |p.configurations| && 0 <= l < |p.configurations[ci].dependencies| &&
        p.configurations[ci].dependencies[l].group == m.group && p.configurations[ci].dependencies[l].name == m.name
  {
    var ci :| 0 <= ci < |p.configurations| && out.configurations[j] == Mapped(p.configurations[ci], f);
    MappedConfigurationKeepsCoordinates(p.configurations[ci], f, k);
  }

  /** The same for one configuration. */
  lemma MappedConfigurationKeepsCoordinates(c: ConfigurationData, f: ModuleData -> ModuleData, k: nat)
    requires forall m :: f(m).group == m.group && f(m).name == m.name
    requires k < |Mapped(c, f).dependencies|
    ensures var m := Mapped(c, f).dependencies[k];
      exists l :: 0 <= l < |c.dependencies| && c.dependencies[l].group == m.group && c.dependencies[l].name == m.name
  {
    var l :| 0 <= l < |c.dependencies| && Mapped(c, f).dependencies[k] == f(c.dependencies[l]);
    var n := c.dependencies[l];
    assert f(n).group == n.group && f(n).name == n.name;
  }

  /** Every configuration module the white-list filter keeps is matched by none of its
      patterns. */
  lemma WhiteListKeepsUnmatched(source: ProjectData, patterns: seq<Regex>, j: nat, k: nat)
    requires j < |WhiteListedDependencyFilter.Filter(source, Some(patterns)).configurations|
    requires k < |WhiteListedDependencyFilter.Filter(source, Some(patterns)).configurations[j].dependencies|
    ensures var n := WhiteListedDependencyFilter.Filter(source, Some(patterns)).configurations[j].dependencies[k];
      !AnyMatches(patterns, n.group + ":" + n.name)
  {
    var kept := WhiteListedDependencyFilter.Filter(source, Some(patterns));
    var keep := WhiteListedDependencyFilter.KeepModule(patterns);
    var si :| 0 <= si < |source.configurations| && kept.configurations[j] == Retained(source.configurations[si], keep);
    assert keep(kept.configurations[j].dependencies[k]);
  }

  /**
   * No module of a configuration that an owned pattern or the pattern of a valid entry matches
   * as `group:name` reaches the license check.
   */
  lemma PolicyRemovesWhiteListed(source: ProjectData, owned: Option<seq<Regex>>, entries: seq<WhiteListedDependency>, now: int,
                                 j: nat, k: nat)
    requires owned.Some?
    requires j < |PolicyFiltered(source, owned, entries, now).configurations|
    requires k < |PolicyFiltered(source, owned, entries, now).configurations[j].dependencies|
    ensures var m := PolicyFiltered(source, owned, entries, now).configurations[j].dependencies[k];
      && !AnyMatches(owned.value, m.group + ":" + m.name)
      && forall i :: 0 <= i < |entries| && IsValid(entries[i], now) ==> !entries[i].moduleNamePattern.matches(m.group + ":" + m.name)
  {
    var patterns := EffectivePatterns(owned, entries, now).value;
    var out := PolicyFiltered(source, owned, entries, now);
    WhiteListThenMapRemoves(source, patterns, out, MissingModuleDataDependencyFilter.ModuleMapper,
                            MissingModuleDataDependencyFilter.ImportedMapper, j, k);
    var m := out.configurations[j].dependencies[k];
    EffectivePatternsCover(owned, entries, now, m.group + ":" + m.name);
  }
}
