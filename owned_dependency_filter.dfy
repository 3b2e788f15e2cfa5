/**
 * The filter that removes the dependencies owned by the project's owner: a module of a
 * configuration goes when some pattern matches its group alone, an imported module when some
 * pattern matches its name.
 */
module OwnedDependencyFilter {
  import opened Sequences
  import opened Regexes
  import opened ProjectModel

  /** The configuration modules the filter keeps: those whose group no pattern matches. */
  function KeepModule(regexes: seq<Regex>): ModuleData -> bool {
    (m: ModuleData) => !AnyMatches(regexes, m.group)
  }

  /** The imported modules the filter keeps: those no pattern matches by name. */
  function KeepImported(regexes: seq<Regex>): ImportedModuleData -> bool {
    (m: ImportedModuleData) => !AnyMatches(regexes, m.name)
  }

  /**
   * `filter(source)`. Every configuration of the source becomes one of the result, with the same
   * name and its modules whose group no pattern matches; the result holds no other
   * configuration. Every bundle keeps its name and its place and loses exactly the modules some
   * pattern matches by name.
   */
  function Filter(source: ProjectData, regexes: seq<Regex>): (r: ProjectData)
    ensures RetainedFrom(r, source, KeepModule(regexes), KeepImported(regexes))
  {
    RetainProject(source, KeepModule(regexes), KeepImported(regexes))
  }

  /** A module stays in its configuration exactly when no pattern matches its group; nothing is
      added. */
  lemma ConfigurationModuleRemoved(source: ProjectData, regexes: seq<Regex>, i: nat, m: ModuleData)
    requires i < |source.configurations|
    ensures var c := Retained(source.configurations[i], KeepModule(regexes));
      && c in Filter(source, regexes).configurations
      && c.name == source.configurations[i].name
      && (m in c.dependencies <==> m in source.configurations[i].dependencies && !AnyMatches(regexes, m.group))
  {
    var c := Retained(source.configurations[i], KeepModule(regexes));
    if m in c.dependencies {
      var j :| 0 <= j < |c.dependencies| && c.dependencies[j] == m;
    }
    if m in source.configurations[i].dependencies {
      var k :| 0 <= k < |source.configurations[i].dependencies| && source.configurations[i].dependencies[k] == m;
    }
  }

  /** An imported module stays in its bundle exactly when no pattern matches its name; nothing
      is added and the order is kept. */
  lemma ImportedModuleRemoved(source: ProjectData, regexes: seq<Regex>, i: nat, m: ImportedModuleData)
    requires i < |source.importedModules|
    ensures var b := Filter(source, regexes).importedModules[i];
      && b.name == source.importedModules[i].name
      && IsSubsequence(b.modules, source.importedModules[i].modules)
      && (m in b.modules <==> m in source.importedModules[i].modules && !AnyMatches(regexes, m.name))
  {
    var b := Filter(source, regexes).importedModules[i];
    if m in b.modules {
      var j :| 0 <= j < |b.modules| && b.modules[j] == m;
      SubsequenceElements(b.modules, source.importedModules[i].modules);
    }
    if m in source.importedModules[i].modules {
      var k :| 0 <= k < |source.importedModules[i].modules| && source.importedModules[i].modules[k] == m;
    }
  }

  /** Filtering twice with the same patterns filters once. */
  lemma FilterIdempotent(source: ProjectData, regexes: seq<Regex>)
    ensures Filter(Filter(source, regexes), regexes) == Filter(source, regexes)
  {
    RetainTwice(source, KeepModule(regexes), KeepImported(regexes));
  }

  /** No pattern removes nothing from a well-formed report. */
  lemma FilterWithoutPatterns(source: ProjectData)
    requires WellFormed(source)
    ensures Filter(source, []) == source
  {
    RetainEverything(source, KeepModule([]), KeepImported([]));
  }
}
