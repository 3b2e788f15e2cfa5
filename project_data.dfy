/**
 * The records of the dependency-license report (`com.github.jk1.license`) that the license
 * filters take apart and rebuild, and the two ways the filters rebuild a project: keeping the
 * modules a predicate accepts, or replacing every module by its image under a mapper.
 *
 * The records' sets (`Set<ModuleData>`, `Set<ConfigurationData>`, …) are lists without
 * repetitions; `toSet()` on a list keeps the first occurrence of every element.
 */
module ProjectModel {
  import opened Wrappers
  import opened Sequences

  datatype License = License(name: string, url: string)

  datatype PomDeveloper = PomDeveloper(name: string, email: string, url: string)

  datatype PomOrganization = PomOrganization(name: string, url: string)

  datatype PomData = PomData(
    name: string,
    description: string,
    projectUrl: string,
    inceptionYear: string,
    licenses: seq<License>,
    organization: Option<PomOrganization>,
    developers: seq<PomDeveloper>)

  /** A manifest record; the filters only copy it. */
  datatype ManifestData = ManifestData(record: string)

  /** A license-file record; the filters only copy it. */
  datatype LicenseFileData = LicenseFileData(record: string)

  datatype ModuleData = ModuleData(
    group: string,
    name: string,
    version: string,
    hasArtifactFile: bool,
    manifests: seq<ManifestData>,
    licenseFiles: seq<LicenseFileData>,
    poms: seq<PomData>)

  datatype ConfigurationData = ConfigurationData(name: string, dependencies: seq<ModuleData>)

  datatype ImportedModuleData = ImportedModuleData(
    name: string,
    version: string,
    projectUrl: string,
    license: string,
    licenseUrl: string)

  datatype ImportedModuleBundle = ImportedModuleBundle(name: string, modules: seq<ImportedModuleData>)

  /** The report of a project; `project` stands for the Gradle project, which is only passed on. */
  datatype ProjectData = ProjectData(
    project: string,
    configurations: seq<ConfigurationData>,
    importedModules: seq<ImportedModuleBundle>)

  /** The record's sets are sets: no configuration twice, no module twice in a configuration. */
  predicate WellFormed(p: ProjectData) {
    && Distinct(p.configurations)
    && forall i :: 0 <= i < |p.configurations| ==> Distinct(p.configurations[i].dependencies)
  }

  // ---------------------------------------------------------------------------------------------
  // Rebuilding a project

  /**
   * `ProjectData(source.project, source.configurations.map(cf).toSet(),
   * source.importedModules.map(bf).toList())`, the shape of every filter.
   */
  function Rebuild(p: ProjectData, cf: ConfigurationData -> ConfigurationData,
                   bf: ImportedModuleBundle -> ImportedModuleBundle): (r: ProjectData)
    ensures r.project == p.project
    ensures forall i :: 0 <= i < |p.configurations| ==> cf(p.configurations[i]) in r.configurations
    ensures forall j :: 0 <= j < |r.configurations| ==>
              exists i :: 0 <= i < |p.configurations| && r.configurations[j] == cf(p.configurations[i])
    ensures Distinct(r.configurations)
    ensures |r.importedModules| == |p.importedModules|
    ensures forall i :: 0 <= i < |p.importedModules| ==> r.importedModules[i] == bf(p.importedModules[i])
  {
    var mapped := Map(p.configurations, cf);
    var configurations := Dedup(mapped);
    ProjectData(p.project, configurations, Map(p.importedModules, bf))
  }

  /** Rebuilding twice rebuilds once when the rebuilt parts are fixed by the rebuilding. */
  lemma RebuildTwice(p: ProjectData, cf: ConfigurationData -> ConfigurationData,
                     bf: ImportedModuleBundle -> ImportedModuleBundle)
    requires forall i :: 0 <= i < |p.configurations| ==> cf(cf(p.configurations[i])) == cf(p.configurations[i])
    requires forall i :: 0 <= i < |p.importedModules| ==> bf(bf(p.importedModules[i])) == bf(p.importedModules[i])
    ensures Rebuild(Rebuild(p, cf, bf), cf, bf) == Rebuild(p, cf, bf)
  {
    var q := Rebuild(p, cf, bf);
    forall j | 0 <= j < |q.configurations| ensures cf(q.configurations[j]) == q.configurations[j] {
      var i :| 0 <= i < |p.configurations| && q.configurations[j] == cf(p.configurations[i]);
    }
    MapFixed(q.configurations, cf);
    DedupOfDistinct(q.configurations);
  }

  /** Rebuilding a well-formed project with parts that are fixed leaves it as it is. */
  lemma RebuildFixed(p: ProjectData, cf: ConfigurationData -> ConfigurationData,
                     bf: ImportedModuleBundle -> ImportedModuleBundle)
    requires Distinct(p.configurations)
    requires forall i :: 0 <= i < |p.configurations| ==> cf(p.configurations[i]) == p.configurations[i]
    requires forall i :: 0 <= i < |p.importedModules| ==> bf(p.importedModules[i]) == p.importedModules[i]
    ensures Rebuild(p, cf, bf) == p
  {
    MapFixed(p.configurations, cf);
    MapFixed(p.importedModules, bf);
    DedupOfDistinct(p.configurations);
  }

  // ---------------------------------------------------------------------------------------------
  // Removing modules

  /** `ConfigurationData(c.name, c.dependencies.filter(keep).toSet())`. */
  function Retained(c: ConfigurationData, keep: ModuleData -> bool): (r: ConfigurationData)
    ensures r.name == c.name && Distinct(r.dependencies)
    ensures forall i :: 0 <= i < |c.dependencies| ==> (c.dependencies[i] in r.dependencies <==> keep(c.dependencies[i]))
    ensures forall j :: 0 <= j < |r.dependencies| ==> r.dependencies[j] in c.dependencies && keep(r.dependencies[j])
  {
    var kept := Filter(c.dependencies, keep);
    var dependencies := Dedup(kept);
    ConfigurationData(c.name, dependencies)
  }

  /** `ImportedModuleBundle(b.name, b.modules.filter(keep))`. */
  function RetainedBundle(b: ImportedModuleBundle, keep: ImportedModuleData -> bool): (r: ImportedModuleBundle)
    ensures r.name == b.name && IsSubsequence(r.modules, b.modules)
    ensures forall i :: 0 <= i < |b.modules| ==> (b.modules[i] in r.modules <==> keep(b.modules[i]))
    ensures forall j :: 0 <= j < |r.modules| ==> keep(r.modules[j])
  {
    ImportedModuleBundle(b.name, Filter(b.modules, keep))
  }

  /** Keeping, for every configuration, the modules `keep` accepts. */
  function RetainConfiguration(keep: ModuleData -> bool): ConfigurationData -> ConfigurationData {
    c => Retained(c, keep)
  }

  /** Keeping, for every bundle, the modules `keep` accepts. */
  function RetainBundle(keep: ImportedModuleData -> bool): ImportedModuleBundle -> ImportedModuleBundle {
    b => RetainedBundle(b, keep)
  }

  /**
   * `r` is `p` with the modules `keep` and `keepImported` reject removed: the same project; as
   * its configurations, those of `p`, each with the modules `keep` accepts, and nothing else;
   * its bundles those of `p`, in place, each with the modules `keepImported` accepts.
   */
  predicate RetainedFrom(r: ProjectData, p: ProjectData, keep: ModuleData -> bool, keepImported: ImportedModuleData -> bool) {
    && r.project == p.project
    && (forall i :: 0 <= i < |p.configurations| ==> Retained(p.configurations[i], keep) in r.configurations)
    && (forall j :: 0 <= j < |r.configurations| ==>
          exists i :: 0 <= i < |p.configurations| && r.configurations[j] == Retained(p.configurations[i], keep))
    && Distinct(r.configurations)
    && |r.importedModules| == |p.importedModules|
    && (forall i :: 0 <= i < |p.importedModules| ==> r.importedModules[i] == RetainedBundle(p.importedModules[i], keepImported))
  }

  /** Keeping the configuration modules `keep` accepts and the imported modules `keepImported`
      accepts. */
  function RetainProject(p: ProjectData, keep: ModuleData -> bool, keepImported: ImportedModuleData -> bool): (r: ProjectData)
    ensures RetainedFrom(r, p, keep, keepImported)
  {
    Rebuild(p, RetainConfiguration(keep), RetainBundle(keepImported))
  }

  /** A configuration whose modules were kept is kept as it is. */
  lemma RetainedTwice(c: ConfigurationData, keep: ModuleData -> bool)
    ensures Retained(Retained(c, keep), keep) == Retained(c, keep)
  {
    var d := Retained(c, keep);
    FilterKeepsAll(d.dependencies, keep);
    DedupOfDistinct(d.dependencies);
  }

  /** Keeping every module of a configuration without repetitions keeps it as it is. */
  lemma RetainedAll(c: ConfigurationData, keep: ModuleData -> bool)
    requires Distinct(c.dependencies)
    requires forall i :: 0 <= i < |c.dependencies| ==> keep(c.dependencies[i])
    ensures Retained(c, keep) == c
  {
    FilterKeepsAll(c.dependencies, keep);
    DedupOfDistinct(c.dependencies);
  }

  /** Removing the modules twice removes them once. */
  lemma RetainTwice(p: ProjectData, keep: ModuleData -> bool, keepImported: ImportedModuleData -> bool)
    ensures RetainProject(RetainProject(p, keep, keepImported), keep, keepImported) == RetainProject(p, keep, keepImported)
  {
    forall i | 0 <= i < |p.configurations|
      ensures Retained(Retained(p.configurations[i], keep), keep) == Retained(p.configurations[i], keep)
    {
      RetainedTwice(p.configurations[i], keep);
    }
    forall i | 0 <= i < |p.importedModules|
      ensures RetainedBundle(RetainedBundle(p.importedModules[i], keepImported), keepImported)
              == RetainedBundle(p.importedModules[i], keepImported)
    {
      var b := RetainedBundle(p.importedModules[i], keepImported);
      FilterKeepsAll(b.modules, keepImported);
    }
    RebuildTwice(p, RetainConfiguration(keep), RetainBundle(keepImported));
  }

  /** Removing nothing from a well-formed project leaves it as it is. */
  lemma RetainEverything(p: ProjectData, keep: ModuleData -> bool, keepImported: ImportedModuleData -> bool)
    requires WellFormed(p)
    requires forall m :: keep(m)
    requires forall m :: keepImported(m)
    ensures RetainProject(p, keep, keepImported) == p
  {
    forall i | 0 <= i < |p.configurations| ensures Retained(p.configurations[i], keep) == p.configurations[i] {
      RetainedAll(p.configurations[i], keep);
    }
    forall i | 0 <= i < |p.importedModules|
      ensures RetainedBundle(p.importedModules[i], keepImported) == p.importedModules[i]
    {
      FilterKeepsAll(p.importedModules[i].modules, keepImported);
    }
    RebuildFixed(p, RetainConfiguration(keep), RetainBundle(keepImported));
  }

  // ---------------------------------------------------------------------------------------------
  // Rewriting modules

  /** `ConfigurationData(c.name, c.dependencies.map(f).toSet())`. */
  function Mapped(c: ConfigurationData, f: ModuleData -> ModuleData): (r: ConfigurationData)
    ensures r.name == c.name && Distinct(r.dependencies)
    ensures forall i :: 0 <= i < |c.dependencies| ==> f(c.dependencies[i]) in r.dependencies
    ensures forall j :: 0 <= j < |r.dependencies| ==>
              exists i :: 0 <= i < |c.dependencies| && r.dependencies[j] == f(c.dependencies[i])
  {
    var images := Map(c.dependencies, f);
    var dependencies := Dedup(images);
    ConfigurationData(c.name, dependencies)
  }

  /** `ImportedModuleBundle(b.name, b.modules.map(g))`. */
  function MappedBundle(b: ImportedModuleBundle, g: ImportedModuleData -> ImportedModuleData): (r: ImportedModuleBundle)
    ensures r.name == b.name && |r.modules| == |b.modules|
    ensures forall i :: 0 <= i < |b.modules| ==> r.modules[i] == g(b.modules[i])
  {
    ImportedModuleBundle(b.name, Map(b.modules, g))
  }

  /** Rewriting every module of every configuration with `f`. */
  function MapConfiguration(f: ModuleData -> ModuleData): ConfigurationData -> ConfigurationData {
    c => Mapped(c, f)
  }

  /** Rewriting every module of every bundle with `g`. */
  function MapBundle(g: ImportedModuleData -> ImportedModuleData): ImportedModuleBundle -> ImportedModuleBundle {
    b => MappedBundle(b, g)
  }

  /**
   * `r` is `p` with every module replaced by its image: the same project; as its
   * configurations, those of `p`, each with the images of its modules under `f`, and nothing
   * else; its bundles those of `p`, in place, each with its modules' images under `g`.
   */
  predicate MappedFrom(r: ProjectData, p: ProjectData, f: ModuleData -> ModuleData, g: ImportedModuleData -> ImportedModuleData) {
    && r.project == p.project
    && (forall i :: 0 <= i < |p.configurations| ==> Mapped(p.configurations[i], f) in r.configurations)
    && (forall j :: 0 <= j < |r.configurations| ==>
          exists i :: 0 <= i < |p.configurations| && r.configurations[j] == Mapped(p.configurations[i], f))
    && Distinct(r.configurations)
    && |r.importedModules| == |p.importedModules|
    && (forall i :: 0 <= i < |p.importedModules| ==> r.importedModules[i] == MappedBundle(p.importedModules[i], g))
  }

  /** Rewriting every configuration module with `f` and every imported module with `g`. */
  function MapProject(p: ProjectData, f: ModuleData -> ModuleData, g: ImportedModuleData -> ImportedModuleData): (r: ProjectData)
    ensures MappedFrom(r, p, f, g)
  {
    Rebuild(p, MapConfiguration(f), MapBundle(g))
  }

  /** Rewriting twice with mappers that are idempotent rewrites once. */
  lemma MapTwice(p: ProjectData, f: ModuleData -> ModuleData, g: ImportedModuleData -> ImportedModuleData)
    requires forall m :: f(f(m)) == f(m)
    requires forall m :: g(g(m)) == g(m)
    ensures MapProject(MapProject(p, f, g), f, g) == MapProject(p, f, g)
  {
    forall i | 0 <= i < |p.configurations|
      ensures Mapped(Mapped(p.configurations[i], f), f) == Mapped(p.configurations[i], f)
    {
      var d := Mapped(p.configurations[i], f);
      forall j | 0 <= j < |d.dependencies| ensures f(d.dependencies[j]) == d.dependencies[j] {
        var k :| 0 <= k < |p.configurations[i].dependencies| && d.dependencies[j] == f(p.configurations[i].dependencies[k]);
      }
      MapFixed(d.dependencies, f);
      DedupOfDistinct(d.dependencies);
    }
    forall i | 0 <= i < |p.importedModules|
      ensures MappedBundle(MappedBundle(p.importedModules[i], g), g) == MappedBundle(p.importedModules[i], g)
    {
    }
    RebuildTwice(p, MapConfiguration(f), MapBundle(g));
  }

  /** Rewriting a well-formed project with mappers that fix all its modules leaves it as it is. */
  lemma MapFixing(p: ProjectData, f: ModuleData -> ModuleData, g: ImportedModuleData -> ImportedModuleData)
    requires WellFormed(p)
    requires forall i, j :: 0 <= i < |p.configurations| && 0 <= j < |p.configurations[i].dependencies| ==>
               f(p.configurations[i].dependencies[j]) == p.configurations[i].dependencies[j]
    requires forall i, j :: 0 <= i < |p.importedModules| && 0 <= j < |p.importedModules[i].modules| ==>
               g(p.importedModules[i].modules[j]) == p.importedModules[i].modules[j]
    ensures MapProject(p, f, g) == p
  {
    forall i | 0 <= i < |p.configurations| ensures Mapped(p.configurations[i], f) == p.configurations[i] {
      MapFixed(p.configurations[i].dependencies, f);
      DedupOfDistinct(p.configurations[i].dependencies);
    }
    forall i | 0 <= i < |p.importedModules| ensures MappedBundle(p.importedModules[i], g) == p.importedModules[i] {
      MapFixed(p.importedModules[i].modules, g);
    }
    RebuildFixed(p, MapConfiguration(f), MapBundle(g));
  }
}
