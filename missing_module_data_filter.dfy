/**
 * The filter that supplies the license of modules known to publish none: a table of mapping
 * entries, of which the first that applies to a module rewrites it; a module to which none
 * applies is kept as it is.
 */
module MissingModuleDataDependencyFilter {
  import opened Wrappers
  import opened Sequences
  import opened ProjectModel

  const ApacheLicense: License := License("Apache License, Version 2.0", "https://www.apache.org/licenses/LICENSE-2.0")
  const BsdLicense: License := License("BSD licence", "http://antlr.org/license.html")

  /** The POM the table gives `org.antlr:antlr-runtime`. */
  const AntlrPom: PomData :=
    PomData("antlr-runtime", "", "", "", [BsdLicense], None, [PomDeveloper("", "", "")])

  /** The POM the table gives `org.jetbrains.kotlinx:kotlinx-coroutines-core`. */
  const CoroutinesPom: PomData :=
    PomData("kotlinx-coroutines-core", "Coroutines support libraries for Kotlin",
            "https://github.com/Kotlin/kotlinx.coroutines", "", [ApacheLicense], None,
            [PomDeveloper("JetBrains Team", "", "")])

  /** The POM the table gives `org.jetbrains.kotlin:kotlin-stdlib-common`. */
  const StdlibCommonPom: PomData :=
    PomData("kotlin-stdlib-common", "Kotlin Common Standard Library", "https://kotlinlang.org", "",
            [ApacheLicense], None, [PomDeveloper("JetBrains Team", "", "")])

  /**
   * A `MappingEntry`: the module it is for, a version (`None` for any) and what its two mappers
   * put in: the module-data mapper replaces the POMs by `pom`, the imported-module mapper sets
   * the license name and URL of `license`, which is the license that `pom` carries.
   */
  datatype MappingEntry = MappingEntry(group: string, name: string, version: Option<string>, pom: PomData, license: License)

  /** `mappingEntries`, in order. */
  const MappingEntries: seq<MappingEntry> := [
    MappingEntry("org.antlr", "antlr-runtime", None, AntlrPom, BsdLicense),
    MappingEntry("org.jetbrains.kotlinx", "kotlinx-coroutines-core", Some("1.6.4"), CoroutinesPom, ApacheLicense),
    MappingEntry("org.jetbrains.kotlin", "kotlin-stdlib-common", Some("1.9.20"), StdlibCommonPom, ApacheLicense)
  ]

  /** `appliesTo(moduleData)`: group and name, whatever the entry's version. */
  predicate AppliesToModule(e: MappingEntry, m: ModuleData) {
    m.group == e.group && m.name == e.name
  }

  /** `appliesTo(importedModuleData)`: the name is `group:name`, and the versions agree when the
      entry has one. */
  predicate AppliesToImported(e: MappingEntry, m: ImportedModuleData) {
    m.name == e.group + ":" + e.name && (e.version.Some? ==> m.version == e.version.value)
  }

  /** The entry's module-data mapper. */
  function RewriteModule(e: MappingEntry, m: ModuleData): (r: ModuleData)
    ensures r.group == m.group && r.name == m.name && r.version == m.version
    ensures r.hasArtifactFile == m.hasArtifactFile && r.manifests == m.manifests && r.licenseFiles == m.licenseFiles
    ensures r.poms == [e.pom]
  {
    ModuleData(m.group, m.name, m.version, m.hasArtifactFile, m.manifests, m.licenseFiles, [e.pom])
  }

  /** The entry's imported-module mapper. */
  function RewriteImported(e: MappingEntry, m: ImportedModuleData): (r: ImportedModuleData)
    ensures r.name == m.name && r.version == m.version && r.projectUrl == m.projectUrl
    ensures r.license == e.license.name && r.licenseUrl == e.license.url
  {
    ImportedModuleData(m.name, m.version, m.projectUrl, e.license.name, e.license.url)
  }

  /** `moduleDataMapper`: the first entry that applies rewrites the module; without one it is
      kept. */
  function ModuleMapper(m: ModuleData): (r: ModuleData)
    ensures r.group == m.group && r.name == m.name && r.version == m.version
    ensures (forall k :: 0 <= k < |MappingEntries| ==> !AppliesToModule(MappingEntries[k], m)) ==> r == m
    ensures forall k :: (0 <= k < |MappingEntries| && AppliesToModule(MappingEntries[k], m) &&
                         forall j :: 0 <= j < k ==> !AppliesToModule(MappingEntries[j], m)) ==>
              r == RewriteModule(MappingEntries[k], m)
  {
    match FirstIndex(MappingEntries, (e: MappingEntry) => AppliesToModule(e, m))
    case None => m
    case Some(k) => RewriteModule(MappingEntries[k], m)
  }

  /** `importedModuleDataMapper`: the first entry that applies rewrites the module; without one
      it is kept. */
  function ImportedMapper(m: ImportedModuleData): (r: ImportedModuleData)
    ensures r.name == m.name && r.version == m.version && r.projectUrl == m.projectUrl
    ensures (forall k :: 0 <= k < |MappingEntries| ==> !AppliesToImported(MappingEntries[k], m)) ==> r == m
    ensures forall k :: (0 <= k < |MappingEntries| && AppliesToImported(MappingEntries[k], m) &&
                         forall j :: 0 <= j < k ==> !AppliesToImported(MappingEntries[j], m)) ==>
              r == RewriteImported(MappingEntries[k], m)
  {
    match FirstIndex(MappingEntries, (e: MappingEntry) => AppliesToImported(e, m))
    case None => m
    case Some(k) => RewriteImported(MappingEntries[k], m)
  }

  /** Every entry's POM carries the entry's license, so both mappers give a module the same one. */
  lemma EntryPomCarriesLicense(k: nat)
    requires k < |MappingEntries|
    ensures MappingEntries[k].pom.licenses == [MappingEntries[k].license]
  {
  }

  /** `antlr-runtime` of `org.antlr` gets the BSD POM, in every version. */
  lemma AntlrModule(m: ModuleData)
    requires m.group == "org.antlr" && m.name == "antlr-runtime"
    ensures ModuleMapper(m) == m.(poms := [AntlrPom])
  {
    assert AppliesToModule(MappingEntries[0], m);
  }

  /** `kotlinx-coroutines-core` gets the Apache POM in every version: the module-data match does
      not look at the entry's version. */
  lemma CoroutinesModule(m: ModuleData)
    requires m.group == "org.jetbrains.kotlinx" && m.name == "kotlinx-coroutines-core"
    ensures ModuleMapper(m) == m.(poms := [CoroutinesPom])
  {
    assert !AppliesToModule(MappingEntries[0], m);
    assert AppliesToModule(MappingEntries[1], m);
  }

  /** `kotlin-stdlib-common` gets the Apache POM in every version. */
  lemma StdlibCommonModule(m: ModuleData)
    requires m.group == "org.jetbrains.kotlin" && m.name == "kotlin-stdlib-common"
    ensures ModuleMapper(m) == m.(poms := [StdlibCommonPom])
  {
    assert !AppliesToModule(MappingEntries[0], m);
    assert !AppliesToModule(MappingEntries[1], m);
    assert AppliesToModule(MappingEntries[2], m);
  }

  /** The imported `org.antlr:antlr-runtime` gets the BSD license, in every version. */
  lemma AntlrImported(m: ImportedModuleData)
    requires m.name == "org.antlr:antlr-runtime"
    ensures ImportedMapper(m) == m.(license := "BSD licence", licenseUrl := "http://antlr.org/license.html")
  {
    assert AppliesToImported(MappingEntries[0], m);
  }

  /** The `group:name` of the coroutines entry. */
  lemma CoroutinesCoordinates()
    ensures "org.jetbrains.kotlinx" + ":" + "kotlinx-coroutines-core" == "org.jetbrains.kotlinx:kotlinx-coroutines-core"
  {
  }

  /** The imported `kotlinx-coroutines-core` gets the Apache license in version 1.6.4 only. */
  lemma CoroutinesImported(m: ImportedModuleData)
    requires m.name == "org.jetbrains.kotlinx:kotlinx-coroutines-core"
    ensures m.version == "1.6.4" ==> ImportedMapper(m) == m.(license := ApacheLicense.name, licenseUrl := ApacheLicense.url)
    ensures m.version != "1.6.4" ==> ImportedMapper(m) == m
  {
    CoroutinesCoordinates();
    assert MappingEntries[1].group == "org.jetbrains.kotlinx" && MappingEntries[1].name == "kotlinx-coroutines-core";
    assert !AppliesToImported(MappingEntries[0], m);
    assert !AppliesToImported(MappingEntries[2], m);
  }

  /** A rewritten module keeps its group and name, so the same entry applies to it again. */
  lemma ModuleMapperIdempotent(m: ModuleData)
    ensures ModuleMapper(ModuleMapper(m)) == ModuleMapper(m)
  {
    var r := ModuleMapper(m);
    assert forall k :: 0 <= k < |MappingEntries| ==> (AppliesToModule(MappingEntries[k], r) <==> AppliesToModule(MappingEntries[k], m));
  }

  /** A rewritten imported module keeps its name and version, so the same entry applies to it
      again. */
  lemma ImportedMapperIdempotent(m: ImportedModuleData)
    ensures ImportedMapper(ImportedMapper(m)) == ImportedMapper(m)
  {
    var r := ImportedMapper(m);
    assert forall k :: 0 <= k < |MappingEntries| ==> (AppliesToImported(MappingEntries[k], r) <==> AppliesToImported(MappingEntries[k], m));
  }

  /**
   * `filter(source)`: every configuration of the source becomes one of the result, with the
   * same name and the images of its modules under the module mapper, and nothing else; every
   * bundle keeps its name, its place and its number of modules, each replaced by its image.
   */
  function Filter(source: ProjectData): (r: ProjectData)
    ensures MappedFrom(r, source, ModuleMapper, ImportedMapper)
  {
    MapProject(source, ModuleMapper, ImportedMapper)
  }

  /** Supplying the missing licenses twice supplies them once. */
  lemma FilterIdempotent(source: ProjectData)
    ensures Filter(Filter(source)) == Filter(source)
  {
    forall m ensures ModuleMapper(ModuleMapper(m)) == ModuleMapper(m) {
      ModuleMapperIdempotent(m);
    }
    forall m ensures ImportedMapper(ImportedMapper(m)) == ImportedMapper(m) {
      ImportedMapperIdempotent(m);
    }
    MapTwice(source, ModuleMapper, ImportedMapper);
  }

  /** A well-formed report in which no entry applies to any module is left as it is. */
  lemma FilterWithoutKnownModules(source: ProjectData)
    requires WellFormed(source)
    requires forall i, j, k :: 0 <= i < |source.configurations| && 0 <= j < |source.configurations[i].dependencies| && 0 <= k < |MappingEntries| ==>
               !AppliesToModule(MappingEntries[k], source.configurations[i].dependencies[j])
    requires forall i, j, k :: 0 <= i < |source.importedModules| && 0 <= j < |source.importedModules[i].modules| && 0 <= k < |MappingEntries| ==>
               !AppliesToImported(MappingEntries[k], source.importedModules[i].modules[j])
    ensures Filter(source) == source
  {
    MapFixing(source, ModuleMapper, ImportedMapper);
  }
}
