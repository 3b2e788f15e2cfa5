/**
 * The filter that gives `org.antlr:antlr-runtime`, in every version, the BSD licence.
 */
module AntlrRuntimeFilter {
  import opened ProjectModel
  import Table = MissingModuleDataDependencyFilter

  /** `hasArtifactFile` of a `ModuleData` built without one, as the filter builds it. */
  const DefaultHasArtifactFile := false

  /** The module the filter rewrites: group and name, in every version. */
  predicate Applies(m: ModuleData) {
    m.group == "org.antlr" && m.name == "antlr-runtime"
  }

  /** The imported module the filter rewrites: by name, in every version. */
  predicate AppliesImported(m: ImportedModuleData) {
    m.name == "org.antlr:antlr-runtime"
  }

  /** The rewrite of a module: identity and files kept, the POMs replaced by the one POM of
      the antlr runtime; every other module is kept as it is. */
  function ModuleMapper(m: ModuleData): (r: ModuleData)
    ensures Applies(m) ==> r.group == m.group && r.name == m.name && r.version == m.version
    ensures Applies(m) ==> r.manifests == m.manifests && r.licenseFiles == m.licenseFiles
    ensures Applies(m) ==> r.poms == [Table.AntlrPom] && r.hasArtifactFile == DefaultHasArtifactFile
    ensures !Applies(m) ==> r == m
  {
    if Applies(m) then ModuleData(m.group, m.name, m.version, DefaultHasArtifactFile, m.manifests, m.licenseFiles, [Table.AntlrPom])
    else m
  }

  /** The rewrite of an imported module: name, version and project URL kept, the license set;
      every other module is kept as it is. */
  function ImportedMapper(m: ImportedModuleData): (r: ImportedModuleData)
    ensures AppliesImported(m) ==> r.name == m.name && r.version == m.version && r.projectUrl == m.projectUrl
    ensures AppliesImported(m) ==> r.license == Table.BsdLicense.name && r.licenseUrl == Table.BsdLicense.url
    ensures !AppliesImported(m) ==> r == m
  {
    if AppliesImported(m) then ImportedModuleData(m.name, m.version, m.projectUrl, Table.BsdLicense.name, Table.BsdLicense.url)
    else m
  }

  /** `filter(source)`: every module of every configuration and bundle replaced by its rewrite. */
  function Filter(source: ProjectData): (r: ProjectData)
    ensures MappedFrom(r, source, ModuleMapper, ImportedMapper)
  {
    MapProject(source, ModuleMapper, ImportedMapper)
  }

  /** A rewritten module keeps what the filter looks at, and is rewritten to itself. */
  lemma ModuleMapperIdempotent(m: ModuleData)
    ensures ModuleMapper(ModuleMapper(m)) == ModuleMapper(m)
  {
    if Applies(m) {
      assert Applies(ModuleMapper(m));
    }
  }

  /** Filtering twice filters once. */
  lemma FilterIdempotent(source: ProjectData)
    ensures Filter(Filter(source)) == Filter(source)
  {
    forall m ensures ModuleMapper(ModuleMapper(m)) == ModuleMapper(m) {
      ModuleMapperIdempotent(m);
    }
    MapTwice(source, ModuleMapper, ImportedMapper);
  }

  /** A well-formed report without the module is left as it is. */
  lemma FilterWithoutModule(source: ProjectData)
    requires WellFormed(source)
    requires forall i, j :: 0 <= i < |source.configurations| && 0 <= j < |source.configurations[i].dependencies| ==>
               !Applies(source.configurations[i].dependencies[j])
    requires forall i, j :: 0 <= i < |source.importedModules| && 0 <= j < |source.importedModules[i].modules| ==>
               !AppliesImported(source.importedModules[i].modules[j])
    ensures Filter(source) == source
  {
    MapFixing(source, ModuleMapper, ImportedMapper);
  }

  /** On the module it rewrites, the filter agrees with the table of missing module data, up
      to `hasArtifactFile`, which the table's mapper keeps. */
  lemma AgreesWithTable(m: ModuleData)
    requires Applies(m)
    ensures ModuleMapper(m) == Table.ModuleMapper(m).(hasArtifactFile := DefaultHasArtifactFile)
  {
    Table.AntlrModule(m);
  }

  /** On the imported module it rewrites, the filter agrees with the table of missing module
      data. */
  lemma ImportedAgreesWithTable(m: ImportedModuleData)
    requires AppliesImported(m)
    ensures ImportedMapper(m) == Table.ImportedMapper(m)
  {
    Table.AntlrImported(m);
  }
}
