/**
 * The dependency-check settings of a project and what they become, after evaluation, in the
 * settings of the OWASP dependency-check plugin: skipping, the suppression file, the
 * configurations to scan and the vulnerability database.
 */
module DependencyCheckExtension {
  import opened Wrappers
  import opened Strings
  import opened Sequences

  /** The suppression file's name in the project directory. */
  const DefaultSuppressionFileName: string := "dependency-check-suppression.xml"

  /** The project properties that select an external vulnerability database. */
  const DbConnectionProperty: string := "DEPENDENCY_CHECK_DB_CONNECTION"
  const DbDriverProperty: string := "DEPENDENCY_CHECK_DB_DRIVER"
  const DbUserProperty: string := "DEPENDENCY_CHECK_DB_USER"
  const DbPasswordProperty: string := "DEPENDENCY_CHECK_DB_PASSWORD"

  /** The report formats: HTML and JUnit. */
  const ReportFormats: seq<string> := ["HTML", "JUNIT"]

  /** A configuration whose dependencies are scanned: the metadata of a production `api`,
      `implementation` or `runtimeOnly` configuration, in any source set but the test ones. */
  predicate IsScanConfiguration(name: string) {
    && !StartsWith(name, "test")
    && Contains(name, "DependenciesMetadata")
    && (|| StartsWith(name, "api")
        || StartsWith(name, "implementation")
        || StartsWith(name, "runtimeOnly")
        || Contains(name, "Api")
        || Contains(name, "Implementation")
        || Contains(name, "RuntimeOnly"))
  }

  /** `scanConfigurations`: the names of the configurations to scan, in the order of the
      project's configurations. */
  function ScanConfigurations(names: seq<string>): (r: seq<string>)
    ensures IsSubsequence(r, names)
    ensures forall i :: 0 <= i < |names| ==> (names[i] in r <==> IsScanConfiguration(names[i]))
    ensures forall j :: 0 <= j < |r| ==> IsScanConfiguration(r[j])
  {
    Filter(names, IsScanConfiguration)
  }

  /** Selecting the configurations to scan among selected ones keeps them all. */
  lemma ScanConfigurationsIdempotent(names: seq<string>)
    ensures ScanConfigurations(ScanConfigurations(names)) == ScanConfigurations(names)
  {
    FilterKeepsAll(ScanConfigurations(names), IsScanConfiguration);
  }

  /** `dependencyCheckAnalyze` runs only when the check is not skipped. */
  function AnalyzeRuns(skip: bool): (r: bool)
    ensures r <==> !skip
  {
    !skip
  }

  /** The analysis runs exactly when the `afterEvaluate` block logs no "disabled" warning:
      both read the same `skip`. */
  lemma AnalyzeRunsUnlessDisabled(skip: bool, suppressionFile: string, suppressionFileExists: bool,
                                  properties: map<string, string>)
    ensures AnalyzeRuns(skip) <==> Disabled !in DependencyCheckWarnings(skip, suppressionFile, suppressionFileExists, properties)
  {
  }

  /** The `data { … }` settings of the database: each unset, or set to a property's value
      (`null` when the property is absent). */
  datatype DataSettings = DataSettings(
    driver: Option<Option<string>>,
    connectionString: Option<Option<string>>,
    username: Option<Option<string>>,
    password: Option<Option<string>>)

  /** The settings of the OWASP dependency-check plugin that this project writes. */
  class AnalyzerSettings {
    var skip: bool
    var formats: seq<string>
    var suppressionFile: Option<string>
    var scanConfigurations: seq<string>
    var autoUpdate: Option<bool>
    var data: DataSettings

    /** The plugin's settings before this project writes them. */
    constructor ()
      ensures !skip && formats == [] && suppressionFile.None? && scanConfigurations == []
      ensures autoUpdate.None? && data == DataSettings(None, None, None, None)
    {
      skip := false;
      formats := [];
      suppressionFile := None;
      scanConfigurations := [];
      autoUpdate := None;
      data := DataSettings(None, None, None, None);
    }
  }

  /** `DependencyCheckExtension`: whether to skip the check and where the suppression file is. */
  class DependencyCheckExtension {
    var skip: bool
    var suppressionFile: string

    /** The conventions: not skipped, the suppression file in the project directory. */
    constructor (projectDirectory: string)
      ensures !skip
      ensures suppressionFile == projectDirectory + "/" + DefaultSuppressionFileName
    {
      skip := false;
      suppressionFile := projectDirectory + "/" + DefaultSuppressionFileName;
    }
  }

  /** A project property's value, `null` when the project has no such property. */
  function Property(properties: map<string, string>, name: string): (r: Option<string>)
    ensures r.Some? <==> name in properties
    ensures r.Some? ==> r.value == properties[name]
  {
    if name in properties then Some(properties[name]) else None
  }

  /** The database settings written when an external database is configured: driver and
      connection always, user name and password only when their properties exist. */
  function ExternalData(current: DataSettings, properties: map<string, string>): (r: DataSettings)
    ensures r.driver == Some(Property(properties, DbDriverProperty))
    ensures r.connectionString == Some(Property(properties, DbConnectionProperty))
    ensures DbUserProperty in properties ==> r.username == Some(Some(properties[DbUserProperty]))
    ensures DbUserProperty !in properties ==> r.username == current.username
    ensures DbPasswordProperty in properties ==> r.password == Some(Some(properties[DbPasswordProperty]))
    ensures DbPasswordProperty !in properties ==> r.password == current.password
  {
    DataSettings(
      Some(Property(properties, DbDriverProperty)),
      Some(Property(properties, DbConnectionProperty)),
      if DbUserProperty in properties then Some(Property(properties, DbUserProperty)) else current.username,
      if DbPasswordProperty in properties then Some(Property(properties, DbPasswordProperty)) else current.password)
  }

  /** Writing the external database settings a second time changes nothing. */
  lemma ExternalDataIdempotent(current: DataSettings, properties: map<string, string>)
    ensures ExternalData(ExternalData(current, properties), properties) == ExternalData(current, properties)
  {
  }

  /** A warning the `afterEvaluate` block logs. */
  datatype Warning =
    | Disabled
    | SuppressionApplied(suppressionFile: string)
    | ExternalDatabase(connection: string)
    | DefaultDatabase
  {
    /** The logged text. */
    function Text(): string {
      match this
      case Disabled => "dependencyCheck is disabled!"
      case SuppressionApplied(file) => "dependencyCheck suppression file " + file + " is being applied"
      case ExternalDatabase(connection) =>
        "dependencyCheck uses " + connection + " instead of default in-mem-db (=> autoUpdate is deactivated!)"
      case DefaultDatabase => "dependencyCheck using default settings for data"
    }
  }

  /** The warnings of the `afterEvaluate` block, in order: a skipped check, an applied
      suppression file, and which database is used. */
  function DependencyCheckWarnings(skip: bool, suppressionFile: string, suppressionFileExists: bool, properties: map<string, string>): (r: seq<Warning>)
    ensures |r| == (if skip then 1 else 0) + (if suppressionFileExists then 1 else 0) + 1
    ensures skip <==> Disabled in r
    ensures suppressionFileExists <==> SuppressionApplied(suppressionFile) in r
    ensures r[|r| - 1] == if DbConnectionProperty in properties then ExternalDatabase(properties[DbConnectionProperty]) else DefaultDatabase
  {
    (if skip then [Disabled] else [])
    + (if suppressionFileExists then [SuppressionApplied(suppressionFile)] else [])
    + [if DbConnectionProperty in properties then ExternalDatabase(properties[DbConnectionProperty]) else DefaultDatabase]
  }

  /**
   * The `afterEvaluate` block: copies the settings into the plugin's and returns the warnings it
   * logs. Whether the suppression file exists and the names of the project's configurations are
   * given.
   */
  method AfterEvaluate(extension: DependencyCheckExtension, analyzer: AnalyzerSettings, suppressionFileExists: bool,
                       configurationNames: seq<string>, properties: map<string, string>)
    returns (warnings: seq<Warning>)
    modifies analyzer
    ensures analyzer.skip == extension.skip
    ensures AnalyzeRuns(extension.skip) <==> !analyzer.skip
    ensures analyzer.formats == ReportFormats
    ensures analyzer.suppressionFile == if suppressionFileExists then Some(extension.suppressionFile) else old(analyzer.suppressionFile)
    ensures analyzer.scanConfigurations == ScanConfigurations(configurationNames)
    ensures analyzer.autoUpdate == if DbConnectionProperty in properties then Some(false) else old(analyzer.autoUpdate)
    ensures analyzer.data == if DbConnectionProperty in properties then ExternalData(old(analyzer.data), properties) else old(analyzer.data)
    ensures warnings == DependencyCheckWarnings(extension.skip, extension.suppressionFile, suppressionFileExists, properties)
  {
    var skipped := if extension.skip then [Disabled] else [];
    analyzer.skip := extension.skip;
    analyzer.formats := ReportFormats;
    var suppression := [];
    if suppressionFileExists {
      suppression := [SuppressionApplied(extension.suppressionFile)];
      analyzer.suppressionFile := Some(extension.suppressionFile);
    }
    analyzer.scanConfigurations := ScanConfigurations(configurationNames);
    var database;
    if DbConnectionProperty in properties {
      database := ExternalDatabase(properties[DbConnectionProperty]);
      analyzer.autoUpdate := Some(false);
      analyzer.data := ExternalData(analyzer.data, properties);
    } else {
      database := DefaultDatabase;
    }
    warnings := skipped + suppression + [database];
  }
}
