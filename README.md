# Quality-check Gradle plugin, modelled in Dafny

This project models the logic of the quality-check Gradle plugin. The plugin combines three checks.

- **License check.** Every dependency must carry an allowed license, except the dependencies the
  project owns and the ones white-listed until a given instant. The model covers:
  - the `licenseCheck` extension and its white-list builder;
  - the expiry of white-listed dependencies;
  - the dependency filters that remove white-listed modules or fill in licenses for modules that
    publish none;
  - the allowed-licenses file and the JUnit report of the license check.
- **Dependency check (OWASP).** The `dependencyCheck` extension chooses the configurations to scan,
  the report formats, the suppression file and the external database settings. The model covers
  three suppression-file tasks:
  - *generate* writes entries for failing vulnerabilities and carries still-skipped entries forward;
  - *update* re-stamps expiry dates;
  - *check* rejects entries with neither a false-positive note nor an expiry within a year.

  It also covers the XML text of a suppression file and the reading of it, with the ISO date
  parser used for the `until` attribute, and the package-URL-to-module conversion. The file
  readers use that parser as it is written, including the defect listed under Findings.
- **SonarQube.** The `sonarQube` extension's edition convention and the rule that skips the
  analysis of pull-request builds on a Community Edition server.

Values are datatypes and pure functions. Where the plugin updates objects in place, the model uses
classes with `modifies` clauses: the extensions, the white-list builder and the Sonar plugin's
extension. Loops that build text (`buildString`, `groupBy`) are methods proved against the
functions that specify them.

Representation choices:

- Instants are whole seconds since the epoch.
- A zoned date-time is an instant, the offset in force (in seconds) and its zone. The zone is
  either that offset itself or a named region such as `UTC`, whose rules are taken to give a fixed
  offset. The zone id takes part in the order of expiries.
- A Kotlin `Set` built by `toSet()` is a sequence without duplicates, kept in first-occurrence
  order.
- A `Regex` is an object with identity, a pattern text and a match predicate. The identity matters
  because the white-list builder keys its map by regex object.
- The XML documents read and written are a small node tree (`Xml.Node`).

The written text of a suppression file is proved equal to the rendering of its tree. The tree is
proved to read back as the entries that were written.

## Model

| member | source | states |
|---|---|---|
| StringUtil.MatchGroups | src/main/kotlin/io/github/woolph/gradle/dependencycheck/suppression/StringUtil.kt:4 | a match splits the text into `pkg:maven/`, group, `/`, name, `@`, version |
| StringUtil.ToModuleStringIff | src/main/kotlin/io/github/woolph/gradle/dependencycheck/suppression/StringUtil.kt:4-9 | `toModuleString` gives a value exactly when the text starts with `pkg:maven/`, has no line terminator after it, and has a `/` with an `@` after it |
| StringUtil.ToModuleStringOfParts | src/main/kotlin/io/github/woolph/gradle/dependencycheck/suppression/StringUtil.kt:6-8 | `pkg:maven/g/n@v` becomes `g:n:v` whenever the name has no `/` and the version no `@` (the group may hold `/`) |
| StringUtil.TailGroupsOfParts | src/main/kotlin/io/github/woolph/gradle/dependencycheck/suppression/StringUtil.kt:4 | the greedy groups split at the last `/` before the last `@` |
| IsoDateTime.ParseToZonedDateTimeAsWritten | src/main/kotlin/io/github/woolph/gradle/dependencycheck/suppression/SuppressionEntry.kt:52-75 | the parser as written only yields local midnight |
| IsoDateTime.AsWrittenRejectsTimeOfDay | src/main/kotlin/io/github/woolph/gradle/dependencycheck/suppression/SuppressionEntry.kt:52-67 | the parser as written rejects every date with a non-midnight `THH:mm`; the corrected parser reads it at that time in UTC |
| IsoDateTime.AsWrittenRejectsHalfPastTen | src/main/kotlin/io/github/woolph/gradle/dependencycheck/suppression/SuppressionEntry.kt:52-67 | `2024-05-01T10:30` is rejected as written and read as 10:30 UTC by the corrected parser |
| IsoDateTime.AsWrittenAgreesWithIntended | src/main/kotlin/io/github/woolph/gradle/dependencycheck/suppression/SuppressionEntry.kt:71-75 | wherever the parser as written succeeds, the corrected one gives the same instant and zone |
| IsoDateTime.ParseDateOnly | src/main/kotlin/io/github/woolph/gradle/dependencycheck/suppression/SuppressionEntry.kt:69-75 | a bare ISO date is read as the start of that day in the region zone `UTC`, the default zone |
| IsoDateTime.ParseFormatIsoDate | src/main/kotlin/io/github/woolph/gradle/dependencycheck/suppression/SuppressionEntry.kt:27 | the `until` text (`ISO_DATE` of the expiry) reads back, by either parser, as the expiry truncated to its day at its offset, with that offset as the zone |
| IsoDateTime.TruncatedToDay | src/main/kotlin/io/github/woolph/gradle/dependencycheck/suppression/SuppressionEntry.kt:27 | the written date keeps the offset and local date; its instant is at most one day earlier |
| IsoDateTime.TruncatedToDayMonotone | src/main/kotlin/io/github/woolph/gradle/dependencycheck/suppression/SuppressionEntry.kt:85 | truncation to the day keeps the order of expiries |
| IsoDateTime.NotAfterIsTotalOrder | src/main/kotlin/io/github/woolph/gradle/dependencycheck/suppression/SuppressionEntry.kt:50 | `compareTo` is a total order on expiries: by instant, then by offset, then by zone id as text |
| IsoDateTime.RegionUtcBeforeOffsetZ | src/main/kotlin/io/github/woolph/gradle/dependencycheck/suppression/SuppressionEntry.kt:69-75 | at one instant and offset, a date read without an offset (zone `UTC`) sorts strictly before one read with `Z` (zone `Z`) |
| IsoDateTime.ResolveDateStrict | src/main/kotlin/io/github/woolph/gradle/licensecheck/LicenseCheckExtension.kt:105 | `Instant.parse` accepts exactly the existing dates of the supported years |
| IsoDateTime.ResolveDateSmart | src/main/kotlin/io/github/woolph/gradle/dependencycheck/suppression/SuppressionEntry.kt:59 | the ISO local date keeps year and month, and keeps the day whenever the month has it |
| IsoDateTime.ParseFormatUtc | src/main/kotlin/io/github/woolph/gradle/licensecheck/LicenseCheckExtension.kt:105 | `Instant.parse` reads `yyyy-MM-ddTHH:mm:ssZ` as that second |
| IsoDateTime.ParseInstantIgnoresCase | src/main/kotlin/io/github/woolph/gradle/licensecheck/LicenseCheckExtension.kt:105 | texts that differ only in the case of `T` and `Z` give the same instant, or both fail |
| IsoDateTime.ParseFormatInstant | src/main/kotlin/io/github/woolph/gradle/licensecheck/WhiteListedDependency.kt:15-16 | the ISO text of an instant parses back to the same instant |
| Suppression.VulnerabilityFrom | src/main/kotlin/io/github/woolph/gradle/dependencycheck/suppression/SuppressionEntry.kt:114 | an element named after a vulnerability kind gives that vulnerability, with its text content; other nodes give none |
| Suppression.NewEntry | src/main/kotlin/io/github/woolph/gradle/dependencycheck/suppression/SuppressionEntry.kt:17-23 | the defaults of an entry: no notes, no expiry, package URL as a pattern |
| Suppression.ReindentIdempotent | src/main/kotlin/io/github/woolph/gradle/dependencycheck/suppression/SuppressionEntry.kt:34 | re-indenting the lines of a note twice changes nothing more than once |
| Suppression.NotesContentIdempotent | src/main/kotlin/io/github/woolph/gradle/dependencycheck/suppression/SuppressionEntry.kt:34 | the written note content, trimmed and re-indented, is a fixed point |
| Suppression.TrimCData | src/main/kotlin/io/github/woolph/gradle/dependencycheck/suppression/SuppressionEntry.kt:33-35 | trimming the CDATA text of a written note gives back the note content |
| Suppression.AsXmlTag | src/main/kotlin/io/github/woolph/gradle/dependencycheck/suppression/SuppressionEntry.kt:24-47 | the `buildString` loop yields the tag text line by line |
| Suppression.XmlTagRenders | src/main/kotlin/io/github/woolph/gradle/dependencycheck/suppression/SuppressionEntry.kt:24-47 | the tag text is the indented rendering of the `suppress` element tree |
| Suppression.ReadUntil | src/main/kotlin/io/github/woolph/gradle/dependencycheck/suppression/SuppressionEntry.kt:98-101 | an absent `until` gives no expiry; otherwise the expiry is what the plugin's parser, as written, reads, and the read fails exactly where that parser throws |
| Suppression.ReadUntilRejectsTimeOfDay | src/main/kotlin/io/github/woolph/gradle/dependencycheck/suppression/SuppressionEntry.kt:98-101 | an `until` with a `THH:mm` time other than midnight fails the read |
| Suppression.EntryOf | src/main/kotlin/io/github/woolph/gradle/dependencycheck/suppression/SuppressionEntry.kt:102-121 | an element gives an entry exactly when it has a `packageUrl` child, with the expiry read |
| Suppression.ParseSuppression | src/main/kotlin/io/github/woolph/gradle/dependencycheck/suppression/SuppressionEntry.kt:97-122 | an element is read as its `until` and its entry; it fails exactly when the parser as written rejects the `until` |
| Suppression.ParsedEntry | src/main/kotlin/io/github/woolph/gradle/dependencycheck/suppression/SuppressionEntry.kt:102-121 | the fields of a read entry come from the first `packageUrl` and `notes` children, the `regex` attribute and the vulnerability children |
| Suppression.ParseKeepsBareEntry | src/main/kotlin/io/github/woolph/gradle/dependencycheck/suppression/SuppressionEntry.kt:111-117 | a `suppress` with a plain `packageUrl` and nothing else is kept, with `packageUrlPattern` false |
| Suppression.ReadWrittenUntil | src/main/kotlin/io/github/woolph/gradle/dependencycheck/suppression/SuppressionEntry.kt:27 | the written `until` reads back as the expiry truncated to its day in the target zone |
| Suppression.ParseSuppressNode | src/main/kotlin/io/github/woolph/gradle/dependencycheck/suppression/SuppressionEntry.kt:24-47 | a written entry reads back as `Reread` of it: fields kept, note content normalised, expiry truncated |
| Suppression.XmlTagOfReread | src/main/kotlin/io/github/woolph/gradle/dependencycheck/suppression/SuppressionEntry.kt:24-47 | writing a re-read entry gives the same text as writing the entry |
| SuppressionFile.KeyNotAfterIsTotalOrder | src/main/kotlin/io/github/woolph/gradle/dependencycheck/suppression/SuppressionEntry.kt:85 | `sortedBy { suppressUntil }` orders by a total order with no expiry first and `compareTo` on the rest, zone ids included |
| SuppressionFile.SortByUntil | src/main/kotlin/io/github/woolph/gradle/dependencycheck/suppression/SuppressionEntry.kt:85 | sorting is a permutation of the entries |
| SuppressionFile.SortSorted | src/main/kotlin/io/github/woolph/gradle/dependencycheck/suppression/SuppressionEntry.kt:85 | the sorted entries are ordered by expiry |
| SuppressionFile.SortStable | src/main/kotlin/io/github/woolph/gradle/dependencycheck/suppression/SuppressionEntry.kt:85 | sorting is stable: entries with the same expiry keep their relative order |
| SuppressionFile.SortOfSorted | src/main/kotlin/io/github/woolph/gradle/dependencycheck/suppression/SuppressionEntry.kt:85 | sorting an already sorted sequence changes nothing |
| SuppressionFile.WriteTo | src/main/kotlin/io/github/woolph/gradle/dependencycheck/suppression/SuppressionEntry.kt:79-93 | the loop yields the declaration, the root line, each sorted entry's tag and a blank line, and the closing line |
| SuppressionFile.FileTextRenders | src/main/kotlin/io/github/woolph/gradle/dependencycheck/suppression/SuppressionEntry.kt:79-93 | the file text is the declaration followed by the rendering of the document tree |
| SuppressionFile.ParseNodes | src/main/kotlin/io/github/woolph/gradle/dependencycheck/suppression/SuppressionEntry.kt:95-124 | reading the children fails exactly when one has an `until` that the parser as written rejects |
| SuppressionFile.ParseWrittenFile | src/main/kotlin/io/github/woolph/gradle/dependencycheck/suppression/SuppressionEntry.kt:79-124 | a written file reads back as its entries sorted by expiry, each re-read |
| SuppressionFile.FileTextOfRereads | src/main/kotlin/io/github/woolph/gradle/dependencycheck/suppression/SuppressionEntry.kt:79-93 | writing what was read back gives the same file text |
| CheckSuppressionFile.FindFalsePositive | src/main/kotlin/io/github/woolph/gradle/dependencycheck/suppression/CheckSuppressionFileTask.kt:36 | the first position from which `false[\s-_]positive` matches ignoring case, or none |
| CheckSuppressionFile.ContainsFalsePositiveIff | src/main/kotlin/io/github/woolph/gradle/dependencycheck/suppression/CheckSuppressionFileTask.kt:36 | `contains` holds exactly when the pattern matches at some position |
| CheckSuppressionFile.FlaggedAnywhere | src/main/kotlin/io/github/woolph/gradle/dependencycheck/suppression/CheckSuppressionFileTask.kt:36 | `false` and `positive` in any letter case, with a separator between them, flag a note anywhere |
| CheckSuppressionFile.FalsePositiveNeedsSeparator | src/main/kotlin/io/github/woolph/gradle/dependencycheck/suppression/CheckSuppressionFileTask.kt:36 | `falsepositive` without a separator does not match |
| CheckSuppressionFile.DefaultMaxSuppressUntil | src/main/kotlin/io/github/woolph/gradle/dependencycheck/suppression/CheckSuppressionFileTask.kt:34 | the default limit is 365 days later, at the same local time and offset |
| CheckSuppressionFile.InappropriateEntries | src/main/kotlin/io/github/woolph/gradle/dependencycheck/suppression/CheckSuppressionFileTask.kt:46-52 | keeps, in order, exactly the entries with neither a false-positive note nor an expiry before the limit |
| CheckSuppressionFile.InappropriateBoundary | src/main/kotlin/io/github/woolph/gradle/dependencycheck/suppression/CheckSuppressionFileTask.kt:49-50 | an entry without notes and without expiry is inappropriate; one expiring exactly at the limit is inappropriate too |
| CheckSuppressionFile.ErrorLine | src/main/kotlin/io/github/woolph/gradle/dependencycheck/suppression/CheckSuppressionFileTask.kt:55-57 | the error names the entry's package URL after a fixed prefix |
| CheckSuppressionFile.CheckSuppression | src/main/kotlin/io/github/woolph/gradle/dependencycheck/suppression/CheckSuppressionFileTask.kt:40-63 | no file passes; a file the plugin's parser rejects (an `until` with a time other than midnight, for one) fails to read; otherwise the Gradle task fails exactly when an entry is inappropriate, logging one error per such entry |
| CheckSuppressionFile.CheckEntries | src/main/kotlin/io/github/woolph/gradle/dependencycheck/suppression/CheckSuppressionFileTask.kt:46-61 | on read entries the Gradle task fails exactly when not all are appropriate, with the errors of the inappropriate ones |
| CheckSuppressionFile.ExpiringWithinAYearPasses | src/main/kotlin/io/github/woolph/gradle/dependencycheck/suppression/CheckSuppressionFileTask.kt:34-50 | an entry expiring less than 365 days from now passes the default check |
| GenerateSuppressionFile.ToInt | src/main/kotlin/io/github/woolph/gradle/dependencycheck/suppression/GenerateSuppressionFileTask.kt:60 | `toInt` accepts exactly the optionally signed ASCII decimal text within the 32-bit range |
| GenerateSuppressionFile.ToIntOfIntText | src/main/kotlin/io/github/woolph/gradle/dependencycheck/suppression/GenerateSuppressionFileTask.kt:60 | the decimal text of a number reads back exactly when the number fits in 32 bits |
| GenerateSuppressionFile.CountedSuites | src/main/kotlin/io/github/woolph/gradle/dependencycheck/suppression/GenerateSuppressionFileTask.kt:59-60 | keeps, in order, exactly the suites whose count is positive; fails when a count is not an integer |
| GenerateSuppressionFile.Note | src/main/kotlin/io/github/woolph/gradle/dependencycheck/suppression/GenerateSuppressionFileTask.kt:64-67 | the note is the first `skipped` child's `message`, otherwise the placeholder with the NVD link |
| GenerateSuppressionFile.NewEntryOf | src/main/kotlin/io/github/woolph/gradle/dependencycheck/suppression/GenerateSuppressionFileTask.kt:61-76 | a testcase gives an entry exactly when it has a `classname`, with its name or `unknown`, one vulnerability by name, the note, the cutoff, and a plain URL |
| GenerateSuppressionFile.NewEntries | src/main/kotlin/io/github/woolph/gradle/dependencycheck/suppression/GenerateSuppressionFileTask.kt:57-79 | one new entry per testcase with a `classname`, in order |
| GenerateSuppressionFile.NewEntriesShape | src/main/kotlin/io/github/woolph/gradle/dependencycheck/suppression/GenerateSuppressionFileTask.kt:69-75 | every new entry suppresses one vulnerability by name until the cutoff, with a note |
| GenerateSuppressionFile.SkippedVulnerabilities | src/main/kotlin/io/github/woolph/gradle/dependencycheck/suppression/GenerateSuppressionFileTask.kt:82-91 | the skipped list fails exactly when a `skipped` count is not an integer |
| GenerateSuppressionFile.Narrowed | src/main/kotlin/io/github/woolph/gradle/dependencycheck/suppression/GenerateSuppressionFileTask.kt:99 | keeps, in order, exactly the vulnerabilities whose name is skipped |
| GenerateSuppressionFile.NarrowedNonEmpty | src/main/kotlin/io/github/woolph/gradle/dependencycheck/suppression/GenerateSuppressionFileTask.kt:96-100 | the narrowed list is non-empty exactly when the entry passed the `any` filter |
| GenerateSuppressionFile.StillSkippedEntries | src/main/kotlin/io/github/woolph/gradle/dependencycheck/suppression/GenerateSuppressionFileTask.kt:96-98 | keeps, in order, exactly the entries with a skipped vulnerability |
| GenerateSuppressionFile.Carry | src/main/kotlin/io/github/woolph/gradle/dependencycheck/suppression/GenerateSuppressionFileTask.kt:98-104 | an entry is carried exactly when still skipped, with its vulnerabilities narrowed and its expiry re-stamped |
| GenerateSuppressionFile.CarriedEntries | src/main/kotlin/io/github/woolph/gradle/dependencycheck/suppression/GenerateSuppressionFileTask.kt:96-105 | one carried entry per still-skipped entry, in order |
| GenerateSuppressionFile.CarriedEntriesShape | src/main/kotlin/io/github/woolph/gradle/dependencycheck/suppression/GenerateSuppressionFileTask.kt:96-105 | every carried entry keeps a non-empty set of skipped vulnerabilities |
| GenerateSuppressionFile.GeneratedEntries | src/main/kotlin/io/github/woolph/gradle/dependencycheck/suppression/GenerateSuppressionFileTask.kt:53-110 | the written entries are the carried ones followed by the new ones; the Gradle task fails exactly on a bad count or a previous file the parser as written rejects |
| GenerateSuppressionFile.GenerateSuppression | src/main/kotlin/io/github/woolph/gradle/dependencycheck/suppression/GenerateSuppressionFileTask.kt:110-111 | the file text is the suppression-file text of the generated entries |
| GenerateSuppressionFile.GeneratedWithoutOriginal | src/main/kotlin/io/github/woolph/gradle/dependencycheck/suppression/GenerateSuppressionFileTask.kt:81-108 | without a previous file, every written entry is a new one |
| GenerateSuppressionFile.GeneratedFileReadsBack | src/main/kotlin/io/github/woolph/gradle/dependencycheck/suppression/GenerateSuppressionFileTask.kt:110-111 | the generated file reads back as its entries sorted by expiry |
| UpdateSuppressionFile.Restamp | src/main/kotlin/io/github/woolph/gradle/dependencycheck/suppression/UpdateSuppressionFileTask.kt:53 | no expiry stays none; an expiry becomes the cutoff when one is given and is kept otherwise |
| UpdateSuppressionFile.RestampIdempotent | src/main/kotlin/io/github/woolph/gradle/dependencycheck/suppression/UpdateSuppressionFileTask.kt:53 | re-stamping twice equals re-stamping once |
| UpdateSuppressionFile.Updated | src/main/kotlin/io/github/woolph/gradle/dependencycheck/suppression/UpdateSuppressionFileTask.kt:53 | `copy` changes only the expiry |
| UpdateSuppressionFile.UpdateAll | src/main/kotlin/io/github/woolph/gradle/dependencycheck/suppression/UpdateSuppressionFileTask.kt:51-54 | every entry is updated, in order |
| UpdateSuppressionFile.UpdateWithoutCutoff | src/main/kotlin/io/github/woolph/gradle/dependencycheck/suppression/UpdateSuppressionFileTask.kt:49-53 | without a cutoff the entries are unchanged |
| UpdateSuppressionFile.UpdateIdempotent | src/main/kotlin/io/github/woolph/gradle/dependencycheck/suppression/UpdateSuppressionFileTask.kt:51-54 | updating twice equals updating once |
| UpdateSuppressionFile.UpdateSuppression | src/main/kotlin/io/github/woolph/gradle/dependencycheck/suppression/UpdateSuppressionFileTask.kt:45-56 | no file means nothing written; a file the parser as written rejects fails; otherwise the text of the updated entries is written |
| UpdateSuppressionFile.UpdatedFileReadsBack | src/main/kotlin/io/github/woolph/gradle/dependencycheck/suppression/UpdateSuppressionFileTask.kt:51-54 | the updated file reads back as the updated entries, sorted and re-read |
| UpdateSuppressionFile.UpdateTwice | src/main/kotlin/io/github/woolph/gradle/dependencycheck/suppression/UpdateSuppressionFileTask.kt:45-56 | running the Gradle task on its own output with the same cutoff writes the same text again |
| WhiteListedDependencies.Forever | src/main/kotlin/io/github/woolph/gradle/licensecheck/WhiteListedDependency.kt:7-9 | the default expiry keeps an entry valid at every instant up to the distant future |
| WhiteListedDependencies.ExpiryBoundary | src/main/kotlin/io/github/woolph/gradle/licensecheck/WhiteListedDependency.kt:11-13 | an entry is valid at its expiry instant and expired one second later |
| WhiteListedDependencies.ExpiredStaysExpired | src/main/kotlin/io/github/woolph/gradle/licensecheck/WhiteListedDependency.kt:11-13 | once expired, an entry stays expired |
| WhiteListedDependencies.ToTextDistinguishesExpiry | src/main/kotlin/io/github/woolph/gradle/licensecheck/WhiteListedDependency.kt:15-16 | two entries with the same pattern print alike exactly when their expiries are equal |
| ProjectModel.Retained | src/main/kotlin/io/github/woolph/gradle/licensecheck/WhiteListedDependencyFilter.kt:22-26 | a filtered configuration keeps its name and exactly the kept modules, without duplicates |
| ProjectModel.RetainedBundle | src/main/kotlin/io/github/woolph/gradle/licensecheck/WhiteListedDependencyFilter.kt:29-32 | a filtered bundle keeps its name and, in order, exactly the kept modules |
| ProjectModel.RetainProject | src/main/kotlin/io/github/woolph/gradle/licensecheck/WhiteListedDependencyFilter.kt:18-34 | a filtered project relates to its source configuration by configuration and bundle by bundle |
| ProjectModel.RetainTwice | src/main/kotlin/io/github/woolph/gradle/licensecheck/WhiteListedDependencyFilter.kt:18-34 | filtering by the same predicates twice equals filtering once |
| ProjectModel.RetainEverything | src/main/kotlin/io/github/woolph/gradle/licensecheck/WhiteListedDependencyFilter.kt:18-34 | keeping everything leaves a well-formed project unchanged |
| ProjectModel.Mapped | src/main/kotlin/io/github/woolph/gradle/licensecheck/MissingModuleDataDependencyFilter.kt:16-21 | a mapped configuration keeps its name and holds exactly the images of its modules, without duplicates |
| ProjectModel.MappedBundle | src/main/kotlin/io/github/woolph/gradle/licensecheck/MissingModuleDataDependencyFilter.kt:24-29 | a mapped bundle keeps its name and maps each module in place |
| ProjectModel.MapProject | src/main/kotlin/io/github/woolph/gradle/licensecheck/MissingModuleDataDependencyFilter.kt:12-31 | a mapped project relates to its source configuration by configuration and bundle by bundle |
| ProjectModel.MapTwice | src/main/kotlin/io/github/woolph/gradle/licensecheck/MissingModuleDataDependencyFilter.kt:12-31 | mapping twice by idempotent mappers equals mapping once |
| ProjectModel.MapFixing | src/main/kotlin/io/github/woolph/gradle/licensecheck/MissingModuleDataDependencyFilter.kt:12-31 | mappers that fix every module leave a well-formed project unchanged |
| WhiteListedDependencyFilter.Filter | src/main/kotlin/io/github/woolph/gradle/licensecheck/WhiteListedDependencyFilter.kt:16-35 | no patterns leaves the data as it is; patterns remove the modules whose `group:name`, or imported name, matches |
| WhiteListedDependencyFilter.ConfigurationModuleRemoved | src/main/kotlin/io/github/woolph/gradle/licensecheck/WhiteListedDependencyFilter.kt:23-25 | a configuration module is removed exactly when its `group:name` matches a pattern |
| WhiteListedDependencyFilter.ImportedModuleRemoved | src/main/kotlin/io/github/woolph/gradle/licensecheck/WhiteListedDependencyFilter.kt:31 | an imported module is removed exactly when its name matches a pattern |
| WhiteListedDependencyFilter.FilterIdempotent | src/main/kotlin/io/github/woolph/gradle/licensecheck/WhiteListedDependencyFilter.kt:16-35 | filtering twice equals filtering once |
| WhiteListedDependencyFilter.FilterWithoutPatterns | src/main/kotlin/io/github/woolph/gradle/licensecheck/WhiteListedDependencyFilter.kt:16-35 | an empty pattern set leaves a well-formed project unchanged |
| OwnedDependencyFilter.Filter | src/main/kotlin/io/github/woolph/gradle/licensecheck/OwnedDependencyFilter.kt:12-26 | removes the modules whose group, or imported name, matches an owned pattern |
| OwnedDependencyFilter.ConfigurationModuleRemoved | src/main/kotlin/io/github/woolph/gradle/licensecheck/OwnedDependencyFilter.kt:18 | a configuration module is removed exactly when its group matches |
| OwnedDependencyFilter.ImportedModuleRemoved | src/main/kotlin/io/github/woolph/gradle/licensecheck/OwnedDependencyFilter.kt:24 | an imported module is removed exactly when its name matches |
| OwnedDependencyFilter.FilterIdempotent | src/main/kotlin/io/github/woolph/gradle/licensecheck/OwnedDependencyFilter.kt:12-26 | filtering twice equals filtering once |
| OwnedDependencyFilter.FilterWithoutPatterns | src/main/kotlin/io/github/woolph/gradle/licensecheck/OwnedDependencyFilter.kt:12-26 | no patterns leave a well-formed project unchanged |
| MissingModuleDataDependencyFilter.ModuleMapper | src/main/kotlin/io/github/woolph/gradle/licensecheck/MissingModuleDataDependencyFilter.kt:33-37 | keeps the coordinates; a module no entry applies to is unchanged; otherwise the first applicable entry rewrites it |
| MissingModuleDataDependencyFilter.ImportedMapper | src/main/kotlin/io/github/woolph/gradle/licensecheck/MissingModuleDataDependencyFilter.kt:39-45 | keeps name, version and URL; an imported module no entry applies to is unchanged; otherwise the first applicable entry sets its license |
| MissingModuleDataDependencyFilter.EntryPomCarriesLicense | src/main/kotlin/io/github/woolph/gradle/licensecheck/MissingModuleDataDependencyFilter.kt:47-169 | every entry's replacement POM carries that entry's license |
| MissingModuleDataDependencyFilter.AntlrModule | src/main/kotlin/io/github/woolph/gradle/licensecheck/MissingModuleDataDependencyFilter.kt:49-88 | `org.antlr:antlr-runtime`, in any version, gets the one ANTLR POM |
| MissingModuleDataDependencyFilter.CoroutinesModule | src/main/kotlin/io/github/woolph/gradle/licensecheck/MissingModuleDataDependencyFilter.kt:89-128 | `kotlinx-coroutines-core` gets the coroutines POM in any version, since the module test ignores the version |
| MissingModuleDataDependencyFilter.StdlibCommonModule | src/main/kotlin/io/github/woolph/gradle/licensecheck/MissingModuleDataDependencyFilter.kt:129-168 | `kotlin-stdlib-common` gets its POM in any version |
| MissingModuleDataDependencyFilter.AntlrImported | src/main/kotlin/io/github/woolph/gradle/licensecheck/MissingModuleDataDependencyFilter.kt:49-88 | an imported `org.antlr:antlr-runtime` gets the BSD licence and URL |
| MissingModuleDataDependencyFilter.CoroutinesImported | src/main/kotlin/io/github/woolph/gradle/licensecheck/MissingModuleDataDependencyFilter.kt:178-182 | an imported coroutines module gets the Apache license only in version 1.6.4 |
| MissingModuleDataDependencyFilter.ModuleMapperIdempotent | src/main/kotlin/io/github/woolph/gradle/licensecheck/MissingModuleDataDependencyFilter.kt:33-37 | rewriting a rewritten module changes nothing |
| MissingModuleDataDependencyFilter.ImportedMapperIdempotent | src/main/kotlin/io/github/woolph/gradle/licensecheck/MissingModuleDataDependencyFilter.kt:39-45 | rewriting a rewritten imported module changes nothing |
| MissingModuleDataDependencyFilter.Filter | src/main/kotlin/io/github/woolph/gradle/licensecheck/MissingModuleDataDependencyFilter.kt:12-31 | every module of every configuration and bundle is replaced by its rewrite |
| MissingModuleDataDependencyFilter.FilterIdempotent | src/main/kotlin/io/github/woolph/gradle/licensecheck/MissingModuleDataDependencyFilter.kt:12-31 | filtering twice equals filtering once |
| MissingModuleDataDependencyFilter.FilterWithoutKnownModules | src/main/kotlin/io/github/woolph/gradle/licensecheck/MissingModuleDataDependencyFilter.kt:12-31 | a well-formed project without any listed module is unchanged |
| CoroutinesFilter.ModuleMapper | src/main/kotlin/io/github/woolph/gradle/licensecheck/CoroutinesFilter.kt:25-52 | `kotlinx-coroutines-core:1.6.4` keeps its identity and files and gets the coroutines POM; every other module is unchanged |
| CoroutinesFilter.ImportedMapper | src/main/kotlin/io/github/woolph/gradle/licensecheck/CoroutinesFilter.kt:59-70 | the imported module in 1.6.4 gets the Apache license; others are unchanged |
| CoroutinesFilter.Filter | src/main/kotlin/io/github/woolph/gradle/licensecheck/CoroutinesFilter.kt:19-74 | every module is replaced by its rewrite |
| CoroutinesFilter.FilterIdempotent | src/main/kotlin/io/github/woolph/gradle/licensecheck/CoroutinesFilter.kt:19-74 | filtering twice equals filtering once |
| CoroutinesFilter.FilterWithoutModule | src/main/kotlin/io/github/woolph/gradle/licensecheck/CoroutinesFilter.kt:19-74 | a well-formed project without the module is unchanged |
| CoroutinesFilter.AgreesWithTable | src/main/kotlin/io/github/woolph/gradle/licensecheck/CoroutinesFilter.kt:26-49 | on its module, the filter agrees with the missing-module table except for `hasArtifactFile` |
| CoroutinesFilter.ImportedAgreesWithTable | src/main/kotlin/io/github/woolph/gradle/licensecheck/CoroutinesFilter.kt:60-67 | on its imported module, the filter agrees with the missing-module table |
| AntlrRuntimeFilter.ModuleMapper | src/main/kotlin/io/github/woolph/gradle/licensecheck/AntlrRuntimeFilter.kt:25-52 | `org.antlr:antlr-runtime` keeps its identity and files and gets the ANTLR POM; every other module is unchanged |
| AntlrRuntimeFilter.ImportedMapper | src/main/kotlin/io/github/woolph/gradle/licensecheck/AntlrRuntimeFilter.kt:59-70 | the imported module gets the BSD licence; others are unchanged |
| AntlrRuntimeFilter.Filter | src/main/kotlin/io/github/woolph/gradle/licensecheck/AntlrRuntimeFilter.kt:19-74 | every module is replaced by its rewrite |
| AntlrRuntimeFilter.FilterIdempotent | src/main/kotlin/io/github/woolph/gradle/licensecheck/AntlrRuntimeFilter.kt:19-74 | filtering twice equals filtering once |
| AntlrRuntimeFilter.FilterWithoutModule | src/main/kotlin/io/github/woolph/gradle/licensecheck/AntlrRuntimeFilter.kt:19-74 | a well-formed project without the module is unchanged |
| AntlrRuntimeFilter.AgreesWithTable | src/main/kotlin/io/github/woolph/gradle/licensecheck/AntlrRuntimeFilter.kt:26-49 | on its module, the filter agrees with the missing-module table except for `hasArtifactFile` |
| AntlrRuntimeFilter.ImportedAgreesWithTable | src/main/kotlin/io/github/woolph/gradle/licensecheck/AntlrRuntimeFilter.kt:60-67 | on its imported module, the filter agrees with the missing-module table |
| Regexes.UnquoteQuote | src/main/kotlin/io/github/woolph/gradle/licensecheck/LicenseCheckExtension.kt:46 | `Regex.escape` is reversible: the quoted text unquotes to the original |
| Regexes.OwnedRegex | src/main/kotlin/io/github/woolph/gradle/licensecheck/LicenseCheckExtension.kt:46 | the owned pattern is `^` + the quoted prefix + `(\.)?.*` and matches exactly the names starting with the prefix |
| Regexes.LiteralRegex | src/main/kotlin/io/github/woolph/gradle/licensecheck/LicenseCheckExtension.kt:99 | `^` + the quoted name matches exactly that name |
| Regexes.MatchesOwnedExtension | src/main/kotlin/io/github/woolph/gradle/licensecheck/LicenseCheckExtension.kt:46 | the prefix followed by any text without a line terminator is owned |
| LicenseCheckExtension.OwnedPrefix | src/main/kotlin/io/github/woolph/gradle/licensecheck/LicenseCheckExtension.kt:45 | the group cut to its first two segments: a prefix of it, with at most one dot, and the whole group when it has at most one |
| LicenseCheckExtension.DefaultOwnedDependency | src/main/kotlin/io/github/woolph/gradle/licensecheck/LicenseCheckExtension.kt:39-47 | the default owned regex matches exactly the names owned by the group's two-segment prefix |
| LicenseCheckExtension.WhiteListedDependenciesBuilder.Entries | src/main/kotlin/io/github/woolph/gradle/licensecheck/LicenseCheckExtension.kt:114-120 | the builder's entries, one per pattern in insertion order, without duplicates |
| LicenseCheckExtension.WhiteListedDependenciesBuilder.Until | src/main/kotlin/io/github/woolph/gradle/licensecheck/LicenseCheckExtension.kt:101-103 | sets the pattern's expiry, appending the pattern only when it is new |
| LicenseCheckExtension.WhiteListedDependenciesBuilder.UntilText | src/main/kotlin/io/github/woolph/gradle/licensecheck/LicenseCheckExtension.kt:105 | on text `Instant.parse` reads, ignoring the case of `T` and `Z`, it sets the parsed expiry; otherwise it changes nothing |
| LicenseCheckExtension.WhiteListedDependenciesBuilder.Add | src/main/kotlin/io/github/woolph/gradle/licensecheck/LicenseCheckExtension.kt:94-97 | white-lists the pattern until the distant future and returns it |
| LicenseCheckExtension.WhiteListedDependenciesBuilder.AddName | src/main/kotlin/io/github/woolph/gradle/licensecheck/LicenseCheckExtension.kt:99 | white-lists a fresh regex that matches exactly the name |
| LicenseCheckExtension.LicenseCheckExtension.constructor | src/main/kotlin/io/github/woolph/gradle/licensecheck/LicenseCheckExtension.kt:23-89 | the defaults: not skipped, one owned regex for the group prefix, no white-list, the sixteen allowed licenses |
| LicenseCheckExtension.LicenseCheckExtension.WhiteListedDependencies | src/main/kotlin/io/github/woolph/gradle/licensecheck/LicenseCheckExtension.kt:109-122 | `addAll` appends the builder's new entries and keeps the set duplicate-free; nothing else changes |
| LicenseCheckExtension.ExpiredPatterns | src/main/kotlin/io/github/woolph/gradle/licensecheck/LicenseCheckExtension.kt:195-198 | the patterns of exactly the expired entries |
| LicenseCheckExtension.ValidPatterns | src/main/kotlin/io/github/woolph/gradle/licensecheck/LicenseCheckExtension.kt:234-237 | the patterns of exactly the valid entries |
| LicenseCheckExtension.ExpiryWarning | src/main/kotlin/io/github/woolph/gradle/licensecheck/LicenseCheckExtension.kt:199-208 | a warning is logged exactly when some entry has expired |
| LicenseCheckExtension.EffectivePatterns | src/main/kotlin/io/github/woolph/gradle/licensecheck/LicenseCheckExtension.kt:232-241 | without owned patterns there are none; otherwise the duplicate-free union of the owned patterns and the valid white-listed ones |
| LicenseCheckExtension.Filters | src/main/kotlin/io/github/woolph/gradle/licensecheck/LicenseCheckExtension.kt:263-271 | three filters, the last of them the bundle normaliser, whose output is not modelled |
| LicenseCheckExtension.Apply | src/main/kotlin/io/github/woolph/gradle/licensecheck/LicenseCheckExtension.kt:263-271 | a filter's output is modelled exactly when it is not the bundle normaliser |
| LicenseCheckExtension.RunFilters | src/main/kotlin/io/github/woolph/gradle/licensecheck/LicenseCheckExtension.kt:263-271 | a chain's output is modelled exactly when no filter in it is the bundle normaliser |
| LicenseCheckExtension.FiltersRunPolicy | src/main/kotlin/io/github/woolph/gradle/licensecheck/LicenseCheckExtension.kt:263-271 | the first two filters, run in the configured order, turn the report into the policy-filtered report (white-list first, then the missing-module table) |
| LicenseCheckExtension.EffectivePatternsCover | src/main/kotlin/io/github/woolph/gradle/licensecheck/LicenseCheckExtension.kt:232-241 | a name no effective pattern matches is matched neither by an owned pattern nor by a valid white-listed one |
| LicenseCheckExtension.PolicyRemovesWhiteListed | src/main/kotlin/io/github/woolph/gradle/licensecheck/LicenseCheckExtension.kt:263-271 | after the first two filters no remaining module is owned or matches a valid white-listed pattern |
| CheckLicenseReport.AllowedLicensesLines | src/main/kotlin/io/github/woolph/gradle/licensecheck/CheckLicenseTaskJunitReport.kt:58-64 | the allowed-licenses file has an opening line, one line per license and a closing line |
| CheckLicenseReport.AllowedLicensesJsonLines | src/main/kotlin/io/github/woolph/gradle/licensecheck/CheckLicenseTaskJunitReport.kt:58-64 | the file text splits at line breaks into exactly those lines |
| CheckLicenseReport.FailurePairs | src/main/kotlin/io/github/woolph/gradle/licensecheck/CheckLicenseTaskJunitReport.kt:74-77 | one `(name:name, license)` pair per failure, absent values written `null`; no failures list gives none |
| CheckLicenseReport.GroupKeysInOrder | src/main/kotlin/io/github/woolph/gradle/licensecheck/CheckLicenseTaskJunitReport.kt:78 | the modules are grouped in the order of their first failure |
| CheckLicenseReport.Group | src/main/kotlin/io/github/woolph/gradle/licensecheck/CheckLicenseTaskJunitReport.kt:78 | a module's group holds exactly the licenses paired with it, and no more values than there are pairs |
| CheckLicenseReport.GroupEmpty | src/main/kotlin/io/github/woolph/gradle/licensecheck/CheckLicenseTaskJunitReport.kt:78 | a group is empty exactly when the module is not a key |
| CheckLicenseReport.GroupBy | src/main/kotlin/io/github/woolph/gradle/licensecheck/CheckLicenseTaskJunitReport.kt:78 | the loop yields the keys in first-occurrence order and the map of each key's licenses |
| CheckLicenseReport.ErrorMessages | src/main/kotlin/io/github/woolph/gradle/licensecheck/CheckLicenseTaskJunitReport.kt:80-82 | one error message per module, in key order |
| CheckLicenseReport.ReportLines | src/main/kotlin/io/github/woolph/gradle/licensecheck/CheckLicenseTaskJunitReport.kt:84-93 | the report is the declaration, `<testsuites>`, one failing suite per module, and `</testsuites>` |
| CheckLicenseReport.WriteReport | src/main/kotlin/io/github/woolph/gradle/licensecheck/CheckLicenseTaskJunitReport.kt:84-93 | the `buildString` loop yields those lines, each ended by a line break |
| CheckLicenseReport.ReportText | src/main/kotlin/io/github/woolph/gradle/licensecheck/CheckLicenseTaskJunitReport.kt:84-93 | the report text splits back into its lines |
| CheckLicenseReport.ReportFailures | src/main/kotlin/io/github/woolph/gradle/licensecheck/CheckLicenseTaskJunitReport.kt:73-93 | the errors and the report are those of the grouped failures |
| CheckLicenseReport.EveryFailureReported | src/main/kotlin/io/github/woolph/gradle/licensecheck/CheckLicenseTaskJunitReport.kt:74-89 | every failure's module is reported, and its license is among that module's licenses |
| DependencyCheckExtension.ScanConfigurations | src/main/kotlin/io/github/woolph/gradle/dependencycheck/DependencyCheckExtension.kt:72-84 | keeps, in order, exactly the configuration names that the rule selects |
| DependencyCheckExtension.ScanConfigurationsIdempotent | src/main/kotlin/io/github/woolph/gradle/dependencycheck/DependencyCheckExtension.kt:72-84 | selecting twice equals selecting once |
| DependencyCheckExtension.AnalyzeRuns | src/main/kotlin/io/github/woolph/gradle/dependencycheck/DependencyCheckExtension.kt:46-48 | the analysis runs exactly when not skipped |
| DependencyCheckExtension.AnalyzeRunsUnlessDisabled | src/main/kotlin/io/github/woolph/gradle/dependencycheck/DependencyCheckExtension.kt:46-58 | the analysis runs exactly when the "disabled" warning is not logged |
| DependencyCheckExtension.DependencyCheckExtension.constructor | src/main/kotlin/io/github/woolph/gradle/dependencycheck/DependencyCheckExtension.kt:17-34 | not skipped; the suppression file defaults to `dependency-check-suppression.xml` in the project directory |
| DependencyCheckExtension.Property | src/main/kotlin/io/github/woolph/gradle/dependencycheck/DependencyCheckExtension.kt:92-98 | a property is present exactly when the project has it, with its value |
| DependencyCheckExtension.ExternalData | src/main/kotlin/io/github/woolph/gradle/dependencycheck/DependencyCheckExtension.kt:90-101 | the driver and connection are always set, user and password only when present |
| DependencyCheckExtension.ExternalDataIdempotent | src/main/kotlin/io/github/woolph/gradle/dependencycheck/DependencyCheckExtension.kt:90-101 | writing the settings twice equals writing them once |
| DependencyCheckExtension.DependencyCheckWarnings | src/main/kotlin/io/github/woolph/gradle/dependencycheck/DependencyCheckExtension.kt:55-104 | warns exactly when skipped and exactly when the suppression file exists, and last names the database used |
| DependencyCheckExtension.AfterEvaluate | src/main/kotlin/io/github/woolph/gradle/dependencycheck/DependencyCheckExtension.kt:46-106 | the analysis runs exactly when the extension is not skipped; sets skip, formats, suppression file, scan configurations, auto-update and data as the rule says, with those warnings |
| SonarQubeEdition.Name | src/main/kotlin/io/github/woolph/gradle/SonarQubeEdition.kt:3-8 | every constant's name is in capital letters |
| SonarQubeEdition.ValuesComplete | src/main/kotlin/io/github/woolph/gradle/SonarQubeEdition.kt:3-8 | the values list every constant, and the names are distinct |
| SonarQubeEdition.Of | src/main/kotlin/io/github/woolph/gradle/SonarQubeEdition.kt:10-11 | `null` gives `null`; a result's name equals the text ignoring case; no result means no name does |
| SonarQubeEdition.OfIff | src/main/kotlin/io/github/woolph/gradle/SonarQubeEdition.kt:10-11 | `of(s)` is `e` exactly when `e`'s name equals `s` ignoring case |
| SonarQubeEdition.OfName | src/main/kotlin/io/github/woolph/gradle/SonarQubeEdition.kt:10-11 | `of(e.name) == e` |
| SonarQubeEdition.OfLowerCase | src/main/kotlin/io/github/woolph/gradle/SonarQubeEdition.kt:10-11 | `of(e.name.lowercase()) == e` |
| SonarPackageEdition.Name | src/main/kotlin/io/github/woolph/gradle/sonar/SonarQubeEdition.kt:4-9 | every constant's name is in capital letters |
| SonarPackageEdition.ValuesComplete | src/main/kotlin/io/github/woolph/gradle/sonar/SonarQubeEdition.kt:4-9 | the values list every constant, and the names are distinct |
| SonarPackageEdition.Of | src/main/kotlin/io/github/woolph/gradle/sonar/SonarQubeEdition.kt:12-13 | `null` gives `null`; a result's name equals the text ignoring case; no result means no name does |
| SonarPackageEdition.FromEdition | src/main/kotlin/io/github/woolph/gradle/sonar/SonarQubeEdition.kt:4-9 | the same-named constant of the other declaration |
| SonarPackageEdition.OfAgrees | src/main/kotlin/io/github/woolph/gradle/sonar/SonarQubeEdition.kt:12-13 | both declarations' `of` agree on every text |
| SonarqubeExtension.PropertyText | src/main/kotlin/io/github/woolph/gradle/SonarqubeExtension.kt:26 | an absent property's `toString()` is the text `null` |
| SonarqubeExtension.DefaultEdition | src/main/kotlin/io/github/woolph/gradle/SonarqubeExtension.kt:25-26 | the convention is the edition the property names ignoring case |
| SonarqubeExtension.DefaultEditionNamed | src/main/kotlin/io/github/woolph/gradle/SonarqubeExtension.kt:25-26 | the property selects exactly the edition it names; a property that names no edition, and a missing property, give `UNKNOWN` |
| SonarqubeExtension.SkipAfterEvaluateStable | src/main/kotlin/io/github/woolph/gradle/SonarqubeExtension.kt:63-68 | the rule only turns skipping on, and applying it twice decides as once |
| SonarqubeExtension.CommunityPullRequestSkipped | src/main/kotlin/io/github/woolph/gradle/SonarqubeExtension.kt:63-68 | an unskipped analysis is skipped exactly for a pull-request build on a Community Edition server |
| SonarqubeExtension.SonarqubeExtension.constructor | src/main/kotlin/io/github/woolph/gradle/SonarqubeExtension.kt:13-26 | not skipped, with the conventional edition |
| SonarqubeExtension.SonarqubeExtension.AfterEvaluate | src/main/kotlin/io/github/woolph/gradle/SonarqubeExtension.kt:62-71 | the new `skip` follows the rule, the edition is unchanged, `isSkipProject` equals `skip`, and the right warning is logged |

## Behaviour as coded

Where the plugin's written description and its code differ, the model follows the code:

- `sortedBy { it.suppressUntil }` puts entries without an expiry first, before every dated entry
  (`SuppressionEntry.kt:85`).
- An entry read with a `packageUrl` but with no recognised vulnerability is kept, with an empty
  vulnerability list (`SuppressionEntry.kt:111-118`).
- The generator concatenates carried and new entries without removing duplicates
  (`GenerateSuppressionFileTask.kt:110`).

## Left out

- Reading and writing files, and XML parsing. The model works on the node tree a document
  denotes, and proves that the written text is the rendering of that tree. The entries whose
  text reads back (`Suppression.Writable`) exclude `<`, `&`, carriage returns and `]]>` in the
  CDATA section, but not the control characters that XML 1.0 forbids outright, which a real
  parser would reject.
- Gradle wiring:
  - task registration, dependencies between tasks, task groups and descriptions;
  - `onlyIf` of the license check (`LicenseCheckExtension.kt:177`);
  - the license-report renderers, output directory and excludes (`LicenseCheckExtension.kt:211-230`);
  - the reports and temporary directories, and file locations;
  - the jacoco report settings and the Sonar `properties` block (`SonarqubeExtension.kt:44-60`, `73-77`).
- The `licenseCheck is disabled!` warning (`LicenseCheckExtension.kt:191-193`). It is a plain log
  line with no state; the same rule is modelled for the other two extensions.
- Loggers are outputs (warning values or error lines) in the model. The exception handlers that
  log and swallow setup errors are not modelled.
- Laziness: providers and conventions are read once, as values.
- `cvssThreshold` and `failBuildOnCVSS`. They are floating point and are passed through unchanged.
- The jk1 license checker itself. Its JSON result is parsed into the list of failures, and that
  parsing is not part of this model.
- `OnDemandBundleNormalizerFilter` and `CreateLicenseBundleNormalizerConfigTask`. They depend on
  the jk1 bundle normaliser, so the filter appears in the chain only by name.
- The user's regular expressions. A `Regex` carries an uninterpreted match predicate. Only the
  patterns the plugin builds itself (`Regex.escape` prefixes) are given their meaning.
- `OwnedDependencyFilter` is modelled but is not in the filter chain, because the source does not
  use it there. The owned patterns reach the chain through the white-list filter instead.
- Time:
  - nanoseconds and fractions of a second: instants are whole seconds;
  - zone rules and daylight saving time: a region zone keeps one fixed offset;
  - non-ASCII digits in dates;
  - years beyond what `ISO_DATE` reads back, which the read-back lemmas exclude.
- Names are not escaped in the JSON and XML the plugin writes, and the model writes them unescaped
  as well. Read-back lemmas therefore require text without markup characters.
- `Vulnerability.from` and `VulnerabilityType` are not part of this model. Their behaviour is
  modelled from their use: an element named after a known kind becomes a vulnerability of that
  kind.
- CoroutinesFilter.ModuleMapper: sets `hasArtifactFile` to `false`. This is the jk1 default for the
  constructor without that argument, and that library is not part of this model.
- AntlrRuntimeFilter.ModuleMapper: sets `hasArtifactFile` to `false`, for the same reason.
- CheckLicenseReport.ReportText: requires suite lines without line breaks. Module names and
  licenses are written unescaped.
- GenerateSuppressionFile.ToInt: reads ASCII digits only. `Integer.parseInt` also accepts the
  other Unicode decimal digits (`Character.digit`), whose table of ranges is not modelled.
- LicenseCheckExtension.WhiteListedDependenciesBuilder.UntilText: reads offsets as `Z` or
  `+HH:MM[:ss]` only. Some kotlinx-datetime versions also accept `+HH` (or `+HHMM`), and the
  version the plugin builds with is not part of this model.
- DependencyCheckExtension.AfterEvaluate: the suppression file path is taken as the text the
  extension holds. Path joining and normalisation are not modelled.

## Findings

| source | as written | input that shows it | evidently intended | confidence | as-written member | corrected member |
|---|---|---|---|---|---|---|
| src/main/kotlin/io/github/woolph/gradle/dependencycheck/suppression/SuppressionEntry.kt:52-67 | the `parseDefaulting` calls for hour, minute, second and milli come before the date and time parsers; the defaults fill those fields first, so any parsed time other than midnight conflicts and fails | `until="2024-05-01T10:30"` | hour and minute default to zero only when the text has no time, so the text is read as 10:30 UTC | not executed | IsoDateTime.ParseToZonedDateTimeAsWritten (shown by IsoDateTime.AsWrittenRejectsHalfPastTen) | IsoDateTime.ParseToZonedDateTime (proved by IsoDateTime.AsWrittenAgreesWithIntended and IsoDateTime.ParseFormatIsoDate) |

The suppression-file readers (`Suppression.ReadUntil` and everything built on it) use the parser
as written, so the model rejects the files the plugin rejects. The corrected parser is proved to
agree with it on every text it accepts, so the fix changes nothing for the files the plugin writes.
