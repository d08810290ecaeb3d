# Artifact lifecycle of a generic package manager, in Dafny

This project models the core of a small .NET package manager (`Program.cs`).
The manager installs, lists, searches and removes two classes of artifact,
packages and drivers. Both come from a remote database: a text file with one
line per artifact, `architecture minimum-OS name version link`. Installed
artifacts are recorded in a local registry file of `name:version` lines.

The source has two near-identical classes, `PackageManager` and
`DriverManager`. The model has one class, `Registry.ArtifactManager`, with an
`ArtifactClass` parameter that picks the registry file and the install
subfolder.

Modules, in dependency order:

- `Wrappers`: `Option`.
- `Text`: the .NET string operations the code relies on:
  - `String.Trim` with the fixed white-space list of .NET 2.0, which the
    program is written for. That list also strips U+200B and U+FEFF, and
    keeps U+202F and U+205F, unlike `Char.IsWhiteSpace`.
  - `String.Split` on one character, empty pieces kept.
  - Joining with a separator.
  - `ToLower`.
  - Ordinal `IndexOf`.
- `OrderedMaps`: `Dictionary<string, V>` as the code uses it. It is a map
  plus the order in which keys were first added, which is the order the
  dictionary enumerates them.
- `Versions`: `System.Version`:
  - Parsing: two to four dot-separated `Int32.Parse` components, with
    negative components refused.
  - `CompareTo`: component-wise; an undefined build or revision counts as
    -1.
  - `ToString`.
- `Manifest`: `UpdateInfo` and `LoadRemoteDatabase`.
  - The text of a failed fetch is `None`. It gives no database, which is
    different from an empty one.
  - A text that was fetched is split into lines, each line is trimmed and
    split on single spaces, and each line with at least five tokens becomes
    a record.
  - The link is rebuilt by the `StringBuilder` loop (`BuildLink`).
- `Compatibility`: `UpdateInfo.IsCompatible` as a predicate over a `Host`.
  The host is the pointer size (`IntPtr.Size`) and the OS version
  (`Environment.OSVersion.Version`).
- `Paths`: `Path.IsPathRooted` and the two-argument `Path.Combine` of
  .NET 2.0 on Windows. An empty second part gives the first, a rooted
  second part replaces the first, and otherwise the second part goes below
  the first, after a `\` unless the first already ends in a separator or
  a colon.
- `Registry`: the registry file format, and the manager class, which has:
  - A `FileSystem` object holding the files as line sequences.
  - `LoadRegistry`, `SaveRegistry`, `Install`, `Remove` and
    `ListInstalled`.
  - Effects on the outside world (archive extraction, folder deletion,
    registry write), returned as a trace in the order they happen.
- `Commands`: routing of the command word, the `-d` flag and target
  argument, and `ProcessInstall`, `ProcessSearch`, `ProcessRemove` and
  `ProcessList`.
  - The host, the fetched text and the download outcome are parameters.
  - The fetch and the download appear in the effect trace.

The model follows the code in three places where the code may differ from
what one would expect:

- `ProcessInstall` fetches the database, checks compatibility and downloads
  the archive before the manager checks whether the name is already
  installed (`Program.cs:333`). So an installed name is downloaded again,
  and only then reported as already installed.
- A failed database fetch on `install` gives the same "not found" outcome as
  a name missing from the database (`Program.cs:87`, `Program.cs:112`).
- A failed database fetch on `search` prints the same "no ... found" line as
  a search without matches (`Program.cs:184`, `Program.cs:195`).

## Model

| member | source | states |
|---|---|---|
| Text.TrimCuts | Program.cs:389 | Trim removes a white-space prefix and a white-space suffix and nothing else, and its result starts and ends with a non-white-space character (or is empty) |
| Text.TrimKeepsAbsent | Program.cs:302-304 | Trim only removes characters: a character absent from the input is absent from the output |
| Text.Split | Program.cs:391 | Split returns at least one piece, and no piece contains the separator |
| Text.JoinSplit | Program.cs:391 | joining the pieces of a Split with the same separator gives the original string back |
| Text.SplitJoin | Program.cs:391 | splitting joined pieces gives the pieces back when no piece holds the separator |
| Text.SplitAtSeparator | Program.cs:386 | a separator splits a string into the pieces of its two sides, independently |
| Text.IndexOf | Program.cs:187 | the result is the first index at which the term occurs, or -1 exactly when it occurs nowhere |
| OrderedMaps.Put | Program.cs:409 | the assignment `dict[k] = v`: the map afterwards is the old one with k bound to v, and keys stay unique and match the map |
| OrderedMaps.Remove | Program.cs:355 | `dict.Remove(k)`: the map afterwards is the old one without k, and keys stay unique and match the map |
| OrderedMaps.PutNew | Program.cs:342 | a new key goes last and no other key changes value or place |
| OrderedMaps.RemoveOthers | Program.cs:355 | removing a key changes no other key |
| OrderedMaps.WithoutUnique | Program.cs:355 | dropping a key from a duplicate-free key order leaves it duplicate-free |
| Versions.ParseComponents | Program.cs:588 | every component parses as an Int32 of at most 2147483647, or the whole parse fails at one that does not |
| Versions.ParseVersion | Program.cs:588 | `new Version(s)` succeeds exactly when s has 2 to 4 dot-separated components that all parse; the result has that many components |
| Versions.CompareToOrder | Program.cs:589 | `CompareTo(a, b) >= 0` holds exactly when a is at least b in the component-wise reference order, with undefined components below 0 |
| Versions.CompareToAntisymmetric | Program.cs:589 | swapping the operands negates the comparison |
| Versions.CompareToTransitive | Program.cs:589 | "at least" is transitive |
| Versions.CompareToZero | Program.cs:589 | for versions of at most four components, CompareTo is 0 exactly when they are equal (so 6.1 and 6.1.0 differ) |
| Versions.NatToString | Program.cs:588 | the decimal string of n is a non-empty digit string whose value is n |
| Versions.ParseFormat | Program.cs:588 | parsing the string form of a version with 2 to 4 components, each within Int32, gives the version back |
| Versions.CompareToDominates | Program.cs:589 | a version none of whose four components (undefined ones counted as -1) is smaller than another's is at least as new |
| Versions.AtLeastZeroZero | Program.cs:589 | every version of two or more components is at least 0.0 |
| Versions.ParseTwoDigitVersion | Program.cs:588 | a string "d.e" of two digits parses to the version with components d and e |
| Versions.VersionExamples | Program.cs:588 | "6.1", "5.1" and "5.0" parse to their components |
| Versions.CompareExamples | Program.cs:589 | 6.1 is newer than 5.1, 5.0 is older than 5.1, 6.1.7601.0 is newer than 6.0 and 5.1.2600.0 is older than 6.0 |
| Manifest.NewUpdateInfo | Program.cs:571-577 | a new UpdateInfo keeps the version and link and defaults to minimum OS "0.0" and architecture "x86" |
| Manifest.ParseManifest | Program.cs:383-385 | the database is absent exactly when the fetch failed |
| Manifest.Index | Program.cs:387-409 | the database built from the lines has unique names, each record filed under its own name |
| Manifest.ParseLine | Program.cs:389-409 | the record of one database line has a name and a version that are single tokens, trimmed and without a space (which lines give a record, and with which fields, is stated by ParsedFields) |
| Manifest.ParsedFields | Program.cs:391-404 | a line gives a record exactly when its trimmed text has at least five space-separated tokens; arch, minOS, name and version are tokens 0 to 3, trimmed; the link's space-separated tokens are tokens 4 onwards, trimmed |
| Manifest.BuildLink | Program.cs:398-403 | the StringBuilder loop produces the trimmed tokens 4 onwards joined with single spaces |
| Manifest.LoadRemoteDatabase | Program.cs:378-418 | the line loop returns the database ParseManifest defines: None for a failed fetch, otherwise db[name] = info for every line that parses, in order |
| Manifest.MalformedLineIgnored | Program.cs:390-393 | a line that does not parse leaves the database unchanged, wherever it stands among the lines |
| Manifest.MalformedLineInText | Program.cs:386-393 | inserting a malformed line into the text leaves the database unchanged |
| Manifest.LastDeclarationWins | Program.cs:409 | a name is in the database exactly when some line declares it, and it then holds the record of the last line that does |
| Manifest.CollectHolds | Program.cs:409 | at the level of parsed lines: a name is in the dictionary exactly when some parsed line names it |
| Manifest.CollectLastValue | Program.cs:409 | at the level of parsed lines: a name holds the record of the last parsed line that names it |
| Manifest.DeclaredHolds | Program.cs:387-409 | a name is in the database exactly when some text line declares it |
| Manifest.LastDeclarationValue | Program.cs:387-409 | a declared name holds the record of the last text line that declares it |
| Manifest.CollectSkipsNone | Program.cs:392 | a line without a record adds nothing |
| Manifest.ManifestWithoutRecords | Program.cs:380 | a fetched text without a well-formed line gives an empty database, not an absent one |
| Manifest.LinesAtBreak | Program.cs:386 | a line break splits the text into the lines of each side, with empty lines dropped |
| Manifest.ParseFormatLine | Program.cs:391-408 | writing a record as "arch minOS name version link" and parsing the line gives the record back, when the fields are single trimmed tokens and the first and last are not empty |
| Compatibility.CurrentArchitecture | Program.cs:273-276 | the architecture is "x64" exactly for 8-byte pointers and "x86" otherwise |
| Compatibility.IsCompatible | Program.cs:580-595 | the check: the architecture must match ignoring case, then the host version must reach a parsable minimum; a compatible record always has the host's architecture |
| Compatibility.CompatibleRule | Program.cs:584-594 | compatible exactly when the architecture matches ignoring case, and the minimum OS either does not parse or is at most the host version |
| Compatibility.UnparsableMinimumFailsOpen | Program.cs:588-594 | a minimum OS without a dot cannot be a version, so the check passes when the architecture matches |
| Compatibility.CompatibleOnNewerHost | Program.cs:589 | a record compatible with a host stays compatible when only the host's OS version grows |
| Compatibility.ArchitectureCaseIgnored | Program.cs:585 | replacing the record's architecture with one that is equal ignoring case does not change the answer |
| Compatibility.ArchitecturesDistinct | Program.cs:584-585 | "x64" and "x86" never match each other, whatever their case |
| Compatibility.DefaultRecordCompatibility | Program.cs:575-576 | a record left at the constructor's defaults is compatible exactly with every non-64-bit host |
| Compatibility.AcceptedOnNewerHost | Program.cs:584-589 | an x64 record needing 6.0 is accepted on a 64-bit 6.1 host |
| Compatibility.RejectedOnOtherArchitecture | Program.cs:584-586 | the same record is refused on a 32-bit host |
| Compatibility.RejectedOnOlderHost | Program.cs:588-589 | the same record is refused on a 64-bit 5.1 host |
| Registry.GetSetting | Program.cs:655-661 | the configured value of a key, or the caller's default when the key is not configured |
| Registry.ClassesSeparate | Program.cs:283 | packages and drivers use different registry files (installedPackages.txt and installedDrivers.txt) and different subfolders |
| Paths.Combine | Program.cs:339-340 | `Path.Combine`: an empty second part gives the first part, and a rooted second part is returned as it is |
| Paths.CombineRelative | Program.cs:339-340 | a non-empty, unrooted second part is appended to the first part, after a `\` when the first part does not already end in a separator or a colon |
| Paths.CombineEnds | Program.cs:339-340 | the combined path always ends with the second part, and starts with the first unless the second is rooted |
| Paths.SplitAtLastSeparator | Program.cs:339-340 | two paths that end in a separator-free component after a `\` are equal only when their folders and their components are |
| Registry.ArchivePath | Program.cs:126 | where an archive is downloaded: `Path.Combine(Path.Combine(root, subfolder), name + ".zip")`. What that gives for plain, rooted and empty names is stated by PlainNameBelowClassFolder, RootedNameChoosesFolder, ArchiveIsFolderOfZipName and LocationsDistinct |
| Registry.InstallFolder | Program.cs:340 | where an artifact is unpacked and what Remove deletes: `Path.Combine(Path.Combine(root, subfolder), name)`. What that gives for plain, rooted and empty names is stated by PlainNameBelowClassFolder, RootedNameChoosesFolder, EmptyNameIsClassFolder, CaseVariantsShareFolder and LocationsDistinct |
| Registry.ClassFolderBelowRoot | Program.cs:339 | the class's subfolder is always combined below the install root (the defaultInstallPath setting, or C:\Program Files\MyPkgMgr) |
| Registry.ClassFolderDetermines | Program.cs:339 | packages and drivers have different class folders under any install root |
| Registry.PlainNameBelowClassFolder | Program.cs:126 | for a plain name (one component, not "." or ".."), the archive is the class folder, `\` and name.zip, and the install folder is the class folder, `\` and the name |
| Registry.FolderDetermines | Program.cs:340 | for plain names, the install-folder path string tells the class and the name |
| Registry.ArchiveDetermines | Program.cs:126 | for plain names, the archive path string tells the class and the name |
| Registry.LocationsDistinct | Program.cs:339-340 | for plain names, an artifact's archive path string is not its install-folder path string, and two artifacts that differ in class or name never share an archive path string or an install-folder path string. Whether two different strings name one file on disk is not stated (see Left out) |
| Registry.RootedNameChoosesFolder | Program.cs:339-340 | a rooted name (leading separator or drive colon) is its own install folder, and its archive is the name with ".zip", for either class: the name chooses its folder, which may be inside the install root, and a package and a driver of that name share them |
| Registry.RootedNameReachesDriverFolder | Program.cs:339-340 | with the install root `C:\R`, the package named `C:\R\drivers\x` is unpacked into driver x's folder |
| Registry.ArchiveIsFolderOfZipName | Program.cs:126 | the archive path of name x is the install folder of the name x.zip in the same class |
| Registry.CaseVariantsShareFolder | Program.cs:339-340 | plain names that are equal ignoring case get install-folder paths that are equal ignoring case, so a case-insensitive file system sees one folder |
| Registry.EmptyNameIsClassFolder | Program.cs:340 | the empty name's install folder is the class folder itself, so removing it deletes the folder that holds every artifact of the class |
| Registry.LoadEntry | Program.cs:300-304 | a line gives an entry exactly when it is non-empty and splits on ':' into exactly two parts; the name and version it gives are trimmed and free of ':', so they can be saved again |
| Registry.LoadEntryLine | Program.cs:302-304 | a line written by SaveRegistry reads back as the entry it records |
| Registry.ColonInNameLost | Program.cs:302-303 | a name containing ':' makes its saved line split into more than two parts, so the entry is lost on the next load |
| Registry.SaveLoadRoundTrip | Program.cs:298-305 | saving and then loading gives back the dictionary (names, versions and order) when no name or version contains ':' or surrounding white space |
| Registry.MalformedEntryIgnored | Program.cs:300-303 | an empty line or one without exactly one ':' changes nothing, wherever it stands |
| Registry.LastEntryWins | Program.cs:304 | after loading, a name has the version of the last line that records it, and a name no line records is as before |
| Registry.AddAllLastWins | Program.cs:304 | at the level of entries: a name holds the version of the last entry that names it |
| Registry.AddAllUntouched | Program.cs:304 | entries for other names leave a name as it was |
| Registry.ArtifactManager.constructor | Program.cs:285-289 | a new manager holds exactly what its registry file records (nothing when the file is missing) |
| Registry.ArtifactManager.Assign | Program.cs:304 | the indexer assignment: the entries afterwards are Put of the old ones |
| Registry.ArtifactManager.LoadRegistry | Program.cs:291-313 | the foreach loop adds the entry of every line to the dictionary, in order |
| Registry.ArtifactManager.SaveRegistry | Program.cs:315-328 | the registry file afterwards holds one name:version line per entry, in enumeration order, and no other file changes |
| Registry.ArtifactManager.Install | Program.cs:331-346 | a present name: already installed, with its version; nothing changes and nothing happens. Otherwise: archive extracted, name -> version added last, others unchanged, registry saved |
| Registry.ArtifactManager.Remove | Program.cs:348-362 | a present name: its folder is deleted, only its entry is removed and the registry is saved. An absent name: not installed; nothing changes and nothing is saved |
| Registry.ArtifactManager.ListInstalled | Program.cs:364-374 | the listing is the entries in enumeration order, contains exactly the installed name/version pairs, and "(none)" is shown exactly when there are none |
| Registry.InstallThenRemove | Program.cs:333-356 | installing a new name and then removing it restores the dictionary, order included |
| Commands.RouteCommand | Program.cs:23-49 | a command is chosen exactly when there is a first argument whose lower-case form is install, list, search or remove; anything else shows the usage |
| Commands.RouteIgnoresCase | Program.cs:29-49 | the command word is matched ignoring case, and only it decides the command |
| Commands.RouteExamples | Program.cs:23-49 | "INSTALL", "Search", "remove" and "List" select their commands; an unknown word or no argument shows the usage |
| Commands.ParseTarget | Program.cs:60-81 | the class is Driver exactly when args[1] is the flag in any case; the name is missing exactly when its argument is absent, and otherwise it is args[2] with the flag or args[1] without |
| Commands.ParseTargetShapes | Program.cs:63-81 | "cmd" and "cmd -d" have no target; "cmd name" names a package unless the name is the flag; "cmd -d name" names a driver; later arguments are ignored |
| Commands.DriverFlagIgnoresCase | Program.cs:63 | "-D" selects drivers just as "-d" does |
| Commands.ListKind | Program.cs:137-138 | list shows drivers exactly when the second argument is the flag |
| Commands.DatabaseUrl | Program.cs:86 | the database address is the class's configured setting (packageDatabaseUrl or driverDatabaseUrl), or "" when it is not configured |
| Commands.Lookup | Program.cs:87-92 | a record is offered exactly when there is a database holding the name, and it is that entry |
| Commands.ProcessInstall | Program.cs:58-132 | the outcome for each path, each with its effect trace and the registry file afterwards: no target (no action); not found, including a failed fetch; incompatible (no download); download failed (registry untouched); already installed; installed. The other class's registry is never changed |
| Commands.InstallTarget | Program.cs:85-106 | with the manager created: one fetch; not found (also for a failed fetch) or incompatible with nothing else done; otherwise the download and, when it succeeded, the manager's Install. Each outcome has its effect trace, the manager's entries afterwards (unchanged, or the name added with the offered version) and the registry file |
| Commands.DownloadAndInstall | Program.cs:100-106 | the download comes first; if it failed nothing else happens, otherwise Install decides |
| Commands.Matches | Program.cs:187 | a record matches exactly when the lower-cased term occurs in its lower-cased name |
| Commands.HitsAmongExact | Program.cs:185-193 | a hit is reported for a name exactly when its record matches, with the record's compatibility |
| Commands.SearchHits | Program.cs:182-196 | the hits of a search: none without a database, and never more than the database has records |
| Commands.SearchHitsExact | Program.cs:182-196 | the search reports exactly the database's matching records, each with its compatibility on this host |
| Commands.NoHits | Program.cs:182-196 | there is no hit exactly when there is no database or no record matches |
| Commands.EmptyTermMatchesAll | Program.cs:187 | the empty term matches every record |
| Commands.TermCaseIgnored | Program.cs:187 | terms equal ignoring case match the same records |
| Commands.HitsAmongPrefixStep | Program.cs:185-193 | one more iteration of the foreach adds the hit of the next record, when its name matches, and nothing else |
| Commands.ScanDatabase | Program.cs:182-193 | the foreach loop collects SearchHits in enumeration order, and the found flag is set exactly when there is a hit |
| Commands.ProcessSearch | Program.cs:153-219 | no term: no action. Otherwise one fetch, the hits are SearchHits of the parsed database, and the "no ... found" line is printed exactly when there are no hits |
| Commands.ProcessRemove | Program.cs:221-255 | no target: no action. Otherwise the manager's Remove: the entry dropped and the registry saved, or not installed and nothing changed. The other class's registry is never changed |
| Commands.ProcessList | Program.cs:134-150 | the class the flag selects, and its registry's entries in order, with "(none)" exactly when it is empty |

## Left out

- Network transport (`DownloadManager`, `Program.cs:691-750`): the fetched text (`None` for a failure) and the download outcome (a boolean) are parameters. The fetch and the download appear only as entries of the effect trace.
- Archive extraction and folder deletion (`PackageInstaller`, `Program.cs:752-811`) are entries of the effect trace. Their failures are caught inside them, so they never stop the registry update, and the model reflects this.
- `Logger`, all console text, `ShowUsage`, and the catch-all in `Main`.
- The exception handlers around `LoadRegistry`, `SaveRegistry` and `LoadRemoteDatabase`: I/O errors are not modelled, and the parsing itself does not throw.
- `SettingsManager` file handling (reading, writing the defaults): settings are a map given as a parameter. `GetSetting` is modelled.
- `Utility.JoinStrings`: nothing calls it.
- Paths.Combine: the check for characters not allowed in paths (and the exception it throws) is left out, as listed per member below. Paths are strings: "." and ".." components are not resolved, so a name such as `..\drivers\x` gives a path string that differs from driver x's folder but names the same folder.
- Registry.LocationsDistinct, Registry.FolderDetermines and Registry.ArchiveDetermines: these state that path STRINGS differ, not that the files and folders on disk do. Windows compares file names without regard to case and drops a trailing dot, so "Foo" and "foo", or "x." and "x", are one folder, although the registry's ordinal dictionary keeps them as two entries (CaseVariantsShareFolder states the case half). Plain names can also overlap across archives and folders: package x's archive is package x.zip's install folder (ArchiveIsFolderOfZipName). The file-system name equivalence itself is not modelled.
- The dispatch in `Main` is modelled by `Commands.RouteCommand`; the call to the chosen `Process` method is not a member of its own.
- ProcessSearch and ProcessList construct a manager, whose constructor only reads the registry. `Commands.ProcessSearch` skips this because it has no observable effect.
- Text.ToLower: lower-cases ASCII letters only. The culture-sensitive case rules of `ToLower`, `InvariantCultureIgnoreCase` and the culture-sensitive `IndexOf` (which ignores some zero-width characters) are not modelled.
- Versions.ParseComponent: follows `Int32.Parse` with `NumberStyles.Integer` (white space, an optional sign, digits), but does not accept the trailing NUL characters .NET tolerates.
- Registry.ArtifactManager.LoadRegistry: `File.ReadAllLines` and `File.WriteAllLines` are taken as exact inverses on the line sequence. A name or version that contains a line break is not modelled.
- OrderedMaps.Put: appends a new key at the end. After a `Remove`, .NET's `Dictionary` reuses the freed slot for the next new key, so that key would be enumerated in the removed key's place. The model does not capture this within one run; every command creates a fresh manager, so it only concerns a single `Remove` followed by `Install` in the same object, which no command does.
- Text.Trim: models the .NET 2.0 white-space list of `String.Trim`. Run on .NET Framework 4 or later, `Trim` uses `Char.IsWhiteSpace` instead: U+200B and U+FEFF would stay in a name or version, and U+202F, U+205F and (while Unicode classed it as a space) U+180E would be stripped.
- Commands.ProcessInstall: `Path.Combine` (.NET 2.0) throws for a name that holds `"`, `<`, `>`, `|` or a character below U+0020. The source then ends in the catch-all of `Main` before the download, with nothing installed. The model has no such outcome: it downloads, installs and records the name.
- Commands.InstallTarget: the same `Path.Combine` exception before the download is not modelled.
- Commands.DownloadAndInstall: the same `Path.Combine` exception is not modelled.
- Registry.ArtifactManager.Install: a name that `Path.Combine` refuses would throw before the extraction and leave the registry unchanged; the model installs it.
- Registry.ArtifactManager.Remove: a registry name that `Path.Combine` refuses (possible only in a hand-edited registry file) throws in the source before the entry is removed; the model removes it.
- Commands.ProcessRemove: the same `Path.Combine` exception is not modelled; the model reports the name removed.
- Compatibility.IsCompatible: the `catch` would also absorb a null architecture or minimum OS; records from the parser never have nulls, so the model has none.
