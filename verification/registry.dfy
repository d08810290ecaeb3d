/**
 * The local registry of installed artifacts (PackageManager and
 * DriverManager, which differ only in their file and folder names): a
 * dictionary from name to installed version, loaded from and saved to a
 * text file of "name:version" lines, and updated by Install and Remove.
 */
module Registry {
  import opened Wrappers
  import opened Text
  import opened OrderedMaps
  import opened Paths

  /** What a manager looks after: packages, or drivers (the -d flag). */
  datatype ArtifactClass = Package | Driver

  /** The registry file of each manager, relative to the working folder. */
  function RegistryFileName(kind: ArtifactClass): string {
    match kind
    case Package => "installedPackages.txt"
    case Driver => "installedDrivers.txt"
  }

  /** The folder under the install root that holds each class's archives
      and installations. */
  function Subfolder(kind: ArtifactClass): string {
    match kind
    case Package => "packages"
    case Driver => "drivers"
  }

  /** The two managers keep separate registries and separate folders: no
      file or folder of one class is the other's. */
  lemma ClassesSeparate(kind: ArtifactClass, other: ArtifactClass)
    requires kind != other
    ensures RegistryFileName(kind) != RegistryFileName(other)
    ensures Subfolder(kind) != Subfolder(other)
  {
    assert RegistryFileName(Package)[9] == 'P' && RegistryFileName(Driver)[9] == 'D';
    assert Subfolder(Package)[0] == 'p' && Subfolder(Driver)[0] == 'd';
  }

  const DefaultInstallPath: string := "C:\\Program Files\\MyPkgMgr"

  /** SettingsManager.GetSetting: the configured value of key, or the
      caller's default when the settings do not mention it. */
  function GetSetting(settings: map<string, string>, key: string, default: string): (value: string)
    ensures key in settings ==> value == settings[key]
    ensures key !in settings ==> value == default
  {
    if key in settings then settings[key] else default
  }

  /** The folder the artifacts are installed under. */
  function InstallRoot(settings: map<string, string>): string {
    GetSetting(settings, "defaultInstallPath", DefaultInstallPath)
  }

  /** The folder that holds a class's archives and installations:
      Path.Combine(root, subfolder). */
  function ClassFolder(settings: map<string, string>, kind: ArtifactClass): string {
    Combine(InstallRoot(settings), Subfolder(kind))
  }

  /** Where an artifact's archive is downloaded to:
      Path.Combine(Path.Combine(root, subfolder), name + ".zip"). */
  function ArchivePath(settings: map<string, string>, kind: ArtifactClass, name: string): string {
    Combine(ClassFolder(settings, kind), name + ".zip")
  }

  /** Where an artifact is unpacked, and the folder Remove deletes:
      Path.Combine(Path.Combine(root, subfolder), name). */
  function InstallFolder(settings: map<string, string>, kind: ArtifactClass, name: string): string {
    Combine(ClassFolder(settings, kind), name)
  }

  /** The subfolder is always put below the install root. */
  lemma ClassFolderBelowRoot(settings: map<string, string>, kind: ArtifactClass)
    ensures ClassFolder(settings, kind) == JoinPrefix(InstallRoot(settings)) + Subfolder(kind)
  {
    assert Subfolder(kind)[0] != DirectorySeparator && Subfolder(kind)[0] != AltDirectorySeparator;
    assert Subfolder(kind)[1] != VolumeSeparator;
    CombineRelative(InstallRoot(settings), Subfolder(kind));
  }

  /** The class folders of the two classes differ. */
  lemma ClassFolderDetermines(settings: map<string, string>, kind: ArtifactClass, other: ArtifactClass)
    requires ClassFolder(settings, kind) == ClassFolder(settings, other)
    ensures kind == other
  {
    ClassFolderBelowRoot(settings, kind);
    ClassFolderBelowRoot(settings, other);
    var prefix := JoinPrefix(InstallRoot(settings));
    assert Subfolder(kind) == (prefix + Subfolder(kind))[|prefix|..];
    assert Subfolder(other) == (prefix + Subfolder(other))[|prefix|..];
    assert Subfolder(kind)[0] == Subfolder(other)[0];
  }

  /** The class folder ends in its subfolder's last letter, so Combine
      puts a '\' after it. */
  lemma ClassFolderJoin(settings: map<string, string>, kind: ArtifactClass)
    ensures JoinPrefix(ClassFolder(settings, kind)) == ClassFolder(settings, kind) + [DirectorySeparator]
  {
    var folder, sub := ClassFolder(settings, kind), Subfolder(kind);
    ClassFolderBelowRoot(settings, kind);
    assert folder[|folder| - 1] == sub[|sub| - 1];
    assert sub[|sub| - 1] == 's';
  }

  /** A plain name is one component below its class folder, and so is its
      archive. */
  lemma PlainNameBelowClassFolder(settings: map<string, string>, kind: ArtifactClass, name: string)
    requires IsPlainName(name)
    ensures InstallFolder(settings, kind, name) == ClassFolder(settings, kind) + [DirectorySeparator] + name
    ensures ArchivePath(settings, kind, name) == ClassFolder(settings, kind) + [DirectorySeparator] + (name + ".zip")
  {
    var folder := ClassFolder(settings, kind);
    ClassFolderJoin(settings, kind);
    CombineRelative(folder, name);
    PlainWithExtension(name, ".zip");
    CombineRelative(folder, name + ".zip");
  }

  /** For plain names, the install-folder path string tells the class and
      the name. */
  lemma FolderDetermines(settings: map<string, string>, kind: ArtifactClass, name: string,
                         otherKind: ArtifactClass, otherName: string)
    requires IsPlainName(name) && IsPlainName(otherName)
    requires InstallFolder(settings, kind, name) == InstallFolder(settings, otherKind, otherName)
    ensures kind == otherKind && name == otherName
  {
    PlainNameBelowClassFolder(settings, kind, name);
    PlainNameBelowClassFolder(settings, otherKind, otherName);
    SplitAtLastSeparator(ClassFolder(settings, kind), name, ClassFolder(settings, otherKind), otherName);
    ClassFolderDetermines(settings, kind, otherKind);
  }

  /** For plain names, the archive path string tells the class and the
      name. */
  lemma ArchiveDetermines(settings: map<string, string>, kind: ArtifactClass, name: string,
                          otherKind: ArtifactClass, otherName: string)
    requires IsPlainName(name) && IsPlainName(otherName)
    requires ArchivePath(settings, kind, name) == ArchivePath(settings, otherKind, otherName)
    ensures kind == otherKind && name == otherName
  {
    PlainNameBelowClassFolder(settings, kind, name);
    PlainNameBelowClassFolder(settings, otherKind, otherName);
    PlainWithExtension(name, ".zip");
    PlainWithExtension(otherName, ".zip");
    SplitAtLastSeparator(ClassFolder(settings, kind), name + ".zip", ClassFolder(settings, otherKind), otherName + ".zip");
    ClassFolderDetermines(settings, kind, otherKind);
    assert name == (name + ".zip")[..|name|];
    assert otherName == (otherName + ".zip")[..|otherName|];
  }

  /** For plain names (one path component, not "." or ".."), an artifact's
      archive path is not its install-folder path, and two different
      artifacts (by class or by name) never share an archive path or an
      install-folder path. These are path strings: a file system that
      ignores case sees "Foo" and "foo" as one folder (see
      CaseVariantsShareFolder). */
  lemma LocationsDistinct(settings: map<string, string>, kind: ArtifactClass, name: string,
                          otherKind: ArtifactClass, otherName: string)
    requires IsPlainName(name) && IsPlainName(otherName)
    ensures ArchivePath(settings, kind, name) != InstallFolder(settings, kind, name)
    ensures (kind, name) != (otherKind, otherName) ==>
      && ArchivePath(settings, kind, name) != ArchivePath(settings, otherKind, otherName)
      && InstallFolder(settings, kind, name) != InstallFolder(settings, otherKind, otherName)
  {
    PlainNameBelowClassFolder(settings, kind, name);
    if ArchivePath(settings, kind, name) == ArchivePath(settings, otherKind, otherName) {
      ArchiveDetermines(settings, kind, name, otherKind, otherName);
    }
    if InstallFolder(settings, kind, name) == InstallFolder(settings, otherKind, otherName) {
      FolderDetermines(settings, kind, name, otherKind, otherName);
    }
  }

  /** A rooted name (a leading separator or a drive colon) chooses its own
      folder: Combine returns it as it is, for both classes, so a package
      and a driver of that name share their archive and their folder. That
      folder may lie anywhere, inside the install root as well. */
  lemma RootedNameChoosesFolder(settings: map<string, string>, kind: ArtifactClass, name: string)
    requires IsPathRooted(name)
    ensures InstallFolder(settings, kind, name) == name
    ensures ArchivePath(settings, kind, name) == name + ".zip"
  {
    var archive := name + ".zip";
    assert archive[0] == name[0];
    if |name| >= 2 {
      assert archive[1] == name[1];
    }
  }

  /** With the install root C:\R, the package named C:\R\drivers\x is
      unpacked into driver x's folder. */
  lemma RootedNameReachesDriverFolder()
    ensures var settings := map["defaultInstallPath" := "C:\\R"];
      InstallFolder(settings, Package, "C:\\R\\drivers\\x") == InstallFolder(settings, Driver, "x")
  {
    var settings := map["defaultInstallPath" := "C:\\R"];
    RootedNameChoosesFolder(settings, Package, "C:\\R\\drivers\\x");
    PlainNameBelowClassFolder(settings, Driver, "x");
    ClassFolderBelowRoot(settings, Driver);
  }

  /** An archive path is also the install folder of the name with ".zip":
      package x's archive is where a package named x.zip is unpacked. */
  lemma ArchiveIsFolderOfZipName(settings: map<string, string>, kind: ArtifactClass, name: string)
    ensures ArchivePath(settings, kind, name) == InstallFolder(settings, kind, name + ".zip")
  {
  }

  /** Names that differ only in the case of letters get install folders that
      differ only in case: on a file system that ignores case, as Windows
      does, they are one folder, although the registry keeps two entries. */
  lemma CaseVariantsShareFolder(settings: map<string, string>, kind: ArtifactClass, name: string, other: string)
    requires IsPlainName(name) && IsPlainName(other) && EqualsIgnoreCase(name, other)
    ensures EqualsIgnoreCase(InstallFolder(settings, kind, name), InstallFolder(settings, kind, other))
  {
    var prefix := ClassFolder(settings, kind) + [DirectorySeparator];
    PlainNameBelowClassFolder(settings, kind, name);
    PlainNameBelowClassFolder(settings, kind, other);
    ToLowerConcat(prefix, name);
    ToLowerConcat(prefix, other);
  }

  /** The empty name is the class folder itself: installing it unpacks into
      that folder, and removing it deletes the folder with every artifact
      of the class. */
  lemma EmptyNameIsClassFolder(settings: map<string, string>, kind: ArtifactClass)
    ensures InstallFolder(settings, kind, "") == ClassFolder(settings, kind)
  {
  }

  /** The actions on the outside world, in the order they happen. */
  datatype Effect =
    | FetchText(url: string)
    | DownloadFile(url: string, destination: string)
    | ExtractZip(archive: string, folder: string)
    | DeleteFolder(folder: string)
    | WriteRegistry(file: string)

  /** The installed versions by name, in the order names were added. */
  type Entries = OrderedMap<string>

  /** One registry line: a name and a version when the line is non-empty and
      has exactly one ':', both sides trimmed; nothing otherwise. What a load
      produces can be saved and loaded again unchanged: both sides are
      trimmed and free of ':'. */
  function LoadEntry(line: string): (e: Option<(string, string)>)
    ensures e.Some? <==> line != "" && |Split(line, ':')| == 2
    ensures e.Some? ==> Storable(e.value.0) && Storable(e.value.1)
  {
    if line == "" then None
    else
      var parts := Split(line, ':');
      if |parts| != 2 then None
      else
        TrimCuts(parts[0]);
        TrimCuts(parts[1]);
        TrimKeepsAbsent(parts[0], ':');
        TrimKeepsAbsent(parts[1], ':');
        Some((Trim(parts[0]), Trim(parts[1])))
  }

  function LoadEntries(lines: seq<string>): (es: seq<Option<(string, string)>>)
    ensures |es| == |lines|
    ensures forall i :: 0 <= i < |lines| ==> es[i] == LoadEntry(lines[i])
  {
    seq(|lines|, i requires 0 <= i < |lines| => LoadEntry(lines[i]))
  }

  /** dictionary[name] = version, for a line that holds an entry. */
  function AddEntry(m: Entries, e: Option<(string, string)>): (r: Entries)
    requires m.Valid()
    ensures r.Valid()
  {
    if e.None? then m else Put(m, e.value.0, e.value.1)
  }

  /** The dictionary after adding the entries in order. */
  function AddAll(m: Entries, es: seq<Option<(string, string)>>): (r: Entries)
    requires m.Valid()
    ensures r.Valid()
  {
    if |es| == 0 then m
    else AddEntry(AddAll(m, es[..|es| - 1]), es[|es| - 1])
  }

  /** The dictionary after reading the lines into it in order. */
  function LoadInto(m: Entries, lines: seq<string>): (r: Entries)
    requires m.Valid()
    ensures r.Valid()
  {
    AddAll(m, LoadEntries(lines))
  }

  /** The registry read from these lines into an empty dictionary. */
  function LoadLines(lines: seq<string>): (r: Entries)
    ensures r.Valid()
  {
    LoadInto(Empty(), lines)
  }

  /** The lines of a file; a missing file has none. */
  function ReadLines(files: map<string, seq<string>>, name: string): seq<string> {
    if name in files then files[name] else []
  }

  /** The line that records one entry. */
  function EntryLine(name: string, version: string): string {
    name + ":" + version
  }

  function EntryLines(names: seq<string>, versions: map<string, string>): (lines: seq<string>)
    requires forall i :: 0 <= i < |names| ==> names[i] in versions
    ensures |lines| == |names|
    ensures forall i :: 0 <= i < |names| ==> lines[i] == EntryLine(names[i], versions[names[i]])
  {
    seq(|names|, i requires 0 <= i < |names| => EntryLine(names[i], versions[names[i]]))
  }

  /** What SaveRegistry writes: one line per entry, in enumeration order. */
  function SaveLines(m: Entries): (lines: seq<string>)
    requires m.Valid()
    ensures |lines| == |m.keys|
  {
    EntryLines(m.keys, m.values)
  }

  /** A name or version the file format carries unchanged. */
  predicate Storable(s: string) {
    ':' !in s && IsTrimmed(s)
  }

  lemma SplitEntryLine(name: string, version: string)
    requires ':' !in name && ':' !in version
    ensures Split(EntryLine(name, version), ':') == [name, version]
  {
    SplitAtSeparator(name, version, ':');
    SplitWithoutSeparator(name, ':');
    SplitWithoutSeparator(version, ':');
    assert EntryLine(name, version) == name + [':'] + version;
  }

  /** A saved line reads back as the entry it records. */
  lemma LoadEntryLine(name: string, version: string)
    requires Storable(name) && Storable(version)
    ensures LoadEntry(EntryLine(name, version)) == Some((name, version))
  {
    var line := EntryLine(name, version);
    SplitEntryLine(name, version);
    assert Split(line, ':') == [name, version];
    TrimOfTrimmed(name);
    TrimOfTrimmed(version);
    assert line != [];
  }

  /** A name holding ':' makes its line split into three or more parts, so
      the entry is lost on the next load. */
  lemma ColonInNameLost(name: string, version: string)
    requires ':' in name
    ensures LoadEntry(EntryLine(name, version)).None?
  {
    var i :| 0 <= i < |name| && name[i] == ':';
    var a, b := name[..i], name[i + 1..];
    assert name == a + [':'] + b;
    assert EntryLine(name, version) == a + [':'] + (b + [':'] + version);
    SplitAtSeparator(a, b + [':'] + version, ':');
    SplitAtSeparator(b, version, ':');
  }

  /** The entries a name sequence and a version map record. */
  function Pairs(names: seq<string>, versions: map<string, string>): (es: seq<Option<(string, string)>>)
    requires forall i :: 0 <= i < |names| ==> names[i] in versions
    ensures |es| == |names|
    ensures forall i :: 0 <= i < |names| ==> es[i] == Some((names[i], versions[names[i]]))
  {
    seq(|names|, i requires 0 <= i < |names| => Some((names[i], versions[names[i]])))
  }

  lemma UniqueInit(names: seq<string>)
    requires |names| > 0 && Unique(names)
    ensures Unique(names[..|names| - 1]) && names[|names| - 1] !in names[..|names| - 1]
  {
  }

  lemma AddPairsStep(names: seq<string>, versions: map<string, string>)
    requires |names| > 0
    requires forall i :: 0 <= i < |names| ==> names[i] in versions
    ensures var last := names[|names| - 1];
      AddAll(Empty(), Pairs(names, versions)) ==
        AddEntry(AddAll(Empty(), Pairs(names[..|names| - 1], versions)), Some((last, versions[last])))
  {
    var ps := Pairs(names, versions);
    assert ps[..|ps| - 1] == Pairs(names[..|names| - 1], versions);
  }

  lemma {:induction false} AddPairs(names: seq<string>, versions: map<string, string>)
    requires Unique(names)
    requires forall i :: 0 <= i < |names| ==> names[i] in versions
    ensures var r := AddAll(Empty(), Pairs(names, versions));
      && r.keys == names
      && (forall k :: k in r.values ==> k in versions && r.values[k] == versions[k])
  {
    if |names| > 0 {
      var init, last := names[..|names| - 1], names[|names| - 1];
      UniqueInit(names);
      AddPairs(init, versions);
      AddPairsStep(names, versions);
      PutNew(AddAll(Empty(), Pairs(init, versions)), last, versions[last]);
    }
  }

  lemma LoadEntryLines(names: seq<string>, versions: map<string, string>)
    requires forall i :: 0 <= i < |names| ==> names[i] in versions
    requires forall i :: 0 <= i < |names| ==> Storable(names[i]) && Storable(versions[names[i]])
    ensures LoadEntries(EntryLines(names, versions)) == Pairs(names, versions)
  {
    forall i | 0 <= i < |names|
      ensures LoadEntry(EntryLine(names[i], versions[names[i]])) == Some((names[i], versions[names[i]]))
    {
      LoadEntryLine(names[i], versions[names[i]]);
    }
  }

  /** Saving and loading again gives back the dictionary, names, versions
      and order, when no name or version holds ':' or surrounding white
      space. */
  lemma SaveLoadRoundTrip(m: Entries)
    requires m.Valid()
    requires forall k :: k in m.values ==> Storable(k) && Storable(m.values[k])
    ensures LoadLines(SaveLines(m)) == m
  {
    forall i | 0 <= i < |m.keys|
      ensures m.keys[i] in m.values && Storable(m.keys[i]) && Storable(m.values[m.keys[i]])
    {
      assert m.keys[i] in m.keys;
    }
    LoadEntryLines(m.keys, m.values);
    AddPairs(m.keys, m.values);
    SameEntries(AddAll(Empty(), Pairs(m.keys, m.values)), m);
  }


  lemma {:induction false} AddAllSkipsNone(m: Entries, a: seq<Option<(string, string)>>, b: seq<Option<(string, string)>>)
    requires m.Valid()
    ensures AddAll(m, a + [None] + b) == AddAll(m, a + b)
    decreases |b|
  {
    if |b| == 0 {
      assert (a + [None] + b)[..|a|] == a;
      assert a + b == a;
    } else {
      var init := b[..|b| - 1];
      AddAllSkipsNone(m, a, init);
      assert (a + [None] + b)[..|a + [None] + b| - 1] == a + [None] + init;
      assert (a + b)[..|a + b| - 1] == a + init;
    }
  }

  lemma LoadEntriesAround(a: seq<string>, line: string, b: seq<string>)
    ensures LoadEntries(a + [line] + b) == LoadEntries(a) + [LoadEntry(line)] + LoadEntries(b)
  {
  }

  lemma LoadEntriesConcat(a: seq<string>, b: seq<string>)
    ensures LoadEntries(a + b) == LoadEntries(a) + LoadEntries(b)
  {
  }

  /** A line that holds no entry changes nothing, wherever it stands. */
  lemma MalformedEntryIgnored(m: Entries, a: seq<string>, line: string, b: seq<string>)
    requires m.Valid()
    requires LoadEntry(line).None?
    ensures LoadInto(m, a + [line] + b) == LoadInto(m, a + b)
  {
    LoadEntriesAround(a, line, b);
    LoadEntriesConcat(a, b);
    AddAllSkipsNone(m, LoadEntries(a), LoadEntries(b));
  }

  /** Entry i is one for name n. */
  ghost predicate Names(es: seq<Option<(string, string)>>, i: int, n: string) {
    0 <= i < |es| && es[i].Some? && es[i].value.0 == n
  }

  /** What one assignment dictionary[name] = version does to the entry of n. */
  lemma AddEntryStep(m: Entries, e: Option<(string, string)>, n: string)
    requires m.Valid()
    ensures e.Some? && e.value.0 == n ==>
              n in AddEntry(m, e).values && AddEntry(m, e).values[n] == e.value.1
    ensures !(e.Some? && e.value.0 == n) ==>
              (n in AddEntry(m, e).values <==> n in m.values)
              && (n in m.values ==> AddEntry(m, e).values[n] == m.values[n])
  {
  }

  /** The last entry for n decides its version. */
  lemma {:induction false} AddAllLastWins(m: Entries, es: seq<Option<(string, string)>>, n: string, i: int)
    requires m.Valid()
    requires Names(es, i, n)
    requires forall j :: i < j < |es| ==> !Names(es, j, n)
    ensures n in AddAll(m, es).values && AddAll(m, es).values[n] == es[i].value.1
  {
    var init, last := es[..|es| - 1], |es| - 1;
    assert AddAll(m, es) == AddEntry(AddAll(m, init), es[last]);
    AddEntryStep(AddAll(m, init), es[last], n);
    if i < last {
      assert !Names(es, last, n);
      assert Names(init, i, n) && init[i] == es[i];
      forall j | i < j < |init| ensures !Names(init, j, n) {
        assert !Names(es, j, n) && init[j] == es[j];
      }
      AddAllLastWins(m, init, n, i);
    }
  }

  lemma {:induction false} AddAllUntouched(m: Entries, es: seq<Option<(string, string)>>, n: string)
    requires m.Valid()
    requires forall i :: !Names(es, i, n)
    ensures n in AddAll(m, es).values <==> n in m.values
    ensures n in m.values ==> AddAll(m, es).values[n] == m.values[n]
  {
    if |es| > 0 {
      var init := es[..|es| - 1];
      forall i | 0 <= i < |init|
        ensures !Names(init, i, n)
      {
        assert !Names(es, i, n);
        assert es[i] == init[i];
      }
      AddAllUntouched(m, init, n);
      assert !Names(es, |es| - 1, n);
      assert AddAll(m, es) == AddEntry(AddAll(m, init), es[|es| - 1]);
    }
  }

  /** Line i records the entry for name n. */
  ghost predicate Records(lines: seq<string>, i: int, n: string) {
    0 <= i < |lines| && LoadEntry(lines[i]).Some? && LoadEntry(lines[i]).value.0 == n
  }

  /** After loading, a name has the version of the last line that records it,
      and a name no line records is as it was before. */
  lemma LastEntryWins(m: Entries, lines: seq<string>, n: string)
    requires m.Valid()
    ensures forall i :: Records(lines, i, n) && (forall j :: i < j < |lines| ==> !Records(lines, j, n))
              ==> n in LoadInto(m, lines).values && LoadInto(m, lines).values[n] == LoadEntry(lines[i]).value.1
    ensures (forall i :: !Records(lines, i, n)) ==>
              (n in LoadInto(m, lines).values <==> n in m.values)
              && (n in m.values ==> LoadInto(m, lines).values[n] == m.values[n])
  {
    var es := LoadEntries(lines);
    forall i | Records(lines, i, n) && (forall j :: i < j < |lines| ==> !Records(lines, j, n))
      ensures n in LoadInto(m, lines).values && LoadInto(m, lines).values[n] == LoadEntry(lines[i]).value.1
    {
      RecordsNames(lines, i, n);
      forall j | i < j < |es| ensures !Names(es, j, n) {
        RecordsNames(lines, j, n);
      }
      AddAllLastWins(m, es, n, i);
    }
    if forall i :: !Records(lines, i, n) {
      forall i ensures !Names(es, i, n) {
        RecordsNames(lines, i, n);
      }
      AddAllUntouched(m, es, n);
    }
  }

  lemma RecordsNames(lines: seq<string>, i: int, n: string)
    ensures Records(lines, i, n) <==> Names(LoadEntries(lines), i, n)
    ensures Records(lines, i, n) ==> LoadEntries(lines)[i].value == LoadEntry(lines[i]).value
  {
  }


  lemma LoadIntoSnoc(m: Entries, lines: seq<string>, i: nat)
    requires m.Valid() && i < |lines|
    ensures LoadInto(m, lines[..i + 1]) == AddEntry(LoadInto(m, lines[..i]), LoadEntry(lines[i]))
  {
    assert lines[..i + 1] == lines[..i] + [lines[i]];
    LoadEntriesConcat(lines[..i], [lines[i]]);
  }

  /** What a successful install does outside the registry dictionary: the
      archive is unpacked into the artifact's folder and the registry file
      is written. */
  function InstallActions(settings: map<string, string>, kind: ArtifactClass, name: string): seq<Effect> {
    [ExtractZip(ArchivePath(settings, kind, name), InstallFolder(settings, kind, name)),
     WriteRegistry(RegistryFileName(kind))]
  }

  /** The files the manager reads and writes, each a sequence of lines. */
  class FileSystem {
    var files: map<string, seq<string>>

    constructor (files: map<string, seq<string>>)
      ensures this.files == files
    {
      this.files := files;
    }
  }

  /** What Install reports. */
  datatype InstallOutcome = Installed | AlreadyInstalled(installedVersion: string)

  /** What Remove reports. */
  datatype RemoveOutcome = Removed | NotInstalled

  /** A PackageManager (kind Package) or DriverManager (kind Driver). */
  class ArtifactManager {
    const kind: ArtifactClass
    const fs: FileSystem
    /** The dictionary's names in enumeration order, and its values. */
    var order: seq<string>
    var versions: map<string, string>

    ghost predicate Valid()
      reads this
    {
      Entries().Valid()
    }

    function Entries(): Entries
      reads this
    {
      OrderedMap(order, versions)
    }

    /** A new manager holds what its registry file records. */
    constructor (kind: ArtifactClass, fs: FileSystem)
      ensures this.kind == kind && this.fs == fs
      ensures Valid() && Entries() == LoadLines(ReadLines(fs.files, RegistryFileName(kind)))
    {
      this.kind := kind;
      this.fs := fs;
      order := [];
      versions := map[];
      new;
      LoadRegistry();
    }

    /** dictionary[name] = version */
    method Assign(name: string, version: string)
      modifies this
      requires Valid()
      ensures Valid() && Entries() == Put(old(Entries()), name, version)
    {
      if name !in versions {
        order := order + [name];
      }
      versions := versions[name := version];
    }

    /** Reads every entry of the registry file into the dictionary. */
    method LoadRegistry()
      modifies this
      requires Valid()
      ensures Valid() && Entries() == LoadInto(old(Entries()), ReadLines(fs.files, RegistryFileName(kind)))
    {
      var lines := ReadLines(fs.files, RegistryFileName(kind));
      ghost var start := Entries();
      for i := 0 to |lines|
        invariant Valid() && Entries() == LoadInto(start, lines[..i])
      {
        LoadIntoSnoc(start, lines, i);
        var line := lines[i];
        if line != "" {
          var parts := Split(line, ':');
          if |parts| == 2 {
            Assign(Trim(parts[0]), Trim(parts[1]));
          }
        }
      }
      assert lines[..|lines|] == lines;
    }

    /** Writes one line per entry, replacing the registry file. */
    method SaveRegistry()
      modifies fs
      requires Valid()
      ensures fs.files == old(fs.files)[RegistryFileName(kind) := SaveLines(Entries())]
    {
      var lines: seq<string> := [];
      for i := 0 to |order|
        invariant lines == EntryLines(order[..i], versions)
      {
        lines := lines + [EntryLine(order[i], versions[order[i]])];
      }
      assert order[..|order|] == order;
      fs.files := fs.files[RegistryFileName(kind) := lines];
    }

    /** Install / InstallDriver: a name already present is left alone;
        otherwise the archive is unpacked (its failure does not stop
        anything), the name is recorded with its version and the registry
        is saved. */
    method Install(name: string, version: string, settings: map<string, string>)
      returns (outcome: InstallOutcome, effects: seq<Effect>)
      modifies this, fs
      requires Valid()
      ensures Valid()
      ensures old(name in versions) ==>
        && outcome == AlreadyInstalled(old(versions[name]))
        && Entries() == old(Entries()) && fs.files == old(fs.files) && effects == []
      ensures old(name !in versions) ==>
        && outcome == Installed
        && versions == old(versions)[name := version] && order == old(order) + [name]
        && effects == InstallActions(settings, kind, name)
        && fs.files == old(fs.files)[RegistryFileName(kind) := SaveLines(Entries())]
    {
      if name in versions {
        return AlreadyInstalled(versions[name]), [];
      }
      effects := [ExtractZip(ArchivePath(settings, kind, name), InstallFolder(settings, kind, name))];
      Assign(name, version);
      SaveRegistry();
      effects := effects + [WriteRegistry(RegistryFileName(kind))];
      outcome := Installed;
    }

    /** Remove / RemoveDriver: a present name has its folder deleted (a
        failure is not reported back), its entry dropped and the registry
        saved; an absent name changes nothing and saves nothing. */
    method Remove(name: string, settings: map<string, string>)
      returns (outcome: RemoveOutcome, effects: seq<Effect>)
      modifies this, fs
      requires Valid()
      ensures Valid()
      ensures old(name in versions) ==>
        && outcome == Removed
        && Entries() == OrderedMaps.Remove(old(Entries()), name)
        && effects == [DeleteFolder(InstallFolder(settings, kind, name))] + [WriteRegistry(RegistryFileName(kind))]
        && fs.files == old(fs.files)[RegistryFileName(kind) := SaveLines(Entries())]
      ensures old(name !in versions) ==>
        && outcome == NotInstalled
        && Entries() == old(Entries()) && fs.files == old(fs.files) && effects == []
    {
      if name !in versions {
        return NotInstalled, [];
      }
      effects := [DeleteFolder(InstallFolder(settings, kind, name))];
      order := Without(order, name);
      versions := versions - {name};
      assert Entries() == OrderedMaps.Remove(old(Entries()), name);
      SaveRegistry();
      effects := effects + [WriteRegistry(RegistryFileName(kind))];
      outcome := Removed;
    }

    /** ListInstalled: the entries in enumeration order, and whether the
        "(none)" line is shown instead. */
    method ListInstalled() returns (none: bool, listing: seq<(string, string)>)
      requires Valid()
      ensures none <==> versions == map[]
      ensures |listing| == |order|
      ensures forall i :: 0 <= i < |order| ==> listing[i] == (order[i], versions[order[i]])
      ensures forall n, v :: (n, v) in listing <==> n in versions && versions[n] == v
    {
      none := |versions| == 0;
      listing := [];
      for i := 0 to |order|
        invariant |listing| == i
        invariant forall j :: 0 <= j < i ==> listing[j] == (order[j], versions[order[j]])
      {
        listing := listing + [(order[i], versions[order[i]])];
      }
      forall n, v ensures (n, v) in listing <==> n in versions && versions[n] == v {
        if n in versions && versions[n] == v {
          var j :| 0 <= j < |order| && order[j] == n;
          assert listing[j] == (n, v);
        }
      }
      if none {
        assert forall k :: k !in versions;
      }
    }
  }

  /** An install of a new name and a remove of it afterwards leave the
      dictionary as it was. */
  lemma InstallThenRemove(m: Entries, name: string, version: string)
    requires m.Valid() && name !in m.values
    ensures OrderedMaps.Remove(Put(m, name, version), name) == m
  {
    var p := Put(m, name, version);
    assert p.keys == m.keys + [name] && p.values == m.values[name := version];
    var r := OrderedMaps.Remove(p, name);
    WithoutAppended(m.keys, name);
    assert r.keys == m.keys;
    SameEntries(r, m);
  }

  /** Two valid dictionaries with the same order and the same versions are
      the same. */
  lemma SameEntries(r: Entries, m: Entries)
    requires r.Valid() && m.Valid() && r.keys == m.keys
    requires forall k :: k in r.values ==> k in m.values && r.values[k] == m.values[k]
    ensures r == m
  {
    assert r.values.Keys == m.values.Keys;
    assert r.values == m.values;
  }

  lemma {:induction false} WithoutAppended(keys: seq<string>, name: string)
    requires name !in keys
    ensures Without(keys + [name], name) == keys
  {
    assert (keys + [name])[..|keys|] == keys;
    WithoutAbsent(keys, name);
  }

  lemma {:induction false} WithoutAbsent(keys: seq<string>, name: string)
    requires name !in keys
    ensures Without(keys, name) == keys
  {
    if |keys| > 0 {
      WithoutAbsent(keys[..|keys| - 1], name);
      assert keys[..|keys| - 1] + [keys[|keys| - 1]] == keys;
    }
  }
}
