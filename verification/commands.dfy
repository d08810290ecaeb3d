/**
 * The command layer: which command the first argument names, how the
 * "-d" flag and the target are read from the arguments, and the install,
 * search, remove and list commands that tie the remote database, the
 * compatibility check, the download and the registry together.
 */
module Commands {
  import opened Wrappers
  import opened Text
  import opened OrderedMaps
  import opened Manifest
  import opened Compatibility
  import opened Registry

  /** The command the first argument names, compared in lower case; no
      argument or an unknown word shows the usage text. */
  datatype Command = InstallCommand | ListCommand | SearchCommand | RemoveCommand | Usage

  function RouteCommand(args: seq<string>): (c: Command)
    ensures c != Usage <==> |args| > 0 && ToLower(args[0]) in ["install", "list", "search", "remove"]
  {
    if |args| == 0 then Usage
    else
      var command := ToLower(args[0]);
      if command == "install" then InstallCommand
      else if command == "list" then ListCommand
      else if command == "search" then SearchCommand
      else if command == "remove" then RemoveCommand
      else Usage
  }

  /** The command word is matched without regard to case, and only the
      first argument decides the command. */
  lemma RouteIgnoresCase(args: seq<string>, other: seq<string>)
    requires |args| >= 1 && |other| >= 1
    requires ToLower(args[0]) == ToLower(other[0])
    ensures RouteCommand(args) == RouteCommand(other)
  {
  }

  lemma RouteExamples(rest: seq<string>)
    ensures RouteCommand(["INSTALL"] + rest) == InstallCommand
    ensures RouteCommand(["Search"] + rest) == SearchCommand
    ensures RouteCommand(["remove"] + rest) == RemoveCommand
    ensures RouteCommand(["List"] + rest) == ListCommand
    ensures RouteCommand(["update"] + rest) == Usage
    ensures RouteCommand([]) == Usage
  {
    assert ToLower("INSTALL") == "install";
    assert ToLower("Search") == "search";
    assert ToLower("remove") == "remove";
    assert ToLower("List") == "list";
    assert ToLower("update")[0] == 'u';
  }

  /** args[1] is the driver flag, in any case. */
  predicate DriverFlag(args: seq<string>) {
    |args| >= 2 && ToLower(args[1]) == "-d"
  }

  /** What the arguments of install, search and remove name: a target of
      some class, or only the class when the name is missing. */
  datatype Target = Target(kind: ArtifactClass, name: string) | Missing(kind: ArtifactClass)

  function ParseTarget(args: seq<string>): (t: Target)
    ensures t.kind == Driver <==> DriverFlag(args)
    ensures t.Missing? <==> |args| < (if DriverFlag(args) then 3 else 2)
    ensures t.Target? ==> t.name == args[if DriverFlag(args) then 2 else 1]
  {
    if DriverFlag(args) then
      if |args| < 3 then Missing(Driver) else Target(Driver, args[2])
    else if |args| >= 2 then Target(Package, args[1])
    else Missing(Package)
  }

  /** The argument shapes: "cmd" and "cmd -d" lack a name; "cmd name"
      names a package unless the name is the flag; "cmd -d name" names a
      driver. Anything after the name is ignored. */
  lemma ParseTargetShapes(command: string, flag: string, name: string, rest: seq<string>)
    requires ToLower(flag) == "-d"
    ensures ParseTarget([command]) == Missing(Package)
    ensures ParseTarget([command, flag]) == Missing(Driver)
    ensures ParseTarget([command, flag, name] + rest) == Target(Driver, name)
    ensures ToLower(name) != "-d" ==> ParseTarget([command, name] + rest) == Target(Package, name)
  {
    assert ([command, flag, name] + rest)[1] == flag;
    assert ([command, name] + rest)[1] == name;
  }

  /** "-D" is the flag as much as "-d" is. */
  lemma DriverFlagIgnoresCase(command: string, name: string)
    ensures ParseTarget([command, "-D", name]) == Target(Driver, name)
    ensures ParseTarget([command, "-D"]) == Missing(Driver)
  {
    assert ToLower("-D") == "-d";
  }

  /** The list command reads only the flag. */
  function ListKind(args: seq<string>): (kind: ArtifactClass)
    ensures kind == Driver <==> DriverFlag(args)
  {
    if DriverFlag(args) then Driver else Package
  }

  /** The settings key that holds each class's database address. */
  function DatabaseUrlKey(kind: ArtifactClass): string {
    match kind
    case Package => "packageDatabaseUrl"
    case Driver => "driverDatabaseUrl"
  }

  function DatabaseUrl(settings: map<string, string>, kind: ArtifactClass): (url: string)
    ensures DatabaseUrlKey(kind) in settings ==> url == settings[DatabaseUrlKey(kind)]
    ensures DatabaseUrlKey(kind) !in settings ==> url == ""
  {
    GetSetting(settings, DatabaseUrlKey(kind), "")
  }

  /** The registry a new manager of this class would load. */
  function Registered(files: map<string, seq<string>>, kind: ArtifactClass): (r: Entries)
    ensures r.Valid()
  {
    LoadLines(ReadLines(files, RegistryFileName(kind)))
  }

  /** The record the database offers under a name, if there is a database
      and it has one. */
  function Lookup(db: Option<Catalog>, name: string): (r: Option<Record>)
    ensures r.Some? <==> db.Some? && name in db.value.values
    ensures r.Some? ==> r.value == db.value.values[name]
  {
    if db.Some? && name in db.value.values then Some(db.value.values[name]) else None
  }

  /** How an install command ends. */
  datatype InstallResult =
    | NoTarget
    | NotFound(name: string)
    | Incompatible(info: Record)
    | DownloadFailed
    | Finished(outcome: InstallOutcome)

  /** ProcessInstall. The host, the text the database fetch returned (None
      for a failed fetch) and whether the archive download succeeded are
      parameters. The manager is created first (it reads its registry);
      then the database is fetched and the target looked up, its
      compatibility checked, the archive downloaded, and only then does
      the manager's Install decide whether the name is already there. */
  method ProcessInstall(args: seq<string>, settings: map<string, string>, fs: FileSystem,
                        host: Host, fetched: Option<string>, downloaded: bool)
    returns (result: InstallResult, effects: seq<Effect>)
    modifies fs
    ensures ParseTarget(args).Missing? ==>
      result == NoTarget && effects == [] && fs.files == old(fs.files)
    ensures ParseTarget(args).Target? ==>
      var kind, name := ParseTarget(args).kind, ParseTarget(args).name;
      var offered := Lookup(ParseManifest(fetched), name);
      var fetch := FetchText(DatabaseUrl(settings, kind));
      && (offered.None? ==>
            result == NotFound(name) && effects == [fetch] && fs.files == old(fs.files))
      && (offered.Some? && !IsCompatible(offered.value, host) ==>
            result == Incompatible(offered.value) && effects == [fetch] && fs.files == old(fs.files))
      && (offered.Some? && IsCompatible(offered.value, host) ==>
            var download := DownloadFile(offered.value.link, ArchivePath(settings, kind, name));
            var registry := Registered(old(fs.files), kind);
            && (!downloaded ==>
                  result == DownloadFailed && effects == [fetch] + [download] && fs.files == old(fs.files))
            && (downloaded && name in registry.values ==>
                  && result == Finished(AlreadyInstalled(registry.values[name]))
                  && effects == [fetch] + [download] && fs.files == old(fs.files))
            && (downloaded && name !in registry.values ==>
                  && result == Finished(Installed)
                  && effects == [fetch] + ([download] + InstallActions(settings, kind, name))
                  && fs.files == old(fs.files)[RegistryFileName(kind) :=
                       SaveLines(Put(registry, name, offered.value.version))]))
    ensures forall other :: other != ParseTarget(args).kind ==>
      Registered(fs.files, other) == Registered(old(fs.files), other)
  {
    var target := ParseTarget(args);
    if target.Missing? {
      return NoTarget, [];
    }
    var manager := new ArtifactManager(target.kind, fs);
    result, effects := InstallTarget(manager, target.name, settings, host, fetched, downloaded);
    forall other | other != target.kind
      ensures Registered(fs.files, other) == Registered(old(fs.files), other)
    {
      ClassesSeparate(target.kind, other);
    }
  }

  /** ProcessInstall once the manager exists: fetch, lookup, compatibility
      check, download and install. */
  method InstallTarget(manager: ArtifactManager, name: string, settings: map<string, string>,
                       host: Host, fetched: Option<string>, downloaded: bool)
    returns (result: InstallResult, effects: seq<Effect>)
    modifies manager, manager.fs
    requires manager.Valid()
    ensures manager.Valid()
    ensures var offered := Lookup(ParseManifest(fetched), name);
      var fetch := FetchText(DatabaseUrl(settings, manager.kind));
      && (offered.None? || !IsCompatible(offered.value, host) ==>
            && result == (if offered.None? then NotFound(name) else Incompatible(offered.value))
            && effects == [fetch]
            && manager.Entries() == old(manager.Entries()) && manager.fs.files == old(manager.fs.files))
      && (offered.Some? && IsCompatible(offered.value, host) ==>
            var download := DownloadFile(offered.value.link, ArchivePath(settings, manager.kind, name));
            && (!downloaded ==>
                  && result == DownloadFailed && effects == [fetch] + [download]
                  && manager.Entries() == old(manager.Entries()) && manager.fs.files == old(manager.fs.files))
            && (downloaded && name in old(manager.versions) ==>
                  && result == Finished(AlreadyInstalled(old(manager.versions[name])))
                  && effects == [fetch] + [download]
                  && manager.Entries() == old(manager.Entries()) && manager.fs.files == old(manager.fs.files))
            && (downloaded && name !in old(manager.versions) ==>
                  && result == Finished(Installed)
                  && effects == [fetch] + ([download] + InstallActions(settings, manager.kind, name))
                  && manager.Entries() == Put(old(manager.Entries()), name, offered.value.version)
                  && manager.fs.files == old(manager.fs.files)[RegistryFileName(manager.kind) :=
                       SaveLines(Put(old(manager.Entries()), name, offered.value.version))]))
  {
    effects := [FetchText(DatabaseUrl(settings, manager.kind))];
    var db := LoadRemoteDatabase(fetched);
    if db.None? || name !in db.value.values {
      return NotFound(name), effects;
    }
    var info := db.value.values[name];
    assert Lookup(ParseManifest(fetched), name) == Some(info);
    if !IsCompatible(info, host) {
      return Incompatible(info), effects;
    }
    var rest;
    result, rest := DownloadAndInstall(manager, name, info, settings, downloaded);
    effects := effects + rest;
  }

  /** The part of ProcessInstall after the checks: the archive is
      downloaded and, when that succeeded, handed to the manager. */
  method DownloadAndInstall(manager: ArtifactManager, name: string, info: Record,
                            settings: map<string, string>, downloaded: bool)
    returns (result: InstallResult, effects: seq<Effect>)
    modifies manager, manager.fs
    requires manager.Valid()
    ensures manager.Valid()
    ensures var download := DownloadFile(info.link, ArchivePath(settings, manager.kind, name));
      && (!downloaded ==>
            && result == DownloadFailed && effects == [download]
            && manager.Entries() == old(manager.Entries()) && manager.fs.files == old(manager.fs.files))
      && (downloaded && name in old(manager.versions) ==>
            && result == Finished(AlreadyInstalled(old(manager.versions[name])))
            && effects == [download]
            && manager.Entries() == old(manager.Entries()) && manager.fs.files == old(manager.fs.files))
      && (downloaded && name !in old(manager.versions) ==>
            && result == Finished(Installed)
            && effects == [download] + InstallActions(settings, manager.kind, name)
            && manager.Entries() == Put(old(manager.Entries()), name, info.version)
            && manager.fs.files == old(manager.fs.files)[RegistryFileName(manager.kind) := SaveLines(manager.Entries())])
  {
    effects := [DownloadFile(info.link, ArchivePath(settings, manager.kind, name))];
    if !downloaded {
      return DownloadFailed, effects;
    }
    var outcome, installEffects := manager.Install(name, info.version, settings);
    effects := effects + installEffects;
    result := Finished(outcome);
  }

  /** One search result: the record and whether this host can install it. */
  datatype Hit = Hit(info: Record, compatible: bool)

  /** The search test: the lower-cased term occurs in the lower-cased name. */
  function Matches(r: Record, term: string): (m: bool)
    ensures m <==> exists i :: OccursAt(ToLower(r.name), ToLower(term), i)
  {
    IndexOf(ToLower(r.name), ToLower(term)) >= 0
  }

  /** The hits among the records filed under these names, in order. */
  function HitsAmong(c: Catalog, names: seq<string>, term: string, host: Host): (hits: seq<Hit>)
    requires forall i :: 0 <= i < |names| ==> names[i] in c.values
    ensures |hits| <= |names|
  {
    if |names| == 0 then []
    else
      var info := c.values[names[|names| - 1]];
      HitsAmong(c, names[..|names| - 1], term, host)
        + (if Matches(info, term) then [Hit(info, IsCompatible(info, host))] else [])
  }

  /** The matching records of the database in its enumeration order, none
      when there is no database. */
  function SearchHits(db: Option<Catalog>, term: string, host: Host): (hits: seq<Hit>)
    requires db.Some? ==> db.value.Valid()
    ensures db.None? ==> hits == []
    ensures db.Some? ==> |hits| <= |db.value.keys|
  {
    if db.None? then []
    else
      var c := db.value;
      assert forall i :: 0 <= i < |c.keys| ==> c.keys[i] in c.values;
      HitsAmong(c, c.keys, term, host)
  }

  /** One more name of the enumeration adds its record's hit, if any. */
  lemma HitsAmongPrefixStep(c: Catalog, names: seq<string>, i: nat, term: string, host: Host)
    requires i < |names|
    requires forall j :: 0 <= j < |names| ==> names[j] in c.values
    ensures var info := c.values[names[i]];
      HitsAmong(c, names[..i + 1], term, host)
        == HitsAmong(c, names[..i], term, host) + (if Matches(info, term) then [Hit(info, IsCompatible(info, host))] else [])
  {
    assert names[..i + 1][..i] == names[..i];
  }

  /** h reports the record filed under names[i]. */
  ghost predicate HitAt(c: Catalog, names: seq<string>, i: int, term: string, host: Host, h: Hit) {
    && 0 <= i < |names| && names[i] in c.values && h.info == c.values[names[i]]
    && Matches(h.info, term) && h.compatible == IsCompatible(h.info, host)
  }

  lemma HitsAmongSnoc(c: Catalog, names: seq<string>, term: string, host: Host, h: Hit)
    requires |names| > 0
    requires forall i :: 0 <= i < |names| ==> names[i] in c.values
    ensures var init, info := names[..|names| - 1], c.values[names[|names| - 1]];
      h in HitsAmong(c, names, term, host) <==>
        h in HitsAmong(c, init, term, host) || HitAt(c, names, |names| - 1, term, host, h)
  {
  }

  lemma {:induction false} HitsAmongExact(c: Catalog, names: seq<string>, term: string, host: Host, h: Hit)
    requires forall i :: 0 <= i < |names| ==> names[i] in c.values
    ensures h in HitsAmong(c, names, term, host) <==> exists i :: HitAt(c, names, i, term, host, h)
  {
    if |names| > 0 {
      var init := names[..|names| - 1];
      HitsAmongExact(c, init, term, host, h);
      HitsAmongSnoc(c, names, term, host, h);
      if exists i :: HitAt(c, init, i, term, host, h) {
        var i :| HitAt(c, init, i, term, host, h);
        assert names[i] == init[i];
        assert HitAt(c, names, i, term, host, h);
      }
      if exists i :: HitAt(c, names, i, term, host, h) {
        var i :| HitAt(c, names, i, term, host, h);
        if i < |init| {
          assert names[i] == init[i];
          assert HitAt(c, init, i, term, host, h);
        }
      }
    }
  }

  /** Search reports exactly the database's records whose name contains the
      term ignoring case, each with its compatibility on this host. */
  lemma SearchHitsExact(db: Option<Catalog>, term: string, host: Host, h: Hit)
    requires db.Some? ==> db.value.Valid() && KeyedByName(db.value)
    ensures h in SearchHits(db, term, host) <==>
      && db.Some? && h.info.name in db.value.values && db.value.values[h.info.name] == h.info
      && Matches(h.info, term) && h.compatible == IsCompatible(h.info, host)
  {
    if db.Some? {
      var c := db.value;
      HitsAmongExact(c, c.keys, term, host, h);
      if exists i :: HitAt(c, c.keys, i, term, host, h) {
        var i :| HitAt(c, c.keys, i, term, host, h);
        assert c.values[c.keys[i]].name == c.keys[i];
      }
      if h.info.name in c.values && c.values[h.info.name] == h.info {
        assert h.info.name in c.keys;
        var i :| 0 <= i < |c.keys| && c.keys[i] == h.info.name;
        if Matches(h.info, term) && h.compatible == IsCompatible(h.info, host) {
          assert HitAt(c, c.keys, i, term, host, h);
        }
      }
    }
  }

  /** No hit exactly when there is no database or no record's name
      contains the term. */
  lemma NoHits(db: Option<Catalog>, term: string, host: Host)
    requires db.Some? ==> db.value.Valid() && KeyedByName(db.value)
    ensures SearchHits(db, term, host) == [] <==>
      db.None? || forall k :: k in db.value.values ==> !Matches(db.value.values[k], term)
  {
    if db.Some? {
      var c := db.value;
      if SearchHits(db, term, host) != [] {
        var h := SearchHits(db, term, host)[0];
        SearchHitsExact(db, term, host, h);
      }
      forall k | k in c.values && Matches(c.values[k], term)
        ensures SearchHits(db, term, host) != []
      {
        var info := c.values[k];
        SearchHitsExact(db, term, host, Hit(info, IsCompatible(info, host)));
      }
    }
  }

  /** The empty term is found in every name, so it lists the whole
      database. */
  lemma EmptyTermMatchesAll(r: Record)
    ensures Matches(r, "")
  {
    assert OccursAt(ToLower(r.name), ToLower(""), 0);
  }

  /** The term's case does not matter. */
  lemma TermCaseIgnored(r: Record, term: string, other: string)
    requires ToLower(term) == ToLower(other)
    ensures Matches(r, term) == Matches(r, other)
  {
  }

  /** How a search command ends: no term, or the hits and whether the
      "no ... found" line is printed. */
  datatype SearchResult = NoTerm | Results(kind: ArtifactClass, term: string, hits: seq<Hit>, noneFound: bool)

  /** ProcessSearch: the database of the class is fetched and every record
      whose name contains the term is reported with its compatibility; the
      found flag records whether any was. */
  method ProcessSearch(args: seq<string>, settings: map<string, string>, host: Host, fetched: Option<string>)
    returns (result: SearchResult, effects: seq<Effect>)
    ensures ParseTarget(args).Missing? ==> result == NoTerm && effects == []
    ensures ParseTarget(args).Target? ==>
      var kind, term := ParseTarget(args).kind, ParseTarget(args).name;
      && effects == [FetchText(DatabaseUrl(settings, kind))]
      && result.Results? && result.kind == kind && result.term == term
      && result.hits == SearchHits(ParseManifest(fetched), term, host)
      && (result.noneFound <==> result.hits == [])
  {
    var target := ParseTarget(args);
    if target.Missing? {
      return NoTerm, [];
    }
    var kind, term := target.kind, target.name;
    effects := [FetchText(DatabaseUrl(settings, kind))];
    var db := LoadRemoteDatabase(fetched);
    var hits: seq<Hit> := [];
    var found := false;
    if db.Some? {
      hits, found := ScanDatabase(db.value, term, host);
    }
    result := Results(kind, term, hits, !found);
  }

  /** The foreach over the database's values: each record whose name
      contains the term is reported, and the found flag is set. */
  method ScanDatabase(c: Catalog, term: string, host: Host) returns (hits: seq<Hit>, found: bool)
    requires c.Valid()
    ensures hits == SearchHits(Some(c), term, host)
    ensures found <==> hits != []
  {
    assert forall j :: 0 <= j < |c.keys| ==> c.keys[j] in c.values;
    hits, found := [], false;
    for i := 0 to |c.keys|
      invariant hits == HitsAmong(c, c.keys[..i], term, host)
      invariant found <==> hits != []
    {
      HitsAmongPrefixStep(c, c.keys, i, term, host);
      var info := c.values[c.keys[i]];
      if IndexOf(ToLower(info.name), ToLower(term)) >= 0 {
        var compatible := IsCompatible(info, host);
        hits := hits + [Hit(info, compatible)];
        found := true;
      }
    }
    assert c.keys[..|c.keys|] == c.keys;
  }

  /** How a remove command ends. */
  datatype RemoveResult = NothingToRemove | Done(outcome: RemoveOutcome)

  /** ProcessRemove: a manager of the class is created and asked to remove
      the target. */
  method ProcessRemove(args: seq<string>, settings: map<string, string>, fs: FileSystem)
    returns (result: RemoveResult, effects: seq<Effect>)
    modifies fs
    ensures ParseTarget(args).Missing? ==>
      result == NothingToRemove && effects == [] && fs.files == old(fs.files)
    ensures ParseTarget(args).Target? ==>
      var kind, name := ParseTarget(args).kind, ParseTarget(args).name;
      var registry := Registered(old(fs.files), kind);
      && (name in registry.values ==>
            && result == Done(Removed)
            && effects == [DeleteFolder(InstallFolder(settings, kind, name))] + [WriteRegistry(RegistryFileName(kind))]
            && fs.files == old(fs.files)[RegistryFileName(kind) := SaveLines(OrderedMaps.Remove(registry, name))])
      && (name !in registry.values ==>
            result == Done(NotInstalled) && effects == [] && fs.files == old(fs.files))
    ensures forall other :: other != ParseTarget(args).kind ==>
      Registered(fs.files, other) == Registered(old(fs.files), other)
  {
    var target := ParseTarget(args);
    if target.Missing? {
      return NothingToRemove, [];
    }
    var manager := new ArtifactManager(target.kind, fs);
    var outcome;
    outcome, effects := manager.Remove(target.name, settings);
    result := Done(outcome);
    forall other | other != target.kind
      ensures Registered(fs.files, other) == Registered(old(fs.files), other)
    {
      ClassesSeparate(target.kind, other);
    }
  }

  /** ProcessList: the registry of the class the flag selects, in its
      enumeration order, and whether it is empty. */
  method ProcessList(args: seq<string>, fs: FileSystem)
    returns (kind: ArtifactClass, none: bool, listing: seq<(string, string)>)
    ensures kind == ListKind(args)
    ensures var registry := Registered(fs.files, kind);
      && (none <==> registry.values == map[])
      && |listing| == |registry.keys|
      && forall i :: 0 <= i < |listing| ==> listing[i] == (registry.keys[i], registry.values[registry.keys[i]])
  {
    kind := ListKind(args);
    var manager := new ArtifactManager(kind, fs);
    none, listing := manager.ListInstalled();
  }
}
