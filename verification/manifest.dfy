/**
 * The remote database of packages or drivers: one record per line,
 * "architecture minimum-OS name version link", read by LoadRemoteDatabase
 * into a dictionary from name to UpdateInfo.
 */
module Manifest {
  import opened Wrappers
  import opened Text
  import opened OrderedMaps

  /** UpdateInfo: one artifact the remote database offers. */
  datatype Record = Record(name: string, version: string, link: string, minOS: string, arch: string)

  /** The UpdateInfo constructor: minimum OS version "0.0" and architecture
      "x86" unless the caller sets them; the name is left unset (null in the
      original, the empty string here) until the parser assigns it. */
  function NewUpdateInfo(version: string, link: string): (r: Record)
    ensures r.version == version && r.link == link
    ensures r.minOS == "0.0" && r.arch == "x86"
  {
    Record("", version, link, "0.0", "x86")
  }

  /** The parsed database: a dictionary from name to record that enumerates
      names in the order they first appeared. */
  type Catalog = OrderedMap<Record>

  /** Every record is filed under its own name. */
  ghost predicate KeyedByName(c: Catalog) {
    forall k :: k in c.values ==> c.values[k].name == k
  }

  /** The non-empty strings of xs, in order. */
  function NonEmpty(xs: seq<string>): (r: seq<string>)
    ensures forall i :: 0 <= i < |r| ==> r[i] != ""
  {
    if |xs| == 0 then []
    else if xs[|xs| - 1] == "" then NonEmpty(xs[..|xs| - 1])
    else NonEmpty(xs[..|xs| - 1]) + [xs[|xs| - 1]]
  }

  lemma {:induction false} NonEmptyConcat(xs: seq<string>, ys: seq<string>)
    ensures NonEmpty(xs + ys) == NonEmpty(xs) + NonEmpty(ys)
  {
    if |ys| > 0 {
      var init := ys[..|ys| - 1];
      assert (xs + ys)[..|xs + ys| - 1] == xs + init;
      NonEmptyConcat(xs, init);
    } else {
      assert xs + ys == xs;
    }
  }

  /** data.Split('\n', StringSplitOptions.RemoveEmptyEntries) */
  function Lines(text: string): seq<string> {
    NonEmpty(Split(text, '\n'))
  }

  /** A line break splits the text into the lines of each side. */
  lemma LinesAtBreak(a: string, b: string)
    ensures Lines(a + "\n" + b) == Lines(a) + Lines(b)
  {
    SplitAtSeparator(a, b, '\n');
    NonEmptyConcat(Split(a, '\n'), Split(b, '\n'));
  }

  function TrimAll(parts: seq<string>): (r: seq<string>)
    ensures |r| == |parts|
    ensures forall i :: 0 <= i < |parts| ==> r[i] == Trim(parts[i])
  {
    if |parts| == 0 then [] else [Trim(parts[0])] + TrimAll(parts[1..])
  }

  /** The download link: the tokens from the fifth on, each trimmed, rejoined
      with single spaces. */
  function LinkOf(parts: seq<string>): string
    requires |parts| >= 5
  {
    Join(TrimAll(parts[4..]), ' ')
  }

  /** One line of the database: a record when the trimmed line splits on
      single spaces into at least five tokens, nothing otherwise. The name
      and the version of a record are single tokens: trimmed, and without a
      space. */
  function ParseLine(line: string): (r: Option<Record>)
    ensures r.Some? ==> IsTrimmed(r.value.name) && ' ' !in r.value.name
    ensures r.Some? ==> IsTrimmed(r.value.version) && ' ' !in r.value.version
  {
    var parts := Split(Trim(line), ' ');
    if |parts| < 5 then None
    else
      TrimCuts(parts[2]);
      TrimCuts(parts[3]);
      TrimKeepsAbsent(parts[2], ' ');
      TrimKeepsAbsent(parts[3], ' ');
      var info := NewUpdateInfo(Trim(parts[3]), LinkOf(parts));
      Some(info.(name := Trim(parts[2]), minOS := Trim(parts[1]), arch := Trim(parts[0])))
  }

  /** db[name] = info, for a line that parsed. */
  function AddRecord(c: Catalog, parsed: Option<Record>): (r: Catalog)
    requires c.Valid() && KeyedByName(c)
    ensures r.Valid() && KeyedByName(r)
  {
    match parsed
    case None => c
    case Some(info) => Put(c, info.name, info)
  }

  /** The dictionary filled from the parsed lines in order. */
  function Collect(parsed: seq<Option<Record>>): (c: Catalog)
    ensures c.Valid() && KeyedByName(c)
  {
    if |parsed| == 0 then Empty()
    else AddRecord(Collect(parsed[..|parsed| - 1]), parsed[|parsed| - 1])
  }

  function ParseAll(lines: seq<string>): (parsed: seq<Option<Record>>)
    ensures |parsed| == |lines|
    ensures forall i :: 0 <= i < |lines| ==> parsed[i] == ParseLine(lines[i])
  {
    seq(|lines|, i requires 0 <= i < |lines| => ParseLine(lines[i]))
  }

  /** The dictionary the loop builds from these lines: db[name] = info for
      every line that parses, a later line replacing an earlier one. */
  function Index(lines: seq<string>): (c: Catalog)
    ensures c.Valid() && KeyedByName(c)
  {
    Collect(ParseAll(lines))
  }

  /** What LoadRemoteDatabase returns for the text DownloadText produced:
      no database at all (null) when the fetch failed. */
  function ParseManifest(text: Option<string>): (db: Option<Catalog>)
    ensures db.None? <==> text.None?
  {
    match text
    case None => None
    case Some(t) => Some(Index(Lines(t)))
  }

  lemma TrimAllSnoc(xs: seq<string>, x: string)
    ensures TrimAll(xs + [x]) == TrimAll(xs) + [Trim(x)]
  {
  }

  /** One more token of the link: a space, unless it is the first, then the
      token. */
  lemma LinkStep(tokens: seq<string>, k: nat, prev: string, link: string)
    requires k < |tokens|
    requires prev == Join(tokens[..k], ' ')
    requires link == (if k > 0 then prev + " " else prev) + tokens[k]
    ensures link == Join(tokens[..k + 1], ' ')
  {
    assert tokens[..k + 1] == tokens[..k] + [tokens[k]];
    if k > 0 {
      JoinSnoc(tokens[..k], tokens[k], ' ');
    }
  }

  /** The StringBuilder loop that rebuilds the link from the tokens. */
  method BuildLink(parts: seq<string>) returns (link: string)
    requires |parts| >= 5
    ensures link == LinkOf(parts)
  {
    ghost var tokens := TrimAll(parts[4..]);
    link := "";
    var j := 4;
    while j < |parts|
      invariant 4 <= j <= |parts|
      invariant link == Join(tokens[..j - 4], ' ')
    {
      ghost var prev := link;
      if j > 4 {
        link := link + " ";
      }
      assert parts[4..][j - 4] == parts[j];
      link := link + Trim(parts[j]);
      LinkStep(tokens, j - 4, prev, link);
      j := j + 1;
    }
    assert tokens[..j - 4] == tokens;
  }

  lemma IndexSnoc(lines: seq<string>, i: nat)
    requires i < |lines|
    ensures Index(lines[..i + 1]) == AddRecord(Index(lines[..i]), ParseLine(lines[i]))
  {
    assert lines[..i + 1] == lines[..i] + [lines[i]];
    ParseAllConcat(lines[..i], [lines[i]]);
  }

  /** LoadRemoteDatabase: None for a failed fetch, otherwise the dictionary
      built line by line. */
  method LoadRemoteDatabase(text: Option<string>) returns (db: Option<Catalog>)
    ensures db == ParseManifest(text)
  {
    if text.None? {
      return None;
    }
    var lines := Lines(text.value);
    var c: Catalog := Empty();
    for i := 0 to |lines|
      invariant c == Index(lines[..i])
    {
      IndexSnoc(lines, i);
      var trimmed := Trim(lines[i]);
      if |trimmed| == 0 {
        continue;
      }
      var parts := Split(trimmed, ' ');
      if |parts| >= 5 {
        var arch := Trim(parts[0]);
        var minOS := Trim(parts[1]);
        var name := Trim(parts[2]);
        var version := Trim(parts[3]);
        var link := BuildLink(parts);
        var info := NewUpdateInfo(version, link);
        info := info.(name := name, minOS := minOS, arch := arch);
        assert ParseLine(lines[i]) == Some(info);
        c := Put(c, name, info);
      }
    }
    assert lines[..|lines|] == lines;
    return Some(c);
  }

  /** The fields of a parsed line: the first four tokens trimmed, and a link
      whose single-space tokens are the remaining tokens, trimmed. A line
      parses exactly when it has at least five tokens. */
  lemma ParsedFields(line: string)
    ensures var parts := Split(Trim(line), ' ');
      && (ParseLine(line).Some? <==> |parts| >= 5)
      && (ParseLine(line).Some? ==>
            var r := ParseLine(line).value;
            && r.arch == Trim(parts[0]) && r.minOS == Trim(parts[1])
            && r.name == Trim(parts[2]) && r.version == Trim(parts[3])
            && Split(r.link, ' ') == TrimAll(parts[4..]))
  {
    var parts := Split(Trim(line), ' ');
    if |parts| >= 5 {
      var tail := TrimAll(parts[4..]);
      forall i | 0 <= i < |tail| ensures ' ' !in tail[i] {
        assert parts[4..][i] == parts[4 + i];
        TrimKeepsAbsent(parts[4 + i], ' ');
      }
      SplitJoin(tail, ' ');
    }
  }

  lemma {:induction false} CollectSkipsNone(a: seq<Option<Record>>, b: seq<Option<Record>>)
    ensures Collect(a + [None] + b) == Collect(a + b)
    decreases |b|
  {
    if |b| == 0 {
      assert (a + [None] + b)[..|a|] == a;
      assert a + b == a;
    } else {
      var init := b[..|b| - 1];
      CollectSkipsNone(a, init);
      assert (a + [None] + b)[..|a + [None] + b| - 1] == a + [None] + init;
      assert (a + b)[..|a + b| - 1] == a + init;
    }
  }

  lemma ParseAllConcat(a: seq<string>, b: seq<string>)
    ensures ParseAll(a + b) == ParseAll(a) + ParseAll(b)
  {
  }

  lemma ParseAllAround(a: seq<string>, line: string, b: seq<string>)
    ensures ParseAll(a + [line] + b) == ParseAll(a) + [ParseLine(line)] + ParseAll(b)
  {
    ParseAllConcat(a + [line], b);
    ParseAllConcat(a, [line]);
    assert ParseAll([line]) == [ParseLine(line)];
  }

  /** A line that does not parse changes nothing, wherever it stands. */
  lemma MalformedLineIgnored(a: seq<string>, line: string, b: seq<string>)
    requires ParseLine(line).None?
    ensures Index(a + [line] + b) == Index(a + b)
  {
    ParseAllAround(a, line, b);
    ParseAllConcat(a, b);
    CollectSkipsNone(ParseAll(a), ParseAll(b));
  }

  /** Entry i of the parsed lines is a record named n. */
  ghost predicate Names(parsed: seq<Option<Record>>, i: int, n: string) {
    0 <= i < |parsed| && parsed[i].Some? && parsed[i].value.name == n
  }

  /** What one assignment db[name] = info does to the entry of n. */
  lemma AddRecordStep(c: Catalog, parsed: Option<Record>, n: string)
    requires c.Valid() && KeyedByName(c)
    ensures parsed.Some? && parsed.value.name == n ==>
              n in AddRecord(c, parsed).values && AddRecord(c, parsed).values[n] == parsed.value
    ensures !(parsed.Some? && parsed.value.name == n) ==>
              (n in AddRecord(c, parsed).values <==> n in c.values)
              && (n in c.values ==> AddRecord(c, parsed).values[n] == c.values[n])
  {
  }

  /** A name is in the dictionary exactly when some parsed line names it. */
  lemma {:induction false} CollectHolds(parsed: seq<Option<Record>>, n: string)
    ensures n in Collect(parsed).values <==> exists i :: Names(parsed, i, n)
  {
    if |parsed| > 0 {
      var init := parsed[..|parsed| - 1];
      var last := |parsed| - 1;
      CollectHolds(init, n);
      assert Collect(parsed) == AddRecord(Collect(init), parsed[last]);
      AddRecordStep(Collect(init), parsed[last], n);
      if n in Collect(init).values {
        var i :| Names(init, i, n);
        assert Names(parsed, i, n);
      }
      if !Names(parsed, last, n) && exists i :: Names(parsed, i, n) {
        var i :| Names(parsed, i, n);
        assert Names(init, i, n);
      }
    }
  }

  /** The last parsed line that names n decides its record. */
  lemma {:induction false} CollectLastValue(parsed: seq<Option<Record>>, n: string, i: int)
    requires Names(parsed, i, n)
    requires forall j :: i < j < |parsed| ==> !Names(parsed, j, n)
    ensures n in Collect(parsed).values && Collect(parsed).values[n] == parsed[i].value
  {
    var init := parsed[..|parsed| - 1];
    var last := |parsed| - 1;
    assert Collect(parsed) == AddRecord(Collect(init), parsed[last]);
    AddRecordStep(Collect(init), parsed[last], n);
    if i < last {
      assert !Names(parsed, last, n);
      assert Names(init, i, n) && init[i] == parsed[i];
      forall j | i < j < |init| ensures !Names(init, j, n) {
        assert !Names(parsed, j, n) && init[j] == parsed[j];
      }
      CollectLastValue(init, n, i);
    }
  }

  /** Line i declares name n. */
  ghost predicate Declares(lines: seq<string>, i: int, n: string) {
    0 <= i < |lines| && ParseLine(lines[i]).Some? && ParseLine(lines[i]).value.name == n
  }

  /** The database holds a name exactly when some line declares it, and then
      holds the record of the last line that does. */
  lemma LastDeclarationWins(lines: seq<string>, n: string)
    ensures n in Index(lines).values <==> exists i :: Declares(lines, i, n)
    ensures forall i :: Declares(lines, i, n) && (forall j :: i < j < |lines| ==> !Declares(lines, j, n))
              ==> n in Index(lines).values && Index(lines).values[n] == ParseLine(lines[i]).value
  {
    DeclaredHolds(lines, n);
    forall i | Declares(lines, i, n) && (forall j :: i < j < |lines| ==> !Declares(lines, j, n))
      ensures n in Index(lines).values && Index(lines).values[n] == ParseLine(lines[i]).value
    {
      LastDeclarationValue(lines, n, i);
    }
  }

  lemma DeclaredHolds(lines: seq<string>, n: string)
    ensures n in Index(lines).values <==> exists i :: Declares(lines, i, n)
  {
    var parsed := ParseAll(lines);
    CollectHolds(parsed, n);
    if exists i :: Declares(lines, i, n) {
      var i :| Declares(lines, i, n);
      DeclaresNames(lines, i, n);
    }
    if exists i :: Names(parsed, i, n) {
      var i :| Names(parsed, i, n);
      DeclaresNames(lines, i, n);
    }
  }

  lemma LastDeclarationValue(lines: seq<string>, n: string, i: int)
    requires Declares(lines, i, n)
    requires forall j :: i < j < |lines| ==> !Declares(lines, j, n)
    ensures n in Index(lines).values && Index(lines).values[n] == ParseLine(lines[i]).value
  {
    var parsed := ParseAll(lines);
    DeclaresNames(lines, i, n);
    forall j | i < j < |parsed| ensures !Names(parsed, j, n) {
      DeclaresNames(lines, j, n);
    }
    CollectLastValue(parsed, n, i);
  }


  lemma DeclaresNames(lines: seq<string>, i: int, n: string)
    ensures Declares(lines, i, n) <==> Names(ParseAll(lines), i, n)
    ensures Declares(lines, i, n) ==> ParseAll(lines)[i].value == ParseLine(lines[i]).value
  {
  }



  lemma {:induction false} CollectNothing(parsed: seq<Option<Record>>)
    requires forall i :: 0 <= i < |parsed| ==> parsed[i].None?
    ensures Collect(parsed) == Empty()
  {
    if |parsed| > 0 {
      CollectNothing(parsed[..|parsed| - 1]);
    }
  }

  /** Text without any line that parses gives an empty database, not an
      absent one. */
  lemma ManifestWithoutRecords(text: string)
    requires forall i :: 0 <= i < |Lines(text)| ==> ParseLine(Lines(text)[i]).None?
    ensures ParseManifest(Some(text)) == Some(Empty())
  {
    CollectNothing(ParseAll(Lines(text)));
  }

  /** A line without line breaks, put between two parts of the text,
      becomes one line of its own unless it is empty. */
  lemma LinesAround(a: string, line: string, b: string)
    requires '\n' !in line
    ensures Lines(a + "\n" + line + "\n" + b) == Lines(a) + (if line == "" then [] else [line]) + Lines(b)
  {
    var left := a + "\n" + line;
    assert a + "\n" + line + "\n" + b == left + "\n" + b;
    LinesAtBreak(left, b);
    LinesAtBreak(a, line);
    LinesOfLine(line);
  }

  /** A text without a line break is one line, or none when it is empty. */
  lemma LinesOfLine(line: string)
    requires '\n' !in line
    ensures Lines(line) == if line == "" then [] else [line]
  {
    SplitWithoutSeparator(line, '\n');
    assert NonEmpty([line][..0]) == [];
    assert Lines(line) == NonEmpty([line]);
  }

  /** A malformed line inserted between two parts of the text leaves the
      database as it was. */
  lemma MalformedLineInText(a: string, line: string, b: string)
    requires '\n' !in line && ParseLine(line).None?
    ensures ParseManifest(Some(a + "\n" + line + "\n" + b)) == ParseManifest(Some(a + "\n" + b))
  {
    if line == "" {
      EmptyLineInText(a, b);
    } else {
      NonEmptyLineInText(a, line, b);
      MalformedLineIgnored(Lines(a), line, Lines(b));
    }
  }

  lemma EmptyLineInText(a: string, b: string)
    ensures Lines(a + "\n" + "" + "\n" + b) == Lines(a + "\n" + b)
  {
    LinesAround(a, "", b);
    LinesAtBreak(a, b);
    assert Lines(a) + [] + Lines(b) == Lines(a) + Lines(b);
  }

  lemma NonEmptyLineInText(a: string, line: string, b: string)
    requires '\n' !in line && line != ""
    ensures Lines(a + "\n" + line + "\n" + b) == Lines(a) + [line] + Lines(b)
    ensures Lines(a + "\n" + b) == Lines(a) + Lines(b)
  {
    LinesAround(a, line, b);
    LinesAtBreak(a, b);
  }

  /** A record written back as a database line: its five fields in order,
      separated by single spaces. */
  function FormatLine(r: Record): string {
    r.arch + " " + r.minOS + " " + r.name + " " + r.version + " " + r.link
  }

  /** A field that survives the line format: no space, nothing to trim. */
  predicate IsToken(s: string) {
    ' ' !in s && IsTrimmed(s)
  }

  lemma JoinFields(r: Record)
    ensures Join([r.arch, r.minOS, r.name, r.version, r.link], ' ') == FormatLine(r)
  {
    var p := [r.arch, r.minOS, r.name, r.version, r.link];
    assert p[4..] == [r.link];
    assert p[3..][1..] == p[4..];
    assert Join(p[3..], ' ') == r.version + " " + r.link;
    assert p[2..][1..] == p[3..];
    assert Join(p[2..], ' ') == r.name + " " + r.version + " " + r.link;
    assert p[1..][1..] == p[2..];
    assert Join(p[1..], ' ') == r.minOS + " " + r.name + " " + r.version + " " + r.link;
  }

  lemma FormatLineTrimmed(r: Record)
    requires IsTrimmed(r.arch) && IsTrimmed(r.link) && r.arch != "" && r.link != ""
    ensures IsTrimmed(FormatLine(r))
  {
    var line := FormatLine(r);
    assert line[0] == r.arch[0];
    assert line[|line| - 1] == r.link[|r.link| - 1];
  }

  lemma TokensOfFormatLine(r: Record)
    requires IsToken(r.arch) && IsToken(r.minOS) && IsToken(r.name) && IsToken(r.version) && IsToken(r.link)
    requires r.arch != "" && r.link != ""
    ensures Split(Trim(FormatLine(r)), ' ') == [r.arch, r.minOS, r.name, r.version, r.link]
  {
    var p := [r.arch, r.minOS, r.name, r.version, r.link];
    JoinFields(r);
    forall i | 0 <= i < |p| ensures ' ' !in p[i] {
    }
    SplitJoin(p, ' ');
    FormatLineTrimmed(r);
    TrimOfTrimmed(FormatLine(r));
  }

  /** Parsing a formatted line gives the record back, when every field is a
      single token and the first and last are not empty (an empty one would
      be trimmed away with its space). */
  lemma ParseFormatLine(r: Record)
    requires IsToken(r.arch) && IsToken(r.minOS) && IsToken(r.name) && IsToken(r.version) && IsToken(r.link)
    requires r.arch != "" && r.link != ""
    ensures ParseLine(FormatLine(r)) == Some(r)
  {
    var line := FormatLine(r);
    var p := [r.arch, r.minOS, r.name, r.version, r.link];
    TokensOfFormatLine(r);
    ParsedFields(line);
    var parsed := ParseLine(line).value;
    TrimOfTrimmed(r.arch);
    TrimOfTrimmed(r.minOS);
    TrimOfTrimmed(r.name);
    TrimOfTrimmed(r.version);
    TrimOfTrimmed(r.link);
    assert TrimAll(p[4..]) == [r.link];
    JoinSplit(parsed.link, ' ');
    assert parsed.link == Join([r.link], ' ');
  }
}
