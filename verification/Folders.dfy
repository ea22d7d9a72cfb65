/** Folder redirection: reading and writing fdeploy1.ini (backend/samadcon/gpo/folders.py). */
module Folders {
  import opened Text
  import opened Sorting

  /** A dictionary in the order its keys were first set. */
  type Dict = seq<(string, string)>

  type Sections = seq<(string, Dict)>

  function Put<V>(d: seq<(string, V)>, key: string, value: V): seq<(string, V)> {
    if d == [] then [(key, value)]
    else if d[0].0 == key then [(key, value)] + d[1..]
    else [d[0]] + Put(d[1..], key, value)
  }

  function Lookup<V>(d: seq<(string, V)>, key: string): Option<V> {
    if d == [] then None else if d[0].0 == key then Some(d[0].1) else Lookup(d[1..], key)
  }

  function Without<V>(d: seq<(string, V)>, key: string): seq<(string, V)> {
    if d == [] then []
    else (if d[0].0 == key then [] else [d[0]]) + Without(d[1..], key)
  }

  // --- Lines -----------------------------------------------------------------------------

  /** What str.splitlines() breaks at. */
  predicate IsBreak(c: char) {
    '\n' <= c <= '\r' || '\U{1C}' <= c <= '\U{1E}' || c == '\U{85}' || c == '\U{2028}' || c == '\U{2029}'
  }

  function FirstBreak(s: string): (k: nat)
    ensures k <= |s|
    ensures forall i :: 0 <= i < k ==> !IsBreak(s[i])
    ensures k < |s| ==> IsBreak(s[k])
  {
    if s == "" || IsBreak(s[0]) then 0 else 1 + FirstBreak(s[1..])
  }

  function SplitLines(s: string): seq<string>
    decreases |s|
  {
    if s == "" then []
    else
      var k := FirstBreak(s);
      if k == |s| then [s]
      else
        var n := if s[k] == '\r' && k + 1 < |s| && s[k + 1] == '\n' then 2 else 1;
        [s[..k]] + SplitLines(s[k + n..])
  }

  // --- Sections --------------------------------------------------------------------------------

  datatype Reading = Reading(sections: Sections, current: string)

  function SetDefault(sections: Sections, name: string): Sections {
    if Lookup(sections, name).Some? then sections else Put(sections, name, [])
  }

  function Entries(sections: Sections, name: string): Dict {
    match Lookup(sections, name) case Some(d) => d case None => []
  }

  function ReadLine(r: Reading, line: string): Reading {
    var stripped := Strip(line, WHITESPACE);
    if stripped == "" || stripped[0] == ';' then r
    else if stripped[0] == '[' && stripped[|stripped| - 1] == ']' then
      assert |stripped| >= 2 by { assert '[' != ']'; }
      var name := Strip(stripped[1..|stripped| - 1], WHITESPACE);
      Reading(SetDefault(r.sections, name), name)
    else if r.current == "" || '=' !in stripped then r
    else
      var k := IndexOf(stripped, '=');
      var key, value := Strip(stripped[..k], WHITESPACE), Strip(stripped[k + 1..], WHITESPACE);
      r.(sections := Put(r.sections, r.current, Put(Entries(r.sections, r.current), key, value)))
  }

  function ReadLines(r: Reading, lines: seq<string>): Reading
    decreases |lines|
  {
    if lines == [] then r else ReadLines(ReadLine(r, lines[0]), lines[1..])
  }

  function SectionsOf(text: string): Sections {
    ReadLines(Reading([], ""), SplitLines(text)).sections
  }

  /** The source's loop over the lines. */
  method ReadSections(text: string) returns (sections: Sections)
    ensures sections == SectionsOf(text)
  {
    var lines := SplitLines(text);
    sections := [];
    var current := "";
    assert lines[0..] == lines;
    for i := 0 to |lines|
      invariant ReadLines(Reading(sections, current), lines[i..]) == ReadLines(Reading([], ""), lines)
    {
      assert lines[i..][1..] == lines[i + 1..];
      var stripped := Strip(lines[i], WHITESPACE);
      if stripped == "" || stripped[0] == ';' {
        continue;
      }
      if stripped[0] == '[' && stripped[|stripped| - 1] == ']' {
        current := Strip(stripped[1..|stripped| - 1], WHITESPACE);
        sections := SetDefault(sections, current);
        continue;
      }
      if current == "" || '=' !in stripped {
        continue;
      }
      var k := IndexOf(stripped, '=');
      var key, value := Strip(stripped[..k], WHITESPACE), Strip(stripped[k + 1..], WHITESPACE);
      sections := Put(sections, current, Put(Entries(sections, current), key, value));
    }
  }

  // --- Folders -------------------------------------------------------------------------------------

  datatype Target = Target(sid: string, path: string, options: Dict)

  datatype Folder = Folder(guid: string, trustees: seq<string>, targets: seq<Target>)

  datatype Parsed = Parsed(version: Dict, folders: seq<Folder>, other: Sections)

  const HEADER_SECTION := "folder_redirection"
  const VERSION_SECTION := "version"
  const FULL_PATH := "FullPath"
  const FLAGS := "Flags"
  const DEFAULT_FLAGS := "1211"
  const DEFAULT_VERSION := "100"

  /** The entries of the last section with the name, compared in lower case. */
  function Special(sections: Sections, name: string, sofar: Dict): Dict {
    if sections == [] then sofar
    else Special(sections[1..], name, if Lower(sections[0].0) == name then sections[0].1 else sofar)
  }

  function NonEmptyParts(parts: seq<string>): seq<string> {
    if parts == [] then [] else (if parts[0] == "" then [] else [parts[0]]) + NonEmptyParts(parts[1..])
  }

  /** The groups a header entry lists. */
  function Trustees(sids: string): seq<string> {
    NonEmptyParts(Split(Strip(Strip(sids, WHITESPACE), {';'}), ';'))
  }

  function PutFolder(folders: seq<Folder>, f: Folder): seq<Folder> {
    if folders == [] then [f]
    else if folders[0].guid == f.guid then [f] + folders[1..]
    else [folders[0]] + PutFolder(folders[1..], f)
  }

  function HeaderFolders(header: Dict, folders: seq<Folder>): seq<Folder> {
    if header == [] then folders
    else
      var guid := Upper(header[0].0);
      HeaderFolders(header[1..], PutFolder(folders, Folder(guid, Trustees(header[0].1), [])))
  }

  /** A name "{guid}_sid" taken apart. */
  function PairName(name: string): Option<(string, string)> {
    if name == "" || name[0] != '{' then None
    else
      var j := IndexOf(name[1..], '}');
      if j == 0 || j + 3 >= |name| || name[j + 2] != '_' then None
      else Some((name[..j + 2], name[j + 3..]))
  }

  function TargetOf(sid: string, entries: Dict): Target {
    Target(sid, match Lookup(entries, FULL_PATH) case Some(p) => p case None => "", Without(entries, FULL_PATH))
  }

  /** One more target for a folder, which is added when it is not there. */
  function AddTarget(folders: seq<Folder>, guid: string, t: Target): seq<Folder> {
    if folders == [] then [Folder(guid, [], [t])]
    else if folders[0].guid == guid then [folders[0].(targets := folders[0].targets + [t])] + folders[1..]
    else [folders[0]] + AddTarget(folders[1..], guid, t)
  }

  predicate IsSpecial(name: string) {
    Lower(name) == HEADER_SECTION || Lower(name) == VERSION_SECTION
  }

  function SectionFolders(sections: Sections, folders: seq<Folder>): seq<Folder> {
    if sections == [] then folders
    else
      var (name, entries) := sections[0];
      SectionFolders(sections[1..],
        if IsSpecial(name) then folders
        else
          match PairName(name)
          case None => folders
          case Some((guid, sid)) => AddTarget(folders, Upper(guid), TargetOf(sid, entries)))
  }

  function OtherSections(sections: Sections): Sections {
    if sections == [] then []
    else (if !IsSpecial(sections[0].0) && PairName(sections[0].0) == None then [sections[0]] else [])
         + OtherSections(sections[1..])
  }

  function FolderKey(f: Folder): string {
    f.guid
  }

  function ParsedSections(sections: Sections): Parsed {
    var header := Special(sections, HEADER_SECTION, []);
    Parsed(Special(sections, VERSION_SECTION, []),
           SortBy(FolderKey, SectionFolders(sections, HeaderFolders(header, []))),
           OtherSections(sections))
  }

  function Parse(text: string): Parsed {
    ParsedSections(SectionsOf(text))
  }

  /** The source's three loops over the sections. */
  method ParseText(text: string) returns (p: Parsed)
    ensures p == Parse(text)
  {
    hide SectionsOf, Special, HeaderFolders, SectionFolders, OtherSections;
    var sections := ReadSections(text);
    var header, version := FindSpecial(sections);
    var folders := ReadHeader(header);
    var other;
    folders, other := ReadTargets(sections, folders);
    return Parsed(version, SortBy(FolderKey, folders), other);
  }

  method FindSpecial(sections: Sections) returns (header: Dict, version: Dict)
    ensures header == Special(sections, HEADER_SECTION, []) && version == Special(sections, VERSION_SECTION, [])
  {
    header, version := [], [];
    assert sections[0..] == sections;
    for i := 0 to |sections|
      invariant Special(sections[i..], HEADER_SECTION, header) == Special(sections, HEADER_SECTION, [])
      invariant Special(sections[i..], VERSION_SECTION, version) == Special(sections, VERSION_SECTION, [])
    {
      assert sections[i..][1..] == sections[i + 1..];
      var (name, entries) := sections[i];
      if Lower(name) == HEADER_SECTION {
        header := entries;
      } else if Lower(name) == VERSION_SECTION {
        version := entries;
      }
    }
  }

  method ReadHeader(header: Dict) returns (folders: seq<Folder>)
    ensures folders == HeaderFolders(header, [])
  {
    hide Trustees;
    folders := [];
    assert header[0..] == header;
    for i := 0 to |header|
      invariant HeaderFolders(header[i..], folders) == HeaderFolders(header, [])
    {
      assert header[i..][1..] == header[i + 1..];
      var (guid, sids) := header[i];
      folders := PutFolder(folders, Folder(Upper(guid), Trustees(sids), []));
    }
  }

  method ReadTargets(sections: Sections, start: seq<Folder>) returns (folders: seq<Folder>, other: Sections)
    ensures folders == SectionFolders(sections, start) && other == OtherSections(sections)
  {
    hide IsSpecial, PairName, TargetOf, AddTarget;
    folders, other := start, [];
    assert sections[0..] == sections;
    for i := 0 to |sections|
      invariant SectionFolders(sections[i..], folders) == SectionFolders(sections, start)
      invariant other + OtherSections(sections[i..]) == OtherSections(sections)
    {
      assert sections[i..][1..] == sections[i + 1..];
      ghost var rest := OtherSections(sections[i + 1..]);
      assert [] + rest == rest;
      var (name, entries) := sections[i];
      if IsSpecial(name) {
        continue;
      }
      var pair := PairName(name);
      if pair == None {
        assert other + ([sections[i]] + rest) == other + [sections[i]] + rest;
        other := other + [(name, entries)];
        continue;
      }
      folders := AddTarget(folders, Upper(pair.value.0), TargetOf(pair.value.1, entries));
    }
    assert other + [] == other;
  }

  // --- Writing -----------------------------------------------------------------------------------

  const NEWLINE := "\r\n"
  const PREAMBLE := "\r\n     \r\n"

  function PairLines(d: Dict): seq<string> {
    if d == [] then [] else [d[0].0 + "=" + d[0].1] + PairLines(d[1..])
  }

  /** The entries of a target's section as they are written. */
  function TargetEntries(t: Target): Dict {
    [(FLAGS, match Lookup(t.options, FLAGS) case Some(v) => v case None => DEFAULT_FLAGS), (FULL_PATH, t.path)]
    + Without(t.options, FLAGS)
  }

  function SectionName(guid: string, sid: string): string {
    guid + "_" + sid
  }

  function TargetLines(guid: string, t: Target): seq<string> {
    ["[" + SectionName(guid, t.sid) + "]"] + PairLines(TargetEntries(t))
  }

  function TargetsLines(guid: string, ts: seq<Target>): seq<string> {
    if ts == [] then [] else TargetLines(guid, ts[0]) + TargetsLines(guid, ts[1..])
  }

  function SidList(ts: seq<Target>): string {
    if ts == [] then "" else ts[0].sid + ";" + SidList(ts[1..])
  }

  function HeaderLines(fs: seq<Folder>): seq<string> {
    if fs == [] then [] else [fs[0].guid + "=" + SidList(fs[0].targets)] + HeaderLines(fs[1..])
  }

  function BlockLines(fs: seq<Folder>): seq<string> {
    if fs == [] then [] else TargetsLines(fs[0].guid, fs[0].targets) + BlockLines(fs[1..])
  }

  function Kept(fs: seq<Folder>): seq<Folder> {
    if fs == [] then [] else (if fs[0].targets == [] then [] else [fs[0]]) + Kept(fs[1..])
  }

  function Lines(fs: seq<Folder>, version: string): seq<string> {
    ["[version]", "version=" + version, "[Folder_Redirection]"] + HeaderLines(Kept(fs)) + BlockLines(Kept(fs))
  }

  function Terminated(lines: seq<string>): string {
    if lines == [] then "" else lines[0] + NEWLINE + Terminated(lines[1..])
  }

  function Render(fs: seq<Folder>, version: string): string {
    PREAMBLE + Terminated(Lines(fs, version))
  }

  lemma {:induction false} TerminatedAppend(a: seq<string>, b: seq<string>)
    ensures Terminated(a + b) == Terminated(a) + Terminated(b)
  {
    if a == [] {
      assert a + b == b;
    } else {
      assert (a + b)[1..] == a[1..] + b;
      TerminatedAppend(a[1..], b);
      assert a[0] + NEWLINE + (Terminated(a[1..]) + Terminated(b))
          == a[0] + NEWLINE + Terminated(a[1..]) + Terminated(b);
    }
  }

  /** The source's loops over the folders and their targets. */
  method RenderText(fs: seq<Folder>, version: string) returns (text: string)
    ensures text == Render(fs, version)
  {
    hide TargetsLines, SidList, Kept;
    var lines := ["[version]", "version=" + version];
    var kept := Kept(fs);
    lines := lines + ["[Folder_Redirection]"];
    ghost var head := lines;
    assert kept[0..] == kept && lines == head + [];
    for i := 0 to |kept|
      invariant lines + HeaderLines(kept[i..]) == head + HeaderLines(kept)
    {
      assert kept[i..][1..] == kept[i + 1..];
      ghost var rest := HeaderLines(kept[i + 1..]);
      var line := kept[i].guid + "=" + SidList(kept[i].targets);
      assert lines + ([line] + rest) == lines + [line] + rest;
      lines := lines + [line];
    }
    assert lines + [] == lines;
    ghost var middle := lines;
    assert middle + BlockLines(kept[0..]) == middle + BlockLines(kept);
    for i := 0 to |kept|
      invariant lines + BlockLines(kept[i..]) == middle + BlockLines(kept)
    {
      assert kept[i..][1..] == kept[i + 1..];
      ghost var rest := BlockLines(kept[i + 1..]);
      var block := RenderTargets(kept[i].guid, kept[i].targets);
      assert lines + (block + rest) == lines + block + rest;
      lines := lines + block;
    }
    assert lines + [] == lines;
    assert lines == Lines(fs, version);
    text := PREAMBLE + Terminated(lines);
  }

  method RenderTargets(guid: string, ts: seq<Target>) returns (lines: seq<string>)
    ensures lines == TargetsLines(guid, ts)
  {
    hide TargetEntries;
    lines := [];
    assert ts[0..] == ts;
    for i := 0 to |ts|
      invariant lines + TargetsLines(guid, ts[i..]) == TargetsLines(guid, ts)
    {
      assert ts[i..][1..] == ts[i + 1..];
      ghost var rest := TargetsLines(guid, ts[i + 1..]);
      var block := ["[" + SectionName(guid, ts[i].sid) + "]"] + PairLines(TargetEntries(ts[i]));
      assert lines + (block + rest) == lines + block + rest;
      lines := lines + block;
    }
    assert lines + [] == lines;
  }

  // --- Editing ---------------------------------------------------------------------------------------

  function VersionIn(version: Dict): string {
    if version == [] then DEFAULT_VERSION
    else if Lower(version[0].0) == "version" then version[0].1
    else VersionIn(version[1..])
  }

  /** The targets of other groups. */
  function NotFor(ts: seq<Target>, sid: string): seq<Target> {
    if ts == [] then []
    else (if Lower(ts[0].sid) == Lower(sid) then [] else [ts[0]]) + NotFor(ts[1..], sid)
  }

  function FirstFor(ts: seq<Target>, sid: string): Option<Target> {
    if ts == [] then None
    else if Lower(ts[0].sid) == Lower(sid) then Some(ts[0])
    else FirstFor(ts[1..], sid)
  }

  /** The targets of a folder with one group redirected to *path*, or no longer. */
  function Edited(ts: seq<Target>, sid: string, path: Option<string>): seq<Target> {
    NotFor(ts, sid)
    + match path
      case None => []
      case Some(p) => [Target(sid, p, match FirstFor(ts, sid) case Some(t) => t.options case None => [])]
  }

  function FindFolder(fs: seq<Folder>, guid: string): (i: nat)
    ensures i <= |fs|
    ensures i < |fs| ==> fs[i].guid == guid
    ensures forall j :: 0 <= j < i ==> fs[j].guid != guid
  {
    if fs == [] || fs[0].guid == guid then 0 else 1 + FindFolder(fs[1..], guid)
  }

  function EditedFolders(fs: seq<Folder>, guid: string, sid: string, path: Option<string>): seq<Folder> {
    var i := FindFolder(fs, guid);
    if i < |fs| then fs[i := fs[i].(targets := Edited(fs[i].targets, sid, path))]
    else if path == None then fs
    else fs + [Folder(guid, [], Edited([], sid, path))]
  }

  /** An absent file reads as the empty text. */
  function SetTarget(text: string, guid: string, sid: string, path: Option<string>): string {
    var parsed := if text == "" then Parsed([], [], []) else Parse(text);
    Render(EditedFolders(parsed.folders, Upper(guid), sid, path), VersionIn(parsed.version))
  }

  method SetTargetText(text: string, guid: string, sid: string, path: Option<string>) returns (r: string)
    ensures r == SetTarget(text, guid, sid, path)
  {
    hide Parse, Render, Edited, VersionIn;
    var parsed := Parsed([], [], []);
    if text != "" {
      parsed := ParseText(text);
    }
    var folders := parsed.folders;
    var key := Upper(guid);
    var at := FindFolder(folders, key);
    if at == |folders| {
      if path == None {
        r := RenderText(folders, VersionIn(parsed.version));
        return;
      }
      folders := folders + [Folder(key, [], [])];
    }
    var targets := Edited(folders[at].targets, sid, path);
    folders := folders[at := folders[at].(targets := targets)];
    assert folders == EditedFolders(parsed.folders, key, sid, path);
    r := RenderText(folders, VersionIn(parsed.version));
  }
}
