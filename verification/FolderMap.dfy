/** fdeploy1.ini read as a map from (folder, group) to a redirection (backend/samadcon/gpo/folders.py). */
module FolderMap {
  import opened Text
  import opened Sorting
  import opened Folders
  import opened FolderLines
  import opened FolderWrites
  import opened FolderLaws
  import opened FolderEdits

  /** What the folder with the upper-case GUID *g* should redirect after the edit. */
  function After(text: string, guid: string, sid: string, path: Option<string>, g: string): seq<Target> {
    if g == Upper(guid) then Edited(TargetsIn(text, g), sid, path) else TargetsIn(text, g)
  }

  /** No two sections of the file, but those of the edited pair, are spellings of one pair. */
  ghost predicate PairsDiffer(text: string, guid: string, sid: string) {
    forall g :: DistinctSids(if g == Upper(guid) then NotFor(TargetsIn(text, g), sid) else TargetsIn(text, g))
  }

  /** What a caller may pass: the parts of a section name that is read as it was written. */
  predicate ValidEdit(guid: string, sid: string, path: Option<string>) {
    GuidShape(guid) && GoodSid(sid) && (path.Some? ==> Clean(path.value))
  }

  function FoldersAfter(text: string, guid: string, sid: string, path: Option<string>): seq<Folder> {
    EditedFolders(Parse(text).folders, Upper(guid), sid, path)
  }

  lemma NoText()
    ensures SectionsOf("") == [] && Parse("") == Parsed([], [], [])
  {
    assert SplitLines("") == [];
  }

  lemma SetTargetIs(text: string, guid: string, sid: string, path: Option<string>)
    ensures SetTarget(text, guid, sid, path)
         == Render(FoldersAfter(text, guid, sid, path), VersionIn(Parse(text).version))
  {
    hide Parse, Render, EditedFolders, VersionIn;
    if text == "" {
      NoText();
    }
  }

  lemma UpperGuid(guid: string)
    requires GuidShape(guid)
    ensures GuidShape(Upper(guid)) && Upper(Upper(guid)) == Upper(guid)
  {
    UpperIdempotent(guid);
    var u := Upper(guid);
    forall i | 0 <= i < |u| ensures !IsBreak(u[i]) {
      assert u[i] == UpperChar(guid[i]);
    }
    var body := u[1..|u| - 1];
    forall i | 0 <= i < |body| ensures body[i] != '}' {
      assert u[i + 1] == UpperChar(guid[i + 1]);
      assert guid[1..|guid| - 1][i] != '}';
    }
    assert u[0] == UpperChar(guid[0]) && u[|u| - 1] == UpperChar(guid[|u| - 1]);
  }

  // --- The version ---------------------------------------------------------------------------

  lemma {:induction false} SpecialPlain(ss: Sections, name: string, sofar: Dict)
    requires Tidy(ss) && PlainDict(sofar)
    ensures PlainDict(Special(ss, name, sofar))
    decreases |ss|
  {
    hide Clean, PlainDict, Lower;
    if ss != [] {
      SpecialPlain(ss[1..], name, if Lower(ss[0].0) == name then ss[0].1 else sofar);
    }
  }

  lemma {:induction false} VersionPlain(version: Dict)
    requires PlainDict(version)
    ensures PlainPair("version", VersionIn(version))
  {
    assert "version" == ['v', 'e', 'r', 's', 'i', 'o', 'n'] && DEFAULT_VERSION == ['1', '0', '0'];
    if version != [] && Lower(version[0].0) != "version" {
      VersionPlain(version[1..]);
    }
  }

  lemma ParsedVersion(text: string)
    ensures PlainPair("version", VersionIn(Parse(text).version))
  {
    hide SectionsOf, Tidy, Special, PlainPair, SectionFolders, OtherSections, SortBy, VersionIn, HeaderFolders;
    TidySections(text);
    assert PlainDict([]) by { EmptyPlain(); }
    SpecialPlain(SectionsOf(text), VERSION_SECTION, []);
    VersionPlain(Parse(text).version);
  }

  lemma {:induction false} SpecialAppend(a: Sections, b: Sections, name: string, sofar: Dict)
    ensures Special(a + b, name, sofar) == Special(b, name, Special(a, name, sofar))
    decreases |a|
  {
    hide Lower;
    if a == [] {
      assert a + b == b;
    } else {
      assert (a + b)[1..] == a[1..] + b;
      SpecialAppend(a[1..], b, name, if Lower(a[0].0) == name then a[0].1 else sofar);
    }
  }

  predicate AllPairs(ss: Sections) {
    ss == [] || (PairName(ss[0].0).Some? && AllPairs(ss[1..]))
  }

  lemma {:induction false} PairsAreNotSpecial(ss: Sections, name: string, sofar: Dict)
    requires AllPairs(ss) && (name == HEADER_SECTION || name == VERSION_SECTION)
    ensures Special(ss, name, sofar) == sofar
    ensures OtherSections(ss) == []
  {
    hide PairName, Lower;
    if ss != [] {
      PairIsNotSpecial(ss[0].0);
      PairsAreNotSpecial(ss[1..], name, sofar);
    }
  }

  lemma {:induction false} AllPairsAppend(a: Sections, b: Sections)
    requires AllPairs(a) && AllPairs(b)
    ensures AllPairs(a + b)
  {
    hide PairName;
    if a == [] {
      assert a + b == b;
    } else {
      assert (a + b)[1..] == a[1..] + b;
      AllPairsAppend(a[1..], b);
    }
  }

  lemma {:induction false} TargetsAllPairs(g: string, ts: seq<Target>)
    requires GuidShape(g) && GoodTargets(ts)
    ensures AllPairs(TargetSections(g, ts))
  {
    hide GuidShape, PairName, SectionName, TargetEntries;
    if ts != [] {
      NameOfPair(g, ts[0].sid);
      TargetsAllPairs(g, ts[1..]);
      assert TargetSections(g, ts)[1..] == TargetSections(g, ts[1..]);
    }
  }

  lemma {:induction false} BlocksAllPairs(fs: seq<Folder>)
    requires GoodFolders(fs)
    ensures AllPairs(Blocks(Kept(fs)))
  {
    hide GuidShape, GoodTargets, TargetSections, AllPairs;
    NoPairs();
    if fs != [] {
      BlocksAllPairs(fs[1..]);
      if fs[0].targets == [] {
        assert Kept(fs) == Kept(fs[1..]);
      } else {
        assert Kept(fs)[1..] == Kept(fs[1..]);
        TargetsAllPairs(fs[0].guid, fs[0].targets);
        AllPairsAppend(TargetSections(fs[0].guid, fs[0].targets), Blocks(Kept(fs[1..])));
      }
    }
  }

  lemma LowerNames()
    ensures Lower(VERSION_NAME) == VERSION_SECTION && Lower(HEADER_NAME) == HEADER_SECTION
    ensures VERSION_SECTION != HEADER_SECTION
  {
    assert HEADER_NAME
        == ['F', 'o', 'l', 'd', 'e', 'r', '_', 'R', 'e', 'd', 'i', 'r', 'e', 'c', 't', 'i', 'o', 'n'];
    assert HEADER_SECTION
        == ['f', 'o', 'l', 'd', 'e', 'r', '_', 'r', 'e', 'd', 'i', 'r', 'e', 'c', 't', 'i', 'o', 'n'];
    assert VERSION_NAME == ['v', 'e', 'r', 's', 'i', 'o', 'n'];
  }

  lemma FrontSpecial(version: string, header: Dict)
    ensures Special(Front(version, header), VERSION_SECTION, []) == [("version", version)]
    ensures Special(Front(version, header), HEADER_SECTION, []) == header
    ensures OtherSections(Front(version, header)) == []
  {
    hide Lower;
    LowerNames();
    var front := Front(version, header);
    SpecialTwo(front[0], front[1], VERSION_SECTION);
    SpecialTwo(front[0], front[1], HEADER_SECTION);
    assert front[1..] == [front[1]] && front[1..][1..] == [];
    assert OtherSections([front[1]]) == [];
  }

  lemma SpecialTwo(a: (string, Dict), b: (string, Dict), name: string)
    ensures Special([a, b], name, []) == if Lower(b.0) == name then b.1 else if Lower(a.0) == name then a.1 else []
  {
    hide Lower;
    assert [a, b][1..] == [b] && [b][1..] == [];
    var sofar := if Lower(a.0) == name then a.1 else [];
    assert Special([b], name, sofar) == Special([], name, if Lower(b.0) == name then b.1 else sofar);
  }

  lemma SpecialsWritten(fs: seq<Folder>, version: string, header: Dict)
    requires GoodFolders(fs)
    ensures var ss := Front(version, header) + Blocks(Kept(fs));
            && Special(ss, VERSION_SECTION, []) == [("version", version)]
            && Special(ss, HEADER_SECTION, []) == header
            && OtherSections(ss) == []
  {
    hide GoodFolders, Blocks, Kept, Front, Special, OtherSections;
    BlocksAllPairs(fs);
    FrontSpecial(version, header);
    SpecialAppend(Front(version, header), Blocks(Kept(fs)), VERSION_SECTION, []);
    SpecialAppend(Front(version, header), Blocks(Kept(fs)), HEADER_SECTION, []);
    PairsAreNotSpecial(Blocks(Kept(fs)), VERSION_SECTION, [("version", version)]);
    PairsAreNotSpecial(Blocks(Kept(fs)), HEADER_SECTION, header);
    OtherAppend(Front(version, header), Blocks(Kept(fs)));
  }

  lemma {:induction false} OtherAppend(a: Sections, b: Sections)
    ensures OtherSections(a + b) == OtherSections(a) + OtherSections(b)
  {
    hide IsSpecial, PairName;
    if a == [] {
      assert a + b == b;
    } else {
      assert (a + b)[1..] == a[1..] + b;
      OtherAppend(a[1..], b);
    }
  }

  // --- The map ----------------------------------------------------------------------------------

  lemma AfterFolders(text: string, guid: string, sid: string, path: Option<string>)
    requires ValidEdit(guid, sid, path)
    ensures Unique(FoldersAfter(text, guid, sid, path)) && GoodFolders(FoldersAfter(text, guid, sid, path))
    ensures forall g :: TargetsOf(FoldersAfter(text, guid, sid, path), g) == After(text, guid, sid, path, g)
  {
    hide SectionsOf, ParsedSections, Unique, GoodFolders, TargetsOf, SectionTargets, EditedFolders, Edited, GuidShape,
      GoodSid, Clean, Tidy;
    var fs := Parse(text).folders;
    ParsedTargets(SectionsOf(text), "");
    TidySections(text);
    ParsedAreGood(SectionsOf(text));
    UpperGuid(guid);
    GoodEditedFolders(fs, Upper(guid), sid, path);
    EditedTargets(fs, Upper(guid), sid, path, "");
    forall g ensures TargetsOf(FoldersAfter(text, guid, sid, path), g) == After(text, guid, sid, path, g) {
      EditedTargets(fs, Upper(guid), sid, path, g);
    }
  }

  lemma MergeIs(text: string, guid: string, sid: string, path: Option<string>)
    requires ValidEdit(guid, sid, path)
    ensures PairsDiffer(text, guid, sid) <==> forall g :: DistinctSids(After(text, guid, sid, path, g))
  {
    hide TargetsIn, DistinctSids, Edited, NotFor;
    forall g ensures DistinctSids(After(text, guid, sid, path, g))
                 <==> DistinctSids(if g == Upper(guid) then NotFor(TargetsIn(text, g), sid) else TargetsIn(text, g)) {
      EditedDistinct(TargetsIn(text, g), sid, path);
    }
  }

  /** The edited file redirects, folder by folder, what it should: the old redirections with the edited one last,
      or without it, and with the flags written out. It does so exactly when the old file names no other pair twice. */
  lemma SetTargetExact(text: string, guid: string, sid: string, path: Option<string>)
    requires ValidEdit(guid, sid, path)
    ensures (forall g :: TargetsIn(SetTarget(text, guid, sid, path), g) == Canons(After(text, guid, sid, path, g)))
        <==> PairsDiffer(text, guid, sid)
  {
    hide ValidEdit, TargetsIn, SetTarget, After, DistinctSids, PairsDiffer, VersionIn, Parse, Canons, PlainPair;
    var fs, version := FoldersAfter(text, guid, sid, path), VersionIn(Parse(text).version);
    var new' := SetTarget(text, guid, sid, path);
    SetTargetIs(text, guid, sid, path);
    AfterFolders(text, guid, sid, path);
    ParsedVersion(text);
    MergeIs(text, guid, sid, path);
    if PairsDiffer(text, guid, sid) {
      TargetsNoMerge(fs);
      forall g ensures TargetsIn(new', g) == Canons(After(text, guid, sid, path, g)) {
        WrittenTargets(fs, version, g);
      }
    } else {
      var g :| !DistinctSids(After(text, guid, sid, path, g));
      WrittenDistinct(fs, version, g);
      CanonsDistinct(After(text, guid, sid, path, g));
    }
  }

  lemma {:induction false} FirstOfCanons(ts: seq<Target>, sid: string)
    ensures FirstFor(Canons(ts), sid)
         == match FirstFor(ts, sid) case Some(t) => Some(Canon(t)) case None => None
  {
    hide Lower;
    if ts != [] {
      FirstOfCanons(ts[1..], sid);
      assert Canons(ts)[1..] == Canons(ts[1..]);
    }
  }

  lemma {:induction false} FirstAppend(a: seq<Target>, b: seq<Target>, sid: string)
    ensures FirstFor(a + b, sid) == if FirstFor(a, sid).Some? then FirstFor(a, sid) else FirstFor(b, sid)
  {
    if a == [] {
      assert a + b == b;
    } else {
      assert (a + b)[1..] == a[1..] + b;
      FirstAppend(a[1..], b, sid);
    }
  }

  lemma {:induction false} FirstNotFor(ts: seq<Target>, sid: string, other: string)
    ensures FirstFor(NotFor(ts, sid), other) == if Lower(other) == Lower(sid) then None else FirstFor(ts, other)
  {
    if ts != [] {
      FirstNotFor(ts[1..], sid, other);
      var rest := NotFor(ts[1..], sid);
      assert ([ts[0]] + rest)[1..] == rest && [] + rest == rest;
    }
  }

  /** What the edit makes of one pair. */
  function PairAfter(old': Option<Target>, edited: bool, sid: string, path: Option<string>): Option<Target> {
    if !edited then (match old' case Some(t) => Some(Canon(t)) case None => None)
    else match path
      case None => None
      case Some(p) => Some(Canon(Target(sid, p, match old' case Some(t) => t.options case None => [])))
  }

  lemma FirstOfEdited(ts: seq<Target>, sid: string, path: Option<string>, other: string)
    ensures FirstFor(Canons(Edited(ts, sid, path)), other)
         == PairAfter(FirstFor(ts, if Lower(other) == Lower(sid) then sid else other),
                      Lower(other) == Lower(sid), sid, path)
  {
    hide Canon, Lower, Canons, NotFor;
    FirstOfCanons(Edited(ts, sid, path), other);
    FirstNotFor(ts, sid, other);
    if path == None {
      assert NotFor(ts, sid) + [] == NotFor(ts, sid);
    } else {
      var t := Target(sid, path.value, match FirstFor(ts, sid) case Some(t) => t.options case None => []);
      FirstAppend(NotFor(ts, sid), [t], other);
      assert [t][1..] == [];
    }
  }

  lemma {:induction false} FirstIgnoresCase(ts: seq<Target>, a: string, b: string)
    requires Lower(a) == Lower(b)
    ensures FirstFor(ts, a) == FirstFor(ts, b)
  {
    hide Lower;
    if ts != [] {
      FirstIgnoresCase(ts[1..], a, b);
    }
  }

  /** Read as a map, the new file is the old one with the one pair set or removed: an edited pair keeps its options,
      and every other pair its path and options. */
  lemma SetTargetMap(text: string, guid: string, sid: string, path: Option<string>, g: string, other: string)
    requires ValidEdit(guid, sid, path) && PairsDiffer(text, guid, sid)
    ensures Redirection(SetTarget(text, guid, sid, path), g, other)
         == PairAfter(Redirection(text, g, other), g == Upper(guid) && Lower(other) == Lower(sid), sid, path)
  {
    hide ValidEdit, TargetsIn, SetTarget, PairsDiffer, Lower, Canon, Edited, FirstFor, Canons;
    SetTargetExact(text, guid, sid, path);
    assert TargetsIn(SetTarget(text, guid, sid, path), g) == Canons(After(text, guid, sid, path, g));
    if g == Upper(guid) {
      FirstOfEdited(TargetsIn(text, g), sid, path, other);
      if Lower(other) == Lower(sid) {
        FirstIgnoresCase(TargetsIn(text, g), sid, other);
      }
    } else {
      FirstOfCanons(TargetsIn(text, g), other);
    }
  }

  /** Writing a target out keeps its group, its path and every option, and settles its flags. */
  lemma CanonKeeps(t: Target, key: string)
    requires GoodTarget(t)
    ensures Canon(t).sid == t.sid && Canon(t).path == t.path
    ensures Lookup(Canon(t).options, key)
         == if key == FLAGS && Lookup(t.options, FLAGS).None? then Some(DEFAULT_FLAGS) else Lookup(t.options, key)
  {
    hide GoodTarget, Canon, Without, Lookup;
    EntriesArePlain(t);
    var flags := TargetEntries(t)[0];
    LookupWithout(t.options, FLAGS, key);
    LookupCons(flags, Without(t.options, FLAGS), key);
  }

  // --- What is read behind the front -----------------------------------------------------------

  lemma {:induction false} PutBehind(front: Sections, more: Sections, name: string, d: Dict)
    requires Lookup(front, name).None?
    ensures Put(front + more, name, d) == front + Put(more, name, d)
  {
    if front == [] {
      assert front + more == more && front + Put(more, name, d) == Put(more, name, d);
    } else {
      assert (front + more)[1..] == front[1..] + more;
      PutBehind(front[1..], more, name, d);
    }
  }

  lemma {:induction false} PutPair(ss: Sections, name: string, d: Dict)
    requires AllPairs(ss) && PairName(name).Some?
    ensures AllPairs(Put(ss, name, d))
  {
    hide PairName;
    if ss != [] {
      var rest := if ss[0].0 == name then ss[1..] else Put(ss[1..], name, d);
      PutPair(ss[1..], name, d);
      assert ([ss[0]] + rest)[1..] == rest && ([(name, d)] + rest)[1..] == rest;
    } else {
      assert [(name, d)][1..] == [];
    }
  }

  lemma {:induction false} PairsBehind(front: Sections, more: Sections, name: string, d: Dict) returns (after: Sections)
    requires Lookup(front, name).None? && AllPairs(more) && PairName(name).Some? && PlainDict(d)
    ensures ReadLines(Reading(front + more, name), PairLines(d)) == Reading(front + after, name) && AllPairs(after)
    decreases |d|
  {
    hide PairName, PlainPair, ReadLine, Put, Entries, AllPairs;
    after := more;
    if d != [] {
      var (k, v) := d[0];
      var r := Reading(front + more, name);
      PairNameNotEmpty(name);
      PairLine(r, k, v);
      var e := Put(Entries(r.sections, name), k, v);
      PutBehind(front, more, name, e);
      PutPair(more, name, e);
      var lines := PairLines(d);
      assert lines[0] == k + "=" + v && lines[1..] == PairLines(d[1..]);
      after := PairsBehind(front, Put(more, name, e), name, d[1..]);
    }
  }

  lemma PairNameNotEmpty(name: string)
    requires PairName(name).Some?
    ensures name != ""
  {
  }

  lemma BlockBehind(front: Sections, more: Sections, current: string, name: string, d: Dict) returns (after: Sections)
    requires Lookup(front, name).None? && AllPairs(more) && PairName(name).Some? && Clean(name) && PlainDict(d)
    ensures ReadLines(Reading(front + more, current), ["[" + name + "]"] + PairLines(d)) == Reading(front + after, name)
    ensures AllPairs(after)
  {
    hide PairName, PlainDict, ReadLine, Put, AllPairs, PairLines, Clean;
    var line := "[" + name + "]";
    NameLine(Reading(front + more, current), name);
    PutBehind(front, more, name, []);
    PutPair(more, name, []);
    var next := if Lookup(front + more, name).Some? then more else Put(more, name, []);
    assert ([line] + PairLines(d))[1..] == PairLines(d);
    after := PairsBehind(front, next, name, d);
  }

  lemma {:induction false} BlocksBehind(front: Sections, more: Sections, current: string, ss: Sections)
    returns (after: Sections)
    requires forall name :: PairName(name).Some? ==> Lookup(front, name).None?
    requires AllPairs(more) && AllPairs(ss) && PlainSections(ss)
    ensures ReadLines(Reading(front + more, current), SectionLines(ss)).sections == front + after && AllPairs(after)
    decreases |ss|
  {
    hide PairName, PlainDict, ReadLine, PairLines, Clean;
    after := more;
    if ss != [] {
      var (name, d) := ss[0];
      var block := ["[" + name + "]"] + PairLines(d);
      var next := BlockBehind(front, more, current, name, d);
      assert SectionLines(ss) == block + SectionLines(ss[1..]);
      ReadAppend(Reading(front + more, current), block, SectionLines(ss[1..]));
      after := BlocksBehind(front, next, name, ss[1..]);
    }
  }

  lemma FrontNoPair(version: string, header: Dict, name: string)
    requires PairName(name).Some?
    ensures Lookup(Front(version, header), name).None?
  {
    var front := Front(version, header);
    assert VERSION_NAME == ['v', 'e', 'r', 's', 'i', 'o', 'n'];
    assert HEADER_NAME
        == ['F', 'o', 'l', 'd', 'e', 'r', '_', 'R', 'e', 'd', 'i', 'r', 'e', 'c', 't', 'i', 'o', 'n'];
    assert front[0].0[0] == 'v' && front[1].0[0] == 'F' && name[0] == '{';
    assert front[1..] == [front[1]] && front[1..][1..] == [];
    assert Lookup(front[1..], name).None?;
  }

  /** Whatever folders are written, the text reads as the front and then sections of pairs. */
  lemma WrittenFront(fs: seq<Folder>, version: string) returns (header: Dict, after: Sections)
    requires PlainPair("version", version) && GoodFolders(fs)
    ensures SectionsOf(Render(fs, version)) == Front(version, header) + after && AllPairs(after)
  {
    hide PlainPair, GoodFolders, AllPairs, ReadLines, Kept, Blocks, HeaderLines, SectionLines, SplitLines, Render,
      PlainSections, Front, PairName, Lookup;
    header := SomeHeader(fs, version);
    var middle, last := HeaderLines(Kept(fs)), SectionLines(Blocks(Kept(fs)));
    FileLines(fs, version);
    HeadIsFront(version);
    ReadAppend(Reading([], ""), Head(version) + middle, last);
    ReadAppend(Reading([], ""), Head(version), middle);
    PlainBlocks(fs);
    BlocksAllPairs(fs);
    var front := Front(version, header);
    forall name | PairName(name).Some? ensures Lookup(front, name).None? {
      FrontNoPair(version, header, name);
    }
    NoPairs();
    assert front + [] == front;
    after := BlocksBehind(front, [], HEADER_NAME, Blocks(Kept(fs)));
  }

  lemma NoPairs()
    ensures AllPairs([])
  {
  }

  lemma HeadIsFront(version: string)
    requires PlainPair("version", version)
    ensures ReadLines(Reading([], ""), Head(version)) == Reading(Front(version, []), HEADER_NAME)
  {
    hide PlainPair, ReadLines;
    ReadHead(version);
  }

  /** The file's version survives the edit. */
  lemma SetTargetKeepsVersion(text: string, guid: string, sid: string, path: Option<string>)
    requires ValidEdit(guid, sid, path)
    ensures Parse(SetTarget(text, guid, sid, path)).version == [("version", VersionIn(Parse(text).version))]
  {
    hide ValidEdit, SetTarget, VersionIn, Special, PlainPair, FoldersAfter, Front, SectionsOf, SectionFolders,
      HeaderFolders, OtherSections, SortBy, After, Render, AllPairs;
    var fs, version := FoldersAfter(text, guid, sid, path), VersionIn(Parse(text).version);
    SetTargetIs(text, guid, sid, path);
    AfterFolders(text, guid, sid, path);
    ParsedVersion(text);
    var header, after := WrittenFront(fs, version);
    FrontSpecial(version, header);
    SpecialAppend(Front(version, header), after, VERSION_SECTION, []);
    PairsAreNotSpecial(after, VERSION_SECTION, [("version", version)]);
  }
}
