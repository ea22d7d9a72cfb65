/** Editing one redirection changes that one and nothing else (backend/samadcon/gpo/folders.py). */
module FolderLaws {
  import opened Text
  import opened Sorting
  import opened Folders
  import opened FolderLines
  import opened FolderWrites

  /** The redirections of one folder, by its upper-case GUID, as the text says. */
  function TargetsIn(text: string, g: string): seq<Target> {
    TargetsOf(Parse(text).folders, g)
  }

  /** The redirection of a folder for a group. */
  function Redirection(text: string, g: string, sid: string): Option<Target> {
    FirstFor(TargetsIn(text, g), sid)
  }

  // --- The sections name the redirections --------------------------------------------------

  function OneTarget(section: (string, Dict), g: string): seq<Target> {
    match PairName(section.0)
    case Some((guid, sid)) => if Upper(guid) == g then [TargetOf(sid, section.1)] else []
    case None => []
  }

  function SectionTargets(ss: Sections, g: string): seq<Target> {
    if ss == [] then [] else OneTarget(ss[0], g) + SectionTargets(ss[1..], g)
  }

  lemma {:induction false} SectionTargetsAppend(a: Sections, b: Sections, g: string)
    ensures SectionTargets(a + b, g) == SectionTargets(a, g) + SectionTargets(b, g)
  {
    hide OneTarget;
    if a == [] {
      assert a + b == b;
    } else {
      assert (a + b)[1..] == a[1..] + b;
      SectionTargetsAppend(a[1..], b, g);
    }
  }

  lemma {:induction false} AddTargetLaw(fs: seq<Folder>, guid: string, t: Target, g: string)
    requires Unique(fs)
    ensures Unique(AddTarget(fs, guid, t))
    ensures TargetsOf(AddTarget(fs, guid, t), g) == TargetsOf(fs, g) + if g == guid then [t] else []
    ensures Absent(AddTarget(fs, guid, t), g) <==> Absent(fs, g) && g != guid
    decreases fs
  {
    var after := AddTarget(fs, guid, t);
    if fs == [] {
      assert after[1..] == [];
    } else if fs[0].guid == guid {
      assert after[1..] == fs[1..];
      if g == guid {
        AbsentEmpty(fs[1..], g);
      }
    } else {
      assert after[1..] == AddTarget(fs[1..], guid, t);
      AddTargetLaw(fs[1..], guid, t, g);
      AddTargetLaw(fs[1..], guid, t, fs[0].guid);
    }
  }

  lemma {:induction false} AbsentEmpty(fs: seq<Folder>, g: string)
    requires Absent(fs, g)
    ensures TargetsOf(fs, g) == []
  {
    if fs != [] {
      AbsentEmpty(fs[1..], g);
    }
  }

  lemma {:induction false} SectionFoldersLaw(ss: Sections, fs: seq<Folder>, g: string)
    requires Unique(fs)
    ensures Unique(SectionFolders(ss, fs))
    ensures TargetsOf(SectionFolders(ss, fs), g) == TargetsOf(fs, g) + SectionTargets(ss, g)
    decreases |ss|
  {
    hide AddTarget, TargetOf;
    if ss != [] {
      var (name, entries) := ss[0];
      var pair := PairName(name);
      var next := fs;
      if pair.Some? {
        PairIsNotSpecial(name);
        next := AddTarget(fs, Upper(pair.value.0), TargetOf(pair.value.1, entries));
        AddTargetLaw(fs, Upper(pair.value.0), TargetOf(pair.value.1, entries), g);
      }
      assert SectionFolders(ss, fs) == SectionFolders(ss[1..], next);
      SectionFoldersLaw(ss[1..], next, g);
    }
  }

  lemma PairIsNotSpecial(name: string)
    requires PairName(name).Some?
    ensures !IsSpecial(name)
  {
    assert Lower(name)[0] == '{';
    assert HEADER_SECTION[0] == 'f' && VERSION_SECTION[0] == 'v';
  }

  predicate NoTargets(fs: seq<Folder>) {
    fs == [] || (fs[0].targets == [] && NoTargets(fs[1..]))
  }

  lemma {:induction false} PutFolderLaw(fs: seq<Folder>, f: Folder, g: string)
    requires Unique(fs) && NoTargets(fs) && f.targets == []
    ensures Unique(PutFolder(fs, f)) && NoTargets(PutFolder(fs, f))
    ensures Absent(PutFolder(fs, f), g) <==> Absent(fs, g) && g != f.guid
    decreases fs
  {
    var after := PutFolder(fs, f);
    if fs == [] {
      assert after[1..] == [];
    } else if fs[0].guid == f.guid {
      assert after[1..] == fs[1..];
    } else {
      assert after[1..] == PutFolder(fs[1..], f);
      PutFolderLaw(fs[1..], f, g);
      PutFolderLaw(fs[1..], f, fs[0].guid);
    }
  }

  lemma {:induction false} HeaderFoldersLaw(header: Dict, fs: seq<Folder>)
    requires Unique(fs) && NoTargets(fs)
    ensures Unique(HeaderFolders(header, fs)) && NoTargets(HeaderFolders(header, fs))
    decreases |header|
  {
    hide PutFolder, Trustees;
    if header != [] {
      var f := Folder(Upper(header[0].0), Trustees(header[0].1), []);
      PutFolderLaw(fs, f, "");
      HeaderFoldersLaw(header[1..], PutFolder(fs, f));
    }
  }

  lemma {:induction false} NoTargetsOf(fs: seq<Folder>, g: string)
    requires NoTargets(fs)
    ensures TargetsOf(fs, g) == []
  {
    if fs != [] {
      NoTargetsOf(fs[1..], g);
    }
  }

  // --- Sorting folders keeps their targets ----------------------------------------------------

  lemma {:induction false} TargetsOfClass(fs: seq<Folder>, g: string)
    ensures TargetsOf(fs, g) == TargetsOf(ClassOf(FolderKey, fs, g), g)
    ensures Absent(fs, g) <==> ClassOf(FolderKey, fs, g) == []
  {
    if fs != [] {
      TargetsOfClass(fs[1..], g);
      var rest := ClassOf(FolderKey, fs[1..], g);
      assert ([fs[0]] + rest)[1..] == rest && [] + rest == rest;
    }
  }

  lemma {:induction false} UniqueClass(fs: seq<Folder>, g: string)
    requires Unique(fs)
    ensures |ClassOf(FolderKey, fs, g)| <= 1
  {
    if fs != [] {
      UniqueClass(fs[1..], g);
      TargetsOfClass(fs[1..], fs[0].guid);
    }
  }

  lemma {:induction false} ClassesUnique(fs: seq<Folder>)
    requires forall g :: |ClassOf(FolderKey, fs, g)| <= 1
    ensures Unique(fs)
  {
    if fs != [] {
      forall g ensures |ClassOf(FolderKey, fs[1..], g)| <= 1 {
        assert |ClassOf(FolderKey, fs, g)| <= 1;
      }
      ClassesUnique(fs[1..]);
      TargetsOfClass(fs[1..], fs[0].guid);
      assert |ClassOf(FolderKey, fs, fs[0].guid)| <= 1;
    }
  }

  lemma SortedFolders(fs: seq<Folder>, g: string)
    requires Unique(fs)
    ensures Unique(SortBy(FolderKey, fs))
    ensures TargetsOf(SortBy(FolderKey, fs), g) == TargetsOf(fs, g)
  {
    hide Unique, TargetsOf, SortBy, ClassOf;
    var sorted := SortBy(FolderKey, fs);
    forall h ensures |ClassOf(FolderKey, sorted, h)| <= 1 {
      UniqueClass(fs, h);
      SortClass(FolderKey, fs, h);
    }
    ClassesUnique(sorted);
    SortClass(FolderKey, fs, g);
    TargetsOfClass(fs, g);
    TargetsOfClass(sorted, g);
  }

  /** What a file redirects is what its pair sections say. */
  lemma ParsedTargets(ss: Sections, g: string)
    ensures Unique(ParsedSections(ss).folders)
    ensures TargetsOf(ParsedSections(ss).folders, g) == SectionTargets(ss, g)
  {
    hide Unique, TargetsOf, SortBy, SectionFolders, SectionTargets, HeaderFolders, Special, OtherSections;
    var header := Special(ss, HEADER_SECTION, []);
    var start := HeaderFolders(header, []);
    assert Unique([]) && NoTargets([]) by { NoFolders(); }
    HeaderFoldersLaw(header, []);
    NoTargetsOf(start, g);
    SectionFoldersLaw(ss, start, g);
    SortedFolders(SectionFolders(ss, start), g);
    assert [] + SectionTargets(ss, g) == SectionTargets(ss, g);
  }

  lemma NoFolders()
    ensures Unique([]) && NoTargets([])
  {
  }

  // --- The sections written name the targets written ------------------------------------------

  lemma {:induction false} TargetSectionsName(guid: string, ts: seq<Target>, g: string)
    requires GuidShape(guid) && Upper(guid) == guid && GoodTargets(ts)
    ensures SectionTargets(TargetSections(guid, ts), g) == if g == guid then Canons(ts) else []
  {
    hide PairName, SectionName, GuidShape, TargetOf, TargetEntries;
    if ts != [] {
      NameOfPair(guid, ts[0].sid);
      assert TargetSections(guid, ts)[1..] == TargetSections(guid, ts[1..]);
      TargetSectionsName(guid, ts[1..], g);
    }
  }

  lemma {:induction false} CanonsAppend(a: seq<Target>, b: seq<Target>)
    ensures Canons(a + b) == Canons(a) + Canons(b)
  {
    hide Canon;
    if a == [] {
      assert a + b == b;
    } else {
      assert (a + b)[1..] == a[1..] + b;
      CanonsAppend(a[1..], b);
    }
  }

  lemma {:induction false} BlocksName(fs: seq<Folder>, g: string)
    requires GoodFolders(fs)
    ensures SectionTargets(Blocks(Kept(fs)), g) == Canons(TargetsOf(fs, g))
  {
    hide Canon, GuidShape, GoodTargets, TargetSections, OneTarget;
    if fs != [] {
      var f := fs[0];
      BlocksName(fs[1..], g);
      CanonsAppend(if f.guid == g then f.targets else [], TargetsOf(fs[1..], g));
      if f.targets == [] {
        assert Kept(fs) == Kept(fs[1..]);
        assert [] + TargetsOf(fs[1..], g) == TargetsOf(fs[1..], g);
      } else {
        assert Kept(fs)[1..] == Kept(fs[1..]);
        TargetSectionsName(f.guid, f.targets, g);
        SectionTargetsAppend(TargetSections(f.guid, f.targets), Blocks(Kept(fs[1..])), g);
      }
    }
  }

  /** The sections that are no pairs come first. */
  lemma FrontNames(version: string, header: Dict, g: string)
    requires PlainPair("version", version)
    ensures SectionTargets(Front(version, header), g) == []
  {
    hide PairName, PlainPair, TargetOf;
    CleanNames(version);
    var front := Front(version, header);
    assert front[1..] == [front[1]] && front[1..][1..] == [];
    assert SectionTargets([front[1]], g) == OneTarget(front[1], g) + SectionTargets([], g) == [];
  }

  /** Writing folders and reading the text gives the targets back, with their flags filled in. */
  lemma WrittenTargets(fs: seq<Folder>, version: string, g: string)
    requires PlainPair("version", version) && GoodFolders(fs) && Unique(fs) && NoMerge(fs)
    ensures TargetsIn(Render(fs, version), g) == Canons(TargetsOf(fs, g))
  {
    hide PlainPair, GoodFolders, Unique, NoMerge, Render, SectionsOf, ParsedSections, SectionTargets, Canons, Blocks,
      Kept, TargetsOf, HeaderLines, ReadLines, Front;
    var header := SomeHeader(fs, version);
    SectionsWritten(fs, version, header);
    var ss := SectionsOf(Render(fs, version));
    ParsedTargets(ss, g);
    SectionTargetsAppend(Front(version, header), Blocks(Kept(fs)), g);
    FrontNames(version, header, g);
    BlocksName(fs, g);
    assert [] + Canons(TargetsOf(fs, g)) == Canons(TargetsOf(fs, g));
  }

  // --- What any file gives can be written --------------------------------------------------------

  lemma PairOfName(name: string)
    requires Clean(name) && PairName(name).Some?
    ensures GuidShape(Upper(PairName(name).value.0)) && GoodSid(PairName(name).value.1)
  {
    var (guid, sid) := PairName(name).value;
    var j := IndexOf(name[1..], '}');
    assert guid == name[..j + 2] && sid == name[j + 3..];
    assert name[1..][..j] == guid[1..|guid| - 1];
    assert guid[|guid| - 1] == name[1..][j];
    var u := Upper(guid);
    assert |u| == |guid| >= 3;
    forall i | 0 <= i < |u| ensures !IsBreak(u[i]) {
      assert u[i] == UpperChar(guid[i]) && guid[i] == name[i];
    }
    var body := u[1..|u| - 1];
    forall i | 0 <= i < |body| ensures body[i] != '}' {
      assert u[i + 1] == UpperChar(guid[i + 1]);
      assert name[1..][..j][i] == guid[i + 1] != '}';
    }
    assert forall i :: 0 <= i < |sid| ==> sid[i] == name[j + 3 + i];
    assert sid[|sid| - 1] == name[|name| - 1];
  }

  lemma GoodTargetOf(sid: string, entries: Dict)
    requires GoodSid(sid) && PlainDict(entries)
    ensures GoodTarget(TargetOf(sid, entries))
  {
    hide GoodSid, PlainDict, BreakFree;
    PlainWithout(entries, FULL_PATH);
    LookupWithout(entries, FULL_PATH, FULL_PATH);
    if Lookup(entries, FULL_PATH).Some? {
      PlainLookup(entries, FULL_PATH);
    } else {
      SymbolsBreakFree();
    }
  }

  lemma {:induction false} GoodTargetsAppend(a: seq<Target>, b: seq<Target>)
    ensures GoodTargets(a + b) <==> GoodTargets(a) && GoodTargets(b)
  {
    hide GoodTarget;
    if a == [] {
      assert a + b == b;
    } else {
      assert (a + b)[1..] == a[1..] + b;
      GoodTargetsAppend(a[1..], b);
    }
  }

  lemma {:induction false} GoodAddTarget(fs: seq<Folder>, guid: string, t: Target)
    requires GoodFolders(fs) && NoneMalformed(fs, guid) && GuidShape(guid) && Upper(guid) == guid && GoodTarget(t)
    ensures GoodFolders(AddTarget(fs, guid, t))
  {
    hide GuidShape, GoodTarget;
    var after := AddTarget(fs, guid, t);
    assert GoodTargets([t]) by { assert [t][1..] == []; }
    if fs == [] {
      assert after[1..] == [];
    } else if fs[0].guid == guid {
      assert after[1..] == fs[1..];
      GoodTargetsAppend(fs[0].targets, [t]);
    } else {
      assert after[1..] == AddTarget(fs[1..], guid, t);
      GoodAddTarget(fs[1..], guid, t);
    }
  }

  /** The targets a folder with the GUID already has are good. */
  predicate NoneMalformed(fs: seq<Folder>, guid: string) {
    fs == [] || ((fs[0].guid == guid ==> GoodTargets(fs[0].targets)) && NoneMalformed(fs[1..], guid))
  }

  lemma {:induction false} GoodAreNotMalformed(fs: seq<Folder>, guid: string)
    requires GoodFolders(fs)
    ensures NoneMalformed(fs, guid)
  {
    hide GuidShape;
    if fs != [] {
      GoodAreNotMalformed(fs[1..], guid);
    }
  }

  lemma {:induction false} GoodSectionFolders(ss: Sections, fs: seq<Folder>)
    requires Tidy(ss) && GoodFolders(fs)
    ensures GoodFolders(SectionFolders(ss, fs))
    decreases |ss|
  {
    hide GoodFolders, Clean, PlainDict, AddTarget, TargetOf, GuidShape, GoodSid, GoodTarget;
    if ss != [] {
      var (name, entries) := ss[0];
      var pair := PairName(name);
      var next := fs;
      if pair.Some? {
        PairIsNotSpecial(name);
        PairOfName(name);
        GoodTargetOf(pair.value.1, entries);
        GoodAreNotMalformed(fs, Upper(pair.value.0));
        UpperIdempotent(pair.value.0);
        GoodAddTarget(fs, Upper(pair.value.0), TargetOf(pair.value.1, entries));
        next := AddTarget(fs, Upper(pair.value.0), TargetOf(pair.value.1, entries));
      }
      GoodSectionFolders(ss[1..], next);
    }
  }

  lemma {:induction false} BareAreGood(fs: seq<Folder>)
    requires NoTargets(fs)
    ensures GoodFolders(fs)
  {
    if fs != [] {
      BareAreGood(fs[1..]);
    }
  }

  lemma {:induction false} GoodInsert(f: Folder, fs: seq<Folder>)
    requires (f.targets != [] ==> GoodFolder(f)) && GoodFolders(fs)
    ensures GoodFolders(Insert(FolderKey, f, fs))
  {
    hide GoodFolder, StrLe;
    var after := Insert(FolderKey, f, fs);
    if fs == [] || StrLe(FolderKey(f), FolderKey(fs[0])) {
      assert after[1..] == fs;
    } else {
      assert after[1..] == Insert(FolderKey, f, fs[1..]);
      GoodInsert(f, fs[1..]);
    }
  }

  lemma {:induction false} GoodSort(fs: seq<Folder>)
    requires GoodFolders(fs)
    ensures GoodFolders(SortBy(FolderKey, fs))
  {
    hide GoodFolder;
    if fs != [] {
      GoodSort(fs[1..]);
      GoodInsert(fs[0], SortBy(FolderKey, fs[1..]));
    }
  }

  lemma ParsedAreGood(ss: Sections)
    requires Tidy(ss)
    ensures GoodFolders(ParsedSections(ss).folders)
  {
    hide Tidy, GoodFolders, SortBy, SectionFolders, HeaderFolders, Special, OtherSections;
    var header := Special(ss, HEADER_SECTION, []);
    NoFolders();
    HeaderFoldersLaw(header, []);
    BareAreGood(HeaderFolders(header, []));
    GoodSectionFolders(ss, HeaderFolders(header, []));
    GoodSort(SectionFolders(ss, HeaderFolders(header, [])));
  }

  lemma {:induction false} PartsAre(parts: seq<string>, p: string)
    ensures p in NonEmptyParts(parts) <==> p != "" && p in parts
  {
    if parts != [] {
      PartsAre(parts[1..], p);
    }
  }

  /** The groups of a header entry are its parts between semicolons that are not empty. */
  lemma TrusteesAre(sids: string, p: string)
    ensures p in Trustees(sids) <==> p != "" && p in Split(Strip(Strip(sids, WHITESPACE), {';'}), ';')
  {
    hide Split, Strip;
    PartsAre(Split(Strip(Strip(sids, WHITESPACE), {';'}), ';'), p);
  }
}
