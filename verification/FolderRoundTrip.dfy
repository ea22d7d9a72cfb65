/** Reading what render wrote gives the folders back (backend/samadcon/gpo/folders.py). */
module FolderRoundTrip {
  import opened Text
  import opened Sorting
  import opened Folders
  import opened FolderLines
  import opened FolderWrites
  import opened FolderLaws
  import opened FolderEdits
  import opened FolderMap

  function Sids(ts: seq<Target>): seq<string> {
    if ts == [] then [] else [ts[0].sid] + Sids(ts[1..])
  }

  predicate RegularSids(ts: seq<Target>) {
    ts == [] || (Clean(ts[0].sid) && ';' !in ts[0].sid && RegularSids(ts[1..]))
  }

  /** The header can carry the folder: no '=' in its name, no ';' or edge whitespace in a group's. */
  predicate Regular(fs: seq<Folder>) {
    fs == [] || ((fs[0].targets != [] ==> '=' !in fs[0].guid && RegularSids(fs[0].targets)) && Regular(fs[1..]))
  }

  /** The folders that are written, as they are read. */
  function ReadBack(fs: seq<Folder>): seq<Folder> {
    if fs == [] then []
    else [Folder(fs[0].guid, Sids(fs[0].targets), Canons(fs[0].targets))] + ReadBack(fs[1..])
  }

  function Bare(fs: seq<Folder>): seq<Folder> {
    if fs == [] then [] else [Folder(fs[0].guid, Sids(fs[0].targets), [])] + Bare(fs[1..])
  }

  function HeaderDict(fs: seq<Folder>): Dict {
    if fs == [] then [] else [(fs[0].guid, SidList(fs[0].targets))] + HeaderDict(fs[1..])
  }

  // --- The header --------------------------------------------------------------------------

  lemma {:induction false} HeaderLinesAre(fs: seq<Folder>)
    ensures HeaderLines(fs) == PairLines(HeaderDict(fs))
  {
    hide SidList;
    if fs != [] {
      HeaderLinesAre(fs[1..]);
      assert HeaderDict(fs)[1..] == HeaderDict(fs[1..]);
    }
  }

  lemma {:induction false} SidListIsJoin(ts: seq<Target>)
    requires ts != []
    ensures SidList(ts) == Join(Sids(ts), ";") + ";"
  {
    assert Sids(ts)[1..] == Sids(ts[1..]);
    if |ts| == 1 {
      assert SidList(ts) == ts[0].sid + ";" + "" == ts[0].sid + ";";
    } else {
      SidListIsJoin(ts[1..]);
      var rest := Join(Sids(ts[1..]), ";");
      assert ts[0].sid + ";" + (rest + ";") == ts[0].sid + ";" + rest + ";";
    }
  }

  lemma {:induction false} SidsAre(ts: seq<Target>)
    requires GoodTargets(ts) && RegularSids(ts)
    ensures forall s :: s in Sids(ts) ==> s != "" && ';' !in s
    ensures NonEmptyParts(Sids(ts)) == Sids(ts)
  {
    hide Clean, PlainDict;
    if ts != [] {
      SidsAre(ts[1..]);
      assert Sids(ts)[1..] == Sids(ts[1..]);
    }
  }

  lemma {:induction false} JoinEnds(ts: seq<Target>)
    requires ts != [] && GoodTargets(ts) && RegularSids(ts)
    ensures var s := Join(Sids(ts), ";");
            s != "" && s[0] == ts[0].sid[0] && s[0] != ';' && s[0] !in WHITESPACE && s[|s| - 1] != ';'
  {
    hide PlainDict, IsSpace, IsBreak;
    assert Sids(ts)[1..] == Sids(ts[1..]);
    if |ts| > 1 {
      JoinEnds(ts[1..]);
    }
  }

  lemma TrimList(s: string)
    requires s != "" && s[0] != ';' && s[0] !in WHITESPACE && s[|s| - 1] != ';'
    ensures CleanEnds(s + ";", WHITESPACE)
    ensures Strip(Strip(s + ";", WHITESPACE), {';'}) == s
  {
    hide Strip, IsSpace;
    SemicolonIsNoSpace();
    assert CleanEnds(s + ";", WHITESPACE);
    StripBehind(s, ';', {';'});
  }

  lemma SemicolonIsNoSpace()
    ensures ';' !in WHITESPACE
  {
  }

  /** The reader's list of groups is the one that was written. */
  lemma TrusteesBack(ts: seq<Target>)
    requires GoodTargets(ts) && RegularSids(ts) && ts != []
    ensures Trustees(SidList(ts)) == Sids(ts)
    ensures CleanEnds(SidList(ts), WHITESPACE)
  {
    hide Clean, PlainDict, Strip, GoodTargets, RegularSids, Split, Join;
    SidListIsJoin(ts);
    SidsAre(ts);
    JoinEnds(ts);
    TrimList(Join(Sids(ts), ";"));
    assert Sids(ts) != [];
    SplitJoin(Sids(ts), ';');
    assert [';'] == ";";
  }

  lemma {:induction false} HeaderAbsent(fs: seq<Folder>, g: string)
    requires Absent(fs, g)
    ensures Lookup(HeaderDict(Kept(fs)), g).None?
  {
    hide SidList;
    if fs != [] {
      HeaderAbsent(fs[1..], g);
      if fs[0].targets == [] {
        assert Kept(fs) == Kept(fs[1..]);
      } else {
        assert Kept(fs)[1..] == Kept(fs[1..]);
        assert HeaderDict(Kept(fs))[1..] == HeaderDict(Kept(fs[1..]));
      }
    }
  }

  lemma HeaderPair(f: Folder)
    requires GoodFolder(f) && f.targets != [] && '=' !in f.guid && RegularSids(f.targets)
    ensures PlainPair(f.guid, SidList(f.targets))
  {
    hide GoodTargets, RegularSids, SidList, Trustees, IsSpace;
    TrusteesBack(f.targets);
    SidListBreakFree(f.targets);
    BracesAreNoSpace();
  }

  lemma BracesAreNoSpace()
    ensures '{' !in WHITESPACE && '}' !in WHITESPACE
  {
  }

  lemma {:induction false} HeaderPlain(fs: seq<Folder>)
    requires GoodFolders(fs) && Unique(fs) && Regular(fs)
    ensures PlainDict(HeaderDict(Kept(fs)))
  {
    hide GoodFolder, SidList, RegularSids, PlainPair, Absent;
    if fs != [] {
      HeaderPlain(fs[1..]);
      if fs[0].targets == [] {
        assert Kept(fs) == Kept(fs[1..]);
      } else {
        assert Kept(fs)[1..] == Kept(fs[1..]);
        assert HeaderDict(Kept(fs))[1..] == HeaderDict(Kept(fs[1..]));
        HeaderPair(fs[0]);
        HeaderAbsent(fs[1..], fs[0].guid);
      }
    }
  }

  lemma HeaderRead(fs: seq<Folder>, version: string)
    requires PlainPair("version", version) && GoodFolders(fs) && Unique(fs) && Regular(fs)
    ensures ReadLines(Reading(Front(version, []), HEADER_NAME), HeaderLines(Kept(fs)))
         == Reading(Front(version, HeaderDict(Kept(fs))), HEADER_NAME)
  {
    hide ReadLines, GoodFolders, Unique, Regular, PlainPair, Kept, PlainDict, PairName, Distinct, Lookup;
    var header := HeaderDict(Kept(fs));
    var pre: Sections := [(VERSION_NAME, [("version", version)])];
    HeaderPlain(fs);
    PlainIsDistinct(header);
    HeaderLinesAre(Kept(fs));
    CleanNames(version);
    assert [] + header == header;
    ReadPairs(pre, HEADER_NAME, [], header);
    assert pre + [(HEADER_NAME, [])] == Front(version, []) && pre + [(HEADER_NAME, header)] == Front(version, header);
  }

  // --- The folders ----------------------------------------------------------------------------

  lemma {:induction false} AbsentAppend(a: seq<Folder>, b: seq<Folder>, g: string)
    ensures Absent(a + b, g) <==> Absent(a, g) && Absent(b, g)
  {
    if a == [] {
      assert a + b == b;
    } else {
      assert (a + b)[1..] == a[1..] + b;
      AbsentAppend(a[1..], b, g);
    }
  }

  lemma {:induction false} PutNew(fs: seq<Folder>, f: Folder)
    requires Absent(fs, f.guid)
    ensures PutFolder(fs, f) == fs + [f]
  {
    if fs != [] {
      PutNew(fs[1..], f);
    }
  }

  lemma {:induction false} AllKept(fs: seq<Folder>)
    requires GoodFolders(fs) && Unique(fs) && Regular(fs) && NoMerge(fs)
    ensures GoodFolders(Kept(fs)) && Unique(Kept(fs)) && Regular(Kept(fs)) && NoMerge(Kept(fs))
    ensures Kept(Kept(fs)) == Kept(fs)
    ensures NonEmpty(Kept(fs))
    ensures forall g :: Absent(fs, g) ==> Absent(Kept(fs), g)
  {
    hide GoodFolder, RegularSids, DistinctSids;
    if fs != [] {
      AllKept(fs[1..]);
      if fs[0].targets == [] {
        assert Kept(fs) == Kept(fs[1..]);
      } else {
        assert Kept(fs)[1..] == Kept(fs[1..]);
      }
    }
  }

  predicate NonEmpty(fs: seq<Folder>) {
    fs == [] || (fs[0].targets != [] && NonEmpty(fs[1..]))
  }

  /** None of the folders is in *pre*. */
  predicate Fresh(fs: seq<Folder>, pre: seq<Folder>) {
    fs == [] || (Absent(pre, fs[0].guid) && Fresh(fs[1..], pre))
  }

  lemma {:induction false} FreshSnoc(fs: seq<Folder>, pre: seq<Folder>, f: Folder)
    requires Fresh(fs, pre) && Absent(fs, f.guid)
    ensures Fresh(fs, pre + [f])
  {
    if fs != [] {
      FreshSnoc(fs[1..], pre, f);
      AbsentAppend(pre, [f], fs[0].guid);
      assert [f][1..] == [];
    }
  }

  lemma {:induction false} FreshToNothing(fs: seq<Folder>)
    ensures Fresh(fs, [])
  {
    if fs != [] {
      FreshToNothing(fs[1..]);
    }
  }

  lemma NoHeader(pre: seq<Folder>)
    ensures HeaderFolders(HeaderDict([]), pre) == pre
  {
  }

  lemma HeaderFirst(fs: seq<Folder>, pre: seq<Folder>)
    requires fs != []
    ensures HeaderFolders(HeaderDict(fs), pre)
         == HeaderFolders(HeaderDict(fs[1..]),
                          PutFolder(pre, Folder(Upper(fs[0].guid), Trustees(SidList(fs[0].targets)), [])))
  {
    hide SidList, Trustees, PutFolder;
    assert HeaderDict(fs)[1..] == HeaderDict(fs[1..]);
  }

  /** The header names the folders, with their groups and no targets yet. */
  lemma {:induction false} HeaderFoldersBack(fs: seq<Folder>, pre: seq<Folder>)
    requires GoodFolders(fs) && Unique(fs) && Regular(fs) && NonEmpty(fs) && Fresh(fs, pre)
    ensures HeaderFolders(HeaderDict(fs), pre) == pre + Bare(fs)
    decreases |fs|
  {
    hide GuidShape, GoodTargets, RegularSids, SidList, Trustees, Sids, Absent, PutFolder, HeaderFolders, HeaderDict;
    if fs == [] {
      assert pre + [] == pre;
      NoHeader(pre);
    } else {
      TrusteesBack(fs[0].targets);
      var f := Folder(fs[0].guid, Sids(fs[0].targets), []);
      PutNew(pre, f);
      HeaderFirst(fs, pre);
      FreshSnoc(fs[1..], pre, f);
      HeaderFoldersBack(fs[1..], pre + [f]);
      assert pre + [f] + Bare(fs[1..]) == pre + ([f] + Bare(fs[1..]));
    }
  }

  lemma {:induction false} AddAt(pre: seq<Folder>, f: Folder, post: seq<Folder>, t: Target)
    requires Absent(pre, f.guid)
    ensures AddTarget(pre + [f] + post, f.guid, t) == pre + [f.(targets := f.targets + [t])] + post
  {
    var all := pre + [f] + post;
    if pre == [] {
      assert all == [f] + post && all[1..] == post;
      assert pre + [f.(targets := f.targets + [t])] + post == [f.(targets := f.targets + [t])] + post;
    } else {
      assert all[1..] == pre[1..] + [f] + post;
      AddAt(pre[1..], f, post, t);
    }
  }

  lemma {:induction false} TargetsBack(pre: seq<Folder>, f: Folder, post: seq<Folder>, ts: seq<Target>)
    requires Absent(pre, f.guid) && GuidShape(f.guid) && Upper(f.guid) == f.guid && GoodTargets(ts)
    ensures SectionFolders(TargetSections(f.guid, ts), pre + [f] + post)
         == pre + [f.(targets := f.targets + Canons(ts))] + post
    decreases |ts|
  {
    hide GuidShape, PairName, SectionName, TargetEntries, TargetOf, AddTarget, Absent, IsSpecial;
    if ts == [] {
      assert f.targets + Canons(ts) == f.targets;
    } else {
      var ss := TargetSections(f.guid, ts);
      var t := Canon(ts[0]);
      NameOfPair(f.guid, ts[0].sid);
      PairIsNotSpecial(ss[0].0);
      assert ss[1..] == TargetSections(f.guid, ts[1..]);
      AddAt(pre, f, post, t);
      var f' := f.(targets := f.targets + [t]);
      assert SectionFolders(ss, pre + [f] + post) == SectionFolders(ss[1..], pre + [f'] + post);
      TargetsBack(pre, f', post, ts[1..]);
      assert f.targets + [t] + Canons(ts[1..]) == f.targets + ([t] + Canons(ts[1..]));
    }
  }

  lemma {:induction false} SectionFoldersAppend(a: Sections, b: Sections, fs: seq<Folder>)
    ensures SectionFolders(a + b, fs) == SectionFolders(b, SectionFolders(a, fs))
    decreases |a|
  {
    hide IsSpecial, PairName, TargetOf, AddTarget;
    if a == [] {
      assert a + b == b;
    } else {
      assert (a + b)[1..] == a[1..] + b;
      var (name, entries) := a[0];
      SectionFoldersAppend(a[1..], b,
        if IsSpecial(name) then fs
        else
          match PairName(name)
          case None => fs
          case Some((guid, sid)) => AddTarget(fs, Upper(guid), TargetOf(sid, entries)));
    }
  }

  lemma BlocksFirst(fs: seq<Folder>)
    ensures fs == [] ==> Blocks(fs) == [] && Bare(fs) == [] && ReadBack(fs) == []
    ensures fs != [] ==>
              && Blocks(fs) == TargetSections(fs[0].guid, fs[0].targets) + Blocks(fs[1..])
              && Bare(fs) == [Folder(fs[0].guid, Sids(fs[0].targets), [])] + Bare(fs[1..])
              && ReadBack(fs) == [Folder(fs[0].guid, Sids(fs[0].targets), Canons(fs[0].targets))] + ReadBack(fs[1..])
  {
  }

  lemma {:induction false} BlocksBack(fs: seq<Folder>, pre: seq<Folder>)
    requires GoodFolders(fs) && Unique(fs) && NonEmpty(fs) && Fresh(fs, pre)
    ensures SectionFolders(Blocks(fs), pre + Bare(fs)) == pre + ReadBack(fs)
    decreases |fs|
  {
    hide GuidShape, GoodTargets, Sids, Canons, TargetSections, SectionFolders, Absent, Blocks, Bare, ReadBack;
    BlocksFirst(fs);
    if fs == [] {
      NoSectionFolders(pre + Bare(fs));
    } else {
      var f := Folder(fs[0].guid, Sids(fs[0].targets), []);
      var done := f.(targets := Canons(fs[0].targets));
      assert pre + Bare(fs) == pre + [f] + Bare(fs[1..]);
      assert [] + Canons(fs[0].targets) == Canons(fs[0].targets);
      TargetsBack(pre, f, Bare(fs[1..]), fs[0].targets);
      SectionFoldersAppend(TargetSections(fs[0].guid, fs[0].targets), Blocks(fs[1..]), pre + Bare(fs));
      FreshSnoc(fs[1..], pre, done);
      BlocksBack(fs[1..], pre + [done]);
      assert pre + [done] + ReadBack(fs[1..]) == pre + ([done] + ReadBack(fs[1..]));
    }
  }

  lemma NoSectionFolders(fs: seq<Folder>)
    ensures SectionFolders([], fs) == fs
  {
  }

  lemma FrontFolders(version: string, header: Dict, fs: seq<Folder>)
    ensures SectionFolders(Front(version, header), fs) == fs
  {
    hide Lower;
    LowerNames();
    var front := Front(version, header);
    assert front[1..] == [front[1]] && front[1..][1..] == [];
    assert IsSpecial(front[0].0) && IsSpecial(front[1].0);
    assert SectionFolders([front[1]], fs) == SectionFolders([], fs);
  }

  /** Parsing what was rendered: the version and the folders that redirect something, sorted by GUID, each with its
      groups as trustees and its targets with the flags filled in, and nothing else. */
  lemma ParseRender(fs: seq<Folder>, version: string)
    requires PlainPair("version", version) && GoodFolders(fs) && Unique(fs) && NoMerge(fs) && Regular(fs)
    ensures Parse(Render(fs, version)) == Parsed([("version", version)], SortBy(FolderKey, ReadBack(Kept(fs))), [])
  {
    hide SectionsOf, GoodFolders, Unique, NoMerge, Regular, PlainPair, Special, SectionFolders, HeaderFolders,
      OtherSections, SortBy, Kept, Blocks, Front, Render, ReadLines, HeaderLines, HeaderDict, ReadBack, Bare, Absent;
    var kept := Kept(fs);
    var header := HeaderDict(kept);
    HeaderRead(fs, version);
    SectionsWritten(fs, version, header);
    SpecialsWritten(fs, version, header);
    AllKept(fs);
    FreshToNothing(kept);
    HeaderFoldersBack(kept, []);
    BlocksBack(kept, []);
    assert [] + Bare(kept) == Bare(kept) && [] + ReadBack(kept) == ReadBack(kept);
    SectionFoldersAppend(Front(version, header), Blocks(kept), Bare(kept));
    FrontFolders(version, header, Bare(kept));
  }

  // --- After an edit ------------------------------------------------------------------------------

  lemma {:induction false} ReadBackAgrees(fs: seq<Folder>)
    requires NonEmpty(fs)
    ensures forall f :: f in ReadBack(fs) ==> f.targets != [] && f.trustees == Sids(f.targets)
  {
    hide Canons, Sids;
    if fs != [] {
      ReadBackAgrees(fs[1..]);
      SidsOfCanons(fs[0].targets);
    }
  }

  lemma {:induction false} SidsOfCanons(ts: seq<Target>)
    ensures Sids(Canons(ts)) == Sids(ts) && (ts != [] ==> Canons(ts) != [])
  {
    if ts != [] {
      SidsOfCanons(ts[1..]);
      assert Canons(ts)[1..] == Canons(ts[1..]);
    }
  }

  /** After an edit, the header names a folder exactly when a section does, with the same groups, and no section is
      left over. */
  lemma HeaderAgrees(text: string, guid: string, sid: string, path: Option<string>)
    requires ValidEdit(guid, sid, path) && PairsDiffer(text, guid, sid)
    requires Regular(FoldersAfter(text, guid, sid, path))
    ensures var p := Parse(SetTarget(text, guid, sid, path));
            && p.other == []
            && forall f :: f in p.folders ==> f.targets != [] && f.trustees == Sids(f.targets)
  {
    hide ValidEdit, SetTarget, DistinctSids, PairsDiffer, VersionIn, PlainPair, FoldersAfter, Parse, SortBy, After,
      Regular, Render, Unique, GoodFolders, ReadBack, Kept, NoMerge, TargetsOf;
    var fs, version := FoldersAfter(text, guid, sid, path), VersionIn(Parse(text).version);
    SetTargetIs(text, guid, sid, path);
    AfterFolders(text, guid, sid, path);
    ParsedVersion(text);
    MergeIs(text, guid, sid, path);
    TargetsNoMerge(fs);
    ParseRender(fs, version);
    AllKept(fs);
    ReadBackAgrees(Kept(fs));
    SortElements(FolderKey, ReadBack(Kept(fs)));
  }

  // --- Two spellings of one pair ------------------------------------------------------------------

  const TWICE := ["[{a}_s]", "[{A}_s]"]

  /** A file that names one pair in two spellings: whatever other folder is edited, the two become one. */
  lemma MergedSections(guid: string, sid: string)
    requires Upper(guid) != "{A}"
    ensures !PairsDiffer(Terminated(TWICE), guid, sid)
  {
    hide ReadLine, Clean, Lookup, TargetOf, DistinctSids, PairName;
    var ss: Sections := [("{a}_s", []), ("{A}_s", [])];
    var text := Terminated(TWICE);
    TwiceSections();
    assert SectionsOf(text) == ss by {
      SplitTerminated(TWICE);
      ReadBlocks([], "", ss);
      assert [] + ss == ss;
      TwiceLines();
    }
    ParsedTargets(ss, "{A}");
    TwiceTargets();
    TwiceTheSame(TargetOf("s", []));
    assert !DistinctSids(TargetsIn(text, "{A}"));
  }

  lemma TwiceSections()
    ensures var ss: Sections := [("{a}_s", []), ("{A}_s", [])]; Tidy(ss) && Named(ss) && Distinct([] + ss)
    ensures forall l :: l in TWICE ==> BreakFree(l)
  {
    var ss: Sections := [("{a}_s", []), ("{A}_s", [])];
    assert ss[1..] == [("{A}_s", [])] && ss[1..][1..] == [] && [] + ss == ss;
    assert "{a}_s"[1] != "{A}_s"[1];
    assert Lookup(ss[1..], "{a}_s").None?;
    assert SectionName("{a}", "s") == "{a}_s" && SectionName("{A}", "s") == "{A}_s";
    assert GoodSid("s") by { LetterIsNoSpace(); }
    assert GuidShape("{a}") && GuidShape("{A}");
    NameIsClean("{a}", "s");
    NameIsClean("{A}", "s");
    assert Tidy(ss[1..]);
    forall l | l in TWICE ensures BreakFree(l) {
      assert l == ['[', '{', 'a', '}', '_', 's', ']'] || l == ['[', '{', 'A', '}', '_', 's', ']'];
    }
  }

  lemma LetterIsNoSpace()
    ensures 's' !in WHITESPACE
  {
  }

  lemma TwiceLines()
    ensures SectionLines([("{a}_s", []), ("{A}_s", [])]) == TWICE
  {
    var ss: Sections := [("{a}_s", []), ("{A}_s", [])];
    assert ss[1..] == [("{A}_s", [])] && ss[1..][1..] == [];
    assert "[" + "{a}_s" + "]" == "[{a}_s]" && "[" + "{A}_s" + "]" == "[{A}_s]";
    assert SectionLines(ss[1..]) == ["[{A}_s]"];
  }

  lemma TwiceTargets()
    ensures SectionTargets([("{a}_s", []), ("{A}_s", [])], "{A}") == [TargetOf("s", []), TargetOf("s", [])]
  {
    hide TargetOf, PairName;
    var ss: Sections := [("{a}_s", []), ("{A}_s", [])];
    assert ss[1..] == [("{A}_s", [])] && ss[1..][1..] == [];
    assert SectionName("{a}", "s") == "{a}_s" && SectionName("{A}", "s") == "{A}_s";
    assert GuidShape("{a}") && GuidShape("{A}");
    NameOfPair("{a}", "s");
    NameOfPair("{A}", "s");
    assert Upper("{a}") == "{A}" && Upper("{A}") == "{A}";
    assert SectionTargets(ss[1..], "{A}") == OneTarget(ss[1], "{A}") + SectionTargets([], "{A}");
  }

  lemma TwiceTheSame(t: Target)
    ensures !DistinctSids([t, t])
  {
    assert [t, t][1..] == [t];
  }
}
