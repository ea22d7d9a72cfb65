/** What folders.render writes is what folders.parse reads. */
module FolderWrites {
  import opened Text
  import opened Folders
  import opened FolderLines

  predicate GuidShape(g: string) {
    |g| >= 3 && g[0] == '{' && g[|g| - 1] == '}' && '}' !in g[1..|g| - 1] && BreakFree(g)
  }

  /** A group name that can end a section name. */
  predicate GoodSid(sid: string) {
    sid != "" && BreakFree(sid) && sid[|sid| - 1] !in WHITESPACE
  }

  predicate GoodTarget(t: Target) {
    GoodSid(t.sid) && Clean(t.path) && PlainDict(t.options) && Lookup(t.options, FULL_PATH).None?
  }

  predicate GoodTargets(ts: seq<Target>) {
    ts == [] || (GoodTarget(ts[0]) && GoodTargets(ts[1..]))
  }

  predicate HasSid(ts: seq<Target>, sid: string) {
    ts != [] && (ts[0].sid == sid || HasSid(ts[1..], sid))
  }

  predicate DistinctSids(ts: seq<Target>) {
    ts == [] || (!HasSid(ts[1..], ts[0].sid) && DistinctSids(ts[1..]))
  }

  predicate Absent(fs: seq<Folder>, g: string) {
    fs == [] || (fs[0].guid != g && Absent(fs[1..], g))
  }

  predicate Unique(fs: seq<Folder>) {
    fs == [] || (Absent(fs[1..], fs[0].guid) && Unique(fs[1..]))
  }

  predicate GoodFolder(f: Folder) {
    GuidShape(f.guid) && Upper(f.guid) == f.guid && GoodTargets(f.targets)
  }

  predicate GoodFolders(fs: seq<Folder>) {
    fs == [] || ((fs[0].targets != [] ==> GoodFolder(fs[0])) && GoodFolders(fs[1..]))
  }

  /** No folder lists one group twice. */
  predicate NoMerge(fs: seq<Folder>) {
    fs == [] || (DistinctSids(fs[0].targets) && NoMerge(fs[1..]))
  }

  /** The redirections of one folder. */
  function TargetsOf(fs: seq<Folder>, g: string): seq<Target> {
    if fs == [] then []
    else (if fs[0].guid == g then fs[0].targets else []) + TargetsOf(fs[1..], g)
  }

  /** What writing and reading back makes of a target: the flags come first, with a default. */
  function Canon(t: Target): Target {
    TargetOf(t.sid, TargetEntries(t))
  }

  function Canons(ts: seq<Target>): seq<Target> {
    if ts == [] then [] else [Canon(ts[0])] + Canons(ts[1..])
  }

  // --- The sections that are written ---------------------------------------------------------

  function TargetSections(g: string, ts: seq<Target>): Sections {
    if ts == [] then [] else [(SectionName(g, ts[0].sid), TargetEntries(ts[0]))] + TargetSections(g, ts[1..])
  }

  function Blocks(fs: seq<Folder>): Sections {
    if fs == [] then [] else TargetSections(fs[0].guid, fs[0].targets) + Blocks(fs[1..])
  }

  lemma {:induction false} SectionLinesAppend(a: Sections, b: Sections)
    ensures SectionLines(a + b) == SectionLines(a) + SectionLines(b)
  {
    if a == [] {
      assert a + b == b;
    } else {
      assert (a + b)[1..] == a[1..] + b;
      SectionLinesAppend(a[1..], b);
    }
  }

  lemma {:induction false} TargetsLinesAre(g: string, ts: seq<Target>)
    ensures TargetsLines(g, ts) == SectionLines(TargetSections(g, ts))
  {
    if ts != [] {
      var rest := TargetSections(g, ts[1..]);
      assert TargetSections(g, ts)[1..] == rest;
      TargetsLinesAre(g, ts[1..]);
    }
  }

  lemma {:induction false} BlockLinesAre(fs: seq<Folder>)
    ensures BlockLines(fs) == SectionLines(Blocks(fs))
  {
    if fs != [] {
      TargetsLinesAre(fs[0].guid, fs[0].targets);
      BlockLinesAre(fs[1..]);
      SectionLinesAppend(TargetSections(fs[0].guid, fs[0].targets), Blocks(fs[1..]));
    }
  }

  lemma NameOfPair(g: string, sid: string)
    requires GuidShape(g) && sid != ""
    ensures PairName(SectionName(g, sid)) == Some((g, sid))
  {
    var name := SectionName(g, sid);
    var j := |g| - 2;
    assert name[1..][..j] == g[1..|g| - 1];
    assert name[1..][j] == '}';
    IndexOfIs(name[1..], '}', j);
    assert name[..j + 2] == g && name[j + 3..] == sid;
  }

  lemma NameIsClean(g: string, sid: string)
    requires GuidShape(g) && GoodSid(sid)
    ensures Clean(SectionName(g, sid)) && SectionName(g, sid) != ""
  {
    var name := SectionName(g, sid);
    assert '{' !in WHITESPACE;
    assert name[0] == '{' && name[|name| - 1] == sid[|sid| - 1];
    forall i | 0 <= i < |name| ensures !IsBreak(name[i]) {
      if i < |g| { assert name[i] == g[i]; }
      if i > |g| { assert name[i] == sid[i - |g| - 1]; }
    }
  }

  lemma EntriesArePlain(t: Target)
    requires GoodTarget(t)
    ensures PlainDict(TargetEntries(t))
    ensures Canon(t) == Target(t.sid, t.path, [TargetEntries(t)[0]] + Without(t.options, FLAGS))
  {
    hide GoodSid, Clean, PlainDict, Without, Lookup;
    var flags := TargetEntries(t)[0];
    var rest := Without(t.options, FLAGS);
    PlainWithout(t.options, FLAGS);
    LookupWithout(t.options, FLAGS, FLAGS);
    LookupWithout(t.options, FLAGS, FULL_PATH);
    WithoutAbsent(rest, FULL_PATH);
    FlagsArePlain(t.options, flags.1);
    PathIsPlain(t.path);
    var d := [flags, (FULL_PATH, t.path)] + rest;
    ConsPlain((FULL_PATH, t.path), rest);
    ConsPlain(flags, [(FULL_PATH, t.path)] + rest);
    LookupCons((FULL_PATH, t.path), rest, FLAGS);
    assert d == [flags] + ([(FULL_PATH, t.path)] + rest);
    TakePath(flags, t.path, rest);
  }

  lemma LookupCons(e: (string, string), d: Dict, k: string)
    ensures Lookup([e] + d, k) == if e.0 == k then Some(e.1) else Lookup(d, k)
  {
    assert ([e] + d)[1..] == d;
  }

  lemma ConsPlain(e: (string, string), d: Dict)
    ensures PlainDict([e] + d) <==> PlainPair(e.0, e.1) && Lookup(d, e.0).None? && PlainDict(d)
  {
    hide PlainPair;
    assert ([e] + d)[1..] == d;
  }

  lemma TakePath(flags: (string, string), path: string, rest: Dict)
    requires flags.0 == FLAGS && Without(rest, FULL_PATH) == rest
    ensures var d := [flags, (FULL_PATH, path)] + rest;
            Lookup(d, FULL_PATH) == Some(path) && Without(d, FULL_PATH) == [flags] + rest
  {
    var d := [flags, (FULL_PATH, path)] + rest;
    assert d[1..] == [(FULL_PATH, path)] + rest && d[1..][1..] == rest;
    assert Without(d[1..], FULL_PATH) == [] + rest == rest;
    assert FLAGS != FULL_PATH;
  }

  lemma FlagsArePlain(options: Dict, v: string)
    requires PlainDict(options)
    requires v == match Lookup(options, FLAGS) case Some(v) => v case None => DEFAULT_FLAGS
    ensures PlainPair(FLAGS, v)
  {
    hide PlainDict;
    assert FLAGS == ['F', 'l', 'a', 'g', 's'];
    if Lookup(options, FLAGS).Some? {
      PlainLookup(options, FLAGS);
    } else {
      assert v == ['1', '2', '1', '1'];
    }
  }

  lemma PathIsPlain(path: string)
    requires Clean(path)
    ensures PlainPair(FULL_PATH, path)
  {
    assert FULL_PATH == ['F', 'u', 'l', 'l', 'P', 'a', 't', 'h'];
  }

  // --- They are read back as they are -----------------------------------------------------------

  lemma {:induction false} OtherName(g: string, sid: string, h: string, ts: seq<Target>)
    requires GuidShape(g) && sid != "" && GuidShape(h) && GoodTargets(ts)
    requires g != h || !HasSid(ts, sid)
    ensures Lookup(TargetSections(h, ts), SectionName(g, sid)).None?
  {
    hide SectionName, TargetEntries, PairName;
    if ts != [] {
      NameOfPair(g, sid);
      NameOfPair(h, ts[0].sid);
      assert TargetSections(h, ts)[1..] == TargetSections(h, ts[1..]);
      OtherName(g, sid, h, ts[1..]);
    }
  }

  lemma {:induction false} OtherFolder(g: string, sid: string, fs: seq<Folder>)
    requires GuidShape(g) && sid != "" && GoodFolders(fs) && Absent(fs, g)
    ensures Lookup(Blocks(Kept(fs)), SectionName(g, sid)).None?
  {
    hide SectionName, GuidShape, GoodTargets, Lookup, TargetSections;
    if fs == [] {
      assert Lookup<Dict>([], SectionName(g, sid)).None? by { LookupEmpty<Dict>(SectionName(g, sid)); }
    } else {
      OtherFolder(g, sid, fs[1..]);
      if fs[0].targets != [] {
        assert Kept(fs)[1..] == Kept(fs[1..]);
        OtherName(g, sid, fs[0].guid, fs[0].targets);
        LookupAppend(TargetSections(fs[0].guid, fs[0].targets), Blocks(Kept(fs[1..])), SectionName(g, sid));
      } else {
        assert Kept(fs) == Kept(fs[1..]);
      }
    }
  }

  lemma LookupEmpty<V>(k: string)
    ensures Lookup<V>([], k).None?
  {
  }

  lemma {:induction false} TidyTargets(g: string, ts: seq<Target>, rest: Sections)
    requires GuidShape(g) && GoodTargets(ts) && DistinctSids(ts)
    requires Tidy(rest) && Named(rest)
    requires forall sid :: sid != "" ==> Lookup(rest, SectionName(g, sid)).None?
    ensures Tidy(TargetSections(g, ts) + rest) && Named(TargetSections(g, ts) + rest)
  {
    hide GuidShape, SectionName, TargetEntries, Clean, PlainDict, Lookup, Tidy, Named;
    if ts == [] {
      assert TargetSections(g, ts) + rest == rest;
    } else {
      var name, more := SectionName(g, ts[0].sid), TargetSections(g, ts[1..]) + rest;
      NameIsClean(g, ts[0].sid);
      EntriesArePlain(ts[0]);
      TidyTargets(g, ts[1..], rest);
      OtherName(g, ts[0].sid, g, ts[1..]);
      LookupAppend(TargetSections(g, ts[1..]), rest, name);
      TidyCons((name, TargetEntries(ts[0])), more);
      assert TargetSections(g, ts) + rest == [(name, TargetEntries(ts[0]))] + more;
    }
  }

  lemma TidyCons(section: (string, Dict), rest: Sections)
    requires Clean(section.0) && section.0 != "" && PlainDict(section.1) && Lookup(rest, section.0).None?
    requires Tidy(rest) && Named(rest)
    ensures Tidy([section] + rest) && Named([section] + rest)
  {
    hide Clean, PlainDict, Lookup;
    assert ([section] + rest)[1..] == rest;
  }

  lemma {:induction false} TidyBlocks(fs: seq<Folder>)
    requires GoodFolders(fs) && Unique(fs) && NoMerge(fs)
    ensures Tidy(Blocks(Kept(fs))) && Named(Blocks(Kept(fs)))
  {
    hide GuidShape, GoodTargets, Lookup, TargetSections, SectionName, Named, Tidy, Absent;
    if fs == [] {
      EmptyTidy();
    } else {
      TidyBlocks(fs[1..]);
      if fs[0].targets == [] {
        assert Kept(fs) == Kept(fs[1..]);
      } else {
        assert Kept(fs)[1..] == Kept(fs[1..]);
        forall sid | sid != "" ensures Lookup(Blocks(Kept(fs[1..])), SectionName(fs[0].guid, sid)).None? {
          OtherFolder(fs[0].guid, sid, fs[1..]);
        }
        TidyTargets(fs[0].guid, fs[0].targets, Blocks(Kept(fs[1..])));
      }
    }
  }

  lemma EmptyTidy()
    ensures Tidy([]) && Named([])
  {
  }

  /** No block has the name of a section that is not a pair. */
  lemma {:induction false} BlocksArePairs(fs: seq<Folder>, name: string)
    requires GoodFolders(fs) && PairName(name).None?
    ensures Lookup(Blocks(Kept(fs)), name).None?
  {
    hide GuidShape, PairName, SectionName, TargetEntries;
    if fs != [] {
      BlocksArePairs(fs[1..], name);
      if fs[0].targets == [] {
        assert Kept(fs) == Kept(fs[1..]);
      } else {
        assert Kept(fs)[1..] == Kept(fs[1..]);
        TargetsArePairs(fs[0].guid, fs[0].targets, name);
        LookupAppend(TargetSections(fs[0].guid, fs[0].targets), Blocks(Kept(fs[1..])), name);
      }
    }
  }

  lemma {:induction false} TargetsArePairs(g: string, ts: seq<Target>, name: string)
    requires GuidShape(g) && GoodTargets(ts) && PairName(name).None?
    ensures Lookup(TargetSections(g, ts), name).None?
  {
    hide GuidShape, PairName, SectionName, TargetEntries;
    if ts != [] {
      NameOfPair(g, ts[0].sid);
      assert TargetSections(g, ts)[1..] == TargetSections(g, ts[1..]);
      TargetsArePairs(g, ts[1..], name);
    }
  }

  const VERSION_NAME := "version"
  const HEADER_NAME := "Folder_Redirection"

  /** The first lines of the file. */
  lemma ReadHead(version: string)
    requires PlainPair("version", version)
    ensures ReadLines(Reading([], ""), ["", "     ", "[version]", "version=" + version, "[Folder_Redirection]"])
         == Reading([(VERSION_NAME, [("version", version)]), (HEADER_NAME, [])], HEADER_NAME)
  {
    hide ReadLine, PlainPair;
    var head := ["", "     ", "[version]", "version=" + version, "[Folder_Redirection]"];
    var r := Reading([], "");
    BlankLines(r);
    var v := [(VERSION_NAME, [("version", version)])];
    CleanNames(version);
    var first := ["[" + VERSION_NAME + "]"] + PairLines([("version", version)]);
    ReadBlock([], "", VERSION_NAME, [("version", version)]);
    assert [] + [(VERSION_NAME, [("version", version)])] == v;
    assert PairLines([("version", version)]) == ["version" + "=" + version] by {
      assert [("version", version)][1..] == [];
    }
    var second := ["[" + HEADER_NAME + "]"] + PairLines([]);
    ReadBlock(v, VERSION_NAME, HEADER_NAME, []);
    assert "version" + "=" == "version=" && "[" + VERSION_NAME + "]" == "[version]"
        && "[" + HEADER_NAME + "]" == "[Folder_Redirection]";
    ReadAppend(r, first, second);
    assert first + second == head[2..];
    assert head[1..][1..] == head[2..];
  }

  lemma BlankLines(r: Reading)
    ensures ReadLine(r, "") == r && ReadLine(r, "     ") == r
  {
    var s := "     ";
    BlankTrim(s, 5);
    assert s[0..] == s;
  }

  lemma {:induction false} BlankTrim(s: string, k: nat)
    requires k <= |s| && forall i :: 0 <= i < |s| ==> s[i] == ' '
    ensures TrimLeft(s[|s| - k..], WHITESPACE) == ""
  {
    if k > 0 {
      BlankTrim(s, k - 1);
      assert s[|s| - k..][1..] == s[|s| - (k - 1)..];
    }
  }

  lemma CleanNames(version: string)
    requires PlainPair("version", version)
    ensures Clean(VERSION_NAME) && Clean(HEADER_NAME)
    ensures PlainDict([("version", version)]) && PlainDict([])
    ensures Lookup<Dict>([(VERSION_NAME, [("version", version)])], HEADER_NAME).None?
    ensures Lookup<Dict>([], VERSION_NAME).None?
    ensures PairName(VERSION_NAME).None? && PairName(HEADER_NAME).None?
  {
    assert |VERSION_NAME| != |HEADER_NAME|;
    assert VERSION_NAME == ['v', 'e', 'r', 's', 'i', 'o', 'n'];
    assert HEADER_NAME
        == ['F', 'o', 'l', 'd', 'e', 'r', '_', 'R', 'e', 'd', 'i', 'r', 'e', 'c', 't', 'i', 'o', 'n'];
  }

  // --- The lines can be split again ----------------------------------------------------------------

  predicate AllBreakFree(lines: seq<string>) {
    forall i :: 0 <= i < |lines| ==> BreakFree(lines[i])
  }

  lemma BreakFreeJoin(a: string, b: string)
    requires BreakFree(a) && BreakFree(b)
    ensures BreakFree(a + b)
  {
  }

  lemma {:induction false} PairsBreakFree(d: Dict)
    requires PlainDict(d)
    ensures AllBreakFree(PairLines(d))
  {
    hide BreakFree;
    if d != [] {
      PairsBreakFree(d[1..]);
      assert BreakFree("=") by { SymbolsBreakFree(); }
      BreakFreeJoin(d[0].0, "=");
      BreakFreeJoin(d[0].0 + "=", d[0].1);
    }
  }

  lemma SymbolsBreakFree()
    ensures BreakFree("=") && BreakFree("[") && BreakFree("]") && BreakFree(";") && BreakFree("")
  {
  }

  /** Sections whose lines are read as they are, whether or not two have one name. */
  predicate PlainSections(ss: Sections) {
    ss == [] || (Clean(ss[0].0) && PlainDict(ss[0].1) && PlainSections(ss[1..]))
  }

  lemma {:induction false} PlainAppend(a: Sections, b: Sections)
    requires PlainSections(a) && PlainSections(b)
    ensures PlainSections(a + b)
  {
    hide Clean, PlainDict;
    if a == [] {
      assert a + b == b;
    } else {
      assert (a + b)[1..] == a[1..] + b;
      PlainAppend(a[1..], b);
    }
  }

  lemma {:induction false} PlainTargets(g: string, ts: seq<Target>)
    requires GuidShape(g) && GoodTargets(ts)
    ensures PlainSections(TargetSections(g, ts))
  {
    hide GuidShape, SectionName, TargetEntries, Clean, PlainDict, GoodSid;
    if ts != [] {
      NameIsClean(g, ts[0].sid);
      EntriesArePlain(ts[0]);
      PlainTargets(g, ts[1..]);
      assert TargetSections(g, ts)[1..] == TargetSections(g, ts[1..]);
    }
  }

  lemma {:induction false} PlainBlocks(fs: seq<Folder>)
    requires GoodFolders(fs)
    ensures PlainSections(Blocks(Kept(fs)))
  {
    hide GuidShape, GoodTargets, TargetSections, PlainSections;
    if fs == [] {
      NoSections();
    } else {
      PlainBlocks(fs[1..]);
      if fs[0].targets == [] {
        assert Kept(fs) == Kept(fs[1..]);
      } else {
        assert Kept(fs)[1..] == Kept(fs[1..]);
        PlainTargets(fs[0].guid, fs[0].targets);
        PlainAppend(TargetSections(fs[0].guid, fs[0].targets), Blocks(Kept(fs[1..])));
      }
    }
  }

  lemma NoSections()
    ensures PlainSections([])
  {
  }

  lemma {:induction false} SectionsBreakFree(ss: Sections)
    requires PlainSections(ss)
    ensures AllBreakFree(SectionLines(ss))
  {
    hide BreakFree, PlainDict;
    if ss != [] {
      SectionsBreakFree(ss[1..]);
      PairsBreakFree(ss[0].1);
      SymbolsBreakFree();
      BreakFreeJoin("[", ss[0].0);
      BreakFreeJoin("[" + ss[0].0, "]");
    }
  }

  lemma {:induction false} SidListBreakFree(ts: seq<Target>)
    requires GoodTargets(ts)
    ensures BreakFree(SidList(ts))
  {
    hide BreakFree;
    SymbolsBreakFree();
    if ts != [] {
      SidListBreakFree(ts[1..]);
      BreakFreeJoin(ts[0].sid, ";");
      BreakFreeJoin(ts[0].sid + ";", SidList(ts[1..]));
    }
  }

  lemma {:induction false} HeaderBreakFree(fs: seq<Folder>)
    requires GoodFolders(fs)
    ensures AllBreakFree(HeaderLines(Kept(fs)))
    ensures forall l :: l in HeaderLines(Kept(fs)) ==> l != "" && l[0] == '{'
  {
    hide BreakFree, GoodTargets, SidList;
    if fs != [] {
      HeaderBreakFree(fs[1..]);
      if fs[0].targets == [] {
        assert Kept(fs) == Kept(fs[1..]);
      } else {
        assert Kept(fs)[1..] == Kept(fs[1..]);
        SymbolsBreakFree();
        SidListBreakFree(fs[0].targets);
        BreakFreeJoin(fs[0].guid, "=");
        BreakFreeJoin(fs[0].guid + "=", SidList(fs[0].targets));
      }
    }
  }

  function Head(version: string): seq<string> {
    ["", "     ", "[version]", "version=" + version, "[Folder_Redirection]"]
  }

  lemma HeadBreakFree(version: string)
    requires BreakFree(version)
    ensures AllBreakFree(Head(version))
  {
    assert BreakFree("version=") by { assert "version=" == ['v', 'e', 'r', 's', 'i', 'o', 'n', '=']; }
    BreakFreeJoin("version=", version);
    CleanNamesOnly();
    assert BreakFree("     ") && BreakFree("");
  }

  lemma CleanNamesOnly()
    ensures BreakFree("[version]") && BreakFree("[Folder_Redirection]")
  {
    assert "[version]" == ['[', 'v', 'e', 'r', 's', 'i', 'o', 'n', ']'];
    assert "[Folder_Redirection]"
        == ['[', 'F', 'o', 'l', 'd', 'e', 'r', '_', 'R', 'e', 'd', 'i', 'r', 'e', 'c', 't', 'i', 'o', 'n', ']'];
  }

  /** All lines of the file. */
  lemma PreambleIs()
    ensures Terminated(["", "     "]) == PREAMBLE
  {
    assert ["", "     "][1..] == ["     "] && ["     "][1..] == [];
  }

  lemma AllLines(fs: seq<Folder>, version: string)
    ensures Head(version) + HeaderLines(Kept(fs)) + SectionLines(Blocks(Kept(fs))) == ["", "     "] + Lines(fs, version)
  {
    hide HeaderLines, SectionLines, Blocks, Kept, BlockLines;
    BlockLinesAre(Kept(fs));
    assert Head(version) == ["", "     "] + ["[version]", "version=" + version, "[Folder_Redirection]"];
  }

  lemma BreakFreeAppend(a: seq<string>, b: seq<string>)
    requires AllBreakFree(a) && AllBreakFree(b)
    ensures AllBreakFree(a + b)
  {
    hide BreakFree;
  }

  lemma FileLines(fs: seq<Folder>, version: string)
    requires PlainPair("version", version) && GoodFolders(fs)
    ensures SplitLines(Render(fs, version)) == Head(version) + HeaderLines(Kept(fs)) + SectionLines(Blocks(Kept(fs)))
  {
    hide BreakFree, GoodFolders, SplitLines, PlainSections, Terminated, HeaderLines, SectionLines, Blocks, Kept, Head,
      Lines;
    var all := Head(version) + HeaderLines(Kept(fs)) + SectionLines(Blocks(Kept(fs)));
    AllLines(fs, version);
    TerminatedAppend(["", "     "], Lines(fs, version));
    PreambleIs();
    HeadBreakFree(version);
    HeaderBreakFree(fs);
    PlainBlocks(fs);
    SectionsBreakFree(Blocks(Kept(fs)));
    BreakFreeAppend(Head(version), HeaderLines(Kept(fs)));
    BreakFreeAppend(Head(version) + HeaderLines(Kept(fs)), SectionLines(Blocks(Kept(fs))));
    SplitTerminated(all);
  }

  lemma TidyIsDistinct(ss: Sections)
    requires Tidy(ss)
    ensures Distinct(ss)
  {
  }

  lemma DistinctCons<V>(e: (string, V), d: seq<(string, V)>)
    requires Distinct(d) && Lookup(d, e.0).None?
    ensures Distinct([e] + d)
  {
    assert ([e] + d)[1..] == d;
  }

  function Front(version: string, header: Dict): Sections {
    [(VERSION_NAME, [("version", version)]), (HEADER_NAME, header)]
  }

  lemma FrontDistinct(fs: seq<Folder>, version: string, header: Dict)
    requires PlainPair("version", version) && GoodFolders(fs) && Unique(fs) && NoMerge(fs)
    ensures Distinct(Front(version, header) + Blocks(Kept(fs)))
  {
    hide GoodFolders, Unique, NoMerge, Tidy, Lookup, Distinct, PairName, PlainPair, PlainDict;
    var blocks := Blocks(Kept(fs));
    TidyBlocks(fs);
    TidyIsDistinct(blocks);
    CleanNames(version);
    BlocksArePairs(fs, VERSION_NAME);
    BlocksArePairs(fs, HEADER_NAME);
    DistinctCons((HEADER_NAME, header), blocks);
    LookupAppend([(HEADER_NAME, header)], blocks, VERSION_NAME);
    NamesDiffer(header);
    DistinctCons((VERSION_NAME, [("version", version)]), [(HEADER_NAME, header)] + blocks);
    assert Front(version, header) + blocks
        == [(VERSION_NAME, [("version", version)])] + ([(HEADER_NAME, header)] + blocks);
  }

  lemma NamesDiffer(header: Dict)
    ensures Lookup([(HEADER_NAME, header)], VERSION_NAME).None?
  {
    assert |VERSION_NAME| != |HEADER_NAME|;
  }

  /** The sections of the file, once the header lines are read. */
  lemma SectionsWritten(fs: seq<Folder>, version: string, header: Dict)
    requires PlainPair("version", version) && GoodFolders(fs) && Unique(fs) && NoMerge(fs)
    requires ReadLines(Reading(Front(version, []), HEADER_NAME), HeaderLines(Kept(fs)))
          == Reading(Front(version, header), HEADER_NAME)
    ensures SectionsOf(Render(fs, version)) == Front(version, header) + Blocks(Kept(fs))
  {
    hide GoodFolders, Unique, NoMerge, Tidy, Distinct, PlainPair, ReadLines, HeaderLines, SectionLines, Blocks,
      Kept, SplitLines, Render;
    var blocks := Blocks(Kept(fs));
    var middle, last := HeaderLines(Kept(fs)), SectionLines(blocks);
    FileLines(fs, version);
    ReadHead(version);
    ReadAppend(Reading([], ""), Head(version) + middle, last);
    ReadAppend(Reading([], ""), Head(version), middle);
    TidyBlocks(fs);
    FrontDistinct(fs, version, header);
    ReadBlocks(Front(version, header), HEADER_NAME, blocks);
  }

  lemma SomeHeader(fs: seq<Folder>, version: string) returns (header: Dict)
    requires PlainPair("version", version) && GoodFolders(fs)
    ensures ReadLines(Reading(Front(version, []), HEADER_NAME), HeaderLines(Kept(fs)))
         == Reading(Front(version, header), HEADER_NAME)
  {
    hide ReadLines, GoodFolders, PlainPair, Kept;
    HeaderBreakFree(fs);
    var pre: Sections := [(VERSION_NAME, [("version", version)])];
    CleanNames(version);
    header := ReadOddLines(pre, HEADER_NAME, [], HeaderLines(Kept(fs)));
    assert pre + [(HEADER_NAME, [])] == Front(version, []) && pre + [(HEADER_NAME, header)] == Front(version, header);
  }
}
