/** Editing one redirection changes that one and nothing else (set_target in backend/samadcon/gpo/folders.py). */
module FolderEdits {
  import opened Text
  import opened Folders
  import opened FolderLines
  import opened FolderWrites
  import opened FolderLaws

  // --- The edit, on folders ----------------------------------------------------------------

  lemma {:induction false} ReplaceTargets(fs: seq<Folder>, i: nat, ts: seq<Target>, g: string)
    requires i < |fs| && Unique(fs)
    ensures var after := fs[i := fs[i].(targets := ts)];
            && Unique(after)
            && TargetsOf(after, g) == (if g == fs[i].guid then ts else TargetsOf(fs, g))
            && (Absent(after, g) <==> Absent(fs, g))
  {
    hide Unique, Absent, TargetsOf;
    var f := fs[i].(targets := ts);
    var after := fs[i := f];
    FirstFolder(fs, g);
    FirstFolder(after, g);
    if i == 0 {
      assert after[1..] == fs[1..];
      AbsentEmpty(fs[1..], fs[0].guid);
    } else {
      assert after[1..] == fs[1..][i - 1 := f];
      ReplaceTargets(fs[1..], i - 1, ts, g);
      ReplaceTargets(fs[1..], i - 1, ts, fs[0].guid);
      AbsentMember(fs[1..], fs[0].guid, i - 1);
    }
  }

  lemma FirstFolder(fs: seq<Folder>, g: string)
    requires fs != []
    ensures Unique(fs) <==> Absent(fs[1..], fs[0].guid) && Unique(fs[1..])
    ensures Absent(fs, g) <==> fs[0].guid != g && Absent(fs[1..], g)
    ensures TargetsOf(fs, g) == (if fs[0].guid == g then fs[0].targets else []) + TargetsOf(fs[1..], g)
  {
  }

  lemma {:induction false} AbsentMember(fs: seq<Folder>, g: string, i: nat)
    requires i < |fs| && Absent(fs, g)
    ensures fs[i].guid != g
  {
    if i > 0 {
      AbsentMember(fs[1..], g, i - 1);
    }
  }

  lemma {:induction false} FoundTargets(fs: seq<Folder>, i: nat)
    requires i < |fs| && Unique(fs)
    ensures TargetsOf(fs, fs[i].guid) == fs[i].targets
  {
    if i == 0 {
      AbsentEmpty(fs[1..], fs[0].guid);
    } else {
      AbsentMember(fs[1..], fs[0].guid, i - 1);
      FoundTargets(fs[1..], i - 1);
    }
  }

  lemma {:induction false} NotFound(fs: seq<Folder>, g: string)
    requires FindFolder(fs, g) == |fs|
    ensures Absent(fs, g)
  {
    if fs != [] {
      NotFound(fs[1..], g);
    }
  }

  lemma {:induction false} AppendFolder(fs: seq<Folder>, f: Folder, g: string)
    requires Unique(fs) && Absent(fs, f.guid)
    ensures Unique(fs + [f])
    ensures TargetsOf(fs + [f], g) == if g == f.guid then f.targets else TargetsOf(fs, g)
    ensures Absent(fs + [f], g) <==> Absent(fs, g) && g != f.guid
  {
    if fs == [] {
      assert fs + [f] == [f] && [f][1..] == [];
    } else {
      assert (fs + [f])[1..] == fs[1..] + [f];
      AppendFolder(fs[1..], f, g);
      AppendFolder(fs[1..], f, fs[0].guid);
      AbsentEmpty(fs, f.guid);
    }
  }

  /** The edit replaces the redirections of one folder. */
  lemma EditedTargets(fs: seq<Folder>, guid: string, sid: string, path: Option<string>, g: string)
    requires Unique(fs)
    ensures Unique(EditedFolders(fs, guid, sid, path))
    ensures TargetsOf(EditedFolders(fs, guid, sid, path), g)
         == if g == guid then Edited(TargetsOf(fs, g), sid, path) else TargetsOf(fs, g)
  {
    hide Unique, Absent, TargetsOf, Edited;
    var i := FindFolder(fs, guid);
    if i < |fs| {
      FoundTargets(fs, i);
      ReplaceTargets(fs, i, Edited(fs[i].targets, sid, path), g);
    } else {
      NotFound(fs, guid);
      AbsentEmpty(fs, guid);
      if path == None {
        NothingToEdit(sid);
      } else {
        AppendFolder(fs, Folder(guid, [], Edited([], sid, path)), g);
      }
    }
  }

  lemma NothingToEdit(sid: string)
    ensures Edited([], sid, None) == []
  {
  }

  // --- The edited folders can be written ----------------------------------------------------------

  lemma {:induction false} GoodNotFor(ts: seq<Target>, sid: string)
    requires GoodTargets(ts)
    ensures GoodTargets(NotFor(ts, sid))
    ensures FirstFor(ts, sid).Some? ==> GoodTarget(FirstFor(ts, sid).value)
  {
    hide GoodTarget;
    if ts != [] {
      GoodNotFor(ts[1..], sid);
      var rest := NotFor(ts[1..], sid);
      assert ([ts[0]] + rest)[1..] == rest && [] + rest == rest;
    }
  }

  lemma GoodEdited(ts: seq<Target>, sid: string, path: Option<string>)
    requires GoodTargets(ts) && GoodSid(sid) && (path.Some? ==> Clean(path.value))
    ensures GoodTargets(Edited(ts, sid, path))
  {
    hide GoodTargets, GoodSid, Clean, NotFor, FirstFor;
    GoodNotFor(ts, sid);
    var rest := NotFor(ts, sid);
    if path == None {
      assert rest + [] == rest;
    } else {
      var t := Target(sid, path.value, match FirstFor(ts, sid) case Some(t) => t.options case None => []);
      NothingPlain();
      assert GoodTarget(t);
      OneGood(t);
      GoodTargetsAppend(rest, [t]);
    }
  }

  lemma NothingPlain()
    ensures PlainDict([]) && Lookup<string>([], FULL_PATH).None?
  {
  }

  lemma OneGood(t: Target)
    requires GoodTarget(t)
    ensures GoodTargets([t])
  {
    assert [t][1..] == [];
  }

  lemma {:induction false} GoodReplace(fs: seq<Folder>, i: nat, f: Folder)
    requires i < |fs| && GoodFolders(fs) && GoodFolder(f)
    ensures GoodFolders(fs[i := f])
  {
    hide GoodFolder;
    var after := fs[i := f];
    if i == 0 {
      assert after[1..] == fs[1..];
    } else {
      assert after[1..] == fs[1..][i - 1 := f];
      GoodReplace(fs[1..], i - 1, f);
    }
  }

  lemma {:induction false} GoodSnoc(fs: seq<Folder>, f: Folder)
    requires GoodFolders(fs) && GoodFolder(f)
    ensures GoodFolders(fs + [f])
  {
    hide GoodFolder;
    if fs == [] {
      assert fs + [f] == [f] && [f][1..] == [];
    } else {
      assert (fs + [f])[1..] == fs[1..] + [f];
      GoodSnoc(fs[1..], f);
    }
  }

  lemma {:induction false} GoodMember(fs: seq<Folder>, i: nat)
    requires i < |fs| && GoodFolders(fs)
    ensures fs[i].targets != [] ==> GoodFolder(fs[i])
  {
    hide GoodFolder;
    if i > 0 {
      GoodMember(fs[1..], i - 1);
    }
  }

  lemma GoodEditedFolders(fs: seq<Folder>, guid: string, sid: string, path: Option<string>)
    requires GoodFolders(fs) && GuidShape(guid) && Upper(guid) == guid && GoodSid(sid)
    requires path.Some? ==> Clean(path.value)
    ensures GoodFolders(EditedFolders(fs, guid, sid, path))
  {
    hide GoodFolders, GuidShape, GoodSid, Clean, Edited;
    var i := FindFolder(fs, guid);
    assert GoodTargets([]);
    if i < |fs| {
      GoodMember(fs, i);
      GoodEdited(fs[i].targets, sid, path);
      GoodReplace(fs, i, fs[i].(targets := Edited(fs[i].targets, sid, path)));
    } else if path != None {
      GoodEdited([], sid, path);
      GoodSnoc(fs, Folder(guid, [], Edited([], sid, path)));
    }
  }

  // --- When two sections of the file name one pair ---------------------------------------------------

  lemma {:induction false} HasSidAppend(a: seq<Target>, b: seq<Target>, sid: string)
    ensures HasSid(a + b, sid) <==> HasSid(a, sid) || HasSid(b, sid)
  {
    if a == [] {
      assert a + b == b;
    } else {
      assert (a + b)[1..] == a[1..] + b;
      HasSidAppend(a[1..], b, sid);
    }
  }

  lemma {:induction false} NotForHas(ts: seq<Target>, sid: string, other: string)
    ensures HasSid(NotFor(ts, sid), other) <==> HasSid(ts, other) && Lower(other) != Lower(sid)
  {
    if ts != [] {
      NotForHas(ts[1..], sid, other);
      var rest := NotFor(ts[1..], sid);
      assert ([ts[0]] + rest)[1..] == rest && [] + rest == rest;
    }
  }

  lemma {:induction false} DistinctSnoc(ts: seq<Target>, t: Target)
    requires !HasSid(ts, t.sid)
    ensures DistinctSids(ts + [t]) <==> DistinctSids(ts)
  {
    if ts == [] {
      assert ts + [t] == [t] && [t][1..] == [];
    } else {
      assert (ts + [t])[1..] == ts[1..] + [t];
      DistinctSnoc(ts[1..], t);
      HasSidAppend(ts[1..], [t], ts[0].sid);
      assert [t][1..] == [];
    }
  }

  lemma EditedDistinct(ts: seq<Target>, sid: string, path: Option<string>)
    ensures DistinctSids(Edited(ts, sid, path)) <==> DistinctSids(NotFor(ts, sid))
  {
    hide DistinctSids, NotFor, HasSid, FirstFor;
    if path == None {
      assert NotFor(ts, sid) + [] == NotFor(ts, sid);
    } else {
      NotForHas(ts, sid, sid);
      DistinctSnoc(NotFor(ts, sid),
        Target(sid, path.value, match FirstFor(ts, sid) case Some(t) => t.options case None => []));
    }
  }

  lemma {:induction false} NoMergeTargets(fs: seq<Folder>, g: string)
    requires NoMerge(fs) && Unique(fs)
    ensures DistinctSids(TargetsOf(fs, g))
  {
    hide DistinctSids, Absent;
    if fs == [] {
      assert DistinctSids([]) by { NoSids(); }
    } else {
      NoMergeTargets(fs[1..], g);
      if fs[0].guid == g {
        AbsentEmpty(fs[1..], g);
        assert fs[0].targets + [] == fs[0].targets;
      } else {
        assert [] + TargetsOf(fs[1..], g) == TargetsOf(fs[1..], g);
      }
    }
  }

  lemma NoSids()
    ensures DistinctSids([])
  {
  }

  lemma {:induction false} TargetsNoMerge(fs: seq<Folder>)
    requires Unique(fs) && forall g :: DistinctSids(TargetsOf(fs, g))
    ensures NoMerge(fs)
  {
    hide DistinctSids, Absent;
    if fs != [] {
      var g0 := fs[0].guid;
      AbsentEmpty(fs[1..], g0);
      assert fs[0].targets + [] == fs[0].targets;
      assert DistinctSids(TargetsOf(fs, g0));
      forall g ensures DistinctSids(TargetsOf(fs[1..], g)) {
        if g == g0 {
          NoSids();
        } else {
          assert DistinctSids(TargetsOf(fs, g));
          assert [] + TargetsOf(fs[1..], g) == TargetsOf(fs[1..], g);
        }
      }
      TargetsNoMerge(fs[1..]);
    }
  }

  lemma {:induction false} CanonsHave(ts: seq<Target>, sid: string)
    ensures HasSid(Canons(ts), sid) <==> HasSid(ts, sid)
  {
    if ts != [] {
      CanonsHave(ts[1..], sid);
      assert Canons(ts)[1..] == Canons(ts[1..]);
    }
  }

  lemma {:induction false} CanonsDistinct(ts: seq<Target>)
    ensures DistinctSids(Canons(ts)) <==> DistinctSids(ts)
  {
    hide HasSid;
    if ts != [] {
      CanonsDistinct(ts[1..]);
      CanonsHave(ts[1..], ts[0].sid);
      assert Canons(ts)[1..] == Canons(ts[1..]);
    }
  }

  // --- A written file never names a pair twice --------------------------------------------------------

  predicate UpperName(name: string) {
    match PairName(name) case Some((guid, _)) => Upper(guid) == guid case None => true
  }

  predicate AllUpper(ss: Sections) {
    ss == [] || (UpperName(ss[0].0) && AllUpper(ss[1..]))
  }

  /** A line that starts no section, or one with an upper-case GUID. */
  predicate UpperLine(line: string) {
    var stripped := Strip(line, WHITESPACE);
    stripped != "" && stripped[0] == '[' && stripped[|stripped| - 1] == ']' && |stripped| >= 2
    ==> UpperName(Strip(stripped[1..|stripped| - 1], WHITESPACE))
  }

  predicate UpperLines(lines: seq<string>) {
    lines == [] || (UpperLine(lines[0]) && UpperLines(lines[1..]))
  }

  lemma {:induction false} UpperPut(ss: Sections, name: string, d: Dict)
    requires AllUpper(ss) && UpperName(name)
    ensures AllUpper(Put(ss, name, d))
  {
    hide UpperName;
    if ss == [] {
      assert Put(ss, name, d)[1..] == [];
    } else if ss[0].0 == name {
      assert Put(ss, name, d)[1..] == ss[1..];
    } else {
      assert Put(ss, name, d)[1..] == Put(ss[1..], name, d);
      UpperPut(ss[1..], name, d);
    }
  }

  lemma UpperReadLine(r: Reading, line: string)
    requires AllUpper(r.sections) && UpperName(r.current) && UpperLine(line)
    ensures AllUpper(ReadLine(r, line).sections) && UpperName(ReadLine(r, line).current)
  {
    hide AllUpper, UpperName, Put, Strip, Entries;
    forall name, d | UpperName(name) ensures AllUpper(Put(r.sections, name, d)) {
      UpperPut(r.sections, name, d);
    }
  }

  lemma {:induction false} UpperRead(r: Reading, lines: seq<string>)
    requires AllUpper(r.sections) && UpperName(r.current) && UpperLines(lines)
    ensures AllUpper(ReadLines(r, lines).sections)
    decreases |lines|
  {
    hide AllUpper, UpperName, UpperLine, ReadLine;
    if lines != [] {
      UpperReadLine(r, lines[0]);
      UpperRead(ReadLine(r, lines[0]), lines[1..]);
    }
  }

  lemma {:induction false} UpperLinesAppend(a: seq<string>, b: seq<string>)
    requires UpperLines(a) && UpperLines(b)
    ensures UpperLines(a + b)
  {
    hide UpperLine;
    if a == [] {
      assert a + b == b;
    } else {
      assert (a + b)[1..] == a[1..] + b;
      UpperLinesAppend(a[1..], b);
    }
  }

  lemma PairUpper(k: string, v: string)
    requires PlainPair(k, v)
    ensures UpperLine(k + "=" + v)
  {
    hide UpperName, Strip;
    PairLineEnds(k, v);
    PairLineIsStripped(k, v);
  }

  lemma {:induction false} PairsUpper(d: Dict)
    requires PlainDict(d)
    ensures UpperLines(PairLines(d))
  {
    hide UpperLine, PlainPair;
    if d != [] {
      PairUpper(d[0].0, d[0].1);
      PairsUpper(d[1..]);
      assert PairLines(d)[1..] == PairLines(d[1..]);
    }
  }

  lemma NameUpper(name: string)
    requires Clean(name) && UpperName(name)
    ensures UpperLine("[" + name + "]")
  {
    hide UpperName, Strip, IsSpace;
    var line := "[" + name + "]";
    BracketsAreStripped(name);
    assert line[1..|line| - 1] == name;
  }

  lemma {:induction false} SectionsUpper(ss: Sections)
    requires PlainSections(ss) && AllUpper(ss)
    ensures UpperLines(SectionLines(ss))
  {
    hide UpperLine, UpperName, Clean, PlainDict, PairLines;
    if ss != [] {
      NameUpper(ss[0].0);
      PairsUpper(ss[0].1);
      SectionsUpper(ss[1..]);
      var first := "[" + ss[0].0 + "]";
      assert ([first] + PairLines(ss[0].1))[1..] == PairLines(ss[0].1);
      UpperLinesAppend([first] + PairLines(ss[0].1), SectionLines(ss[1..]));
    }
  }

  lemma {:induction false} TargetsUpper(g: string, ts: seq<Target>)
    requires GuidShape(g) && Upper(g) == g && GoodTargets(ts)
    ensures AllUpper(TargetSections(g, ts))
  {
    hide GuidShape, PairName, SectionName, TargetEntries;
    if ts != [] {
      NameOfPair(g, ts[0].sid);
      TargetsUpper(g, ts[1..]);
      assert TargetSections(g, ts)[1..] == TargetSections(g, ts[1..]);
    }
  }

  lemma {:induction false} AllUpperAppend(a: Sections, b: Sections)
    requires AllUpper(a) && AllUpper(b)
    ensures AllUpper(a + b)
  {
    hide UpperName;
    if a == [] {
      assert a + b == b;
    } else {
      assert (a + b)[1..] == a[1..] + b;
      AllUpperAppend(a[1..], b);
    }
  }

  lemma {:induction false} BlocksUpper(fs: seq<Folder>)
    requires GoodFolders(fs)
    ensures AllUpper(Blocks(Kept(fs)))
  {
    hide GuidShape, GoodTargets, TargetSections, UpperName;
    if fs != [] {
      BlocksUpper(fs[1..]);
      if fs[0].targets == [] {
        assert Kept(fs) == Kept(fs[1..]);
      } else {
        assert Kept(fs)[1..] == Kept(fs[1..]);
        TargetsUpper(fs[0].guid, fs[0].targets);
        AllUpperAppend(TargetSections(fs[0].guid, fs[0].targets), Blocks(Kept(fs[1..])));
      }
    }
  }

  lemma FrontUpper(version: string, header: Dict)
    requires PlainPair("version", version)
    ensures AllUpper(Front(version, header)) && UpperName(HEADER_NAME)
  {
    hide PairName, PlainPair;
    CleanNames(version);
    var front := Front(version, header);
    assert front[1..] == [front[1]] && front[1..][1..] == [];
    assert AllUpper([front[1]]) by { assert [front[1]][1..] == []; }
  }

  lemma WrittenUpper(fs: seq<Folder>, version: string)
    requires PlainPair("version", version) && GoodFolders(fs)
    ensures AllUpper(SectionsOf(Render(fs, version)))
  {
    hide PlainPair, GoodFolders, UpperName, AllUpper, UpperLines, ReadLines, Kept, Blocks, HeaderLines, SectionLines,
      SplitLines, Render, PlainSections;
    var header := SomeHeader(fs, version);
    var middle, last := HeaderLines(Kept(fs)), SectionLines(Blocks(Kept(fs)));
    FileLines(fs, version);
    ReadHead(version);
    ReadAppend(Reading([], ""), Head(version) + middle, last);
    ReadAppend(Reading([], ""), Head(version), middle);
    PlainBlocks(fs);
    BlocksUpper(fs);
    SectionsUpper(Blocks(Kept(fs)));
    FrontUpper(version, header);
    UpperRead(Reading(Front(version, header), HEADER_NAME), last);
  }

  lemma {:induction false} NamesDistinct(ss: Sections, g: string, sid: string, name: string)
    requires AllUpper(ss) && PairName(name) == Some((g, sid)) && Lookup(ss, name).None?
    ensures !HasSid(SectionTargets(ss, g), sid)
  {
    hide TargetOf;
    if ss != [] {
      NamesDistinct(ss[1..], g, sid, name);
      if PairName(ss[0].0) == Some((g, sid)) {
        PairNameIs(ss[0].0);
        PairNameIs(name);
      }
      HasSidAppend(OneTarget(ss[0], g), SectionTargets(ss[1..], g), sid);
      OneTargetHas(ss[0], g, sid);
    }
  }

  lemma OneTargetHas(section: (string, Dict), g: string, sid: string)
    requires UpperName(section.0)
    ensures HasSid(OneTarget(section, g), sid) <==> PairName(section.0) == Some((g, sid))
  {
    hide PairName;
    var ts := OneTarget(section, g);
    if ts != [] {
      assert ts[1..] == [];
    }
  }

  lemma PairNameIs(name: string)
    requires PairName(name).Some?
    ensures name == SectionName(PairName(name).value.0, PairName(name).value.1)
  {
    var (guid, sid) := PairName(name).value;
    assert guid + "_" + sid == name;
  }

  lemma {:induction false} SectionsDistinct(ss: Sections, g: string)
    requires Tidy(ss) && AllUpper(ss)
    ensures DistinctSids(SectionTargets(ss, g))
  {
    hide PairName, Clean, PlainDict, HasSid;
    if ss != [] {
      SectionsDistinct(ss[1..], g);
      var one, rest := OneTarget(ss[0], g), SectionTargets(ss[1..], g);
      if one == [] {
        assert one + rest == rest;
      } else {
        NamesDistinct(ss[1..], g, PairName(ss[0].0).value.1, ss[0].0);
        assert (one + rest)[1..] == rest;
      }
    }
  }

  /** Whatever folders are written, the text names every pair at most once. */
  lemma WrittenDistinct(fs: seq<Folder>, version: string, g: string)
    requires PlainPair("version", version) && GoodFolders(fs)
    ensures DistinctSids(TargetsIn(Render(fs, version), g))
  {
    hide PlainPair, GoodFolders, AllUpper, Tidy, SectionsOf, Render, ParsedSections, SectionTargets;
    var text := Render(fs, version);
    TidySections(text);
    WrittenUpper(fs, version);
    ParsedTargets(SectionsOf(text), g);
    SectionsDistinct(SectionsOf(text), g);
  }
}
