/** What folders.py reads back from lines it wrote, and what any file it reads looks like. */
module FolderLines {
  import opened Text
  import opened Folders

  predicate BreakFree(s: string) {
    forall i :: 0 <= i < |s| ==> !IsBreak(s[i])
  }

  /** A value as the reader returns it: without line breaks and stripped. */
  predicate Clean(s: string) {
    BreakFree(s) && CleanEnds(s, WHITESPACE)
  }

  /** A pair whose line is read as that pair: not as a comment, a section or another pair. */
  predicate PlainPair(k: string, v: string) {
    Clean(k) && Clean(v) && '=' !in k
    && (k != "" ==> k[0] != ';' && !(k[0] == '[' && v != "" && v[|v| - 1] == ']'))
  }

  predicate Distinct<V>(d: seq<(string, V)>) {
    d == [] || (Lookup(d[1..], d[0].0).None? && Distinct(d[1..]))
  }

  predicate PlainDict(d: Dict) {
    d == [] || (PlainPair(d[0].0, d[0].1) && Lookup(d[1..], d[0].0).None? && PlainDict(d[1..]))
  }

  /** What the reader makes of any file. */
  predicate Tidy(ss: Sections) {
    ss == [] || (Clean(ss[0].0) && PlainDict(ss[0].1) && Lookup(ss[1..], ss[0].0).None? && Tidy(ss[1..]))
  }

  // --- Ordered dictionaries ------------------------------------------------------------

  lemma {:induction false} LookupAppend<V>(a: seq<(string, V)>, b: seq<(string, V)>, k: string)
    ensures Lookup(a + b, k) == if Lookup(a, k).Some? then Lookup(a, k) else Lookup(b, k)
  {
    if a == [] {
      assert a + b == b;
    } else {
      assert (a + b)[1..] == a[1..] + b;
      LookupAppend(a[1..], b, k);
    }
  }

  lemma {:induction false} PutFresh<V>(d: seq<(string, V)>, k: string, v: V)
    requires Lookup(d, k).None?
    ensures Put(d, k, v) == d + [(k, v)]
  {
    if d != [] {
      PutFresh(d[1..], k, v);
    }
  }

  lemma {:induction false} PutLast<V>(pre: seq<(string, V)>, k: string, v: V, w: V)
    requires Lookup(pre, k).None?
    ensures Put(pre + [(k, v)], k, w) == pre + [(k, w)]
    ensures Lookup(pre + [(k, v)], k) == Some(v)
  {
    LookupAppend(pre, [(k, v)], k);
    if pre == [] {
      assert pre + [(k, v)] == [(k, v)] && pre + [(k, w)] == [(k, w)];
      assert [(k, w)] + [] == [(k, w)];
    } else {
      assert (pre + [(k, v)])[1..] == pre[1..] + [(k, v)];
      PutLast(pre[1..], k, v, w);
    }
  }

  lemma {:induction false} LookupPut<V>(d: seq<(string, V)>, k: string, v: V, j: string)
    ensures Lookup(Put(d, k, v), j) == if j == k then Some(v) else Lookup(d, j)
  {
    if d == [] {
      assert Put(d, k, v)[1..] == [];
    } else if d[0].0 == k {
      assert Put(d, k, v)[1..] == d[1..];
    } else {
      assert Put(d, k, v)[1..] == Put(d[1..], k, v);
      LookupPut(d[1..], k, v, j);
    }
  }

  lemma {:induction false} LookupWithout<V>(d: seq<(string, V)>, k: string, j: string)
    ensures Lookup(Without(d, k), j) == if j == k then None else Lookup(d, j)
  {
    if d != [] {
      LookupWithout(d[1..], k, j);
      var rest := Without(d[1..], k);
      assert ([d[0]] + rest)[1..] == rest && [] + rest == rest;
    }
  }

  lemma {:induction false} WithoutAbsent<V>(d: seq<(string, V)>, k: string)
    requires Lookup(d, k).None?
    ensures Without(d, k) == d
  {
    if d != [] {
      WithoutAbsent(d[1..], k);
    }
  }

  lemma {:induction false} DistinctAppend<V>(a: seq<(string, V)>, b: seq<(string, V)>)
    requires Distinct(a + b)
    ensures Distinct(a) && Distinct(b)
    ensures b != [] ==> Lookup(a, b[0].0).None?
  {
    if a == [] {
      assert a + b == b;
    } else {
      assert (a + b)[1..] == a[1..] + b;
      DistinctAppend(a[1..], b);
      LookupAppend(a[1..], b, a[0].0);
    }
  }

  lemma {:induction false} PlainPut(d: Dict, k: string, v: string)
    requires PlainDict(d) && PlainPair(k, v)
    ensures PlainDict(Put(d, k, v))
  {
    hide PlainPair;
    if d == [] {
      assert Put(d, k, v)[1..] == [];
    } else if d[0].0 == k {
      assert Put(d, k, v)[1..] == d[1..];
    } else {
      assert Put(d, k, v)[1..] == Put(d[1..], k, v);
      PlainPut(d[1..], k, v);
      LookupPut(d[1..], k, v, d[0].0);
    }
  }

  lemma {:induction false} PlainWithout(d: Dict, k: string)
    requires PlainDict(d)
    ensures PlainDict(Without(d, k))
  {
    hide PlainPair;
    if d != [] {
      PlainWithout(d[1..], k);
      LookupWithout(d[1..], k, d[0].0);
      var rest := Without(d[1..], k);
      assert ([d[0]] + rest)[1..] == rest && [] + rest == rest;
    }
  }

  lemma {:induction false} PlainIsDistinct(d: Dict)
    requires PlainDict(d)
    ensures Distinct(d)
  {
    hide PlainPair;
    if d != [] {
      PlainIsDistinct(d[1..]);
    }
  }

  lemma {:induction false} PlainLookup(d: Dict, k: string)
    requires PlainDict(d) && Lookup(d, k).Some?
    ensures PlainPair(k, Lookup(d, k).value)
  {
    hide PlainPair;
    if d[0].0 != k {
      PlainLookup(d[1..], k);
    }
  }

  // --- Lines -----------------------------------------------------------------------------

  lemma FirstBreakAt(s: string, rest: string)
    requires BreakFree(s)
    ensures FirstBreak(s + NEWLINE + rest) == |s|
  {
    var t := s + NEWLINE + rest;
    assert t[|s|] == '\r';
    assert forall i :: 0 <= i < |s| ==> t[i] == s[i];
  }

  lemma FirstLine(line: string, rest: string)
    requires BreakFree(line)
    ensures SplitLines(line + NEWLINE + rest) == [line] + SplitLines(rest)
  {
    hide FirstBreak, BreakFree;
    var t := line + NEWLINE + rest;
    FirstBreakAt(line, rest);
    assert t[|line|] == '\r' && t[|line| + 1] == '\n';
    assert t[..|line|] == line && t[|line| + 2..] == rest;
  }

  lemma {:induction false} SplitTerminated(lines: seq<string>)
    requires forall l :: l in lines ==> BreakFree(l)
    ensures SplitLines(Terminated(lines)) == lines
  {
    hide SplitLines, BreakFree;
    if lines == [] {
      NoLines();
    } else {
      assert lines[0] in lines && forall l :: l in lines[1..] ==> l in lines;
      FirstLine(lines[0], Terminated(lines[1..]));
      SplitTerminated(lines[1..]);
      assert lines == [lines[0]] + lines[1..];
    }
  }

  lemma NoLines()
    ensures SplitLines("") == []
  {
  }

  lemma {:induction false} SplitBreakFree(s: string)
    ensures forall l :: l in SplitLines(s) ==> BreakFree(l)
    decreases |s|
  {
    if s != "" {
      var k := FirstBreak(s);
      if k < |s| {
        var n := if s[k] == '\r' && k + 1 < |s| && s[k + 1] == '\n' then 2 else 1;
        SplitBreakFree(s[k + n..]);
      }
    }
  }

  lemma {:induction false} ReadAppend(r: Reading, a: seq<string>, b: seq<string>)
    ensures ReadLines(r, a + b) == ReadLines(ReadLines(r, a), b)
    decreases |a|
  {
    if a == [] {
      assert a + b == b;
    } else {
      assert (a + b)[1..] == a[1..] + b;
      ReadAppend(ReadLine(r, a[0]), a[1..], b);
    }
  }

  lemma PairLineIsStripped(k: string, v: string)
    requires CleanEnds(k, WHITESPACE) && CleanEnds(v, WHITESPACE)
    ensures Strip(k + "=" + v, WHITESPACE) == k + "=" + v
  {
    hide Strip, IsSpace;
    var line := k + "=" + v;
    EqualsIsNoSpace();
    PairLineEnds(k, v);
    assert CleanEnds(line, WHITESPACE);
  }

  /** The ends of a pair's line are the ends of the key and the value. */
  lemma PairLineEnds(k: string, v: string)
    ensures var line := k + "=" + v;
            && line[0] == (if k == "" then '=' else k[0])
            && line[|line| - 1] == if v == "" then '=' else v[|v| - 1]
  {
    var line := k + "=" + v;
    assert line[|k|] == '=';
  }

  lemma EqualsIsNoSpace()
    ensures '=' !in WHITESPACE
  {
  }

  lemma PairLine(r: Reading, k: string, v: string)
    requires r.current != "" && PlainPair(k, v)
    ensures ReadLine(r, k + "=" + v)
         == r.(sections := Put(r.sections, r.current, Put(Entries(r.sections, r.current), k, v)))
  {
    hide Put, Entries, Strip, IndexOf, IsSpace, IsBreak;
    var line := k + "=" + v;
    PairLineEnds(k, v);
    PairLineIsStripped(k, v);
    assert line[|k|] == '=';
    assert line[..|k|] == k && line[|k| + 1..] == v;
    IndexOfIs(line, '=', |k|);
  }

  lemma BracketsAreStripped(name: string)
    ensures Strip("[" + name + "]", WHITESPACE) == "[" + name + "]"
  {
    hide Strip, IsSpace;
    var line := "[" + name + "]";
    BracketsNoSpace();
    assert line[0] == '[' && line[|line| - 1] == ']';
    assert CleanEnds(line, WHITESPACE);
  }

  lemma BracketsNoSpace()
    ensures '[' !in WHITESPACE && ']' !in WHITESPACE
  {
  }

  lemma NameLine(r: Reading, name: string)
    requires Clean(name)
    ensures ReadLine(r, "[" + name + "]") == Reading(SetDefault(r.sections, name), name)
  {
    hide SetDefault, Strip, IsSpace;
    var line := "[" + name + "]";
    BracketsAreStripped(name);
    assert line[1..|line| - 1] == name && line[0] == '[' && line[|line| - 1] == ']';
  }

  // --- Reading back what was written --------------------------------------------------------

  lemma {:induction false} ReadPairs(pre: Sections, cur: string, e: Dict, d: Dict)
    requires cur != "" && Lookup(pre, cur).None? && PlainDict(d) && Distinct(e + d)
    ensures ReadLines(Reading(pre + [(cur, e)], cur), PairLines(d)) == Reading(pre + [(cur, e + d)], cur)
    decreases |d|
  {
    hide PlainPair, ReadLine;
    if d == [] {
      assert e + d == e;
    } else {
      var (k, v) := d[0];
      var r := Reading(pre + [(cur, e)], cur);
      assert e + d == (e + [d[0]]) + d[1..];
      DistinctAppend(e, d);
      PutLast(pre, cur, e, Put(e, k, v));
      PutFresh(e, k, v);
      PairLine(r, k, v);
      var lines := PairLines(d);
      assert lines[0] == k + "=" + v && lines[1..] == PairLines(d[1..]);
      ReadPairs(pre, cur, e + [d[0]], d[1..]);
    }
  }

  function SectionLines(ss: Sections): seq<string> {
    if ss == [] then [] else ["[" + ss[0].0 + "]"] + PairLines(ss[0].1) + SectionLines(ss[1..])
  }

  predicate Named(ss: Sections) {
    forall i :: 0 <= i < |ss| ==> ss[i].0 != ""
  }

  lemma ReadBlock(pre: Sections, current: string, name: string, d: Dict)
    requires name != "" && Clean(name) && PlainDict(d) && Lookup(pre, name).None?
    ensures ReadLines(Reading(pre, current), ["[" + name + "]"] + PairLines(d)) == Reading(pre + [(name, d)], name)
  {
    hide ReadLine, Clean, PairLines, PlainDict;
    var r := Reading(pre, current);
    var first := "[" + name + "]";
    NameLine(r, name);
    PutFresh(pre, name, []);
    assert ([first] + PairLines(d))[1..] == PairLines(d);
    assert [] + d == d;
    PlainIsDistinct(d);
    ReadPairs(pre, name, [], d);
  }

  lemma {:induction false} ReadBlocks(pre: Sections, current: string, ss: Sections)
    requires Tidy(ss) && Named(ss) && Distinct(pre + ss)
    ensures ReadLines(Reading(pre, current), SectionLines(ss)).sections == pre + ss
    decreases |ss|
  {
    hide ReadLine, Clean, PairLines, PlainDict;
    if ss == [] {
      assert pre + ss == pre;
    } else {
      var (name, d) := ss[0];
      var block := ["[" + name + "]"] + PairLines(d);
      DistinctAppend(pre, ss);
      ReadBlock(pre, current, name, d);
      assert pre + ss == (pre + [ss[0]]) + ss[1..];
      ReadAppend(Reading(pre, current), block, SectionLines(ss[1..]));
      assert SectionLines(ss) == block + SectionLines(ss[1..]);
      ReadBlocks(pre + [ss[0]], name, ss[1..]);
    }
  }

  /** Lines that start no section leave the names alone. */
  lemma {:induction false} ReadOddLines(pre: Sections, cur: string, e: Dict, lines: seq<string>) returns (e': Dict)
    requires Lookup(pre, cur).None?
    requires forall l :: l in lines ==> l != "" && l[0] == '{'
    ensures ReadLines(Reading(pre + [(cur, e)], cur), lines) == Reading(pre + [(cur, e')], cur)
    decreases |lines|
  {
    hide Strip;
    if lines == [] {
      return e;
    }
    assert lines[0] in lines;
    var r := ReadLine(Reading(pre + [(cur, e)], cur), lines[0]);
    assert exists d :: r == Reading(pre + [(cur, d)], cur) by {
      BraceLine(lines[0]);
      forall d ensures Put(pre + [(cur, e)], cur, d) == pre + [(cur, d)] {
        PutLast(pre, cur, e, d);
      }
      assert r == Reading(pre + [(cur, e)], cur) || exists d :: r == Reading(Put(pre + [(cur, e)], cur, d), cur);
    }
    var d :| r == Reading(pre + [(cur, d)], cur);
    assert forall l :: l in lines[1..] ==> l in lines;
    e' := ReadOddLines(pre, cur, d, lines[1..]);
  }

  lemma BraceLine(line: string)
    requires line != "" && line[0] == '{'
    ensures Strip(line, WHITESPACE) != "" && Strip(line, WHITESPACE)[0] == '{'
  {
    assert '{' !in WHITESPACE;
    var t := TrimRight(line, WHITESPACE);
    assert t != "";
  }

  // --- What any file reads as --------------------------------------------------------------------

  lemma TrimBreakFree(s: string, cs: set<char>)
    requires BreakFree(s)
    ensures BreakFree(Strip(s, cs))
  {
    hide TrimLeft, TrimRight, BreakFree;
    var l := TrimLeft(s, cs);
    EndBreakFree(s, |s| - |l|);
    StartBreakFree(l, |TrimRight(l, cs)|);
  }

  lemma EndBreakFree(s: string, n: nat)
    requires BreakFree(s) && n <= |s|
    ensures BreakFree(s[n..])
  {
    hide IsBreak;
    assert forall i :: 0 <= i < |s[n..]| ==> s[n..][i] == s[n + i];
  }

  lemma StartBreakFree(s: string, n: nat)
    requires BreakFree(s) && n <= |s|
    ensures BreakFree(s[..n])
  {
    hide IsBreak;
    assert forall i :: 0 <= i < |s[..n]| ==> s[..n][i] == s[i];
  }

  /** The pair of a stripped line is plain when the line is not a section or a comment. */
  lemma PairIsPlain(line: string)
    requires Clean(line) && line != "" && line[0] != ';' && '=' in line
    requires !(line[0] == '[' && line[|line| - 1] == ']')
    ensures var k := IndexOf(line, '=');
            PlainPair(Strip(line[..k], WHITESPACE), Strip(line[k + 1..], WHITESPACE))
  {
    hide IndexOf, Strip;
    CutIsPlain(line, IndexOf(line, '='));
  }

  lemma CutIsPlain(line: string, k: nat)
    requires Clean(line) && k < |line| && '=' !in line[..k] && line[0] != ';'
    requires !(line[0] == '[' && line[|line| - 1] == ']')
    ensures PlainPair(Strip(line[..k], WHITESPACE), Strip(line[k + 1..], WHITESPACE))
  {
    hide Strip, IsSpace, IsBreak;
    var a, b := line[..k], line[k + 1..];
    KeyIsPlain(a);
    TrimBreakFree(b, WHITESPACE);
    var key, value := Strip(a, WHITESPACE), Strip(b, WHITESPACE);
    if a != "" {
      StripKeepsFirst(a);
      assert key[0] == line[0];
    } else {
      assert key == "";
    }
    if b != "" {
      StripKeepsLast(b);
      assert value != "" ==> value[|value| - 1] == line[|line| - 1];
    }
  }

  lemma KeyIsPlain(a: string)
    requires BreakFree(a) && '=' !in a
    ensures Clean(Strip(a, WHITESPACE)) && '=' !in Strip(a, WHITESPACE)
  {
    hide Strip;
    TrimBreakFree(a, WHITESPACE);
    if '=' in Strip(a, WHITESPACE) {
      StripSubset(a, WHITESPACE, '=');
    }
  }

  lemma StripKeepsFirst(s: string)
    requires s != "" && s[0] !in WHITESPACE
    ensures Strip(s, WHITESPACE) != "" && Strip(s, WHITESPACE)[0] == s[0]
  {
    var t := TrimRight(s, WHITESPACE);
    assert t != "";
  }

  lemma StripKeepsLast(s: string)
    requires s != "" && s[|s| - 1] !in WHITESPACE
    ensures Strip(s, WHITESPACE) != "" ==> Strip(s, WHITESPACE)[|Strip(s, WHITESPACE)| - 1] == s[|s| - 1]
  {
    var l := TrimLeft(s, WHITESPACE);
    if l != "" {
      assert l[|l| - 1] == s[|s| - 1];
    }
  }

  lemma {:induction false} TidyPut(ss: Sections, name: string, d: Dict)
    requires Tidy(ss) && Clean(name) && PlainDict(d)
    ensures Tidy(Put(ss, name, d))
  {
    hide Clean, PlainDict;
    if ss == [] {
      assert Put(ss, name, d)[1..] == [];
    } else if ss[0].0 == name {
      assert Put(ss, name, d)[1..] == ss[1..];
    } else {
      assert Put(ss, name, d)[1..] == Put(ss[1..], name, d);
      TidyPut(ss[1..], name, d);
      LookupPut(ss[1..], name, d, ss[0].0);
    }
  }

  lemma {:induction false} TidyEntries(ss: Sections, name: string)
    requires Tidy(ss)
    ensures PlainDict(Entries(ss, name))
  {
    hide Clean;
    if ss != [] && ss[0].0 != name {
      TidyEntries(ss[1..], name);
      assert Entries(ss, name) == Entries(ss[1..], name);
    }
  }

  lemma TidyLine(r: Reading, line: string)
    requires Tidy(r.sections) && Clean(r.current) && BreakFree(line)
    ensures Tidy(ReadLine(r, line).sections) && Clean(ReadLine(r, line).current)
  {
    hide Tidy, PlainDict, PlainPair, BreakFree, Put, Entries, TrimLeft, TrimRight, Strip;
    var stripped := Strip(line, WHITESPACE);
    TrimBreakFree(line, WHITESPACE);
    if stripped == "" || stripped[0] == ';' {
    } else if stripped[0] == '[' && stripped[|stripped| - 1] == ']' {
      assert BreakFree(stripped[1..|stripped| - 1]) by { BreakFreeSlice(stripped, 1, |stripped| - 1); }
      var name := Strip(stripped[1..|stripped| - 1], WHITESPACE);
      TrimBreakFree(stripped[1..|stripped| - 1], WHITESPACE);
      assert PlainDict([]) by { EmptyPlain(); }
      TidyPut(r.sections, name, []);
    } else if r.current == "" || '=' !in stripped {
    } else {
      PairIsPlain(stripped);
      var k := IndexOf(stripped, '=');
      var key, value := Strip(stripped[..k], WHITESPACE), Strip(stripped[k + 1..], WHITESPACE);
      TidyEntries(r.sections, r.current);
      PlainPut(Entries(r.sections, r.current), key, value);
      TidyPut(r.sections, r.current, Put(Entries(r.sections, r.current), key, value));
    }
  }

  lemma EmptyPlain()
    ensures PlainDict([])
  {
  }

  lemma BreakFreeSlice(s: string, i: nat, j: nat)
    requires i <= j <= |s| && BreakFree(s)
    ensures BreakFree(s[i..j])
  {
  }

  lemma {:induction false} TidyLines(r: Reading, lines: seq<string>)
    requires Tidy(r.sections) && Clean(r.current) && forall l :: l in lines ==> BreakFree(l)
    ensures Tidy(ReadLines(r, lines).sections)
    decreases |lines|
  {
    hide ReadLine, Tidy, BreakFree;
    if lines != [] {
      TidyLine(r, lines[0]);
      TidyLines(ReadLine(r, lines[0]), lines[1..]);
    }
  }

  /** Whatever the file, every section and every pair the reader returns can be written and read back. */
  lemma TidySections(text: string)
    ensures Tidy(SectionsOf(text))
  {
    SplitBreakFree(text);
    TidyLines(Reading([], ""), SplitLines(text));
  }
}
