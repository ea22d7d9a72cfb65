/** Adding extension pairs and taking them out again (backend/samadcon/gpo/cse.py, remove_tool
    and the fold in register_pairs). */
module CseRemoval {
  import opened Sorting
  import opened Cse
  import opened CseLaws

  function Filter(tools: seq<string>, gone: set<string>): seq<string> {
    if tools == [] then []
    else (if tools[0] in gone then [] else [tools[0]]) + Filter(tools[1..], gone)
  }

  /** One group without some tools; nothing when none is left. */
  function StripGroup(g: Group, gone: set<string>): seq<Group> {
    var kept := if g == [] then [] else Filter(g[1..], gone);
    if kept == [] then [] else [[g[0]] + kept]
  }

  /** The groups of one extension without some tools. */
  function Stripped(cl: seq<Group>, gone: set<string>): seq<Group> {
    if cl == [] then [] else StripGroup(cl[0], gone) + Stripped(cl[1..], gone)
  }

  lemma {:induction false} DropIsFilter(tools: seq<string>, t: string)
    ensures DropTool(tools, t) == Filter(tools, {t})
  {
    if tools != [] {
      DropIsFilter(tools[1..], t);
    }
  }

  lemma {:induction false} FilterTwice(tools: seq<string>, a: set<string>, b: set<string>)
    ensures Filter(Filter(tools, a), b) == Filter(tools, a + b)
  {
    if tools != [] {
      FilterTwice(tools[1..], a, b);
      var rest := Filter(tools[1..], a);
      assert ([tools[0]] + rest)[1..] == rest;
      assert [] + rest == rest;
    }
  }

  lemma {:induction false} FilterAppend(x: seq<string>, y: seq<string>, gone: set<string>)
    ensures Filter(x + y, gone) == Filter(x, gone) + Filter(y, gone)
  {
    if x == [] {
      assert x + y == y;
    } else {
      assert (x + y)[1..] == x[1..] + y;
      FilterAppend(x[1..], y, gone);
    }
  }

  lemma {:induction false} FilterFacts(tools: seq<string>, gone: set<string>)
    ensures forall t :: t in Filter(tools, gone) <==> t in tools && t !in gone
    ensures (forall t :: t in tools ==> t !in gone) ==> Filter(tools, gone) == tools
  {
    if tools != [] {
      FilterFacts(tools[1..], gone);
      assert tools == [tools[0]] + tools[1..];
    }
  }

  lemma SortedCons(x: string, rest: seq<string>)
    ensures Sorted(ToolKey, [x] + rest)
       <==> Sorted(ToolKey, rest) && forall i :: 0 <= i < |rest| ==> StrLe(ToolKey(x), ToolKey(rest[i]))
  {
    hide StrLe, ToolKey;
    var all := [x] + rest;
    assert forall i :: 0 <= i < |rest| ==> all[i + 1] == rest[i];
    if Sorted(ToolKey, all) {
      forall i | 0 <= i < |rest| ensures StrLe(ToolKey(x), ToolKey(rest[i])) {
        assert StrLe(ToolKey(all[0]), ToolKey(all[i + 1]));
      }
      forall i, j | 0 <= i < j < |rest| ensures StrLe(ToolKey(rest[i]), ToolKey(rest[j])) {
        assert StrLe(ToolKey(all[i + 1]), ToolKey(all[j + 1]));
      }
    }
  }

  lemma {:induction false} FilterSorted(tools: seq<string>, gone: set<string>)
    requires Sorted(ToolKey, tools)
    ensures Sorted(ToolKey, Filter(tools, gone))
  {
    hide StrLe, ToolKey, Sorted;
    if tools == [] {
      assert Filter(tools, gone) == tools;
    } else {
      var rest := Filter(tools[1..], gone);
      assert tools == [tools[0]] + tools[1..];
      SortedCons(tools[0], tools[1..]);
      FilterSorted(tools[1..], gone);
      FilterFacts(tools[1..], gone);
      forall i | 0 <= i < |rest| ensures StrLe(ToolKey(tools[0]), ToolKey(rest[i])) {
        assert rest[i] in tools[1..];
      }
      SortedCons(tools[0], rest);
      assert [] + rest == rest;
    }
  }

  lemma {:induction false} FilterCounts(tools: seq<string>, gone: set<string>, t: string)
    ensures multiset(Filter(tools, gone))[t] == if t in gone then 0 else multiset(tools)[t]
  {
    if tools != [] {
      FilterCounts(tools[1..], gone, t);
      assert tools == [tools[0]] + tools[1..];
      var rest := Filter(tools[1..], gone);
      assert multiset([tools[0]] + rest) == multiset{tools[0]} + multiset(rest);
      assert [] + rest == rest;
    }
  }

  /** Taking tools out of a sorted list is sorting what is left. */
  lemma FilterSort(tools: seq<string>, gone: set<string>)
    requires AllUpper(tools)
    ensures Filter(SortBy(ToolKey, tools), gone) == SortBy(ToolKey, Filter(tools, gone))
  {
    hide Filter, SortBy;
    var sorted := SortBy(ToolKey, tools);
    SortedTools(tools);
    SortSorted(ToolKey, tools);
    FilterFacts(sorted, gone);
    FilterFacts(tools, gone);
    FilterSorted(sorted, gone);
    SortElements(ToolKey, tools);
    SortIdentity(ToolKey, Filter(sorted, gone));
    forall t ensures multiset(Filter(sorted, gone))[t] == multiset(Filter(tools, gone))[t] {
      FilterCounts(sorted, gone, t);
      FilterCounts(tools, gone, t);
    }
    assert multiset(Filter(sorted, gone)) == multiset(Filter(tools, gone));
    ToolsByCount(Filter(sorted, gone), Filter(tools, gone));
  }

  // --- The groups of one extension ------------------------------------------------------------

  lemma {:induction false} StrippedAppend(x: seq<Group>, y: seq<Group>, gone: set<string>)
    ensures Stripped(x + y, gone) == Stripped(x, gone) + Stripped(y, gone)
  {
    hide StripGroup;
    if x == [] {
      assert x + y == y;
    } else {
      assert (x + y)[1..] == x[1..] + y;
      StrippedAppend(x[1..], y, gone);
    }
  }

  lemma StripGroupTwice(g: Group, a: set<string>, b: set<string>)
    ensures Stripped(StripGroup(g, a), b) == StripGroup(g, a + b)
  {
    hide Filter;
    FilterNothing(b);
    if g != [] {
      FilterTwice(g[1..], a, b);
      var kept := Filter(g[1..], a);
      if kept != [] {
        var k: Group := [g[0]] + kept;
        var one: seq<Group> := [k];
        assert k[1..] == kept && one[1..] == [];
        assert Stripped(one, b) == StripGroup(k, b) + [] == StripGroup(k, b);
      }
    }
  }

  lemma {:induction false} StrippedTwice(cl: seq<Group>, a: set<string>, b: set<string>)
    ensures Stripped(Stripped(cl, a), b) == Stripped(cl, a + b)
  {
    hide StripGroup;
    if cl != [] {
      StrippedTwice(cl[1..], a, b);
      StripGroupTwice(cl[0], a, b);
      StrippedAppend(StripGroup(cl[0], a), Stripped(cl[1..], a), b);
    }
  }

  lemma FilterNothing(gone: set<string>)
    ensures Filter([], gone) == []
  {
  }

  lemma SortGroupCons(head: string, tools: seq<string>)
    ensures SortGroup([head] + tools) == [head] + SortBy(ToolKey, tools)
    ensures SortGroups([[head] + tools]) == [[head] + SortBy(ToolKey, tools)]
  {
    hide SortBy;
    assert ([head] + tools)[1..] == tools;
    assert [[head] + tools][1..] == [];
  }

  lemma StripGroupText(g: Group, gone: set<string>)
    requires TextGroup(g)
    ensures GroupsText(StripGroup(g, gone))
    ensures SortGroups(StripGroup(g, gone)) == StripGroup(SortGroup(g), gone)
  {
    hide GuidText, SortGroup, SortGroups, Filter, SortBy;
    TextGroupUpper(g);
    SortGroupParts(g);
    FilterSort(g[1..], gone);
    FilterFacts(g[1..], gone);
    var kept := Filter(g[1..], gone);
    SortElements(ToolKey, kept);
    assert g[0] in g;
    NoGroups();
    if kept != [] {
      SortGroupCons(g[0], kept);
    }
  }

  lemma NoGroups()
    ensures SortGroups([]) == []
  {
  }

  lemma {:induction false} SortGroupsAppend(x: seq<Group>, y: seq<Group>)
    ensures SortGroups(x + y) == SortGroups(x) + SortGroups(y)
  {
    hide SortGroup;
    if x == [] {
      assert x + y == y;
    } else {
      assert (x + y)[1..] == x[1..] + y;
      SortGroupsAppend(x[1..], y);
    }
  }

  lemma {:induction false} StrippedText(cl: seq<Group>, gone: set<string>)
    requires GroupsText(cl)
    ensures GroupsText(Stripped(cl, gone))
    ensures SortGroups(Stripped(cl, gone)) == Stripped(SortGroups(cl), gone)
  {
    hide GuidText, SortGroup, StripGroup;
    if cl != [] {
      assert cl[0] in cl && forall g :: g in cl[1..] ==> g in cl;
      StrippedText(cl[1..], gone);
      StripGroupText(cl[0], gone);
      SortGroupsAppend(StripGroup(cl[0], gone), Stripped(cl[1..], gone));
      assert SortGroups(cl)[1..] == SortGroups(cl[1..]);
    }
  }

  lemma RemoveStep(gs: seq<Group>, guid: string, t: string)
    requires gs != [] && gs[0] != []
    ensures RemoveFrom(gs, guid, t)
         == (if gs[0][0] == guid then StripGroup(gs[0], {t}) else [gs[0]]) + RemoveFrom(gs[1..], guid, t)
  {
    hide DropTool, Filter;
    DropIsFilter(gs[0][1..], t);
  }

  lemma StripGroupClass(g: Group, t: string, h: string)
    requires TextGroup(g)
    ensures ClassOf(HeadKey, StripGroup(g, {t}), h) == if g[0] == h then StripGroup(g, {t}) else []
  {
    hide GuidText, HeadKey, Filter;
    FilterFacts(g[1..], {t});
    var kept := Filter(g[1..], {t});
    if kept != [] {
      var k := [g[0]] + kept;
      assert g[0] in g;
      TextGroupUpper(k);
      assert [k][1..] == [];
    }
  }

  lemma {:induction false} RemoveIsText(gs: seq<Group>, guid: string, t: string)
    requires GroupsText(gs)
    ensures GroupsText(RemoveFrom(gs, guid, t))
  {
    hide GuidText, StripGroup, RemoveFrom;
    if gs == [] {
      RemoveNothing(guid, t);
    } else {
      assert gs[0] in gs && forall g :: g in gs[1..] ==> g in gs;
      RemoveIsText(gs[1..], guid, t);
      RemoveStep(gs, guid, t);
      StripGroupText(gs[0], {t});
    }
  }

  lemma {:induction false} RemoveClass(gs: seq<Group>, guid: string, t: string, h: string)
    requires GroupsText(gs)
    ensures var cl := ClassOf(HeadKey, gs, h);
            ClassOf(HeadKey, RemoveFrom(gs, guid, t), h) == if h == guid then Stripped(cl, {t}) else cl
  {
    hide GuidText, HeadKey, StripGroup, RemoveFrom;
    if gs == [] {
      RemoveNothing(guid, t);
    } else {
      assert gs[0] in gs && forall g :: g in gs[1..] ==> g in gs;
      RemoveClass(gs[1..], guid, t, h);
      TextGroupUpper(gs[0]);
      RemoveStep(gs, guid, t);
      StripGroupClass(gs[0], t, h);
      var first, rest := if gs[0][0] == guid then StripGroup(gs[0], {t}) else [gs[0]], RemoveFrom(gs[1..], guid, t);
      ClassAppend(HeadKey, first, rest, h);
      OneClass(gs[0], h);
      StrippedCons(gs[0], ClassOf(HeadKey, gs[1..], h), {t});
    }
  }

  lemma RemoveNothing(guid: string, t: string)
    ensures RemoveFrom([], guid, t) == []
  {
  }

  lemma StrippedCons(g: Group, cl: seq<Group>, gone: set<string>)
    ensures Stripped([g] + cl, gone) == StripGroup(g, gone) + Stripped(cl, gone) && [] + cl == cl
  {
    assert ([g] + cl)[1..] == cl;
  }

  lemma OneClass(g: Group, h: string)
    ensures ClassOf(HeadKey, [g], h) == if HeadKey(g) == h then [g] else []
  {
    assert [g][1..] == [];
  }

  /** Taking a tool out changes the groups of its extension and no others. */
  lemma RemoveRegisters(value: string, cse: string, tool: string, h: string)
    ensures Registered(RemoveTool(value, cse, tool), h)
         == if h == Braced(cse) then Stripped(Registered(value, h), {Braced(tool)}) else Registered(value, h)
    ensures Render(Parse(RemoveTool(value, cse, tool))) == RemoveTool(value, cse, tool)
  {
    hide GuidText, Parse, Render, Braced, SortGroups, ClassOf, RemoveFrom, Stripped;
    ParseIsText(value);
    var gs := Parse(value);
    RemoveIsText(gs, Braced(cse), Braced(tool));
    RemoveClass(gs, Braced(cse), Braced(tool), h);
    RegisteredRender(RemoveFrom(gs, Braced(cse), Braced(tool)), h);
    RenderIsCanonical(RemoveFrom(gs, Braced(cse), Braced(tool)));
    ClassText(gs, h);
    StrippedText(ClassOf(HeadKey, gs, h), {Braced(tool)});
  }

  // --- There and back ------------------------------------------------------------------------------

  predicate UsablePairs(pairs: Pairs) {
    forall p :: p in pairs ==> Usable(p.0) && Usable(p.1)
  }

  /** The tools the pairs name for one extension. */
  function ToolsFor(pairs: Pairs, h: string): set<string> {
    set p | p in pairs && Braced(p.0) == h :: Braced(p.1)
  }

  lemma ToolsForCons(pairs: Pairs, h: string)
    requires pairs != []
    ensures ToolsFor(pairs, h) == ToolsFor(pairs[1..], h) + if Braced(pairs[0].0) == h then {Braced(pairs[0].1)} else {}
  {
    hide Braced;
    assert pairs == [pairs[0]] + pairs[1..];
  }

  /** Adding a tool and then stripping it leaves what stripping alone leaves. */
  lemma StrippedExtended(cl: seq<Group>, guid: string, t: string, gone: set<string>)
    requires GroupsText(cl) && SortGroups(cl) == cl && GuidText(guid) && GuidText(t) && t in gone
    ensures Stripped(Extended(cl, guid, t), gone) == Stripped(cl, gone)
  {
    hide GuidText, Filter, SortGroup, With, StripGroup;
    if cl == [] {
      StripPair(guid, t, gone);
    } else {
      assert cl[0] in cl && SortGroups(cl)[0] == SortGroup(cl[0]);
      StripWith(cl[0], t, gone);
      assert ([With(cl[0], t)] + cl[1..])[1..] == cl[1..];
    }
  }

  lemma StripPair(guid: string, t: string, gone: set<string>)
    requires t in gone
    ensures Stripped([[guid, t]], gone) == []
  {
    FilterOne(t, gone);
    assert [guid, t][1..] == [t] && [[guid, t]][1..] == [];
  }

  lemma StripWith(g: Group, t: string, gone: set<string>)
    requires TextGroup(g) && SortGroup(g) == g && GuidText(t) && t in gone
    ensures StripGroup(With(g, t), gone) == StripGroup(g, gone)
  {
    hide GuidText, Filter, SortGroup;
    FilterOne(t, gone);
    TextGroupUpper(g);
    SortGroupParts(g);
    AppendOne(g, t);
    var a := AppendTools(g, [t]);
    TextGroupUpper(a);
    SortGroupParts(a);
    FilterSort(a[1..], gone);
    FilterSort(g[1..], gone);
    FilterAppend(g[1..], [t], gone);
    var kept := Filter(g[1..], gone);
    assert kept + [] == kept;
  }

  lemma FilterOne(t: string, gone: set<string>)
    requires t in gone
    ensures Filter([t], gone) == []
  {
    assert [t][1..] == [];
  }

  lemma {:induction false} AddPairsRegister(value: string, pairs: Pairs, h: string, gone: set<string>)
    requires UsablePairs(pairs) && ToolsFor(pairs, h) <= gone
    ensures Stripped(Registered(AddPairs(value, pairs), h), gone) == Stripped(Registered(value, h), gone)
    ensures ToolsFor(pairs, h) == {} ==> Registered(AddPairs(value, pairs), h) == Registered(value, h)
    decreases |pairs|
  {
    hide GuidText, Braced, Usable, Add, Registered, Stripped, ToolsFor, Extended;
    if pairs != [] {
      var (c, t) := pairs[0];
      var next := Add(value, c, [t]);
      assert pairs[0] in pairs && forall p :: p in pairs[1..] ==> p in pairs;
      ToolsForCons(pairs, h);
      AddPairsRegister(next, pairs[1..], h, gone);
      AddRegisters(value, c, t, h);
      if h == Braced(c) {
        RegisteredText(value, h);
        BracedIsText(c);
        BracedIsText(t);
        StrippedExtended(Registered(value, h), h, Braced(t), gone);
      }
    }
  }

  lemma {:induction false} RemovePairsRegister(value: string, pairs: Pairs, h: string)
    ensures Registered(RemovePairs(value, pairs), h)
         == if ToolsFor(pairs, h) == {} then Registered(value, h)
            else Stripped(Registered(value, h), ToolsFor(pairs, h))
    ensures pairs != [] ==> Render(Parse(RemovePairs(value, pairs))) == RemovePairs(value, pairs)
    decreases |pairs|
  {
    hide Braced, RemoveTool, Registered, Stripped, ToolsFor, Parse, Render;
    if pairs == [] {
      NoTools(h);
    } else {
      var (c, t) := pairs[0];
      var next := RemoveTool(value, c, t);
      ToolsForCons(pairs, h);
      RemovePairsRegister(next, pairs[1..], h);
      RemoveRegisters(value, c, t, h);
      StrippedTwice(Registered(value, h), {Braced(t)}, ToolsFor(pairs[1..], h));
      var rest := ToolsFor(pairs[1..], h);
      assert {Braced(t)} + rest == rest + {Braced(t)} && rest + {} == rest;
      if rest == {} {
        assert rest + {Braced(t)} == {Braced(t)};
      }
      assert Braced(t) in rest + {Braced(t)};
    }
  }

  lemma NoTools(h: string)
    ensures ToolsFor([], h) == {}
  {
  }

  /** None of the pairs is registered: no group of the extension names the tool. */
  predicate NoneRegistered(value: string, pairs: Pairs) {
    forall g, p :: g in Parse(value) && p in pairs && g != [] && g[0] == Braced(p.0) ==> Braced(p.1) !in g[1..]
  }

  /** A group that names one of the extensions and no tool. */
  predicate ToolLess(value: string, pairs: Pairs) {
    exists g, p :: g in Parse(value) && p in pairs && |g| == 1 && g[0] == Braced(p.0)
  }

  /** One group stays as it is exactly when it has a tool. */
  lemma StripGroupSame(g: Group, gone: set<string>)
    requires g != [] && forall t :: t in g[1..] ==> t !in gone
    ensures StripGroup(g, gone) == if |g| > 1 then [g] else []
  {
    hide Filter;
    FilterFacts(g[1..], gone);
    assert g == [g[0]] + g[1..];
  }

  lemma {:induction false} StrippedSame(cl: seq<Group>, gone: set<string>)
    requires forall g :: g in cl ==> g != [] && forall t :: t in g[1..] ==> t !in gone
    ensures Stripped(cl, gone) == cl <==> forall g :: g in cl ==> |g| > 1
  {
    hide StripGroup;
    if cl != [] {
      assert cl[0] in cl && forall g :: g in cl <==> g == cl[0] || g in cl[1..];
      StrippedSame(cl[1..], gone);
      StripGroupSame(cl[0], gone);
      assert cl == [cl[0]] + cl[1..];
      StrippedShorter(cl[1..], gone);
      var rest := Stripped(cl[1..], gone);
      assert ([cl[0]] + rest)[1..] == rest && [] + rest == rest;
    }
  }

  lemma {:induction false} StrippedShorter(cl: seq<Group>, gone: set<string>)
    ensures |Stripped(cl, gone)| <= |cl|
  {
    hide Filter;
    if cl != [] {
      StrippedShorter(cl[1..], gone);
    }
  }

  /** The registered groups of one extension have the lengths and tools of the parsed ones. */
  lemma RegisteredMembers(value: string, h: string)
    ensures forall g :: g in Parse(value) && g != [] && g[0] == h ==>
              exists s :: s in Registered(value, h) && |s| == |g|
    ensures forall s :: s in Registered(value, h) ==>
              exists g :: g in Parse(value) && |g| == |s| && g != [] && g[0] == h
                       && multiset(g[1..]) == multiset(s[1..])
  {
    hide GuidText, SortGroup, Parse;
    ParseIsText(value);
    var gs := Parse(value);
    var cl := ClassOf(HeadKey, gs, h);
    ClassText(gs, h);
    ClassMembers(HeadKey, gs, h);
    forall g | g in gs && g != [] && g[0] == h ensures exists s :: s in SortGroups(cl) && |s| == |g| {
      TextGroupUpper(g);
      var i :| 0 <= i < |cl| && cl[i] == g;
      SortGroupParts(g);
      assert SortGroups(cl)[i] in SortGroups(cl);
    }
    forall s | s in SortGroups(cl)
      ensures exists g :: g in gs && |g| == |s| && g != [] && g[0] == h && multiset(g[1..]) == multiset(s[1..])
    {
      var i :| 0 <= i < |cl| && SortGroups(cl)[i] == s;
      assert cl[i] in cl;
      SortGroupParts(cl[i]);
    }
  }

  lemma NoneOfThem(value: string, pairs: Pairs, h: string, g: Group, t: string)
    requires NoneRegistered(value, pairs) && g in Parse(value) && g != [] && g[0] == h && t in g[1..]
    ensures t !in ToolsFor(pairs, h)
  {
    hide Braced, Parse;
    forall p | p in pairs && Braced(p.0) == h ensures Braced(p.1) != t {
    }
  }

  lemma RegisteredLacks(value: string, pairs: Pairs, h: string, s: Group)
    requires NoneRegistered(value, pairs) && s in Registered(value, h)
    ensures s != [] && forall t :: t in s[1..] ==> t !in ToolsFor(pairs, h)
  {
    hide Braced, Parse, Registered, NoneRegistered, ToolsFor;
    RegisteredMembers(value, h);
    var g :| g in Parse(value) && |g| == |s| && g != [] && g[0] == h && multiset(g[1..]) == multiset(s[1..]);
    forall t | t in s[1..] ensures t !in ToolsFor(pairs, h) {
      assert t in multiset(s[1..]) && t in multiset(g[1..]);
      NoneOfThem(value, pairs, h, g, t);
    }
  }

  lemma RestoredFor(value: string, pairs: Pairs, h: string)
    requires NoneRegistered(value, pairs) && ToolsFor(pairs, h) != {}
    ensures Stripped(Registered(value, h), ToolsFor(pairs, h)) == Registered(value, h)
       <==> forall g :: g in Parse(value) && g != [] && g[0] == h ==> |g| > 1
  {
    hide Parse, Registered, Stripped, NoneRegistered, ToolsFor;
    RegisteredMembers(value, h);
    forall s | s in Registered(value, h) ensures s != [] && forall t :: t in s[1..] ==> t !in ToolsFor(pairs, h) {
      RegisteredLacks(value, pairs, h, s);
    }
    StrippedSame(Registered(value, h), ToolsFor(pairs, h));
  }

  /** Adding a list of unregistered pairs and taking it out again gives back the attribute in
      its canonical form, the shared null group included, exactly when none of the extensions
      named has a group without any tool: such a group goes with the last tool taken out. */
  lemma AddThenRemove(value: string, pairs: Pairs)
    requires UsablePairs(pairs) && pairs != [] && NoneRegistered(value, pairs)
    ensures RemovePairs(AddPairs(value, pairs), pairs) == Render(Parse(value)) <==> !ToolLess(value, pairs)
  {
    hide GuidText, Braced, Usable, Parse, Render, Registered, Stripped, AddPairs, RemovePairs, ToolsFor;
    var added := AddPairs(value, pairs);
    var back := RemovePairs(added, pairs);
    RemovePairsRegister(added, pairs, "");
    forall h ensures Registered(back, h) == Registered(value, h)
                <==> ToolsFor(pairs, h) == {} || forall g :: g in Parse(value) && g != [] && g[0] == h ==> |g| > 1
    {
      AddPairsRegister(value, pairs, h, ToolsFor(pairs, h));
      RemovePairsRegister(added, pairs, h);
      if ToolsFor(pairs, h) != {} { RestoredFor(value, pairs, h); }
    }
    if ToolLess(value, pairs) {
      var g, p :| g in Parse(value) && p in pairs && |g| == 1 && g[0] == Braced(p.0);
      ToolsIn(pairs, p);
      assert Registered(back, Braced(p.0)) != Registered(value, Braced(p.0));
      ParseIsText(value);
      NormalRegisters(value, Braced(p.0));
    } else {
      forall h ensures Registered(back, h) == Registered(value, h) {
        if ToolsFor(pairs, h) != {} { SomePair(pairs, h); }
      }
      SameRegistered(back, value);
    }
  }

  lemma ToolsIn(pairs: Pairs, p: (string, string))
    requires p in pairs
    ensures ToolsFor(pairs, Braced(p.0)) != {}
  {
    assert Braced(p.1) in ToolsFor(pairs, Braced(p.0));
  }

  lemma SomePair(pairs: Pairs, h: string)
    requires ToolsFor(pairs, h) != {}
    ensures exists p :: p in pairs && Braced(p.0) == h
  {
  }

  lemma NormalRegisters(value: string, h: string)
    ensures Registered(Render(Parse(value)), h) == Registered(value, h)
  {
    ParseIsText(value);
    RegisteredRender(Parse(value), h);
  }
}
