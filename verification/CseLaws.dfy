/** Laws of the extension-names attribute, proved on its text (backend/samadcon/gpo/cse.py). */
module CseLaws {
  import opened Text
  import opened Sorting
  import opened Cse

  // --- Sorting tools -----------------------------------------------------------------------

  predicate AllUpper(xs: seq<string>) {
    forall x :: x in xs ==> Upper(x) == x
  }

  lemma {:induction false} ToolClass(xs: seq<string>, h: string)
    requires AllUpper(xs)
    ensures ClassOf(ToolKey, xs, h) == Copies(h, multiset(xs)[h])
  {
    hide ClassOf;
    if xs == [] {
      NoClass(ToolKey, h);
    } else {
      assert xs[0] in xs && forall x :: x in xs[1..] ==> x in xs;
      ToolClass(xs[1..], h);
      assert xs == [xs[0]] + xs[1..];
      ClassCons(ToolKey, xs[0], xs[1..], h);
      assert multiset(xs)[h] == (if xs[0] == h then 1 else 0) + multiset(xs[1..])[h];
      assert [] + ClassOf(ToolKey, xs[1..], h) == ClassOf(ToolKey, xs[1..], h);
    }
  }

  function Copies(h: string, n: nat): seq<string> {
    if n == 0 then [] else [h] + Copies(h, n - 1)
  }

  /** Upper-case tools in any order sort alike. */
  lemma ToolsByCount(xs: seq<string>, ys: seq<string>)
    requires AllUpper(xs) && AllUpper(ys) && multiset(xs) == multiset(ys)
    ensures SortBy(ToolKey, xs) == SortBy(ToolKey, ys)
  {
    forall h ensures ClassOf(ToolKey, xs, h) == ClassOf(ToolKey, ys, h) {
      ToolClass(xs, h);
      ToolClass(ys, h);
    }
    SortByClasses(ToolKey, xs, ys);
  }

  lemma SortedTools(xs: seq<string>)
    requires AllUpper(xs)
    ensures AllUpper(SortBy(ToolKey, xs)) && multiset(SortBy(ToolKey, xs)) == multiset(xs)
    ensures SortBy(ToolKey, SortBy(ToolKey, xs)) == SortBy(ToolKey, xs)
    ensures |SortBy(ToolKey, xs)| == |xs|
  {
    SortElements(ToolKey, xs);
    SortSorted(ToolKey, xs);
    SortIdentity(ToolKey, SortBy(ToolKey, xs));
  }

  // --- One group -----------------------------------------------------------------------------

  predicate TextGroup(g: Group) {
    g != [] && forall t :: t in g ==> GuidText(t)
  }

  lemma TextGroupUpper(g: Group)
    requires TextGroup(g)
    ensures AllUpper(g) && AllUpper(g[1..]) && HeadKey(g) == g[0] && TextGroup(g[..1])
  {
    assert g[0] in g;
  }

  lemma SortGroupParts(g: Group)
    requires TextGroup(g)
    ensures var s := SortGroup(g);
            && TextGroup(s) && |s| == |g| && s[0] == g[0] && s[1..] == SortBy(ToolKey, g[1..])
            && multiset(s) == multiset(g) && multiset(s[1..]) == multiset(g[1..])
            && SortGroup(s) == s && HeadKey(s) == HeadKey(g)
            && forall t :: t in s <==> t in g
  {
    TextGroupUpper(g);
    SortedTools(g[1..]);
    var s := SortGroup(g);
    assert s[1..] == SortBy(ToolKey, g[1..]);
    assert g == [g[0]] + g[1..] && s == [g[0]] + s[1..];
    assert multiset(s) == multiset(g);
    forall t ensures t in s <==> t in g {
      assert t in multiset(s) <==> t in multiset(g);
    }
  }

  lemma SameGroup(g: Group, k: Group)
    requires TextGroup(g) && TextGroup(k) && g[0] == k[0] && multiset(g[1..]) == multiset(k[1..])
    ensures SortGroup(g) == SortGroup(k)
  {
    TextGroupUpper(g);
    TextGroupUpper(k);
    ToolsByCount(g[1..], k[1..]);
  }

  /** A group with one more tool, unless it has it. */
  function With(g: Group, t: string): Group {
    SortGroup(AppendTools(g, [t]))
  }

  lemma AppendOne(g: Group, t: string)
    ensures AppendTools(g, [t]) == if t in g then g else g + [t]
    ensures g != [] ==> AppendTools(g, [t])[1..] == if t in g then g[1..] else g[1..] + [t]
  {
    assert [t][1..] == [];
  }

  lemma WithOfSorted(g: Group, t: string)
    requires TextGroup(g) && GuidText(t)
    ensures With(SortGroup(g), t) == With(g, t) && TextGroup(AppendTools(g, [t]))
  {
    hide SortGroup, GuidText, AppendTools;
    SortGroupParts(g);
    var s := SortGroup(g);
    AppendOne(g, t);
    AppendOne(s, t);
    var a, b := AppendTools(g, [t]), AppendTools(s, [t]);
    assert multiset(a[1..]) == multiset(b[1..]);
    SameGroup(a, b);
  }

  lemma WithSorted(g: Group, t: string)
    requires TextGroup(g) && GuidText(t)
    ensures With(SortGroup(g), t) == With(g, t) && TextGroup(With(g, t))
    ensures With(g, t) == With(With(g, t), t)
    ensures forall u :: u in With(g, t) <==> u in g || u == t
    ensures |With(g, t)| == |g| + if t in g then 0 else 1
  {
    hide SortGroup, GuidText, AppendTools, TextGroup;
    WithOfSorted(g, t);
    AppendOne(g, t);
    SortGroupParts(AppendTools(g, [t]));
    AppendOne(With(g, t), t);
  }

  lemma WithCommutes(g: Group, t: string, u: string)
    requires TextGroup(g) && GuidText(t) && GuidText(u)
    ensures With(With(g, t), u) == With(With(g, u), t)
  {
    hide SortGroup, GuidText, With;
    TwoTools(g, t, u);
    TwoTools(g, u, t);
    var a, b := AppendTools(AppendTools(g, [t]), [u]), AppendTools(AppendTools(g, [u]), [t]);
    AppendOne(g, t);
    AppendOne(g, u);
    AppendOne(AppendTools(g, [t]), u);
    AppendOne(AppendTools(g, [u]), t);
    assert multiset(a[1..]) == multiset(b[1..]);
    SameGroup(a, b);
  }

  lemma TwoTools(g: Group, t: string, u: string)
    requires TextGroup(g) && GuidText(t) && GuidText(u)
    ensures TextGroup(AppendTools(g, [t]))
    ensures With(With(g, t), u) == SortGroup(AppendTools(AppendTools(g, [t]), [u]))
  {
    hide SortGroup, GuidText;
    AppendOne(g, t);
    WithSorted(AppendTools(g, [t]), u);
  }

  // --- Lists of groups, seen extension by extension --------------------------------------------

  lemma GroupsTextCons(g: Group, gs: seq<Group>)
    ensures GroupsText([g] + gs) <==> g != [] && (forall t :: t in g ==> GuidText(t)) && GroupsText(gs)
  {
    hide GuidText;
    var all := [g] + gs;
    assert forall x :: x in all <==> x == g || x in gs;
    if GroupsText(all) {
      assert g in all;
      assert forall x :: x in gs ==> x in all;
    }
  }

  lemma {:induction false} SortGroupsText(gs: seq<Group>)
    requires GroupsText(gs)
    ensures GroupsText(SortGroups(gs)) && SortGroups(SortGroups(gs)) == SortGroups(gs)
  {
    hide SortGroup, GuidText, GroupsText, ToolKey, HeadKey;
    if gs == [] {
      assert SortGroups(gs) == [];
    } else {
      assert gs == [gs[0]] + gs[1..];
      GroupsTextCons(gs[0], gs[1..]);
      SortGroupParts(gs[0]);
      SortGroupsText(gs[1..]);
      var s, rest := SortGroup(gs[0]), SortGroups(gs[1..]);
      GroupsTextCons(s, rest);
      assert ([s] + rest)[1..] == rest && ([s] + rest)[0] == s;
      assert SortGroups([s] + rest) == [SortGroup(s)] + SortGroups(rest);
    }
  }

  lemma SortCons(g: Group, gs: seq<Group>)
    ensures SortGroups([g] + gs) == [SortGroup(g)] + SortGroups(gs)
  {
    hide SortGroup;
    assert ([g] + gs)[1..] == gs;
  }

  lemma SortNothing()
    ensures SortGroups([]) == []
  {
  }

  lemma {:induction false} SortGroupsClass(gs: seq<Group>, h: string)
    requires GroupsText(gs)
    ensures ClassOf(HeadKey, SortGroups(gs), h) == SortGroups(ClassOf(HeadKey, gs, h))
  {
    hide SortGroup, GuidText, GroupsText, ClassOf, HeadKey, SortGroups;
    NoClass(HeadKey, h);
    assert SortGroups([]) == [] by { SortNothing(); }
    if gs != [] {
      assert gs == [gs[0]] + gs[1..];
      GroupsTextCons(gs[0], gs[1..]);
      SortGroupParts(gs[0]);
      SortGroupsClass(gs[1..], h);
      SortCons(gs[0], gs[1..]);
      ClassCons(HeadKey, gs[0], gs[1..], h);
      ClassCons(HeadKey, SortGroup(gs[0]), SortGroups(gs[1..]), h);
      var c := ClassOf(HeadKey, gs[1..], h);
      SortCons(gs[0], c);
      assert [] + c == c && [] + SortGroups(c) == SortGroups(c);
    }
  }

  lemma {:induction false} ClassText(gs: seq<Group>, h: string)
    requires GroupsText(gs)
    ensures GroupsText(ClassOf(HeadKey, gs, h))
    ensures forall g :: g in ClassOf(HeadKey, gs, h) ==> g in gs && g[0] == h
  {
    hide GuidText;
    ClassMembers(HeadKey, gs, h);
    forall g | g in ClassOf(HeadKey, gs, h) ensures g[0] == h {
      TextGroupUpper(g);
    }
  }

  lemma {:induction false} NonEmptySame(gs: seq<Group>)
    requires GroupsText(gs)
    ensures NonEmpty(gs) == gs
  {
    if gs != [] {
      assert gs[0] in gs && forall g :: g in gs[1..] ==> g in gs;
      NonEmptySame(gs[1..]);
    }
  }

  /** The canonical form is text again, sorted by extension, and holds for each extension
      the same groups in the same order, their tools sorted. */
  lemma CanonParts(gs: seq<Group>, h: string)
    requires GroupsText(gs)
    ensures GroupsText(Canon(gs)) && Sorted(HeadKey, Canon(gs))
    ensures ClassOf(HeadKey, Canon(gs), h) == SortGroups(ClassOf(HeadKey, gs, h))
  {
    hide SortGroup, GuidText, SortBy, HeadKey, ClassOf, SortGroups;
    NonEmptySame(gs);
    var s := SortBy(HeadKey, gs);
    SortElements(HeadKey, gs);
    SortSorted(HeadKey, gs);
    SortClass(HeadKey, gs, h);
    SortGroupsText(s);
    SortGroupsClass(s, h);
    forall i, j | 0 <= i < j < |Canon(gs)| ensures StrLe(HeadKey(Canon(gs)[i]), HeadKey(Canon(gs)[j])) {
      assert s[i] in s && s[j] in s;
      SortGroupParts(s[i]);
      SortGroupParts(s[j]);
    }
  }

  /** The attribute as the map it is: for each extension its groups, tools sorted. */
  function Registered(value: string, h: string): seq<Group> {
    SortGroups(ClassOf(HeadKey, Parse(value), h))
  }

  /** Reading what was rendered gives the canonical form. */
  lemma ParseRender(gs: seq<Group>)
    requires GroupsText(gs)
    ensures Parse(Render(gs)) == Canon(gs)
  {
    CanonParts(gs, "");
    ReadPrinted(Canon(gs));
  }

  lemma RegisteredRender(gs: seq<Group>, h: string)
    requires GroupsText(gs)
    ensures Registered(Render(gs), h) == SortGroups(ClassOf(HeadKey, gs, h))
  {
    hide GuidText, SortGroups, ClassOf, Canon, Parse, Render;
    ParseRender(gs);
    CanonParts(gs, h);
    ClassText(gs, h);
    SortGroupsText(ClassOf(HeadKey, gs, h));
  }

  /** Attributes that register the same are canonically the same text. */
  lemma SameRegistered(v: string, w: string)
    requires forall h :: Registered(v, h) == Registered(w, h)
    ensures Render(Parse(v)) == Render(Parse(w))
  {
    hide GuidText, SortGroups, ClassOf, Canon, Parse;
    ParseIsText(v);
    ParseIsText(w);
    forall h ensures ClassOf(HeadKey, Canon(Parse(v)), h) == ClassOf(HeadKey, Canon(Parse(w)), h) {
      CanonParts(Parse(v), h);
      CanonParts(Parse(w), h);
      assert Registered(v, h) == Registered(w, h);
    }
    CanonParts(Parse(v), "");
    CanonParts(Parse(w), "");
    SortedUnique(HeadKey, Canon(Parse(v)), Canon(Parse(w)));
  }

  /** Rendering settles: a rendered attribute, read and rendered again, is the same text. */
  lemma RenderIsCanonical(gs: seq<Group>)
    requires GroupsText(gs)
    ensures Render(Parse(Render(gs))) == Render(gs)
  {
    hide GuidText, SortGroups, ClassOf, Canon, Parse;
    ParseRender(gs);
    CanonParts(gs, "");
    forall h ensures ClassOf(HeadKey, Canon(Canon(gs)), h) == ClassOf(HeadKey, Canon(gs), h) {
      CanonParts(gs, h);
      CanonParts(Canon(gs), h);
      ClassText(gs, h);
      SortGroupsText(ClassOf(HeadKey, gs, h));
    }
    CanonParts(Canon(gs), "");
    SortedUnique(HeadKey, Canon(Canon(gs)), Canon(gs));
  }

  /** For any text whatever: normalising it twice is normalising it once. */
  lemma NormaliseIdempotent(value: string)
    ensures Render(Parse(Render(Parse(value)))) == Render(Parse(value))
  {
    hide Parse, Render;
    ParseIsText(value);
    RenderIsCanonical(Parse(value));
  }

  // --- Adding ------------------------------------------------------------------------------------

  lemma {:induction false} AddGroupText(gs: seq<Group>, guid: string, t: string)
    requires GroupsText(gs) && GuidText(guid) && GuidText(t)
    ensures GroupsText(AddGroup(gs, guid, [t]))
  {
    hide GuidText;
    if gs != [] {
      assert gs[0] in gs && forall g :: g in gs[1..] ==> g in gs;
      AppendOne(gs[0], t);
      AddGroupText(gs[1..], guid, t);
    }
  }

  function ClassAdd(cl: seq<Group>, guid: string, tools: seq<string>): seq<Group> {
    if cl == [] then [[guid] + tools] else [AppendTools(cl[0], tools)] + cl[1..]
  }

  lemma {:induction false} AddGroupClass(gs: seq<Group>, guid: string, t: string, h: string)
    requires GroupsText(gs) && GuidText(guid) && GuidText(t)
    ensures var cl := ClassOf(HeadKey, gs, h);
            ClassOf(HeadKey, AddGroup(gs, guid, [t]), h) == if h == guid then ClassAdd(cl, guid, [t]) else cl
  {
    hide GuidText, HeadKey, AppendTools, ClassOf;
    if gs == [] {
      TextGroupUpper([guid] + [t]);
      assert AddGroup(gs, guid, [t]) == [[guid] + [t]] + [];
      ClassCons(HeadKey, [guid] + [t], [], h);
      NoClass(HeadKey, h);
    } else {
      assert gs[0] in gs && forall g :: g in gs[1..] ==> g in gs;
      assert gs == [gs[0]] + gs[1..];
      TextGroupUpper(gs[0]);
      ClassCons(HeadKey, gs[0], gs[1..], h);
      var c := ClassOf(HeadKey, gs[1..], h);
      assert [] + c == c && ([gs[0]] + c)[1..] == c;
      if gs[0][0] == guid {
        AppendOne(gs[0], t);
        var g := AppendTools(gs[0], [t]);
        TextGroupUpper(g);
        ClassCons(HeadKey, g, gs[1..], h);
      } else {
        AddGroupClass(gs[1..], guid, t, h);
        ClassCons(HeadKey, gs[0], AddGroup(gs[1..], guid, [t]), h);
        var d := ClassOf(HeadKey, AddGroup(gs[1..], guid, [t]), h);
        assert [] + d == d;
      }
    }
  }

  /** What adding one tool does to the groups of its extension. */
  function Extended(cl: seq<Group>, guid: string, t: string): seq<Group> {
    if cl == [] then [[guid, t]] else [With(cl[0], t)] + cl[1..]
  }

  lemma ExtendedSorted(cl: seq<Group>, guid: string, t: string)
    requires GroupsText(cl) && GuidText(guid) && GuidText(t)
    ensures SortGroups(ClassAdd(cl, guid, [t])) == Extended(SortGroups(cl), guid, t)
  {
    hide GuidText, AppendTools;
    if cl == [] {
      SortPair(guid, t);
      assert [guid] + [t] == [guid, t];
      assert ([[guid] + [t]])[1..] == [];
    } else {
      hide SortGroup;
      assert cl[0] in cl;
      WithSorted(cl[0], t);
      var g := AppendTools(cl[0], [t]);
      assert ([g] + cl[1..])[1..] == cl[1..];
    }
  }

  /** Adding a tool changes the groups of its extension and no others. */
  lemma AddRegisters(value: string, cse: string, tool: string, h: string)
    requires Usable(cse) && Usable(tool)
    ensures Registered(Add(value, cse, [tool]), h)
         == if h == Braced(cse) then Extended(Registered(value, h), h, Braced(tool)) else Registered(value, h)
  {
    hide GuidText, Parse, Render, Braced, Usable, SortGroups, ClassOf, AddGroup;
    BracedIsText(cse);
    BracedIsText(tool);
    ParseIsText(value);
    var guid, t, gs := Braced(cse), Braced(tool), Parse(value);
    OneBraced(tool);
    AddGroupText(gs, guid, t);
    AddGroupClass(gs, guid, t, h);
    RegisteredRender(AddGroup(gs, guid, [t]), h);
    ClassText(gs, h);
    ExtendedSorted(ClassOf(HeadKey, gs, h), guid, t);
  }

  lemma OneBraced(tool: string)
    ensures Braceds([tool]) == [Braced(tool)]
  {
    assert [tool][1..] == [];
  }

  lemma AddIsCanonical(value: string, cse: string, tool: string)
    requires Usable(cse) && Usable(tool)
    ensures Render(Parse(Add(value, cse, [tool]))) == Add(value, cse, [tool])
  {
    hide GuidText, Parse, Render, Braced, Usable, AddGroup;
    BracedIsText(cse);
    BracedIsText(tool);
    ParseIsText(value);
    OneBraced(tool);
    AddGroupText(Parse(value), Braced(cse), Braced(tool));
    RenderIsCanonical(AddGroup(Parse(value), Braced(cse), [Braced(tool)]));
  }

  /** No group of the attribute is the extension's. */
  predicate Unregistered(value: string, h: string) {
    forall g :: g in Parse(value) ==> g == [] || g[0] != h
  }

  /** A group of the attribute, as an element of what is registered. */
  lemma RegisteredText(value: string, h: string)
    ensures GroupsText(Registered(value, h)) && SortGroups(Registered(value, h)) == Registered(value, h)
    ensures forall g :: g in Registered(value, h) ==> g[0] == h
    ensures (Registered(value, h) == [] <==> Unregistered(value, h))
  {
    hide GuidText, SortGroup, Parse;
    ParseIsText(value);
    var gs := Parse(value);
    var cl := ClassOf(HeadKey, gs, h);
    ClassText(gs, h);
    SortGroupsText(cl);
    forall g | g in SortGroups(cl) ensures g[0] == h {
      var i :| 0 <= i < |cl| && SortGroups(cl)[i] == g;
      assert cl[i] in cl;
      SortGroupParts(cl[i]);
    }
    ClassMembers(HeadKey, gs, h);
    if cl == [] {
      forall g | g in gs ensures g[0] != h {
        TextGroupUpper(g);
        assert g !in cl;
      }
    } else {
      assert cl[0] in cl;
    }
  }

  /** Adding a tool twice is adding it once, as text. */
  lemma AddIdempotent(value: string, cse: string, tool: string)
    requires Usable(cse) && Usable(tool)
    ensures Add(Add(value, cse, [tool]), cse, [tool]) == Add(value, cse, [tool])
  {
    hide GuidText, Parse, Render, Braced, Usable, With, SortGroups, Add, Registered;
    var once := Add(value, cse, [tool]);
    var twice := Add(once, cse, [tool]);
    BracedIsText(cse);
    BracedIsText(tool);
    forall h ensures Registered(twice, h) == Registered(once, h) {
      AddRegisters(value, cse, tool, h);
      AddRegisters(once, cse, tool, h);
      if h == Braced(cse) {
        RegisteredText(value, h);
        ExtendedTwice(Registered(value, h), h, Braced(tool));
      }
    }
    SameRegistered(twice, once);
    AddIsCanonical(value, cse, tool);
    AddIsCanonical(once, cse, tool);
  }

  lemma ExtendedTwice(cl: seq<Group>, guid: string, t: string)
    requires GroupsText(cl) && GuidText(guid) && GuidText(t)
    ensures Extended(Extended(cl, guid, t), guid, t) == Extended(cl, guid, t)
  {
    hide GuidText;
    if cl == [] {
      SortPair(guid, t);
      AppendOne([guid, t], t);
    } else {
      hide With;
      assert cl[0] in cl;
      WithSorted(cl[0], t);
    }
  }

  lemma SortPair(guid: string, t: string)
    ensures SortGroup([guid, t]) == [guid, t]
  {
    assert [guid, t][1..] == [t] && [t][1..] == [];
    assert SortBy(ToolKey, [t]) == Insert(ToolKey, t, SortBy(ToolKey, [])) == [t] + [];
  }

  /** The one case in which the order of two additions shows: both go to the same extension,
      it is not registered yet, and exactly one of the tools is the extension itself. A new
      group takes the tool as it comes, an existing one not a second time. */
  predicate OrderShows(value: string, c: string, t: string, d: string, u: string) {
    && Braced(c) == Braced(d) && Braced(t) != Braced(u)
    && (Braced(t) == Braced(c) || Braced(u) == Braced(c))
    && Unregistered(value, Braced(c))
  }

  lemma ExtendedCommutes(cl: seq<Group>, guid: string, t: string, u: string)
    requires GroupsText(cl) && GuidText(guid) && GuidText(t) && GuidText(u)
    ensures Extended(Extended(cl, guid, t), guid, u) == Extended(Extended(cl, guid, u), guid, t)
       <==> !(cl == [] && t != u && (t == guid || u == guid))
  {
    hide GuidText;
    if cl == [] {
      ExtendedNew(guid, t, u);
      ExtendedNew(guid, u, t);
      assert TextGroup([guid]);
      WithCommutes([guid], t, u);
    } else {
      hide With;
      assert cl[0] in cl;
      WithCommutes(cl[0], t, u);
    }
  }

  lemma ExtendedNew(guid: string, t: string, u: string)
    requires GuidText(guid) && GuidText(t) && GuidText(u)
    ensures var r := Extended(Extended([], guid, t), guid, u);
            && |r| == 1
            && |r[0]| == (if u in [guid, t] then 2 else 3)
            && (u != guid && t != guid ==> r == [With(With([guid], t), u)])
  {
    hide GuidText;
    var g := [guid, t];
    assert TextGroup(g) && TextGroup([guid]);
    WithSorted(g, u);
    assert Extended([g], guid, u) == [With(g, u)] + [];
    if t != guid {
      AppendOne([guid], t);
      assert [guid] + [t] == g;
      SortPair(guid, t);
    }
  }

  /** Registration order never shows in the text, except in that one case. */
  lemma AddCommutes(value: string, c: string, t: string, d: string, u: string)
    requires Usable(c) && Usable(t) && Usable(d) && Usable(u)
    ensures Add(Add(value, c, [t]), d, [u]) == Add(Add(value, d, [u]), c, [t])
       <==> !OrderShows(value, c, t, d, u)
  {
    hide GuidText, Parse, Render, Braced, Usable, Add, Registered, Extended;
    var x, y := Add(Add(value, c, [t]), d, [u]), Add(Add(value, d, [u]), c, [t]);
    BracedIsText(c);
    BracedIsText(d);
    BracedIsText(t);
    BracedIsText(u);
    AddIsCanonical(Add(value, c, [t]), d, u);
    AddIsCanonical(Add(value, d, [u]), c, t);
    forall h ensures Registered(x, h) == Registered(y, h) <==> !(h == Braced(c) && OrderShows(value, c, t, d, u)) {
      AddRegisters(value, c, t, h);
      AddRegisters(value, d, u, h);
      AddRegisters(Add(value, c, [t]), d, u, h);
      AddRegisters(Add(value, d, [u]), c, t, h);
      RegisteredText(value, h);
      if Braced(c) == Braced(d) == h {
        ExtendedCommutes(Registered(value, h), h, Braced(t), Braced(u));
      }
    }
    if !OrderShows(value, c, t, d, u) {
      SameRegistered(x, y);
    } else {
      assert Registered(x, Braced(c)) != Registered(y, Braced(c));
    }
  }
}
