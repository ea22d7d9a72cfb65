/** What is registered after adding pairs (backend/samadcon/gpo/cse.py 315-335). */
module CsePairs {
  import opened Sorting
  import opened Cse
  import opened CseLaws
  import opened CseRemoval

  /** Everything that stands in some groups, the extensions themselves included. */
  function Everything(gs: seq<Group>): set<string> {
    set g, t | g in gs && t in g :: t
  }

  lemma ExtendedEverything(cl: seq<Group>, h: string, t: string)
    requires GroupsText(cl) && SortGroups(cl) == cl && GuidText(t) && forall g :: g in cl ==> g[0] == h
    ensures Everything(Extended(cl, h, t)) == Everything(cl) + {h, t}
  {
    hide GuidText, With, SortGroup;
    if cl == [] {
      assert [h, t] in [[h, t]] && h in [h, t] && t in [h, t];
    } else {
      assert cl[0] in cl && SortGroups(cl)[0] == SortGroup(cl[0]);
      var w := With(cl[0], t);
      WithSame(cl[0], t);
      var all := Extended(cl, h, t);
      assert w in all && forall g :: g in all <==> g == w || g in cl[1..];
      assert forall g :: g in cl <==> g == cl[0] || g in cl[1..];
      assert h in w && t in w by { assert cl[0][0] in cl[0]; }
      forall x ensures x in Everything(all) <==> x in Everything(cl) + {h, t} {
        assert x in w <==> x in cl[0] || x == t;
      }
    }
  }

  lemma WithSame(g: Group, t: string)
    requires TextGroup(g) && GuidText(t)
    ensures forall u :: u in With(g, t) <==> u in g || u == t
  {
    hide GuidText, With;
    WithSorted(g, t);
  }

  /** After adding pairs, an extension has what it had, and the tools the pairs name for it. */
  lemma {:induction false} AddPairsEverything(value: string, pairs: Pairs, h: string)
    requires UsablePairs(pairs)
    ensures Everything(Registered(AddPairs(value, pairs), h))
         == Everything(Registered(value, h)) + ToolsFor(pairs, h) + if ToolsFor(pairs, h) == {} then {} else {h}
    decreases |pairs|
  {
    hide GuidText, Braced, Usable, Add, Registered, ToolsFor, Extended, Everything;
    if pairs == [] {
      NoTools(h);
    } else {
      var (c, t) := pairs[0];
      var next := Add(value, c, [t]);
      assert pairs[0] in pairs && forall p :: p in pairs[1..] ==> p in pairs;
      ToolsForCons(pairs, h);
      AddPairsEverything(next, pairs[1..], h);
      AddRegisters(value, c, t, h);
      if h == Braced(c) {
        RegisteredText(value, h);
        BracedIsText(t);
        ExtendedEverything(Registered(value, h), h, Braced(t));
      }
    }
  }

  /** Each pair that was added is found: its tool, unless it is the extension's own GUID, stands behind the extension in
      one of the groups that are read. */
  lemma PairsAreRegistered(value: string, pairs: Pairs, p: (string, string))
    requires UsablePairs(pairs) && p in pairs && Braced(p.1) != Braced(p.0)
    ensures exists g :: g in Parse(AddPairs(value, pairs)) && g != [] && g[0] == Braced(p.0) && Braced(p.1) in g[1..]
  {
    hide GuidText, Braced, Usable, AddPairs, Parse, SortGroup;
    var after, h, t := AddPairs(value, pairs), Braced(p.0), Braced(p.1);
    AddPairsEverything(value, pairs, h);
    assert t in ToolsFor(pairs, h);
    var g :| g in Registered(after, h) && t in g;
    RegisteredInText(after, h, g);
    var k :| k in Parse(after) && k != [] && k[0] == h && forall u :: u in k <==> u in g;
    assert t in k;
    assert k == [k[0]] + k[1..];
  }

  lemma RegisteredInText(value: string, h: string, g: Group)
    requires g in Registered(value, h)
    ensures exists k :: k in Parse(value) && k != [] && k[0] == h && forall u :: u in k <==> u in g
  {
    hide GuidText, SortGroup, Parse;
    ParseIsText(value);
    RegisteredText(value, h);
    var gs := Parse(value);
    var cl := ClassOf(HeadKey, gs, h);
    ClassText(gs, h);
    ClassMembers(HeadKey, gs, h);
    var i :| 0 <= i < |cl| && SortGroups(cl)[i] == g;
    assert cl[i] in cl && g == SortGroup(cl[i]);
    SortGroupParts(cl[i]);
    assert cl[i] in gs;
  }
}
