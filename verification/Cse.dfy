/** The extension-names attribute of a policy (backend/samadcon/gpo/cse.py; section 2.2.4 of
    MS-GPOL): groups of GUIDs in brackets, read and written as text. */
module Cse {
  import opened Text
  import opened Sorting

  /** The GUID of an extension, then the GUIDs of its tools. */
  type Group = seq<string>

  // --- Reading ---------------------------------------------------------------------------

  /** The bodies of the bracketed groups, left to right. */
  function FindGroups(s: string): seq<string>
    decreases |s|
  {
    if s == "" then []
    else
      var j := IndexOf(s[1..], ']');
      if s[0] != '[' || j == |s| - 1 then FindGroups(s[1..])
      else [s[1..j + 1]] + FindGroups(s[j + 2..])
  }

  /** The non-empty texts in braces, braces included, left to right. */
  function FindGuids(s: string): seq<string>
    decreases |s|
  {
    if s == "" then []
    else
      var j := IndexOf(s[1..], '}');
      if s[0] != '{' || j == |s| - 1 || j == 0 then FindGuids(s[1..])
      else [s[..j + 2]] + FindGuids(s[j + 2..])
  }

  function Uppers(texts: seq<string>): (r: seq<string>)
    ensures |r| == |texts|
    ensures forall i :: 0 <= i < |texts| ==> r[i] == Upper(texts[i])
  {
    if texts == [] then [] else [Upper(texts[0])] + Uppers(texts[1..])
  }

  function ReadGroups(bodies: seq<string>): seq<Group> {
    if bodies == [] then []
    else
      var guids := Uppers(FindGuids(bodies[0]));
      (if guids == [] then [] else [guids]) + ReadGroups(bodies[1..])
  }

  /** The attribute as groups; an absent one reads as the empty text. */
  function Parse(value: string): seq<Group> {
    ReadGroups(FindGroups(value))
  }

  // --- Writing -----------------------------------------------------------------------------

  function HeadKey(g: Group): string {
    if g == [] then "" else Upper(g[0])
  }

  function ToolKey(tool: string): string {
    Upper(tool)
  }

  function SortGroup(g: Group): Group {
    if g == [] then [] else [g[0]] + SortBy(ToolKey, g[1..])
  }

  function SortGroups(gs: seq<Group>): (r: seq<Group>)
    ensures |r| == |gs|
    ensures forall i :: 0 <= i < |gs| ==> r[i] == SortGroup(gs[i])
  {
    if gs == [] then [] else [SortGroup(gs[0])] + SortGroups(gs[1..])
  }

  function NonEmpty(gs: seq<Group>): seq<Group> {
    if gs == [] then [] else (if gs[0] == [] then [] else [gs[0]]) + NonEmpty(gs[1..])
  }

  function PrintGroups(gs: seq<Group>): string {
    if gs == [] then "" else "[" + Concat(gs[0]) + "]" + PrintGroups(gs[1..])
  }

  /** Groups ascending by extension, tools ascending inside. */
  function Canon(gs: seq<Group>): seq<Group> {
    SortGroups(SortBy(HeadKey, NonEmpty(gs)))
  }

  function Render(gs: seq<Group>): string {
    PrintGroups(Canon(gs))
  }

  // --- Editing -------------------------------------------------------------------------------

  function Braced(guid: string): string {
    "{" + Upper(Strip(guid, {'{', '}'})) + "}"
  }

  function AppendTools(g: Group, tools: seq<string>): Group
    decreases |tools|
  {
    if tools == [] then g
    else AppendTools(if tools[0] in g then g else g + [tools[0]], tools[1..])
  }

  /** The first group of the extension gets the tools it lacks; without one, a new group. */
  function AddGroup(gs: seq<Group>, guid: string, tools: seq<string>): seq<Group> {
    if gs == [] then [[guid] + tools]
    else if gs[0] != [] && gs[0][0] == guid then [AppendTools(gs[0], tools)] + gs[1..]
    else [gs[0]] + AddGroup(gs[1..], guid, tools)
  }

  function Braceds(texts: seq<string>): seq<string> {
    if texts == [] then [] else [Braced(texts[0])] + Braceds(texts[1..])
  }

  function Add(value: string, cse: string, tools: seq<string>): string {
    Render(AddGroup(Parse(value), Braced(cse), Braceds(tools)))
  }

  function DropTool(tools: seq<string>, tool: string): seq<string> {
    if tools == [] then []
    else (if tools[0] == tool then [] else [tools[0]]) + DropTool(tools[1..], tool)
  }

  /** The tool taken out of every group of the extension; a group left without any goes. */
  function RemoveFrom(gs: seq<Group>, guid: string, tool: string): seq<Group> {
    if gs == [] then []
    else if gs[0] != [] && gs[0][0] == guid then
      var kept := DropTool(gs[0][1..], tool);
      (if kept == [] then [] else [[guid] + kept]) + RemoveFrom(gs[1..], guid, tool)
    else [gs[0]] + RemoveFrom(gs[1..], guid, tool)
  }

  function RemoveTool(value: string, cse: string, tool: string): string {
    Render(RemoveFrom(Parse(value), Braced(cse), Braced(tool)))
  }

  type Pairs = seq<(string, string)>

  function AddPairs(value: string, pairs: Pairs): string
    decreases |pairs|
  {
    if pairs == [] then value else AddPairs(Add(value, pairs[0].0, [pairs[0].1]), pairs[1..])
  }

  function RemovePairs(value: string, pairs: Pairs): string
    decreases |pairs|
  {
    if pairs == [] then value else RemovePairs(RemoveTool(value, pairs[0].0, pairs[0].1), pairs[1..])
  }

  // --- The source's loops ---------------------------------------------------------------------

  lemma ConsUpdate<T>(s: seq<T>, i: nat, x: T)
    requires 0 < i < |s|
    ensures [s[0]] + s[1..][i - 1 := x] == s[i := x]
  {
  }

  lemma ConsSnoc<T>(s: seq<T>, x: T)
    requires s != []
    ensures [s[0]] + (s[1..] + [x]) == s + [x]
  {
  }

  lemma AddHere(gs: seq<Group>, guid: string, tools: seq<string>)
    requires gs != [] ==> gs[0] != [] && gs[0][0] == guid
    ensures AddGroup(gs, guid, tools)
         == if gs == [] then [[guid] + tools] else gs[0 := AppendTools(gs[0], tools)]
  {
    hide AppendTools;
  }

  /** Groups of other extensions before the first one that fits are left alone. */
  lemma {:induction false} AddAt(gs: seq<Group>, guid: string, tools: seq<string>, i: nat)
    requires i <= |gs| && forall j :: 0 <= j < i ==> gs[j] != [] && gs[j][0] != guid
    requires i < |gs| ==> gs[i] != [] && gs[i][0] == guid
    ensures AddGroup(gs, guid, tools)
         == if i < |gs| then gs[i := AppendTools(gs[i], tools)] else gs + [[guid] + tools]
    decreases i
  {
    hide AppendTools;
    if i == 0 {
      AddHere(gs, guid, tools);
    } else {
      AddAt(gs[1..], guid, tools, i - 1);
      if i < |gs| {
        ConsUpdate(gs, i, AppendTools(gs[i], tools));
      } else {
        ConsSnoc(gs, [guid] + tools);
      }
    }
  }

  method AddExtension(value: string, cse: string, tools: seq<string>) returns (r: string)
    requires forall g :: g in Parse(value) ==> g != []
    ensures r == Add(value, cse, tools)
  {
    hide Parse, Render, Braced, Braceds, AddGroup, AppendTools;
    var guid := Braced(cse);
    var groups := Parse(value);
    assert forall j :: 0 <= j < |groups| ==> groups[j] in groups;
    for i := 0 to |groups|
      invariant forall j :: 0 <= j < i ==> groups[j][0] != guid
    {
      if groups[i][0] == guid {
        var group := AddTools(groups[i], tools);
        AddAt(groups, guid, Braceds(tools), i);
        return Render(groups[i := group]);
      }
    }
    var added := AddNew(guid, tools);
    AddAt(groups, guid, Braceds(tools), |groups|);
    r := Render(groups + [added]);
  }

  method AddTools(start: Group, tools: seq<string>) returns (group: Group)
    ensures group == AppendTools(start, Braceds(tools))
  {
    hide Braced;
    group := start;
    assert tools[0..] == tools;
    for i := 0 to |tools|
      invariant AppendTools(group, Braceds(tools[i..])) == AppendTools(start, Braceds(tools))
    {
      assert tools[i..][1..] == tools[i + 1..];
      var formatted := Braced(tools[i]);
      assert Braceds(tools[i..])[1..] == Braceds(tools[i + 1..]);
      if formatted !in group {
        group := group + [formatted];
      }
    }
  }

  method AddNew(guid: string, tools: seq<string>) returns (group: Group)
    ensures group == [guid] + Braceds(tools)
  {
    hide Braced;
    group := [guid];
    assert tools[0..] == tools;
    for i := 0 to |tools|
      invariant group + Braceds(tools[i..]) == [guid] + Braceds(tools)
    {
      assert tools[i..][1..] == tools[i + 1..];
      var rest := Braceds(tools[i + 1..]);
      assert group + ([Braced(tools[i])] + rest) == group + [Braced(tools[i])] + rest;
      group := group + [Braced(tools[i])];
    }
    assert group + [] == group;
  }

  method RemoveOneTool(value: string, cse: string, tool: string) returns (r: string)
    requires forall g :: g in Parse(value) ==> g != []
    ensures r == RemoveTool(value, cse, tool)
  {
    hide Parse, Render, Braced;
    var wanted, guid := Braced(tool), Braced(cse);
    var given := Parse(value);
    var groups: seq<Group> := [];
    assert given[0..] == given;
    for i := 0 to |given|
      invariant groups + RemoveFrom(given[i..], guid, wanted) == RemoveFrom(given, guid, wanted)
    {
      assert given[i..][1..] == given[i + 1..];
      var group := given[i];
      ghost var rest := RemoveFrom(given[i + 1..], guid, wanted);
      assert given[i] in given;
      if group[0] == guid {
        group := [group[0]] + DropTool(group[1..], wanted);
        if |group| == 1 {
          assert [] + rest == rest;
          continue;
        }
      }
      assert groups + ([group] + rest) == groups + [group] + rest;
      groups := groups + [group];
    }
    assert groups + [] == groups;
    r := Render(groups);
  }

  /** The folding loop of register_pairs. */
  method RegisterPairs(current: string, pairs: Pairs, present: bool) returns (updated: string)
    ensures updated == if present then AddPairs(current, pairs) else RemovePairs(current, pairs)
  {
    hide Add, RemoveTool;
    updated := current;
    assert pairs[0..] == pairs;
    for i := 0 to |pairs|
      invariant present ==> AddPairs(updated, pairs[i..]) == AddPairs(current, pairs)
      invariant !present ==> RemovePairs(updated, pairs[i..]) == RemovePairs(current, pairs)
    {
      assert pairs[i..][1..] == pairs[i + 1..];
      var (cse, tool) := pairs[i];
      ParsedNonEmpty(updated);
      if present {
        updated := AddExtension(updated, cse, [tool]);
      } else {
        updated := RemoveOneTool(updated, cse, tool);
      }
    }
  }

  lemma ParsedNonEmpty(value: string)
    ensures forall g :: g in Parse(value) ==> g != []
  {
    ReadNonEmpty(FindGroups(value));
  }

  lemma {:induction false} ReadNonEmpty(bodies: seq<string>)
    ensures forall g :: g in ReadGroups(bodies) ==> g != []
  {
    if bodies != [] {
      ReadNonEmpty(bodies[1..]);
    }
  }

  // --- Reading back what was written -------------------------------------------------------------

  /** A GUID as it stands in the attribute: braced, upper case, no brace or bracket inside. */
  predicate GuidText(t: string) {
    && |t| >= 3 && t[0] == '{' && t[|t| - 1] == '}' && Upper(t) == t
    && '}' !in t[1..|t| - 1] && ']' !in t
  }

  predicate GroupsText(gs: seq<Group>) {
    forall g :: g in gs ==> g != [] && forall t :: t in g ==> GuidText(t)
  }

  lemma FirstGuid(t: string, rest: string)
    requires GuidText(t)
    ensures FindGuids(t + rest) == [t] + FindGuids(rest)
  {
    var s := t + rest;
    assert s[1..][..|t| - 2] == t[1..|t| - 1] && s[1..][|t| - 2] == '}';
    IndexOfIs(s[1..], '}', |t| - 2);
    assert s[..|t|] == t && s[|t|..] == rest;
  }

  lemma {:induction false} FindPrintedGuids(g: Group)
    requires forall t :: t in g ==> GuidText(t)
    ensures FindGuids(Concat(g)) == g && ']' !in Concat(g)
  {
    hide FindGuids;
    if g == [] {
      NoGuids();
    } else {
      assert g[0] in g && forall t :: t in g[1..] ==> t in g;
      FindPrintedGuids(g[1..]);
      FirstGuid(g[0], Concat(g[1..]));
    }
  }

  lemma NoGuids()
    ensures FindGuids("") == []
  {
  }

  lemma UppersSame(g: Group)
    requires forall t :: t in g ==> GuidText(t)
    ensures Uppers(g) == g
  {
    forall i | 0 <= i < |g| ensures Uppers(g)[i] == g[i] {
      assert g[i] in g;
    }
  }

  lemma {:induction false} ReadPrinted(gs: seq<Group>)
    requires GroupsText(gs)
    ensures Parse(PrintGroups(gs)) == gs
  {
    hide FindGroups, FindGuids, Uppers, Concat;
    if gs == [] {
      NothingFound();
    } else {
      var body, s := Concat(gs[0]), PrintGroups(gs);
      assert gs[0] in gs && forall g :: g in gs[1..] ==> g in gs;
      FindPrintedGuids(gs[0]);
      UppersSame(gs[0]);
      FindPrintedGroup(body, PrintGroups(gs[1..]));
      assert s == "[" + body + "]" + PrintGroups(gs[1..]);
      ReadPrinted(gs[1..]);
      var rest := FindGroups(PrintGroups(gs[1..]));
      assert ([body] + rest)[1..] == rest;
    }
  }

  lemma NothingFound()
    ensures FindGroups("") == []
  {
  }

  lemma FindPrintedGroup(body: string, rest: string)
    requires ']' !in body
    ensures FindGroups("[" + body + "]" + rest) == [body] + FindGroups(rest)
  {
    var s := "[" + body + "]" + rest;
    assert s[1..] == body + "]" + rest && s[1..][..|body|] == body;
    IndexOfIs(s[1..], ']', |body|);
    assert s[1..|body| + 1] == body && s[|body| + 2..] == rest;
  }

  // --- Whatever was read can be written -------------------------------------------------------------

  lemma {:induction false} FoundGuids(s: string)
    requires ']' !in s
    ensures forall t :: t in FindGuids(s) ==> GuidText(Upper(t))
    decreases |s|
  {
    if s != "" {
      var j := IndexOf(s[1..], '}');
      if s[0] != '{' || j == |s| - 1 || j == 0 {
        FoundGuids(s[1..]);
      } else {
        FoundGuids(s[j + 2..]);
        var t := s[..j + 2];
        assert t[1..|t| - 1] == s[1..][..j];
        FoundGuid(t);
      }
    }
  }

  lemma FoundGuid(t: string)
    requires |t| >= 3 && t[0] == '{' && t[|t| - 1] == '}' && '}' !in t[1..|t| - 1] && ']' !in t
    ensures GuidText(Upper(t))
  {
    UpperIdempotent(t);
    var u := Upper(t);
    forall i | 1 <= i < |u| - 1 ensures u[i] != '}' {
      assert t[1..|t| - 1][i - 1] == t[i];
    }
  }

  lemma {:induction false} FoundBodies(s: string)
    ensures forall b :: b in FindGroups(s) ==> ']' !in b
    decreases |s|
  {
    if s != "" {
      var j := IndexOf(s[1..], ']');
      if s[0] != '[' || j == |s| - 1 {
        FoundBodies(s[1..]);
      } else {
        assert s[1..j + 1] == s[1..][..j];
        FoundBodies(s[j + 2..]);
      }
    }
  }

  lemma {:induction false} ReadIsText(bodies: seq<string>)
    requires forall b :: b in bodies ==> ']' !in b
    ensures GroupsText(ReadGroups(bodies))
  {
    if bodies != [] {
      FoundGuids(bodies[0]);
      ReadIsText(bodies[1..]);
    }
  }

  /** Any text at all reads as groups that can be written. */
  lemma ParseIsText(value: string)
    ensures GroupsText(Parse(value))
  {
    FoundBodies(value);
    ReadIsText(FindGroups(value));
  }

  lemma UpperLacks(s: string)
    requires '}' !in s && ']' !in s
    ensures '}' !in Upper(s) && ']' !in Upper(s)
  {
    forall i | 0 <= i < |s| ensures Upper(s)[i] != '}' && Upper(s)[i] != ']' {
      assert s[i] in s;
    }
  }

  lemma InBraces(u: string)
    requires u != "" && '}' !in u && ']' !in u && Upper(u) == u
    ensures GuidText("{" + u + "}")
  {
    var t := "{" + u + "}";
    assert t[1..|t| - 1] == u;
    forall i | 0 <= i < |t| ensures Upper(t)[i] == t[i] && t[i] != ']' {
      if 0 < i < |t| - 1 { assert Upper(u)[i - 1] == u[i - 1] && u[i - 1] in u; }
    }
  }

  /** What a caller may name: a GUID with or without braces, in any case. */
  predicate Usable(guid: string) {
    var s := Strip(guid, {'{', '}'});
    s != "" && '}' !in s && ']' !in s
  }

  lemma BracedIsText(guid: string)
    requires Usable(guid)
    ensures GuidText(Braced(guid))
  {
    hide Strip, Upper;
    var s := Strip(guid, {'{', '}'});
    UpperIdempotent(s);
    UpperLacks(s);
    InBraces(Upper(s));
  }
}
