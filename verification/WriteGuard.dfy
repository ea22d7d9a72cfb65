/** What a write is checked against before it reaches the directory
    (backend/samadcon/ad/write_guard.py). */
module WriteGuard {
  import opened Text
  import opened Values
  import DnTs

  type Key = seq<string>

  // --- Protected OUs ---------------------------------------------------------------

  /** A value without the spaces around it; an escaped trailing space belongs to it. */
  function TrimmedValue(text: string): string {
    var value := Strip(text, {' '});
    if value != "" && value[|value| - 1] == '\\' then value + " " else value
  }

  /** One component as it is compared: lower case, no space around its parts. */
  function Component(rdn: string): string {
    var k := IndexOf(rdn, '=');
    var value := if k < |rdn| then rdn[k + 1..] else "";
    Lower(Strip(rdn[..k], WHITESPACE)) + "=" + Lower(TrimmedValue(value))
  }

  /** The components of a name as they are spelled. */
  function SplitText(rest: string): seq<string>
    decreases |rest|
  {
    if rest == "" then []
    else [RdnOf(rest)] + match ParentDn(rest) { case None => [] case Some(parent) => SplitText(parent) }
  }

  function Spelling(dn: string): seq<string> {
    SplitText(Strip(dn, WHITESPACE))
  }

  function KeyOf(spelling: seq<string>): (k: Key)
    ensures |k| == |spelling|
    ensures forall i :: 0 <= i < |spelling| ==> k[i] == Component(spelling[i])
  {
    seq(|spelling|, i requires 0 <= i < |spelling| => Component(spelling[i]))
  }

  /** A name as comparable components. */
  function DnKey(dn: string): Key {
    KeyOf(Spelling(dn))
  }

  function SplitRest(rest: Option<string>): seq<string> {
    match rest case None => [] case Some(text) => SplitText(text)
  }

  lemma KeySnoc(done: seq<string>, rdn: string, rest: seq<string>)
    ensures KeyOf(done + [rdn]) == KeyOf(done) + [Component(rdn)]
    ensures done + [rdn] + rest == done + ([rdn] + rest)
  {
    hide Component;
  }

  method ComputeDnKey(dn: string) returns (key: Key)
    ensures key == DnKey(dn)
  {
    var components: Key := [];
    var rest := Some(Strip(dn, WHITESPACE));
    ghost var done: seq<string> := [];
    while rest.Some? && rest.value != ""
      invariant components == KeyOf(done)
      invariant done + SplitRest(rest) == Spelling(dn)
      decreases if rest.Some? then |rest.value| + 1 else 0
    {
      var rdn := ScanRdn(rest.value);
      var parent := ParentDn(rest.value);
      assert SplitRest(rest) == [rdn] + SplitRest(parent);
      KeySnoc(done, rdn, SplitRest(parent));
      components := components + [Component(rdn)];
      done := done + [rdn];
      rest := parent;
    }
    key := components;
    assert done + [] == done;
  }

  predicate Within(key: Key, ancestor: Key) {
    SuffixOf(ancestor, key)
  }

  /** The protected OU that is *dn* or holds it. */
  function ProtectingOu(dn: string, protectedOus: seq<string>): (r: Option<string>)
    ensures r == None <==> forall ou :: ou in protectedOus ==> !Within(DnKey(dn), DnKey(ou))
    ensures r.Some? ==> r.value in protectedOus && Within(DnKey(dn), DnKey(r.value))
  {
    if protectedOus == [] then None
    else if Within(DnKey(dn), DnKey(protectedOus[0])) then Some(protectedOus[0])
    else ProtectingOu(dn, protectedOus[1..])
  }

  /** A protected OU somewhere under *dn*, not *dn* itself. */
  function ProtectedBelow(dn: string, protectedOus: seq<string>): (r: Option<string>)
    ensures r == None <==> forall ou :: ou in protectedOus ==>
                             !(|DnKey(ou)| > |DnKey(dn)| && Within(DnKey(ou), DnKey(dn)))
    ensures r.Some? ==> r.value in protectedOus && |DnKey(r.value)| > |DnKey(dn)|
                        && Within(DnKey(r.value), DnKey(dn))
  {
    if protectedOus == [] then None
    else
      var ou := DnKey(protectedOus[0]);
      if |ou| > |DnKey(dn)| && Within(ou, DnKey(dn)) then Some(protectedOus[0])
      else ProtectedBelow(dn, protectedOus[1..])
  }

  // --- Reserved names ----------------------------------------------------------------

  predicate Checked(attribute: string) {
    || attribute == "samaccountname" || attribute == "userprincipalname"
    || attribute == "mail" || attribute == "proxyaddresses"
  }

  /** What a value is compared as. */
  function Norm(value: string): string {
    Lower(Strip(value, WHITESPACE))
  }

  datatype Hit = Prefix(rule: string) | Name(rule: string)

  function Before(s: string, c: char): string {
    s[..IndexOf(s, c)]
  }

  function RemoveSuffix(s: string, suffix: string): string {
    if EndsWith(s, suffix) then s[..|s| - |suffix|] else s
  }

  function FirstPrefix(local: string, prefixes: seq<string>): Option<Hit> {
    if prefixes == [] then None
    else if prefixes[0] <= local then Some(Prefix(prefixes[0]))
    else FirstPrefix(local, prefixes[1..])
  }

  function FirstName(text: string, local: string, names: seq<string>): Option<Hit> {
    if names == [] then None
    else if (if '@' in names[0] then text else local) == names[0] then Some(Name(names[0]))
    else FirstName(text, local, names[1..])
  }

  function HitLocal(text: string, local: string, prefixes: seq<string>, names: seq<string>): Option<Hit> {
    var hit := FirstPrefix(local, prefixes);
    if hit.Some? then hit else FirstName(text, local, names)
  }

  /** The rule a value of a checked attribute falls under, both already in the compared form. */
  function HitOf(name: string, text: string, prefixes: seq<string>, names: seq<string>): Option<Hit> {
    if !Checked(name) then None
    else if name == "proxyaddresses" then
      var colon := IndexOf(text, ':');
      if colon == |text| || text[..colon] != "smtp" then None
      else
        var address := text[colon + 1..];
        HitLocal(address, Before(address, '@'), prefixes, names)
    else
      var local := Before(text, '@');
      HitLocal(text, if name == "samaccountname" then RemoveSuffix(local, "$") else local, prefixes, names)
  }

  function ReservedHit(attribute: string, value: string, prefixes: seq<string>, names: seq<string>): Option<Hit> {
    HitOf(Lower(attribute), Norm(value), prefixes, names)
  }

  // --- Keys of printed names ------------------------------------------------------------

  /** A name whose printed text does not lose its end to strip(): a white-space character
      that printing leaves bare must not be the last one. */
  predicate KeepsEnd(name: seq<Rdn>) {
    name != [] ==>
      var v := name[|name| - 1].value;
      v == "" || v[|v| - 1] <= ' ' || !IsSpace(v[|v| - 1])
  }

  /** A printed value ends in the way its last character is written. */
  lemma {:induction false} EscapeEnd(v: string, i: nat) returns (stem: string)
    requires i < |v|
    ensures EscapeFrom(v, i) == stem + EscapedAt(v, |v| - 1)
    decreases |v| - i
  {
    hide EscapedAt;
    if i + 1 < |v| {
      var rest := EscapeEnd(v, i + 1);
      stem := EscapedAt(v, i) + rest;
      assert EscapedAt(v, i) + (rest + EscapedAt(v, |v| - 1)) == stem + EscapedAt(v, |v| - 1);
    } else {
      stem := "";
      assert EscapeFrom(v, |v|) == "" && EscapedAt(v, i) + "" == "" + EscapedAt(v, i);
    }
  }

  lemma EscapeStart(v: string)
    requires v != ""
    ensures Escape(v) != "" && Escape(v)[0] != ' '
  {
    assert EscapedAt(v, 0) != "" && Escape(v)[0] == EscapedAt(v, 0)[0];
  }

  /** The compared form of a printed value. */
  function ValueKey(v: string): string {
    if v != "" && v[|v| - 1] == '\\' then Escape(v) + " " else Escape(v)
  }

  predicate SpaceEnd(v: string) {
    v != "" && v[|v| - 1] == ' '
  }

  lemma TrimmedPlain(e: string)
    requires e != "" && e[0] != ' ' && e[|e| - 1] != ' '
    ensures TrimmedValue(e) == if e[|e| - 1] == '\\' then e + " " else e
  {
    hide Strip;
    assert CleanEnds(e, {' '});
  }

  lemma TrimmedSpace(cut: string)
    requires cut != "" && cut[0] != ' ' && cut[|cut| - 1] == '\\'
    ensures TrimmedValue(cut + " ") == cut + " "
  {
    hide Strip;
    assert cut + " " == cut + [' '];
    StripBehind(cut, ' ', {' '});
  }

  lemma EscapeSpaceEnd(v: string) returns (cut: string)
    requires SpaceEnd(v)
    ensures Escape(v) == cut + " " && cut != "" && cut[0] != ' ' && cut[|cut| - 1] == '\\'
  {
    EscapeStart(v);
    var stem := EscapeEnd(v, 0);
    cut := stem + "\\";
    assert EscapedAt(v, |v| - 1) == "\\ ";
    assert Escape(v) == cut + " ";
    assert cut[0] == Escape(v)[0];
  }

  lemma EscapeOtherEnd(v: string)
    requires v != "" && !SpaceEnd(v)
    ensures var e := Escape(v);
            e != "" && e[0] != ' ' && e[|e| - 1] != ' ' && (e[|e| - 1] == '\\' <==> v[|v| - 1] == '\\')
  {
    EscapeStart(v);
    var stem := EscapeEnd(v, 0);
    var last := EscapedAt(v, |v| - 1);
    assert Escape(v)[|Escape(v)| - 1] == last[|last| - 1];
  }

  /** A value that ends in a space is compared the same with and without the space
      strip() takes: its backslash brings it back. */
  lemma TrimPrinted(v: string)
    ensures TrimmedValue(Escape(v)) == ValueKey(v)
    ensures SpaceEnd(v) ==> Escape(v) != "" && TrimmedValue(Escape(v)[..|Escape(v)| - 1]) == ValueKey(v)
  {
    if SpaceEnd(v) {
      var cut := EscapeSpaceEnd(v);
      assert Escape(v)[..|Escape(v)| - 1] == cut;
      TrimmedSpace(cut);
      TrimmedPlain(cut);
    } else if v != "" {
      EscapeOtherEnd(v);
      TrimmedPlain(Escape(v));
    }
  }

  predicate BackslashEnd(v: string) {
    v != "" && v[|v| - 1] == '\\'
  }

  /** Different values have different compared forms, whatever they end in. */
  lemma ValueKeyInjective(a: string, b: string)
    ensures ValueKey(a) == ValueKey(b) <==> a == b
  {
    EscapeInjective(a, b);
    if BackslashEnd(b) { NoBareEnd(a, b); }
    if BackslashEnd(a) { NoBareEnd(b, a); }
    assert (Escape(a) + " ")[..|Escape(a)|] == Escape(a);
    assert (Escape(b) + " ")[..|Escape(b)|] == Escape(b);
  }

  /** No printed value is one that ends in a backslash, with a bare space after it. */
  lemma NoBareEnd(a: string, b: string)
    requires BackslashEnd(b)
    ensures Escape(a) != Escape(b) + " "
  {
    UnescapeEscapeFrom(b, 0, " ");
    UnescapeEscape(a);
    assert b[0..] == b && Unescape(" ") == " ";
    LongerEscape(b, 0);
  }

  /** A space put behind changes no character of a value that ends in a backslash. */
  lemma SpaceBehind(b: string, i: nat)
    requires i < |b| && BackslashEnd(b)
    ensures |EscapedAt(b + " ", i)| == |EscapedAt(b, i)|
  {
    assert (b + " ")[i] == b[i];
  }

  lemma SpaceAlone(b: string)
    ensures |EscapeFrom(b + " ", |b|)| == |EscapeFrom(b, |b|)| + 2
  {
    assert (b + " ")[|b|] == ' ' && EscapeFrom(b + " ", |b| + 1) == "";
  }

  lemma {:induction false} LongerEscape(b: string, i: nat)
    requires i <= |b| && BackslashEnd(b)
    ensures |EscapeFrom(b + " ", i)| == |EscapeFrom(b, i)| + 2
    decreases |b| - i
  {
    hide EscapedAt;
    if i < |b| {
      LongerEscape(b, i + 1);
      SpaceBehind(b, i);
    } else {
      SpaceAlone(b);
    }
  }

  function RdnKey(r: Rdn): string {
    Lower(r.kind) + "=" + Lower(ValueKey(r.value))
  }

  function NameKey(name: seq<Rdn>): (k: Key)
    ensures |k| == |name|
    ensures forall i :: 0 <= i < |name| ==> k[i] == RdnKey(name[i])
  {
    hide RdnKey;
    if name == [] then [] else [RdnKey(name[0])] + NameKey(name[1..])
  }

  lemma KindIsClean(kind: string)
    requires ValidKind(kind)
    ensures Strip(kind, WHITESPACE) == kind
  {
    assert kind[0] in kind && kind[|kind| - 1] in kind;
  }

  lemma ComponentParts(kind: string, value: string)
    requires ValidKind(kind)
    ensures Component(kind + "=" + value) == Lower(kind) + "=" + Lower(TrimmedValue(value))
  {
    var text := kind + "=" + value;
    KindIsClean(kind);
    assert forall c :: c in kind ==> KindChar(c) && c != '=';
    assert text[..|kind|] == kind && text[|kind| + 1..] == value;
    IndexOfIs(text, '=', |kind|);
  }

  /** A printed component without the trailing space strip() takes when it ends the name. */
  function EndPrint(r: Rdn): string {
    var e := Escape(r.value);
    r.kind + "=" + if SpaceEnd(r.value) && e != "" then e[..|e| - 1] else e
  }

  lemma ComponentOf(r: Rdn, e: string)
    requires ValidKind(r.kind) && TrimmedValue(e) == ValueKey(r.value)
    ensures Component(r.kind + "=" + e) == RdnKey(r)
  {
    ComponentParts(r.kind, e);
  }

  /** The guard reads a printed component as its kind and its value, with or without that space. */
  lemma ComponentPrinted(r: Rdn)
    requires ValidKind(r.kind)
    ensures Component(r.Print()) == RdnKey(r)
    ensures Component(EndPrint(r)) == RdnKey(r)
  {
    var e := Escape(r.value);
    assert TrimmedValue(e) == ValueKey(r.value) by { TrimPrinted(r.value); }
    ComponentOf(r, e);
    if SpaceEnd(r.value) && e != "" {
      var cut := e[..|e| - 1];
      assert TrimmedValue(cut) == ValueKey(r.value) by { TrimPrinted(r.value); }
      ComponentOf(r, cut);
    }
  }

  // --- The key of a printed name ----------------------------------------------------------

  function EndDn(name: seq<Rdn>): string {
    if name == [] then ""
    else if |name| == 1 then EndPrint(name[0])
    else name[0].Print() + "," + EndDn(name[1..])
  }

  lemma {:induction false} RdnLenCut(t: string)
    requires t != "" && RdnLen(t) == |t|
    ensures RdnLen(t[..|t| - 1]) == |t| - 1
    decreases |t|
  {
    var cut := t[..|t| - 1];
    if |t| > 1 {
      if t[0] != '\\' {
        assert cut[1..] == t[1..][..|t| - 2];
        RdnLenCut(t[1..]);
      } else if |t| > 2 {
        assert cut[2..] == t[2..][..|t| - 3];
        RdnLenCut(t[2..]);
      }
    }
  }

  lemma EndPrintRdn(r: Rdn)
    requires ValidKind(r.kind)
    ensures RdnOf(EndPrint(r)) == EndPrint(r) && ParentDn(EndPrint(r)) == None
  {
    SplitLast(r);
    var text, e := r.Print(), Escape(r.value);
    assert RdnLen(text) == |text|;
    if SpaceEnd(r.value) && e != "" {
      RdnLenCut(text);
      assert text[..|text| - 1] == EndPrint(r);
    }
  }

  lemma EndPrintStarts(r: Rdn)
    requires ValidKind(r.kind)
    ensures EndPrint(r) != "" && KindChar(EndPrint(r)[0])
  {
    assert r.kind[0] in r.kind && EndPrint(r)[0] == r.kind[0];
  }

  lemma EndDnStart(name: seq<Rdn>)
    requires Valid(name) && name != []
    ensures EndDn(name) != "" && KindChar(EndDn(name)[0])
  {
    assert name[0] in name;
    if |name| == 1 {
      EndPrintStarts(name[0]);
    } else {
      PrintStart(name[..1]);
      assert EndDn(name)[0] == name[0].Print()[0];
    }
  }

  lemma SplitEndCons(name: seq<Rdn>)
    requires Valid(name) && |name| > 1
    ensures SplitText(EndDn(name)) == [name[0].Print()] + SplitText(EndDn(name[1..]))
  {
    hide RdnOf, ParentDn, ValidKind, Rdn.Print, KindChar;
    assert name[0] in name;
    var rest := EndDn(name[1..]);
    var all := name[0].Print() + "," + rest;
    assert EndDn(name) == all && all != "";
    SplitPrinted(name[0], rest);
    EndDnStart(name[1..]);
    assert rest[0] !in WHITESPACE by { KindIsNoSpace(rest[0]); }
    assert RdnOf(all) == name[0].Print() && ParentDn(all) == Some(rest);
  }

  lemma KindIsNoSpace(c: char)
    requires KindChar(c)
    ensures c !in WHITESPACE
  {
  }

  lemma SplitEndOne(r: Rdn)
    requires ValidKind(r.kind)
    ensures SplitText(EndDn([r])) == [EndPrint(r)]
  {
    hide RdnOf, ParentDn, ValidKind, EndPrint, KindChar;
    EndPrintRdn(r);
    EndPrintStarts(r);
    assert EndDn([r]) == EndPrint(r) && [EndPrint(r)] + [] == [EndPrint(r)];
  }

  lemma {:induction false} SplitEndDn(name: seq<Rdn>)
    requires Valid(name)
    ensures KeyOf(SplitText(EndDn(name))) == NameKey(name)
  {
    hide SplitText, EndDn, EndPrint, ValidKind, Rdn.Print, Component, RdnKey;
    if name == [] {
      assert SplitText(EndDn(name)) == [] by { NothingToSplit(); }
    } else {
      assert name[0] in name;
      ComponentPrinted(name[0]);
      if |name| == 1 {
        SplitEndOne(name[0]);
        assert name == [name[0]];
      } else {
        var rest := name[1..];
        assert Valid(rest);
        SplitEndDn(rest);
        SplitEndCons(name);
        KeyCons(name[0].Print(), SplitText(EndDn(rest)));
      }
    }
  }

  lemma NothingToSplit()
    ensures SplitText(EndDn([])) == []
  {
  }

  lemma KeyCons(first: string, rest: seq<string>)
    ensures KeyOf([first] + rest) == [Component(first)] + KeyOf(rest)
  {
    hide Component;
  }

  /** How the text of a name ends after strip(). */
  lemma EndOfPrint(r: Rdn)
    requires ValidKind(r.kind) && KeepsEnd([r])
    ensures r.Print() == EndPrint(r) || r.Print() == EndPrint(r) + " "
    ensures EndPrint(r) != "" && !IsSpace(EndPrint(r)[|EndPrint(r)| - 1])
  {
    var v := r.value;
    if SpaceEnd(v) {
      var cut := EscapeSpaceEnd(v);
      assert Escape(v)[..|Escape(v)| - 1] == cut;
      assert EndPrint(r)[|EndPrint(r)| - 1] == '\\';
    } else if v == "" {
      assert EndPrint(r)[|EndPrint(r)| - 1] == '=';
    } else {
      var stem := EscapeEnd(v, 0);
      var last := EscapedAt(v, |v| - 1);
      assert EndPrint(r)[|EndPrint(r)| - 1] == last[|last| - 1];
    }
  }

  lemma EndBehind(p: string, s: string, t: string)
    requires t != "" && (s == t || s == t + " ")
    ensures p + s == p + t || p + s == p + t + " "
    ensures (p + t)[|p + t| - 1] == t[|t| - 1]
  {
  }

  lemma {:induction false} EndOfText(name: seq<Rdn>)
    requires Valid(name) && name != [] && KeepsEnd(name)
    ensures PrintDn(name) == EndDn(name) || PrintDn(name) == EndDn(name) + " "
    ensures EndDn(name) != "" && !IsSpace(EndDn(name)[|EndDn(name)| - 1])
  {
    hide EndPrint, ValidKind, IsSpace;
    assert name[0] in name;
    if |name| == 1 {
      EndOfPrint(name[0]);
    } else {
      EndOfText(name[1..]);
      assert PrintDn(name) == name[0].Print() + "," + PrintDn(name[1..]);
      assert EndDn(name) == name[0].Print() + "," + EndDn(name[1..]);
      EndBehind(name[0].Print() + ",", PrintDn(name[1..]), EndDn(name[1..]));
    }
  }

  lemma StripEnds(s: string, t: string)
    requires t != "" && !IsSpace(t[0]) && !IsSpace(t[|t| - 1])
    requires s == t || s == t + " "
    ensures Strip(s, WHITESPACE) == t
  {
    assert s[0] == t[0];
    TrimRightSnoc(t, ' ', WHITESPACE);
  }

  /** The key the guard computes from the text of a name is the name, component by
      component and whatever the values hold. */
  lemma KeyOfPrinted(name: seq<Rdn>)
    requires Valid(name) && KeepsEnd(name)
    ensures DnKey(PrintDn(name)) == NameKey(name)
  {
    if name != [] {
      EndOfText(name);
      EndDnStart(name);
      StripEnds(PrintDn(name), EndDn(name));
      SplitEndDn(name);
    }
  }

  lemma LowerValueKey(v: string)
    ensures Lower(ValueKey(v)) == ValueKey(Lower(v))
  {
    LowerEscapeFrom(v, 0);
    LowerConcat(Escape(v), " ");
    assert Lower(" ") == " ";
    if v != "" {
      assert Lower(v)[|v| - 1] == LowerChar(v[|v| - 1]);
    }
  }

  lemma RdnKeyIff(a: Rdn, b: Rdn)
    requires ValidKind(a.kind) && ValidKind(b.kind)
    ensures RdnKey(a) == RdnKey(b) <==> LowerRdn(a) == LowerRdn(b)
  {
    LowerValueKey(a.value);
    LowerValueKey(b.value);
    ValueKeyInjective(Lower(a.value), Lower(b.value));
    LowerKindPart(a);
    LowerKindPart(b);
  }

  lemma LowerKindPart(r: Rdn)
    requires ValidKind(r.kind)
    ensures var k := RdnKey(r);
            && IndexOf(k, '=') == |r.kind| && k[..|r.kind|] == Lower(r.kind)
            && k[|r.kind| + 1..] == Lower(ValueKey(r.value))
  {
    var k := RdnKey(r);
    assert k[..|r.kind|] == Lower(r.kind);
    forall i | 0 <= i < |r.kind| ensures k[i] != '=' {
      assert r.kind[i] in r.kind;
    }
    IndexOfIs(k, '=', |r.kind|);
  }

  lemma {:induction false} NameKeyIff(d: seq<Rdn>, a: seq<Rdn>)
    requires Valid(d) && Valid(a) && |d| == |a|
    ensures NameKey(d) == NameKey(a) <==> LowerName(d) == LowerName(a)
  {
    hide RdnKey, LowerRdn, ValidKind, LowerName;
    if d != [] {
      assert d[0] in d && a[0] in a;
      RdnKeyIff(d[0], a[0]);
      NameKeyIff(d[1..], a[1..]);
      LowerCons(d);
      LowerCons(a);
      SameParts(LowerRdn(d[0]), LowerName(d[1..]), LowerRdn(a[0]), LowerName(a[1..]));
      SameParts(RdnKey(d[0]), NameKey(d[1..]), RdnKey(a[0]), NameKey(a[1..]));
    }
  }

  lemma LowerCons(d: seq<Rdn>)
    requires d != []
    ensures LowerName(d) == [LowerRdn(d[0])] + LowerName(d[1..])
  {
    hide LowerRdn;
  }

  lemma SameParts<T>(x: T, xs: seq<T>, y: T, ys: seq<T>)
    ensures [x] + xs == [y] + ys <==> x == y && xs == ys
  {
    assert ([x] + xs)[1..] == xs && ([y] + ys)[1..] == ys;
    assert ([x] + xs)[0] == x && ([y] + ys)[0] == y;
  }

  lemma {:induction false} KeyDrop(d: seq<Rdn>, n: nat)
    requires n <= |d|
    ensures NameKey(d)[n..] == NameKey(d[n..])
    decreases n
  {
    hide RdnKey;
    if n > 0 {
      KeyDrop(d[1..], n - 1);
      assert d[n..] == d[1..][n - 1..] && NameKey(d)[n..] == NameKey(d[1..])[n - 1..];
    }
  }

  lemma LowerDrop(d: seq<Rdn>, n: nat)
    requires n <= |d|
    ensures LowerName(d)[n..] == LowerName(d[n..])
  {
    hide LowerRdn;
  }

  lemma NameKeySuffix(d: seq<Rdn>, a: seq<Rdn>)
    requires Valid(d) && Valid(a)
    ensures Within(NameKey(d), NameKey(a)) <==> SuffixOf(LowerName(a), LowerName(d))
  {
    hide RdnKey, LowerRdn, ValidKind;
    if |a| <= |d| {
      KeyDrop(d, |d| - |a|);
      LowerDrop(d, |d| - |a|);
      NameKeyIff(d[|d| - |a|..], a);
    }
  }

  /** The server's guard and the console answer the containment question alike. */
  lemma GuardAgreesWithConsole(d: seq<Rdn>, ou: seq<Rdn>)
    requires Valid(d) && Valid(ou) && ou != [] && KeepsEnd(d) && KeepsEnd(ou)
    ensures ProtectingOu(PrintDn(d), [PrintDn(ou)]).Some?
       <==> DnTs.IsAtOrBelow(Some(PrintDn(d)), PrintDn(ou))
  {
    hide DnKey, PrintDn, DnTs.IsAtOrBelow, Within, NameKey;
    KeyOfPrinted(d);
    KeyOfPrinted(ou);
    NameKeySuffix(d, ou);
    DnTs.AtOrBelowIsSuffix(d, ou);
    var ous := [PrintDn(ou)];
    assert ous[0] in ous;
    assert forall x :: x in ous ==> x == PrintDn(ou);
  }
}
