/** The console's own reading of distinguished names (frontend/src/dn.ts). */
module DnTs {
  import opened Text
  import opened Values

  /** Length of the match of the anchored pattern for one RDN. */
  function TokenLen(dn: string): (n: nat)
    ensures n <= |dn|
    decreases |dn|
  {
    if dn == "" || dn[0] == ',' then 0
    else if dn[0] == '\\' then
      if |dn| >= 2 && dn[1] !in LINE_TERMINATORS then 2 + TokenLen(dn[2..]) else 0
    else 1 + TokenLen(dn[1..])
  }

  predicate IsLetter(c: char) {
    'a' <= c <= 'z' || 'A' <= c <= 'Z'
  }

  /** How many letters the text starts with. */
  function Letters(s: string): (n: nat)
    ensures n <= |s|
  {
    if s != "" && IsLetter(s[0]) then 1 + Letters(s[1..]) else 0
  }

  /** Without a leading run of letters and an equals sign. */
  function StripKind(s: string): string {
    var n := Letters(s);
    if 0 < n < |s| && s[n] == '=' then s[n + 1..] else s
  }

  /** Every backslash pair replaced by its second character. */
  function Unquote(s: string): string
    decreases |s|
  {
    if s == "" then ""
    else if s[0] == '\\' && |s| >= 2 && s[1] !in LINE_TERMINATORS then [s[1]] + Unquote(s[2..])
    else [s[0]] + Unquote(s[1..])
  }

  function NameFromDn(dn: string): string {
    Unquote(StripKind(dn[..TokenLen(dn)]))
  }

  function ParentOf(dn: string): string {
    var n := TokenLen(dn);
    if n < |dn| then dn[n + 1..] else ""
  }

  predicate IsAtOrBelow(dn: Option<string>, ancestor: string) {
    && dn.Some? && dn.value != ""
    && var lower, above := Lower(dn.value), Lower(ancestor);
       lower == above || EndsWith(lower, "," + above)
  }

  function Relocate(dn: string, from: string, to: Option<string>): string {
    if !IsAtOrBelow(Some(dn), from) then dn
    else if to == None then ParentOf(from)
    else
      assert |dn| >= |from| by { assert |Lower(dn)| == |dn| && |Lower(from)| == |from|; }
      dn[..|dn| - |from|] + to.value
  }

  // --- One language, two parsers ---------------------------------------------------

  /** The number of backslashes standing directly before position *i*. */
  function RunBefore(dn: string, i: nat): nat
    requires i <= |dn|
  {
    if i > 0 && dn[i - 1] == '\\' then 1 + RunBefore(dn, i - 1) else 0
  }

  /** An unescaped backslash with nothing after it that the pattern's dot takes. */
  predicate Stuck(dn: string, i: nat)
    requires i < |dn|
  {
    dn[i] == '\\' && RunBefore(dn, i) % 2 == 0 && (i + 1 == |dn| || dn[i + 1] in LINE_TERMINATORS)
  }

  lemma RunOn(dn: string, p: nat)
    requires p < |dn| && RunBefore(dn, p) % 2 == 0
    ensures RunBefore(dn, p + 1) % 2 == if dn[p] == '\\' then 1 else 0
    ensures dn[p] == '\\' && p + 1 < |dn| ==> RunBefore(dn, p + 2) % 2 == 0
  {
  }

  lemma {:induction false} TokensAgreeFrom(dn: string, p: nat)
    requires p <= |dn| && RunBefore(dn, p) % 2 == 0
    ensures TokenLen(dn[p..]) == RdnLen(dn[p..])
       <==> !exists i :: p <= i < p + RdnLen(dn[p..]) && Stuck(dn, i)
    decreases |dn| - p
  {
    hide RunBefore;
    if p < |dn| && dn[p] != ',' {
      RdnLenAt(dn, p);
      RunOn(dn, p);
      assert dn[p..][1..] == dn[p + 1..];
      if dn[p] != '\\' {
        TokensAgreeFrom(dn, p + 1);
      } else if p + 1 == |dn| || dn[p + 1] in LINE_TERMINATORS {
        assert Stuck(dn, p);
      } else {
        assert dn[p..][2..] == dn[p + 2..];
        assert !Stuck(dn, p) && !Stuck(dn, p + 1);
        TokensAgreeFrom(dn, p + 2);
        assert forall i :: p <= i < p + 2 ==> !Stuck(dn, i);
      }
    }
  }

  /** The console and the server cut the same first component off a name, exactly
      when that component holds no stuck backslash. */
  lemma ParsersAgree(dn: string)
    ensures dn[..TokenLen(dn)] == RdnOf(dn)
       <==> !exists i :: 0 <= i < RdnLen(dn) && Stuck(dn, i)
  {
    assert dn[0..] == dn;
    TokensAgreeFrom(dn, 0);
    assert |dn[..TokenLen(dn)]| == TokenLen(dn) && |RdnOf(dn)| == RdnLen(dn);
  }

  lemma {:induction false} WholeTokens(s: string, t: string)
    requires Whole(s)
    ensures TokenLen(s + t) == |s| + TokenLen(t)
    decreases |s|
  {
    if s == "" {
      assert s + t == t;
    } else if s[0] == '\\' {
      assert (s + t)[2..] == s[2..] + t;
      WholeTokens(s[2..], t);
    } else {
      assert (s + t)[1..] == s[1..] + t;
      WholeTokens(s[1..], t);
    }
  }

  /** What is left of a printed name below its first component: the console's parent
      is the text after the comma, whatever that text is. */
  lemma ParentOfPrinted(r: Rdn, parent: string)
    requires ValidKind(r.kind)
    ensures ParentOf(r.Print() + "," + parent) == parent
  {
    PrintIsWhole(r);
    WholeTokens(r.Print(), "," + parent);
    assert r.Print() + "," + parent == r.Print() + ("," + parent);
  }

  lemma ParentOfName(name: seq<Rdn>)
    requires Valid(name) && name != []
    ensures ParentOf(PrintDn(name)) == PrintDn(name[1..])
  {
    assert name[0] in name;
    if |name| == 1 {
      PrintIsWhole(name[0]);
      WholeTokens(name[0].Print(), "");
      assert name[0].Print() + "" == name[0].Print();
    } else {
      ParentOfPrinted(name[0], PrintDn(name[1..]));
    }
  }

  // --- The name comes back ------------------------------------------------------------

  predicate HasControl(v: string) {
    exists c :: c in v && c < ' '
  }

  lemma UnquoteOne(v: string, i: nat, t: string)
    requires i < |v|
    ensures var u := Unquote(EscapedAt(v, i) + t);
            if v[i] < ' ' then |u| == 2 + |Unquote(t)| else u == [v[i]] + Unquote(t)
  {
    var a := EscapedAt(v, i);
    var s := a + t;
    assert s[|a|..] == t;
    if |a| == 3 {
      assert s[2..][0] == a[2] && a[2] != '\\' && s[2..][1..] == t;
    }
  }

  lemma NothingQuoted()
    ensures Unquote("") == ""
  {
  }

  lemma {:induction false} UnquoteEscapeFrom(v: string, i: nat)
    requires i <= |v|
    ensures var u := Unquote(EscapeFrom(v, i));
            && |u| >= |v| - i
            && if HasControl(v[i..]) then |u| > |v| - i else u == v[i..]
    decreases |v| - i
  {
    hide EscapedAt, Unquote;
    if i == |v| {
      assert Unquote("") == "" by { NothingQuoted(); }
    } else {
      UnquoteEscapeFrom(v, i + 1);
      UnquoteOne(v, i, EscapeFrom(v, i + 1));
      assert v[i..] == [v[i]] + v[i + 1..];
      if v[i] < ' ' {
        assert v[i] in v[i..];
      }
      if HasControl(v[i + 1..]) {
        var c :| c in v[i + 1..] && c < ' ';
        assert c in v[i..];
      }
    }
  }

  lemma {:induction false} LettersOfKind(kind: string, t: string)
    requires forall c :: c in kind ==> IsLetter(c)
    ensures Letters(kind + "=" + t) == |kind|
  {
    var s := kind + "=" + t;
    if kind == "" {
      assert s[0] == '=';
    } else {
      assert s[1..] == kind[1..] + "=" + t;
      assert kind[0] in kind;
      LettersOfKind(kind[1..], t);
    }
  }

  lemma {:induction false} UnquotePlain(s: string, t: string)
    requires '\\' !in s
    ensures Unquote(s + t) == s + Unquote(t)
  {
    if s == "" {
      assert s + t == t;
    } else {
      assert s[0] in s && (s + t)[1..] == s[1..] + t;
      UnquotePlain(s[1..], t);
    }
  }

  predicate AllLetters(kind: string) {
    forall c :: c in kind ==> IsLetter(c)
  }

  /** Another attribute type is not taken off: its leading letters end before the equals sign. */
  lemma {:induction false} LettersStop(kind: string, t: string)
    requires ValidKind(kind) && !AllLetters(kind)
    ensures var n := Letters(kind + "=" + t); n < |kind| && (kind + "=" + t)[n] != '='
  {
    assert kind[0] in kind;
    if IsLetter(kind[0]) {
      assert (kind + "=" + t)[1..] == kind[1..] + "=" + t;
      assert forall c :: c in kind ==> c == kind[0] || c in kind[1..];
      LettersStop(kind[1..], t);
    }
  }

  /** Printed and read by the console, a value comes back exactly when its attribute type is
      all letters and it holds no control character. */
  lemma NameRoundTrip(r: Rdn, parent: string)
    requires ValidKind(r.kind)
    ensures NameFromDn(r.Print() + "," + parent) == r.value <==> AllLetters(r.kind) && !HasControl(r.value)
  {
    var dn := r.Print() + "," + parent;
    PrintIsWhole(r);
    assert dn == r.Print() + ("," + parent);
    WholeTokens(r.Print(), "," + parent);
    UnquoteEscapeFrom(r.value, 0);
    assert r.value[0..] == r.value;
    if AllLetters(r.kind) {
      LettersOfKind(r.kind, Escape(r.value));
      assert r.Print()[|r.kind| + 1..] == Escape(r.value);
    } else {
      LettersStop(r.kind, Escape(r.value));
      assert forall c :: c in r.kind ==> KindChar(c) && c != '\\';
      UnquotePlain(r.kind + "=", Escape(r.value));
    }
  }

  // --- Containment as a question about text ------------------------------------------------

  /** How the text of a name starts: an attribute type and an equals sign. */
  predicate StartsLikeName(s: string) {
    exists m {:trigger s[m]} :: 0 < m < |s| && s[m] == '=' && forall i :: 0 <= i < m ==> KindChar(s[i])
  }

  lemma NameStart(a: seq<Rdn>)
    requires Valid(a) && a != []
    ensures StartsLikeName(PrintDn(a))
  {
    var text, kind := PrintDn(a), a[0].kind;
    assert a[0] in a;
    assert a[0].Print() <= text;
    assert text[|kind|] == '=';
    forall i | 0 <= i < |kind| ensures KindChar(text[i]) {
      assert text[i] == kind[i] && kind[i] in kind;
    }
  }

  /** Inside one component, what follows a comma does not start like a name. */
  lemma InnerComma(r: Rdn, k: nat, t: string)
    requires ValidKind(r.kind)
    requires k < |r.Print()| && r.Print()[k] == ','
    requires t == "" || t[0] == ','
    ensures !StartsLikeName(r.Print()[k + 1..] + t)
  {
    var tail := r.Print()[k + 1..];
    var s := tail + t;
    assert k > |r.kind| by {
      assert forall i :: 0 <= i < |r.kind| ==> r.Print()[i] == r.kind[i] && r.kind[i] in r.kind;
    }
    EscapedEquals(r.value, 0);
    forall m | 0 < m < |s| && s[m] == '=' ensures exists i :: 0 <= i < m && !KindChar(s[i]) {
      if m < |tail| {
        var j := k + m - |r.kind|;
        assert Escape(r.value)[j] == s[m];
        assert s[m - 1] == Escape(r.value)[j - 1] == '\\';
      } else {
        assert s[|tail|] == t[0];
      }
    }
  }

  /** Where the comma of a suffix *","* + x can fall in a text of one component and a rest. */
  lemma CommaFalls(first: string, t: string, x: string)
    requires EndsWith(first + t, "," + x)
    ensures var k := |first + t| - |x| - 1;
            if k < |first| then first[k] == ',' && first[k + 1..] + t == x
            else if k == |first| then t == "," + x
            else |t| > 1 && EndsWith(t[1..], "," + x)
  {
    var text, k := first + t, |first + t| - |x| - 1;
    assert text[k..] == "," + x;
    assert text[k] == ',' && text[k + 1..] == x;
    if k < |first| {
      assert text[k + 1..] == first[k + 1..] + t;
    } else {
      assert text[k..] == t[k - |first|..];
      if k > |first| {
        assert t[1..][k - |first| - 1..] == t[k - |first|..];
      }
    }
  }

  lemma {:induction false} EndsWithName(d: seq<Rdn>, a: seq<Rdn>)
    requires Valid(d) && Valid(a) && a != []
    requires EndsWith(PrintDn(d), "," + PrintDn(a))
    ensures |a| < |d| && SuffixOf(a, d)
  {
    hide Rdn.Print, ValidKind, StartsLikeName;
    assert d != [] && d[0] in d;
    var first := d[0].Print();
    var t := if |d| == 1 then "" else "," + PrintDn(d[1..]);
    assert PrintDn(d) == first + t;
    CommaFalls(first, t, PrintDn(a));
    var k := |first + t| - |PrintDn(a)| - 1;
    if k < |first| {
      NameStart(a);
      InnerComma(d[0], k, t);
      assert false;
    } else if k == |first| {
      assert t[1..] == PrintDn(d[1..]);
      PrintDnInjective(d[1..], a);
    } else {
      assert t[1..] == PrintDn(d[1..]);
      EndsWithName(d[1..], a);
    }
  }

  lemma {:induction false} PrintAppend(d: seq<Rdn>, a: seq<Rdn>)
    requires d != [] && a != []
    ensures PrintDn(d + a) == PrintDn(d) + "," + PrintDn(a)
  {
    if |d| == 1 {
      assert (d + a)[1..] == a;
    } else {
      assert (d + a)[1..] == d[1..] + a;
      PrintAppend(d[1..], a);
    }
  }

  lemma SuffixTextIff(d: seq<Rdn>, a: seq<Rdn>)
    requires Valid(d) && Valid(a) && a != []
    ensures PrintDn(d) == PrintDn(a) || EndsWith(PrintDn(d), "," + PrintDn(a)) <==> SuffixOf(a, d)
  {
    hide PrintDn, ValidKind, EndsWith;
    PrintDnInjective(d, a);
    if EndsWith(PrintDn(d), "," + PrintDn(a)) {
      EndsWithName(d, a);
    }
    if SuffixOf(a, d) && d != a {
      var pre := d[..|d| - |a|];
      assert d == pre + a;
      PrintAppend(pre, a);
      EndsWithOwn(PrintDn(pre), "," + PrintDn(a));
      assert PrintDn(d) == PrintDn(pre) + ("," + PrintDn(a));
    }
  }

  lemma EndsWithOwn(head: string, tail: string)
    ensures EndsWith(head + tail, tail)
  {
  }

  /** The string test is the containment of the names, compared without case. */
  lemma AtOrBelowIsSuffix(d: seq<Rdn>, a: seq<Rdn>)
    requires Valid(d) && Valid(a) && a != []
    ensures IsAtOrBelow(Some(PrintDn(d)), PrintDn(a)) <==> SuffixOf(LowerName(a), LowerName(d))
  {
    LowerPrintDn(d);
    LowerPrintDn(a);
    LowerValid(d);
    LowerValid(a);
    SuffixTextIff(LowerName(d), LowerName(a));
    if d != [] { PrintStart(d); }
  }

  lemma NothingPrinted()
    ensures PrintDn([]) == ""
  {
  }

  /** With no ancestor named, the test is about the last character instead. */
  lemma BelowNothing(d: seq<Rdn>)
    requires Valid(d)
    ensures IsAtOrBelow(Some(PrintDn(d)), PrintDn([])) <==> EndsWith(PrintDn(d), ",")
  {
    hide PrintDn, ValidKind;
    var text := PrintDn(d);
    assert PrintDn([]) == "" by { NothingPrinted(); }
    if text != "" {
      assert Lower(text)[|text| - 1] == LowerChar(text[|text| - 1]);
      assert "," + Lower("") == ",";
      assert EndsWith(text, ",") <==> text[|text| - 1] == ',';
      assert EndsWith(Lower(text), ",") <==> Lower(text)[|text| - 1] == ',';
    }
  }

  // --- Following a rename -------------------------------------------------------------------

  /** Where a rename of the subtree at *from* to *to* puts the object named *d*. */
  function Moved(d: seq<Rdn>, from: seq<Rdn>, to: seq<Rdn>): seq<Rdn> {
    if SuffixOf(LowerName(from), LowerName(d)) then d[..|d| - |from|] + to else d
  }

  lemma LowerEnd(d: seq<Rdn>, from: seq<Rdn>)
    requires SuffixOf(LowerName(from), LowerName(d))
    ensures |from| <= |d| && LowerName(d[|d| - |from|..]) == LowerName(from)
  {
    var moved := d[|d| - |from|..];
    forall i | 0 <= i < |from| ensures LowerName(moved)[i] == LowerName(from)[i] {
      assert moved[i] == d[|d| - |from| + i];
    }
  }

  /** The console moves a position exactly where the directory moves the object. */
  lemma RelocateFollowsRename(d: seq<Rdn>, from: seq<Rdn>, to: seq<Rdn>)
    requires Valid(d) && Valid(from) && Valid(to) && from != [] && to != []
    ensures Relocate(PrintDn(d), PrintDn(from), Some(PrintDn(to))) == PrintDn(Moved(d, from, to))
  {
    hide PrintDn, ValidKind, IsAtOrBelow, Lower, LowerName;
    AtOrBelowIsSuffix(d, from);
    if SuffixOf(LowerName(from), LowerName(d)) {
      LowerEnd(d, from);
      var n := |d| - |from|;
      var pre, moved := d[..n], d[n..];
      assert d == pre + moved;
      LowerPrintDn(moved);
      LowerPrintDn(from);
      assert |PrintDn(moved)| == |Lower(PrintDn(moved))| == |PrintDn(from)|;
      if pre == [] {
        assert d == moved && PrintDn(d)[..0] + PrintDn(to) == PrintDn(to) && pre + to == to;
      } else {
        PrintAppend(pre, moved);
        PrintAppend(pre, to);
        assert PrintDn(d)[..|PrintDn(d)| - |PrintDn(from)|] == PrintDn(pre) + ",";
      }
    }
  }

  /** After a deletion the console shows the deleted object's parent, and a position
      elsewhere stays. */
  lemma RelocateAfterDelete(d: seq<Rdn>, from: seq<Rdn>)
    requires Valid(d) && Valid(from) && from != []
    ensures Relocate(PrintDn(d), PrintDn(from), None)
         == if SuffixOf(LowerName(from), LowerName(d)) then PrintDn(from[1..]) else PrintDn(d)
  {
    AtOrBelowIsSuffix(d, from);
    ParentOfName(from);
  }
}
