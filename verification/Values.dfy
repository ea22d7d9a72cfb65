/** Printing and splitting distinguished names (backend/samadcon/ad/values.py, RFC 4514). */
module Values {
  import opened Text
  import opened Numerals

  // --- Printing ----------------------------------------------------------------

  /** The characters a backslash always goes before. */
  predicate IsSpecial(c: char) {
    c == ',' || c == '+' || c == '"' || c == '\\' || c == '<' || c == '>' || c == ';' || c == '='
  }

  /** How the character at *i* of *v* is written. */
  function EscapedAt(v: string, i: nat): string
    requires i < |v|
  {
    var c := v[i];
    if IsSpecial(c) then ['\\', c]
    else if c == ' ' && (i == 0 || i == |v| - 1) then "\\ "
    else if c == '#' && i == 0 then "\\#"
    else if c < ' ' then ['\\', HexDigit(c as nat / 16), HexDigit(c as nat % 16)]
    else [c]
  }

  function EscapeFrom(v: string, i: nat): string
    requires i <= |v|
    decreases |v| - i
  {
    if i == |v| then "" else EscapedAt(v, i) + EscapeFrom(v, i + 1)
  }

  /** A value as it stands in a relative distinguished name. */
  function Escape(v: string): string {
    EscapeFrom(v, 0)
  }

  method EscapeCharacter(value: string, index: nat) returns (piece: string)
    requires index < |value|
    ensures piece == EscapedAt(value, index)
  {
    var c := value[index];
    if IsSpecial(c) {
      piece := ['\\', c];
    } else if c == ' ' && (index == 0 || index == |value| - 1) {
      piece := "\\ ";
    } else if c == '#' && index == 0 {
      piece := "\\#";
    } else if c < ' ' {
      piece := ['\\', HexDigit(c as nat / 16), HexDigit(c as nat % 16)];
    } else {
      piece := [c];
    }
  }

  method EscapeRdnValue(value: string) returns (r: string)
    ensures r == Escape(value)
  {
    hide EscapedAt;
    if value == "" {
      return value;
    }
    var out: seq<string> := [];
    for index := 0 to |value|
      invariant Concat(out) + EscapeFrom(value, index) == Escape(value)
    {
      var piece := EscapeCharacter(value, index);
      ConcatSnoc(out, piece);
      ghost var rest := EscapeFrom(value, index + 1);
      assert Concat(out) + piece + rest == Concat(out) + (piece + rest);
      out := out + [piece];
    }
    r := Concat(out);
  }

  // --- Splitting ---------------------------------------------------------------

  /** Length of the first RDN, read pair by pair: a backslash takes the next
      character with it, and the first comma outside a pair ends the RDN. */
  function RdnLen(dn: string): (n: nat)
    ensures n <= |dn|
    ensures n < |dn| ==> dn[n] == ','
    decreases |dn|
  {
    if dn == "" || dn[0] == ',' then 0
    else if dn[0] == '\\' then
      if |dn| == 1 then 1 else 2 + RdnLen(dn[2..])
    else 1 + RdnLen(dn[1..])
  }

  function RdnOf(dn: string): string {
    dn[..RdnLen(dn)]
  }

  lemma RdnLenAt(dn: string, i: nat)
    requires i < |dn|
    ensures RdnLen(dn[i..]) == if dn[i] == ',' then 0
                               else if dn[i] == '\\' then
                                 if i + 1 == |dn| then 1 else 2 + RdnLen(dn[i + 2..])
                               else 1 + RdnLen(dn[i + 1..])
  {
    assert dn[i..][1..] == dn[i + 1..];
    if i + 1 < |dn| {
      assert dn[i..][2..] == dn[i + 2..];
    }
  }

  /** What a scan that has read up to *index*, past an even or odd run of backslashes, knows. */
  predicate Scanned(dn: string, index: nat, even: bool)
    requires index <= |dn|
  {
    if even then RdnLen(dn) == index + RdnLen(dn[index..])
    else index > 0 && dn[index - 1] == '\\' && RdnLen(dn) == index - 1 + RdnLen(dn[index - 1..])
  }

  lemma ScanEven(dn: string, index: nat)
    requires index < |dn| && Scanned(dn, index, true)
    ensures dn[index] == '\\' ==> Scanned(dn, index + 1, false)
    ensures dn[index] == ',' ==> RdnLen(dn) == index
    ensures dn[index] != '\\' && dn[index] != ',' ==> Scanned(dn, index + 1, true)
  {
    hide RdnLen;
    RdnLenAt(dn, index);
  }

  lemma ScanOdd(dn: string, index: nat)
    requires index < |dn| && Scanned(dn, index, false)
    ensures Scanned(dn, index + 1, true)
  {
    hide RdnLen;
    RdnLenAt(dn, index - 1);
  }

  lemma ScanEnds(dn: string, even: bool)
    ensures Scanned(dn, 0, true)
    ensures Scanned(dn, |dn|, even) ==> RdnLen(dn) == |dn|
  {
    assert dn[0..] == dn;
    if !even && dn != "" {
      assert dn[|dn| - 1..] == [dn[|dn| - 1]];
    }
  }

  /** The source's scan: the parity of the run of backslashes before each comma. */
  method ScanRdn(dn: string) returns (r: string)
    ensures r == RdnOf(dn)
  {
    hide RdnLen, Scanned;
    if dn == "" {
      return "";
    }
    var depth := 0;
    ScanEnds(dn, true);
    for index := 0 to |dn|
      invariant depth >= 0 && Scanned(dn, index, depth % 2 == 0)
    {
      if depth % 2 == 0 {
        ScanEven(dn, index);
      } else {
        ScanOdd(dn, index);
      }
      if dn[index] == '\\' {
        depth := depth + 1;
        continue;
      }
      if dn[index] == ',' && depth % 2 == 0 {
        return dn[..index];
      }
      depth := 0;
    }
    ScanEnds(dn, depth % 2 == 0);
    r := dn;
  }

  /** Everything after the first RDN, or None for the last one. */
  function ParentDn(dn: string): (r: Option<string>)
    ensures r.Some? ==> |r.value| < |dn|
  {
    if RdnOf(dn) == dn then None
    else Some(TrimLeft(dn[RdnLen(dn) + 1..], WHITESPACE))
  }

  // --- What the printed form looks like ----------------------------------------

  /** Text made of whole tokens: ordinary characters and backslash pairs, with no
      comma outside a pair and no line terminator inside one. */
  predicate Whole(s: string)
    decreases |s|
  {
    s == "" ||
    (s[0] != ',' &&
     if s[0] == '\\' then |s| >= 2 && s[1] !in LINE_TERMINATORS && Whole(s[2..]) else Whole(s[1..]))
  }

  /** What a dot in a JavaScript regular expression does not match. */
  const LINE_TERMINATORS: set<char> := {'\n', '\r', '\U{2028}', '\U{2029}'}

  lemma {:induction false} WholeAppend(s: string, t: string)
    requires Whole(s)
    ensures RdnLen(s + t) == |s| + RdnLen(t)
    ensures Whole(t) ==> Whole(s + t)
    decreases |s|
  {
    if s == "" {
      assert s + t == t;
    } else if s[0] == '\\' {
      assert (s + t)[2..] == s[2..] + t;
      WholeAppend(s[2..], t);
    } else {
      assert (s + t)[1..] == s[1..] + t;
      WholeAppend(s[1..], t);
    }
  }

  lemma {:induction false} PlainIsWhole(s: string)
    requires ',' !in s && '\\' !in s
    ensures Whole(s)
  {
    if s != "" {
      PlainIsWhole(s[1..]);
    }
  }

  lemma {:induction false} EscapeIsWhole(v: string, i: nat)
    requires i <= |v|
    ensures Whole(EscapeFrom(v, i))
    decreases |v| - i
  {
    hide EscapedAt;
    if i < |v| {
      EscapeIsWhole(v, i + 1);
      EscapedIsWhole(v, i);
      WholeAppend(EscapedAt(v, i), EscapeFrom(v, i + 1));
    }
  }

  lemma EscapedIsWhole(v: string, i: nat)
    requires i < |v|
    ensures Whole(EscapedAt(v, i))
  {
    var e := EscapedAt(v, i);
    if |e| == 3 {
      assert e[2..] == [e[2]] && Whole([e[2]]);
    }
  }

  /** Every equals sign follows a backslash. */
  predicate EqualsEscaped(s: string) {
    forall j {:trigger s[j]} :: 0 <= j < |s| && s[j] == '=' ==> j > 0 && s[j - 1] == '\\'
  }

  lemma {:induction false} EscapedEquals(v: string, i: nat)
    requires i <= |v|
    ensures EqualsEscaped(EscapeFrom(v, i))
    decreases |v| - i
  {
    if i < |v| {
      EscapedEquals(v, i + 1);
      var a, b := EscapedAt(v, i), EscapeFrom(v, i + 1);
      assert EqualsEscaped(a);
      forall j | 0 <= j < |a + b| && (a + b)[j] == '=' ensures j > 0 && (a + b)[j - 1] == '\\' {
        if j >= |a| {
          assert b[j - |a|] == '=';
        } else {
          assert a[j] == '=';
        }
      }
    }
  }

  // --- Reading a value back (RFC 4514 section 3) ---------------------------------

  /** The value an RFC 4514 reader takes from a printed one: a pair of hex digits
      after a backslash is one octet, any other character after one is itself. */
  function Unescape(s: string): string
    decreases |s|
  {
    if s == "" then ""
    else if s[0] != '\\' || |s| == 1 then [s[0]] + Unescape(s[1..])
    else if |s| >= 3 && IsHexDigit(s[1]) && IsHexDigit(s[2])
      then [(HexValue(s[1]) * 16 + HexValue(s[2])) as char] + Unescape(s[3..])
    else [s[1]] + Unescape(s[2..])
  }

  lemma UnescapeOne(v: string, i: nat, t: string)
    requires i < |v|
    ensures Unescape(EscapedAt(v, i) + t) == [v[i]] + Unescape(t)
  {
    var a := EscapedAt(v, i);
    var s := a + t;
    assert s[|a|..] == t;
    if |a| == 3 {
      assert s[1] == a[1] && s[2] == a[2];
    } else if |a| == 2 {
      assert s[0] == '\\' && s[1] == v[i] && !IsHexDigit(s[1]);
    }
  }

  lemma {:induction false} UnescapeEscapeFrom(v: string, i: nat, t: string)
    requires i <= |v|
    ensures Unescape(EscapeFrom(v, i) + t) == v[i..] + Unescape(t)
    decreases |v| - i
  {
    hide EscapedAt, Unescape;
    if i == |v| {
      assert EscapeFrom(v, i) + t == t && v[i..] == "";
      assert "" + Unescape(t) == Unescape(t);
    } else {
      UnescapeEscapeFrom(v, i + 1, t);
      var a, b := EscapedAt(v, i), EscapeFrom(v, i + 1);
      UnescapeOne(v, i, b + t);
      assert EscapeFrom(v, i) + t == a + (b + t);
      assert [v[i]] + (v[i + 1..] + Unescape(t)) == v[i..] + Unescape(t);
    }
  }

  /** Printing loses nothing: reading a printed value gives the value back, whatever it holds. */
  lemma UnescapeEscape(v: string)
    ensures Unescape(Escape(v)) == v
  {
    UnescapeEscapeFrom(v, 0, "");
    assert Escape(v) + "" == Escape(v) && v[0..] + "" == v;
  }

  lemma EscapeInjective(a: string, b: string)
    ensures Escape(a) == Escape(b) <==> a == b
  {
    UnescapeEscape(a);
    UnescapeEscape(b);
  }

  // --- Printed names -------------------------------------------------------------

  datatype Rdn = Rdn(kind: string, value: string) {
    function Print(): string {
      kind + "=" + Escape(value)
    }
  }

  /** An attribute type: letters, digits, hyphens and dots. */
  predicate ValidKind(kind: string) {
    kind != "" && forall c :: c in kind ==> KindChar(c)
  }

  predicate KindChar(c: char) {
    'a' <= c <= 'z' || 'A' <= c <= 'Z' || '0' <= c <= '9' || c == '-' || c == '.'
  }

  predicate Valid(name: seq<Rdn>) {
    forall r :: r in name ==> ValidKind(r.kind)
  }

  /** A name as text: its components joined with commas. */
  function PrintDn(name: seq<Rdn>): string {
    if name == [] then ""
    else if |name| == 1 then name[0].Print()
    else name[0].Print() + "," + PrintDn(name[1..])
  }

  lemma PrintIsWhole(r: Rdn)
    requires ValidKind(r.kind)
    ensures Whole(r.Print())
  {
    PlainIsWhole(r.kind + "=");
    EscapeIsWhole(r.value, 0);
    WholeAppend(r.kind + "=", Escape(r.value));
  }

  /** Splitting undoes joining: for any value and any parent that does not start
      with white space, the first RDN and the parent come back exactly. */
  lemma SplitPrinted(r: Rdn, parent: string)
    requires ValidKind(r.kind)
    ensures var dn := r.Print() + "," + parent;
            && RdnOf(dn) == r.Print()
            && (ParentDn(dn) == Some(parent) <==> parent == "" || parent[0] !in WHITESPACE)
  {
    var first := r.Print();
    var dn := first + "," + parent;
    PrintIsWhole(r);
    assert dn == first + ("," + parent);
    WholeAppend(first, "," + parent);
    assert dn[|first| + 1..] == parent;
  }

  lemma SplitLast(r: Rdn)
    requires ValidKind(r.kind)
    ensures RdnOf(r.Print()) == r.Print() && ParentDn(r.Print()) == None
  {
    PrintIsWhole(r);
    assert r.Print() + "" == r.Print();
    WholeAppend(r.Print(), "");
  }

  lemma PrintStart(name: seq<Rdn>)
    requires Valid(name) && name != []
    ensures PrintDn(name) != "" && KindChar(PrintDn(name)[0])
  {
    assert name[0] in name;
    assert name[0].Print()[0] == name[0].kind[0];
    assert name[0].kind[0] in name[0].kind;
    assert name[0].Print()[0] == PrintDn(name)[0];
  }

  /** A printed name splits into exactly the components it was printed from. */
  lemma SplitName(name: seq<Rdn>)
    requires Valid(name) && name != []
    ensures RdnOf(PrintDn(name)) == name[0].Print()
    ensures ParentDn(PrintDn(name)) == if |name| == 1 then None else Some(PrintDn(name[1..]))
  {
    assert name[0] in name;
    if |name| == 1 {
      SplitLast(name[0]);
    } else {
      var rest := PrintDn(name[1..]);
      PrintStart(name[1..]);
      SplitPrinted(name[0], rest);
    }
  }

  lemma PrintKind(r: Rdn)
    requires ValidKind(r.kind)
    ensures IndexOf(r.Print(), '=') == |r.kind| && r.Print()[..|r.kind|] == r.kind
  {
    assert r.Print()[..|r.kind|] == r.kind;
    assert forall c :: c in r.kind ==> KindChar(c) && c != '=';
    IndexOfIs(r.Print(), '=', |r.kind|);
  }

  lemma RdnPrintInjective(a: Rdn, b: Rdn)
    requires ValidKind(a.kind) && ValidKind(b.kind)
    ensures a.Print() == b.Print() <==> a == b
  {
    if a.Print() == b.Print() {
      PrintKind(a);
      PrintKind(b);
      assert a.Print()[|a.kind| + 1..] == Escape(a.value);
      assert b.Print()[|b.kind| + 1..] == Escape(b.value);
      EscapeInjective(a.value, b.value);
    }
  }

  lemma PrintDnHeads(a: seq<Rdn>, b: seq<Rdn>)
    requires Valid(a) && Valid(b) && PrintDn(a) == PrintDn(b)
    ensures a == [] <==> b == []
    ensures a != [] && b != [] ==> a[0] == b[0] && PrintDn(a[1..]) == PrintDn(b[1..])
  {
    if a == [] || b == [] {
      if a != [] { PrintStart(a); }
      if b != [] { PrintStart(b); }
    } else {
      assert a[0] in a && b[0] in b;
      RdnPrintInjective(a[0], b[0]);
      SplitName(a);
      SplitName(b);
    }
  }

  /** Different names never print alike. */
  lemma {:induction false} PrintDnInjective(a: seq<Rdn>, b: seq<Rdn>)
    requires Valid(a) && Valid(b)
    ensures PrintDn(a) == PrintDn(b) <==> a == b
  {
    if PrintDn(a) == PrintDn(b) {
      PrintDnHeads(a, b);
      if a != [] {
        PrintDnInjective(a[1..], b[1..]);
        assert a == [a[0]] + a[1..] && b == [b[0]] + b[1..];
      }
    }
  }

  // --- Case ------------------------------------------------------------------------

  function LowerRdn(r: Rdn): Rdn {
    Rdn(Lower(r.kind), Lower(r.value))
  }

  function LowerName(name: seq<Rdn>): (r: seq<Rdn>)
    ensures |r| == |name|
  {
    seq(|name|, i requires 0 <= i < |name| => LowerRdn(name[i]))
  }

  lemma {:induction false} LowerEscapeFrom(v: string, i: nat)
    requires i <= |v|
    ensures Lower(EscapeFrom(v, i)) == EscapeFrom(Lower(v), i)
    decreases |v| - i
  {
    hide EscapedAt;
    if i < |v| {
      LowerEscapeFrom(v, i + 1);
      LowerConcat(EscapedAt(v, i), EscapeFrom(v, i + 1));
      LowerEscapedAt(v, i);
    }
  }

  lemma LowerEscapedAt(v: string, i: nat)
    requires i < |v|
    ensures Lower(EscapedAt(v, i)) == EscapedAt(Lower(v), i)
  {
  }

  lemma LowerPrint(r: Rdn)
    ensures Lower(r.Print()) == LowerRdn(r).Print()
  {
    LowerEscapeFrom(r.value, 0);
    LowerConcat(r.kind + "=", Escape(r.value));
    LowerConcat(r.kind, "=");
    assert Lower("=") == "=";
  }

  /** Lower-casing the text of a name lower-cases its components. */
  lemma {:induction false} LowerPrintDn(name: seq<Rdn>)
    ensures Lower(PrintDn(name)) == PrintDn(LowerName(name))
  {
    if name != [] {
      LowerPrint(name[0]);
      if |name| > 1 {
        LowerPrintDn(name[1..]);
        assert LowerName(name)[1..] == LowerName(name[1..]);
        LowerConcat(name[0].Print() + ",", PrintDn(name[1..]));
        LowerConcat(name[0].Print(), ",");
        assert Lower(",") == ",";
      }
    }
  }

  lemma LowerValid(name: seq<Rdn>)
    requires Valid(name)
    ensures Valid(LowerName(name))
  {
    forall r | r in LowerName(name) ensures ValidKind(r.kind) {
      var i :| 0 <= i < |name| && LowerName(name)[i] == r;
      assert name[i] in name;
      forall c | c in r.kind ensures KindChar(c) {
        var j :| 0 <= j < |r.kind| && r.kind[j] == c;
        assert name[i].kind[j] in name[i].kind;
      }
    }
  }
}
