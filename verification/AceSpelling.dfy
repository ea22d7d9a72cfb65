/** Two spellings of one entry compare equal (backend/samadcon/ad/sacl.py 274-306, 443-629). */
module AceSpelling {
  import opened Text
  import opened Numerals
  import opened AceMeaning

  // --- Printing and parsing an entry --------------------------------------------------------

  /** Fields that stay apart when they are printed: no semicolon, no parenthesis at the outer ends. */
  predicate PlainFields(f: Fields) {
    && ';' !in f.kind && ';' !in f.flags && ';' !in f.rights && ';' !in f.objectGuid && ';' !in f.appliesTo
    && ';' !in f.trustee
    && (f.kind != "" ==> !IsParenthesis(f.kind[0]))
    && (f.trustee != "" ==> !IsParenthesis(f.trustee[|f.trustee| - 1]))
  }

  function FieldList(f: Fields): seq<string> {
    [f.kind, f.flags, f.rights, f.objectGuid, f.appliesTo, f.trustee]
  }

  lemma JoinFields(f: Fields)
    ensures Join(FieldList(f), ";")
         == f.kind + ";" + f.flags + ";" + f.rights + ";" + f.objectGuid + ";" + f.appliesTo + ";" + f.trustee
  {
    JoinCons(f.kind, [f.flags, f.rights, f.objectGuid, f.appliesTo, f.trustee]);
    JoinCons(f.flags, [f.rights, f.objectGuid, f.appliesTo, f.trustee]);
    JoinCons(f.rights, [f.objectGuid, f.appliesTo, f.trustee]);
    JoinCons(f.objectGuid, [f.appliesTo, f.trustee]);
    JoinCons(f.appliesTo, [f.trustee]);
    assert FieldList(f) == [f.kind] + ([f.flags] + ([f.rights] + ([f.objectGuid] + ([f.appliesTo] + [f.trustee]))));
    assert Join([f.trustee], ";") == f.trustee;
    Right(f.objectGuid, f.appliesTo, f.trustee);
    Right(f.rights, f.objectGuid + ";" + f.appliesTo, f.trustee);
    Right(f.flags, f.rights + ";" + (f.objectGuid + ";" + f.appliesTo), f.trustee);
    Right(f.flags, f.rights, f.objectGuid + ";" + f.appliesTo);
    var all := Join(FieldList(f), ";");
    assert all
        == f.kind + ";" + (f.flags + ";" + (f.rights + ";" + (f.objectGuid + ";" + (f.appliesTo + ";" + f.trustee))));
  }

  lemma JoinCons(x: string, rest: seq<string>)
    requires rest != []
    ensures Join([x] + rest, ";") == x + ";" + Join(rest, ";")
  {
    assert ([x] + rest)[1..] == rest;
  }

  lemma Right(a: string, b: string, c: string)
    ensures a + ";" + (b + ";" + c) == a + ";" + b + ";" + c
  {
  }

  lemma StripOuter(inner: string)
    ensures Strip("(" + inner + ")", WHITESPACE) == "(" + inner + ")"
  {
    hide IsSpace, Strip;
    var s := "(" + inner + ")";
    ParenthesesAreNoSpace();
    assert s[0] == '(' && s[|s| - 1] == ')';
    assert CleanEnds(s, WHITESPACE);
  }

  lemma ParenthesesAreNoSpace()
    ensures '(' !in WHITESPACE && ')' !in WHITESPACE
  {
  }

  lemma StripParentheses(inner: string)
    requires inner != "" && !IsParenthesis(inner[0]) && !IsParenthesis(inner[|inner| - 1])
    ensures Strip("(" + inner + ")", PARENTHESES) == inner
  {
    hide Strip;
    StripAround('(', inner, ')', PARENTHESES);
    assert "(" + inner + ")" == ['('] + inner + [')'];
  }

  /** An entry that was printed is taken apart into its fields. */
  lemma ParsePrint(f: Fields)
    requires PlainFields(f)
    ensures ParseAce(PrintAce(f)) == Some(f)
  {
    hide Strip, Join, Split;
    var inner := Join(FieldList(f), ";");
    JoinFields(f);
    assert inner[0] == (if f.kind == "" then ';' else f.kind[0]);
    InnerEnd(f.kind + ";" + f.flags + ";" + f.rights + ";" + f.objectGuid + ";" + f.appliesTo, f.trustee, inner);
    assert PrintAce(f) == "(" + inner + ")";
    StripOuter(inner);
    StripParentheses(inner);
    assert forall p :: p in FieldList(f) ==> ';' !in p;
    SplitJoin(FieldList(f), ';');
    assert ";" == [';'];
  }

  lemma InnerEnd(front: string, last: string, all: string)
    requires all == front + ";" + last
    ensures all[|all| - 1] == if last == "" then ';' else last[|last| - 1]
  {
  }

  // --- Numbers -----------------------------------------------------------------------------------

  predicate AllHex(s: string) {
    s == "" || (IsHexDigit(s[0]) && AllHex(s[1..]))
  }

  function Fold(s: string, value: nat): nat
    requires AllHex(s)
  {
    if s == "" then value else Fold(s[1..], value * 16 + HexValue(s[0]))
  }

  lemma {:induction false} RunIsFold(s: string, value: nat)
    requires AllHex(s)
    ensures HexRun(s, value, true) == Some(Fold(s, value))
  {
    if s != "" {
      RunIsFold(s[1..], value * 16 + HexValue(s[0]));
    }
  }

  lemma {:induction false} FoldSnoc(s: string, c: char, value: nat)
    requires AllHex(s) && IsHexDigit(c)
    ensures AllHex(s + [c]) && Fold(s + [c], value) == Fold(s, value) * 16 + HexValue(c)
    decreases |s|
  {
    if s == "" {
      assert s + [c] == [c] && [c][1..] == "";
    } else {
      assert (s + [c])[1..] == s[1..] + [c];
      FoldSnoc(s[1..], c, value * 16 + HexValue(s[0]));
    }
  }

  lemma {:induction false} DigitsFold(n: nat)
    ensures AllHex(HexDigits(n)) && Fold(HexDigits(n), 0) == n && HexDigits(n) != ""
  {
    if n >= 16 {
      DigitsFold(n / 16);
      FoldSnoc(HexDigits(n / 16), HexDigit(n % 16), 0);
    } else {
      FoldSnoc("", HexDigit(n), 0);
    }
  }

  lemma {:induction false} ZerosFold(k: nat, s: string)
    requires AllHex(s)
    ensures AllHex(Zeros(k) + s) && Fold(Zeros(k) + s, 0) == Fold(s, 0)
  {
    if k == 0 {
      assert Zeros(k) + s == s;
    } else {
      var rest := Zeros(k - 1) + s;
      ZerosFold(k - 1, s);
      assert Zeros(k) + s == "0" + rest;
      OneZero(rest);
    }
  }

  lemma OneZero(s: string)
    requires AllHex(s)
    ensures AllHex("0" + s) && Fold("0" + s, 0) == Fold(s, 0)
  {
    assert ("0" + s)[1..] == s && ("0" + s)[0] == '0';
  }

  /** The digits after "0x" are at least eight and give the number. */
  lemma PaddedFold(n: nat) returns (padded: string)
    ensures HexText(n) == "0x" + padded && AllHex(padded) && padded != "" && Fold(padded, 0) == n
  {
    hide Fold, AllHex, HexDigits, Zeros;
    DigitsFold(n);
    NoZeros();
    var digits := HexDigits(n);
    var k := if |digits| < 8 then 8 - |digits| else 0;
    padded := Zeros(k) + digits;
    ZerosFold(k, digits);
    assert "" + digits == digits;
    assert "0x" + Zeros(k) + digits == "0x" + padded;
  }

  /** A mask printed in hexadecimal is read as its number. */
  lemma HexRoundTrip(n: nat)
    ensures NormalMask(HexText(n)) == Number(n)
  {
    hide Strip, Fold, AllHex, Letters, DigitRun, HexText, HexRun, IsDigit;
    var padded := PaddedFold(n);
    var t := "0x" + padded;
    RunIsFold(padded, 0);
    HexEnds(padded);
    assert t[2..] == padded && t[0] == '0' && t[1] == 'x' && t[|t| - 1] == padded[|padded| - 1];
    StripHex(t);
  }

  lemma NoZeros()
    ensures Zeros(0) == ""
  {
  }

  lemma {:induction false} HexEnds(s: string)
    requires AllHex(s) && s != ""
    ensures IsHexDigit(s[|s| - 1])
  {
    if |s| > 1 {
      HexEnds(s[1..]);
    }
  }

  lemma StripHex(t: string)
    requires |t| > 2 && t[0] == '0' && IsHexDigit(t[|t| - 1])
    ensures Strip(t, WHITESPACE) == t
  {
  }

  // --- Right letters --------------------------------------------------------------------------------

  predicate IsRight(code: string) {
    |code| == 2 && RightBit(UpperChar(code[0]), UpperChar(code[1])).Some?
  }

  function Bit(code: string): bv32
    requires IsRight(code)
  {
    RightBit(UpperChar(code[0]), UpperChar(code[1])).value
  }

  predicate AllRights(codes: seq<string>) {
    forall i :: 0 <= i < |codes| ==> IsRight(codes[i])
  }

  function OrAll(codes: seq<string>): bv32
    requires AllRights(codes)
  {
    if codes == [] then 0 else Or(Bit(codes[0]), OrAll(codes[1..]))
  }

  lemma OrLaws(a: bv32, b: bv32, c: bv32)
    ensures Or(a, 0) == a && Or(a, a) == a && Or(a, b) == Or(b, a) && Or(Or(a, b), c) == Or(a, Or(b, c))
  {
  }

  lemma FirstLetters(code: string, rest: string, mask: bv32)
    requires IsRight(code)
    ensures Letters(code + rest, mask) == Letters(rest, Or(mask, Bit(code)))
  {
    hide RightBit;
    assert (code + rest)[2..] == rest;
    assert (code + rest)[0] == code[0] && (code + rest)[1] == code[1];
  }

  /** The letters one after the other give the union of their bits. */
  lemma {:induction false} LettersAre(codes: seq<string>, mask: bv32)
    requires AllRights(codes)
    ensures Letters(Concat(codes), mask) == Some(Or(mask, OrAll(codes)))
    decreases |codes|
  {
    hide IsRight, Bit, Letters, Concat, OrAll, Or;
    if codes == [] {
      NoMoreLetters(mask);
      NothingOr(mask);
    } else {
      var bit, rest := Bit(codes[0]), OrAll(codes[1..]);
      OrAndConcat(codes);
      FirstLetters(codes[0], Concat(codes[1..]), mask);
      LettersAre(codes[1..], Or(mask, bit));
      OrLaws(mask, bit, rest);
    }
  }

  lemma NothingOr(mask: bv32)
    ensures OrAll([]) == 0 && Concat([]) == "" && Or(mask, 0) == mask
  {
    OrLaws(mask, 0, 0);
  }

  lemma OrAndConcat(codes: seq<string>)
    requires AllRights(codes) && codes != []
    ensures OrAll(codes) == Or(Bit(codes[0]), OrAll(codes[1..])) && Concat(codes) == codes[0] + Concat(codes[1..])
  {
  }

  lemma NoMoreLetters(mask: bv32)
    ensures Letters("", mask) == Some(mask)
  {
  }

  /** Every right of *a* is one of *b*, in any letter case. */
  predicate Within(a: seq<string>, b: seq<string>) {
    a == [] || (Listed(a[0], b) && Within(a[1..], b))
  }

  predicate Listed(code: string, codes: seq<string>) {
    exists j :: 0 <= j < |codes| && Upper(code) == Upper(codes[j])
  }

  lemma {:induction false} Absorbs(codes: seq<string>, j: nat)
    requires AllRights(codes) && j < |codes|
    ensures Or(Bit(codes[j]), OrAll(codes)) == OrAll(codes)
  {
    hide RightBit, Or;
    var first, rest := Bit(codes[0]), OrAll(codes[1..]);
    OrLaws(first, first, rest);
    if j > 0 {
      Absorbs(codes[1..], j - 1);
      var x := Bit(codes[j]);
      OrLaws(x, first, rest);
      OrLaws(first, x, rest);
    }
  }

  lemma SameBit(a: string, b: string)
    requires IsRight(a) && IsRight(b) && Upper(a) == Upper(b)
    ensures Bit(a) == Bit(b)
  {
    hide RightBit;
    assert Upper(a)[0] == Upper(b)[0] && Upper(a)[1] == Upper(b)[1];
  }

  lemma {:induction false} WithinOr(a: seq<string>, b: seq<string>)
    requires AllRights(a) && AllRights(b) && Within(a, b)
    ensures Or(OrAll(a), OrAll(b)) == OrAll(b)
  {
    hide IsRight, Bit, Upper, Or;
    if a == [] {
      OrLaws(OrAll(b), 0, 0);
    } else {
      WithinOr(a[1..], b);
      var j :| 0 <= j < |b| && Upper(a[0]) == Upper(b[j]);
      SameBit(a[0], b[j]);
      Absorbs(b, j);
      OrLaws(Bit(a[0]), OrAll(a[1..]), OrAll(b));
    }
  }

  /** Neither the order of the rights, nor their repetition, nor their letter case shows in the mask. */
  lemma OrderDoesNotShow(a: seq<string>, b: seq<string>)
    requires AllRights(a) && AllRights(b) && Within(a, b) && Within(b, a)
    ensures OrAll(a) == OrAll(b)
  {
    hide AllRights, Within, OrAll, Or;
    WithinOr(a, b);
    WithinOr(b, a);
    OrLaws(OrAll(a), OrAll(b), 0);
  }

  lemma RightIsLetters(code: string)
    requires IsRight(code)
    ensures forall i :: 0 <= i < 2 ==> 'A' <= UpperChar(code[i]) <= 'Z'
  {
  }

  lemma {:induction false} CodesAreLetters(codes: seq<string>)
    requires AllRights(codes)
    ensures forall i :: 0 <= i < |Concat(codes)| ==> 'A' <= UpperChar(Concat(codes)[i]) <= 'Z'
  {
    hide RightBit;
    if codes != [] {
      assert IsRight(codes[0]);
      RightIsLetters(codes[0]);
      CodesAreLetters(codes[1..]);
    }
  }

  lemma LettersAreNoNumber(text: string)
    requires forall i :: 0 <= i < |text| ==> 'A' <= UpperChar(text[i]) <= 'Z'
    ensures Strip(text, WHITESPACE) == text
    ensures text != "" ==> !HexPrefix(text) && !AllDigits(text)
  {
    if text != "" {
      assert 'A' <= UpperChar(text[0]) <= 'Z' && 'A' <= UpperChar(text[|text| - 1]) <= 'Z';
      LetterNoSpace(text[0]);
      LetterNoSpace(text[|text| - 1]);
      assert !IsDigit(text[0]);
    }
  }

  lemma LetterNoSpace(c: char)
    requires 'A' <= UpperChar(c) <= 'Z'
    ensures c !in WHITESPACE
  {
  }

  /** A mask spelled with letters is read as the union of their bits. */
  lemma LettersMask(codes: seq<string>)
    requires AllRights(codes)
    ensures NormalMask(Concat(codes)) == Number(OrAll(codes) as nat)
  {
    hide OrAll, Letters, IntAuto, AllRights, HexPrefix, AllDigits, Or;
    var text := Concat(codes);
    CodesAreLetters(codes);
    LettersAreNoNumber(text);
    LettersAre(codes, 0);
    OrLaws(OrAll(codes), 0, 0);
    OrLaws(0, OrAll(codes), 0);
    if text == "" {
      NoMoreLetters(0);
    }
  }

  // --- GUIDs and trustees ----------------------------------------------------------------------------

  /** A GUID as it is usually spelled inside its braces. */
  predicate BareGuid(g: string) {
    forall i :: 0 <= i < |g| ==> !IsSpace(g[i]) && g[i] != '{' && g[i] != '}'
  }

  lemma GuidIs(g: string)
    requires BareGuid(g)
    ensures NormalGuid(g) == Lower(g) && NormalGuid("{" + g + "}") == Lower(g)
    ensures Strip(g, BRACES) == g && Strip("{" + g + "}", BRACES) == g
  {
    hide Strip, IsSpace, Lower;
    assert CleanEnds(g, WHITESPACE) && CleanEnds(g, BRACES);
    StripBraces(g);
    BracedIsStripped(g);
  }

  lemma BracedIsStripped(g: string)
    ensures Strip("{" + g + "}", WHITESPACE) == "{" + g + "}"
  {
    hide Strip, IsSpace;
    var s := "{" + g + "}";
    BracesNoSpace();
    assert s[0] == '{' && s[|s| - 1] == '}';
    assert CleanEnds(s, WHITESPACE);
  }

  lemma BracesNoSpace()
    ensures '{' !in WHITESPACE && '}' !in WHITESPACE
  {
  }

  lemma StripBraces(g: string)
    requires CleanEnds(g, BRACES)
    ensures Strip("{" + g + "}", BRACES) == g
  {
    hide Strip;
    StripAround('{', g, '}', BRACES);
    assert "{" + g + "}" == ['{'] + g + ['}'];
  }

  /** Two spellings of a GUID: in any letter case, with or without braces. */
  ghost predicate GuidSpelling(a: string, g: string) {
    exists h :: BareGuid(h) && Lower(h) == Lower(g) && (a == h || a == "{" + h + "}")
  }

  lemma GuidSpellings(a: string, b: string, g: string)
    requires GuidSpelling(a, g) && GuidSpelling(b, g)
    ensures NormalGuid(a) == NormalGuid(b)
    ensures NormalGuid(Strip(b, BRACES)) == NormalGuid(b)
    ensures ';' !in g ==> ';' !in Strip(b, BRACES)
  {
    hide NormalGuid, Strip, IsSpace;
    var h :| BareGuid(h) && Lower(h) == Lower(g) && (a == h || a == "{" + h + "}");
    var k :| BareGuid(k) && Lower(k) == Lower(g) && (b == k || b == "{" + k + "}");
    GuidIs(h);
    GuidIs(k);
  }

  /** A trustee spelled as a SID in any letter case, or as the alias of that SID. */
  predicate TrusteeSpelling(a: string, sid: string, domain: Option<string>) {
    && "S-" <= Upper(sid) && CleanEnds(a, WHITESPACE) && CleanEnds(sid, WHITESPACE)
    && (Upper(a) == Upper(sid)
        || (|a| == 2 && AliasSid(UpperChar(a[0]), UpperChar(a[1]), domain) == Some(Upper(sid))))
  }

  function AliasSid(a: char, b: char, domain: Option<string>): Option<string> {
    if WellKnownSid(a, b).Some? then WellKnownSid(a, b)
    else if DomainRid(a, b).Some? && domain.Some? && domain.value != "" then
      Some(Upper(domain.value) + "-" + DomainRid(a, b).value)
    else None
  }

  lemma NoDashAlias(a: char, b: char, domain: Option<string>)
    requires AliasSid(a, b, domain).Some?
    ensures b != '-'
  {
  }

  lemma AliasIs(a: string, domain: Option<string>)
    requires |a| == 2 && CleanEnds(a, WHITESPACE) && AliasSid(UpperChar(a[0]), UpperChar(a[1]), domain).Some?
    ensures AliasSid(UpperChar(a[0]), UpperChar(a[1]), domain) == Some(NormalSid(a, domain))
  {
    hide WellKnownSid, DomainRid, IsSpace, Strip;
    NoDashAlias(UpperChar(a[0]), UpperChar(a[1]), domain);
    assert Upper(a)[1] != "S-"[1];
  }

  lemma TrusteeIs(a: string, sid: string, domain: Option<string>)
    requires TrusteeSpelling(a, sid, domain)
    ensures NormalSid(a, domain) == NormalSid(sid, domain) == Upper(sid)
  {
    hide WellKnownSid, DomainRid, IsSpace, AliasSid, Strip;
    if Upper(a) != Upper(sid) {
      AliasIs(a, domain);
    }
  }

  lemma {:induction false} HexHasNoSemicolon(s: string)
    requires AllHex(s)
    ensures ';' !in s
  {
    if s != "" {
      HexHasNoSemicolon(s[1..]);
    }
  }

  lemma BuiltIsPlain(trustee: string, mask: nat, deny: bool, objectGuid: Option<string>, appliesTo: Option<string>,
                     inherit: bool)
    requires trustee != "" && ';' !in trustee && !IsParenthesis(trustee[|trustee| - 1])
    requires ';' !in GuidField(objectGuid) && ';' !in GuidField(appliesTo)
    ensures PlainFields(BuiltFields(trustee, mask, deny, objectGuid, appliesTo, inherit))
  {
    hide HexText, Strip;
    var padded := PaddedFold(mask);
    HexHasNoSemicolon(padded);
    assert ';' !in "0x" + padded by { assert "0x" == ['0', 'x']; }
  }

  function GuidText(guid: Option<string>): string {
    match guid case Some(g) => g case None => ""
  }

  lemma GuidFieldIs(a: string, guid: Option<string>, g: string)
    requires GuidSpelling(a, g) && GuidSpelling(GuidText(guid), g) && ';' !in g
    ensures NormalGuid(a) == NormalGuid(GuidField(guid)) && ';' !in GuidField(guid)
  {
    hide NormalGuid, GuidSpelling, Strip;
    GuidSpellings(a, GuidText(guid), g);
    NoBraces();
  }

  lemma NoBraces()
    ensures Strip("", BRACES) == ""
  {
  }

  /** An entry that is built with a numeric mask is the same as any spelling of it: the rights as letters in any order,
      repetition and case, the GUIDs in any case and braces, the trustee as alias or SID. */
  lemma BuiltIsAnySpelling(trustee: string, rights: seq<string>, deny: bool, objectGuid: Option<string>,
                           appliesTo: Option<string>, inherit: bool, spelled: Fields, codes: seq<string>,
                           object': string, applies': string, domain: Option<string>)
    requires ';' !in trustee && trustee != "" && !IsParenthesis(trustee[|trustee| - 1])
    requires AllRights(rights) && OrAll(rights) != 0
    requires AllRights(codes) && Within(codes, rights) && Within(rights, codes) && spelled.rights == Concat(codes)
    requires ';' !in object' && GuidSpelling(spelled.objectGuid, object') && GuidSpelling(GuidText(objectGuid), object')
    requires ';' !in applies' && GuidSpelling(spelled.appliesTo, applies')
    requires GuidSpelling(GuidText(appliesTo), applies')
    requires TrusteeSpelling(spelled.trustee, trustee, domain)
    requires PlainFields(spelled)
    requires var kind := BuiltFields(trustee, 0, deny, objectGuid, appliesTo, inherit).kind;
             Upper(Strip(spelled.kind, WHITESPACE)) == kind
    requires FlagSet(spelled.flags) == if inherit then {"CI"} else {}
    ensures var built := BuildAce(trustee, OrAll(rights) as int, deny, objectGuid, appliesTo, inherit);
            built.Ace? && SameAce(PrintAce(spelled), built.text, domain)
  {
    hide OrAll, AllRights, Within, GuidSpelling, TrusteeSpelling, PlainFields, MeaningOf, NormalAce, BuildAce,
      BuiltFields, Strip, Concat, PrintAce, FlagSet;
    var f := BuiltFields(trustee, OrAll(rights) as nat, deny, objectGuid, appliesTo, inherit);
    GuidFieldIs(spelled.objectGuid, objectGuid, object');
    GuidFieldIs(spelled.appliesTo, appliesTo, applies');
    BuiltMeaning(trustee, OrAll(rights), deny, objectGuid, appliesTo, inherit, domain);
    PrintedMeaning(spelled, domain);
    OrderDoesNotShow(codes, rights);
    LettersMask(codes);
    TrusteeIs(spelled.trustee, trustee, domain);
    OneMeaning(trustee, OrAll(rights) as nat, deny, objectGuid, appliesTo, inherit, spelled, domain);
  }

  lemma PrintedMeaning(f: Fields, domain: Option<string>)
    requires PlainFields(f)
    ensures NormalAce(PrintAce(f), domain) == Some(MeaningOf(f, domain))
  {
    hide PlainFields, PrintAce, ParseAce, MeaningOf;
    ParsePrint(f);
  }

  lemma BuiltMeaning(trustee: string, bits: bv32, deny: bool, objectGuid: Option<string>, appliesTo: Option<string>,
                     inherit: bool, domain: Option<string>)
    requires trustee != "" && ';' !in trustee && !IsParenthesis(trustee[|trustee| - 1]) && bits != 0
    requires ';' !in GuidField(objectGuid) && ';' !in GuidField(appliesTo)
    ensures var f := BuiltFields(trustee, bits as nat, deny, objectGuid, appliesTo, inherit);
            && BuildAce(trustee, bits as int, deny, objectGuid, appliesTo, inherit) == Ace(PrintAce(f))
            && NormalAce(PrintAce(f), domain) == Some(MeaningOf(f, domain))
  {
    hide PlainFields, PrintAce, MeaningOf, BuiltFields, NormalAce, GuidField;
    NotZero(bits);
    BuiltIsPlain(trustee, bits as nat, deny, objectGuid, appliesTo, inherit);
    PrintedMeaning(BuiltFields(trustee, bits as nat, deny, objectGuid, appliesTo, inherit), domain);
  }

  /** Field by field, the spelled entry means what the built one does. */
  lemma OneMeaning(trustee: string, mask: nat, deny: bool, objectGuid: Option<string>, appliesTo: Option<string>,
                   inherit: bool, spelled: Fields, domain: Option<string>)
    requires NormalGuid(spelled.objectGuid) == NormalGuid(GuidField(objectGuid))
    requires NormalGuid(spelled.appliesTo) == NormalGuid(GuidField(appliesTo))
    requires NormalSid(spelled.trustee, domain) == NormalSid(trustee, domain)
    requires NormalMask(spelled.rights) == Number(mask)
    requires Upper(Strip(spelled.kind, WHITESPACE))
          == BuiltFields(trustee, 0, deny, objectGuid, appliesTo, inherit).kind
    requires FlagSet(spelled.flags) == if inherit then {"CI"} else {}
    ensures MeaningOf(spelled, domain)
         == MeaningOf(BuiltFields(trustee, mask, deny, objectGuid, appliesTo, inherit), domain)
  {
    hide NormalMask, NormalGuid, NormalSid, Strip, HexText, GuidField, FlagSet, Upper;
    var f := BuiltFields(trustee, mask, deny, objectGuid, appliesTo, inherit);
    HexRoundTrip(mask);
    KindIs(f.kind);
    FlagsAre(inherit);
  }

  lemma NotZero(b: bv32)
    requires b != 0
    ensures b as nat > 0
  {
  }

  lemma KindIs(kind: string)
    requires kind == "OD" || kind == "OA" || kind == "D" || kind == "A"
    ensures Upper(Strip(kind, WHITESPACE)) == kind
  {
    hide Strip;
    KindIsPlain(kind);
  }

  lemma KindIsPlain(kind: string)
    requires kind == "OD" || kind == "OA" || kind == "D" || kind == "A"
    ensures CleanEnds(kind, WHITESPACE) && Upper(kind) == kind
  {
    hide Strip;
    assert !IsSpace('O') && !IsSpace('D') && !IsSpace('A');
  }

  lemma FlagsAre(inherit: bool)
    ensures FlagSet(if inherit then "CI" else "") == if inherit then {"CI"} else {}
  {
    assert "CI"[..2] == "CI" && "CI"[2..] == "";
  }
}
