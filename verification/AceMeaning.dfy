/** What an access control entry means, and when two spellings mean the same (backend/samadcon/ad/sacl.py 274-306,
    443-629). */
module AceMeaning {
  import opened Text
  import opened Numerals

  datatype Fields =
    Fields(kind: string, flags: string, rights: string, objectGuid: string, appliesTo: string, trustee: string)

  datatype Mask = Number(value: nat) | Unread(text: string)

  datatype Meaning =
    Meaning(kind: string, flags: set<string>, mask: Mask, objectGuid: string, appliesTo: string, trustee: string)

  predicate IsParenthesis(c: char) {
    c == '(' || c == ')'
  }

  predicate IsBrace(c: char) {
    c == '{' || c == '}'
  }

  const PARENTHESES: set<char> := set c: char | IsParenthesis(c)
  const BRACES: set<char> := set c: char | IsBrace(c)

  // --- The tables -----------------------------------------------------------------------------

  /** The right letters of section 2.5.1.1 of MS-DTYP that can stand on a directory object. */
  function RightBit(a: char, b: char): Option<bv32> {
    if a == 'C' && b == 'C' then Some(0x00000001)
    else if a == 'D' && b == 'C' then Some(0x00000002)
    else if a == 'L' && b == 'C' then Some(0x00000004)
    else if a == 'S' && b == 'W' then Some(0x00000008)
    else if a == 'R' && b == 'P' then Some(0x00000010)
    else if a == 'W' && b == 'P' then Some(0x00000020)
    else if a == 'D' && b == 'T' then Some(0x00000040)
    else if a == 'L' && b == 'O' then Some(0x00000080)
    else if a == 'C' && b == 'R' then Some(0x00000100)
    else if a == 'S' && b == 'D' then Some(0x00010000)
    else if a == 'R' && b == 'C' then Some(0x00020000)
    else if a == 'W' && b == 'D' then Some(0x00040000)
    else if a == 'W' && b == 'O' then Some(0x00080000)
    else if a == 'G' && b == 'A' then Some(0x10000000)
    else if a == 'G' && b == 'X' then Some(0x20000000)
    else if a == 'G' && b == 'W' then Some(0x40000000)
    else if a == 'G' && b == 'R' then Some(0x80000000)
    else None
  }

  /** The SID aliases that need no domain. */
  function WellKnownSid(a: char, b: char): Option<string> {
    if a == 'W' && b == 'D' then Some("S-1-1-0")
    else if a == 'C' && b == 'O' then Some("S-1-3-0")
    else if a == 'C' && b == 'G' then Some("S-1-3-1")
    else if a == 'O' && b == 'W' then Some("S-1-3-4")
    else if a == 'N' && b == 'U' then Some("S-1-5-2")
    else if a == 'I' && b == 'U' then Some("S-1-5-4")
    else if a == 'S' && b == 'U' then Some("S-1-5-6")
    else if a == 'A' && b == 'N' then Some("S-1-5-7")
    else if a == 'E' && b == 'D' then Some("S-1-5-9")
    else if a == 'P' && b == 'S' then Some("S-1-5-10")
    else if a == 'A' && b == 'U' then Some("S-1-5-11")
    else if a == 'R' && b == 'C' then Some("S-1-5-12")
    else if a == 'S' && b == 'Y' then Some("S-1-5-18")
    else if a == 'L' && b == 'S' then Some("S-1-5-19")
    else if a == 'N' && b == 'S' then Some("S-1-5-20")
    else if a == 'W' && b == 'R' then Some("S-1-5-33")
    else if a == 'B' && b == 'A' then Some("S-1-5-32-544")
    else if a == 'B' && b == 'U' then Some("S-1-5-32-545")
    else if a == 'B' && b == 'G' then Some("S-1-5-32-546")
    else if a == 'P' && b == 'U' then Some("S-1-5-32-547")
    else if a == 'A' && b == 'O' then Some("S-1-5-32-548")
    else if a == 'S' && b == 'O' then Some("S-1-5-32-549")
    else if a == 'P' && b == 'O' then Some("S-1-5-32-550")
    else if a == 'B' && b == 'O' then Some("S-1-5-32-551")
    else if a == 'R' && b == 'E' then Some("S-1-5-32-552")
    else if a == 'R' && b == 'U' then Some("S-1-5-32-554")
    else if a == 'R' && b == 'D' then Some("S-1-5-32-555")
    else if a == 'N' && b == 'O' then Some("S-1-5-32-556")
    else if a == 'M' && b == 'U' then Some("S-1-5-32-558")
    else if a == 'L' && b == 'U' then Some("S-1-5-32-559")
    else if a == 'I' && b == 'S' then Some("S-1-5-32-568")
    else if a == 'C' && b == 'Y' then Some("S-1-5-32-569")
    else if a == 'E' && b == 'R' then Some("S-1-5-32-573")
    else if a == 'R' && b == 'M' then Some("S-1-5-32-580")
    else None
  }

  /** The SID aliases relative to the domain, by RID. */
  function DomainRid(a: char, b: char): Option<string> {
    if a == 'R' && b == 'O' then Some("498")
    else if a == 'D' && b == 'A' then Some("512")
    else if a == 'D' && b == 'U' then Some("513")
    else if a == 'D' && b == 'G' then Some("514")
    else if a == 'D' && b == 'C' then Some("515")
    else if a == 'D' && b == 'D' then Some("516")
    else if a == 'C' && b == 'A' then Some("517")
    else if a == 'S' && b == 'A' then Some("518")
    else if a == 'E' && b == 'A' then Some("519")
    else if a == 'P' && b == 'A' then Some("520")
    else if a == 'C' && b == 'N' then Some("522")
    else if a == 'A' && b == 'P' then Some("525")
    else if a == 'K' && b == 'A' then Some("526")
    else if a == 'E' && b == 'K' then Some("527")
    else if a == 'R' && b == 'S' then Some("553")
    else None
  }

  // --- Reading the fields -------------------------------------------------------------------------

  function ParseAce(ace: string): Option<Fields> {
    var fs := Split(Strip(Strip(ace, WHITESPACE), PARENTHESES), ';');
    if |fs| < 6 then None else Some(Fields(fs[0], fs[1], fs[2], fs[3], fs[4], fs[5]))
  }

  /** The flags two characters at a time; a single one left over is dropped. */
  function FlagSet(raw: string): set<string> {
    if |raw| < 2 then {} else {raw[..2]} + FlagSet(raw[2..])
  }

  /** The two error cases of the source's is_inherited_ace are one: the entry cannot be taken apart. */
  function IsInherited(ace: string): Option<bool> {
    match ParseAce(ace) case Some(f) => Some("ID" in FlagSet(f.flags)) case None => None
  }

  /** Hexadecimal digits, with single underscores before them. */
  function HexRun(s: string, value: nat, afterDigit: bool): Option<nat> {
    if s == "" then (if afterDigit then Some(value) else None)
    else if IsHexDigit(s[0]) then HexRun(s[1..], value * 16 + HexValue(s[0]), true)
    else if s[0] == '_' && afterDigit then HexRun(s[1..], value, false)
    else None
  }

  predicate AllDigits(s: string) {
    forall i :: 0 <= i < |s| ==> IsDigit(s[i])
  }

  predicate HexPrefix(s: string) {
    |s| >= 2 && s[0] == '0' && LowerChar(s[1]) == 'x'
  }

  /** int(text, 0) on "0x..." or on digits: a number that starts with 0 is nothing but zeros. */
  function IntAuto(text: string): Option<nat> {
    if HexPrefix(text) then (if |text| == 2 then None else HexRun(text[2..], 0, true))
    else if text != "" && text[0] == '0' && (exists i :: 0 <= i < |text| && text[i] != '0') then None
    else DigitRun(text, 0, false)
  }

  function Or(a: bv32, b: bv32): bv32 {
    a | b
  }

  function Letters(text: string, mask: bv32): Option<bv32> {
    if text == "" then Some(mask)
    else if |text| == 1 then None
    else
      match RightBit(UpperChar(text[0]), UpperChar(text[1]))
      case None => None
      case Some(bit) => Letters(text[2..], Or(mask, bit))
  }

  function NormalMask(field: string): Mask {
    var text := Strip(field, WHITESPACE);
    if text == "" then Number(0)
    else if HexPrefix(text) || AllDigits(text) then
      match IntAuto(text) case Some(n) => Number(n) case None => Unread(text)
    else
      match Letters(text, 0) case Some(mask) => Number(mask as nat) case None => Unread(text)
  }

  /** The source's loop over the letters. */
  method NormalMaskOf(field: string) returns (r: Mask)
    ensures r == NormalMask(field)
  {
    hide RightBit, IntAuto, Strip;
    var text := Strip(field, WHITESPACE);
    if text == "" {
      return Number(0);
    }
    if HexPrefix(text) || AllDigits(text) {
      match IntAuto(text) {
        case Some(n) => return Number(n);
        case None => return Unread(text);
      }
    }
    if |text| % 2 == 1 {
      OddLetters(text, 0);
      return Unread(text);
    }
    var mask: bv32 := 0;
    var index := 0;
    assert text[0..] == text;
    while index < |text|
      invariant 0 <= index <= |text| && index % 2 == 0
      invariant Letters(text[index..], mask) == Letters(text, 0)
    {
      assert text[index..][2..] == text[index + 2..];
      match RightBit(UpperChar(text[index]), UpperChar(text[index + 1])) {
        case None => return Unread(text);
        case Some(bit) => mask := Or(mask, bit);
      }
      index := index + 2;
    }
    return Number(mask as nat);
  }

  lemma {:induction false} OddLetters(text: string, mask: bv32)
    requires |text| % 2 == 1
    ensures Letters(text, mask) == None
    decreases |text|
  {
    hide RightBit;
    if |text| > 1 {
      match RightBit(UpperChar(text[0]), UpperChar(text[1])) {
        case None =>
        case Some(bit) => OddLetters(text[2..], Or(mask, bit));
      }
    }
  }

  function NormalSid(trustee: string, domain: Option<string>): string {
    var alias := Upper(Strip(trustee, WHITESPACE));
    if "S-" <= alias then alias
    else if |alias| == 2 && WellKnownSid(alias[0], alias[1]).Some? then WellKnownSid(alias[0], alias[1]).value
    else if |alias| == 2 && DomainRid(alias[0], alias[1]).Some? && domain.Some? && domain.value != "" then
      Upper(domain.value) + "-" + DomainRid(alias[0], alias[1]).value
    else alias
  }

  function NormalGuid(value: string): string {
    Lower(Strip(Strip(value, WHITESPACE), BRACES))
  }

  function MeaningOf(f: Fields, domain: Option<string>): Meaning {
    Meaning(Upper(Strip(f.kind, WHITESPACE)), FlagSet(f.flags), NormalMask(f.rights), NormalGuid(f.objectGuid),
            NormalGuid(f.appliesTo), NormalSid(f.trustee, domain))
  }

  function NormalAce(ace: string, domain: Option<string>): Option<Meaning> {
    match ParseAce(ace) case Some(f) => Some(MeaningOf(f, domain)) case None => None
  }

  predicate SameAce(a: string, b: string, domain: Option<string>) {
    var na, nb := NormalAce(a, domain), NormalAce(b, domain);
    if na.Some? && nb.Some? then na == nb else a == b
  }

  /** Also with entries that cannot be taken apart, being the same is an equivalence. */
  lemma SameAceIsEquivalence(a: string, b: string, c: string, domain: Option<string>)
    ensures SameAce(a, a, domain)
    ensures SameAce(a, b, domain) ==> SameAce(b, a, domain)
    ensures SameAce(a, b, domain) && SameAce(b, c, domain) ==> SameAce(a, c, domain)
  {
    hide NormalAce;
  }

  // --- Writing an entry -------------------------------------------------------------------------------

  function HexDigits(n: nat): string {
    (if n < 16 then "" else HexDigits(n / 16)) + [HexDigit(n % 16)]
  }

  function Zeros(n: nat): string {
    if n == 0 then "" else "0" + Zeros(n - 1)
  }

  /** f"0x{n:08x}". */
  function HexText(n: nat): string {
    "0x" + (if |HexDigits(n)| < 8 then Zeros(8 - |HexDigits(n)|) else "") + HexDigits(n)
  }

  function PrintAce(f: Fields): string {
    "(" + f.kind + ";" + f.flags + ";" + f.rights + ";" + f.objectGuid + ";" + f.appliesTo + ";" + f.trustee + ")"
  }

  datatype Built = Ace(text: string) | EmptyMask | MissingTrustee

  function GuidField(guid: Option<string>): string {
    match guid case Some(g) => Strip(g, BRACES) case None => ""
  }

  function BuiltFields(trustee: string, mask: nat, deny: bool, objectGuid: Option<string>, appliesTo: Option<string>,
                       inherit: bool): Fields {
    var objectAce := (objectGuid.Some? && objectGuid.value != "") || (appliesTo.Some? && appliesTo.value != "");
    Fields(if objectAce then (if deny then "OD" else "OA") else (if deny then "D" else "A"),
           if inherit then "CI" else "", HexText(mask), GuidField(objectGuid), GuidField(appliesTo), trustee)
  }

  function BuildAce(trustee: string, mask: int, deny: bool, objectGuid: Option<string>, appliesTo: Option<string>,
                    inherit: bool): Built {
    if mask <= 0 then EmptyMask
    else if trustee == "" then MissingTrustee
    else Ace(PrintAce(BuiltFields(trustee, mask, deny, objectGuid, appliesTo, inherit)))
  }
}
