/** When two entries are the same and when they are not, field by field (backend/samadcon/ad/sacl.py 443-629). */
module AceDifference {
  import opened Text
  import opened AceMeaning
  import opened AceSpelling

  // --- Flags ------------------------------------------------------------------------------------

  function PairAt(flags: string, i: int): string {
    if 0 <= i && i + 2 <= |flags| then flags[i..i + 2] else ""
  }

  /** One of the two-letter flags that follow each other. */
  predicate HasFlag(flags: string, p: string) {
    exists i :: 0 <= i < |flags| - 1 && i % 2 == 0 && PairAt(flags, i) == p
  }

  ghost predicate SameFlags(a: string, b: string) {
    forall p :: HasFlag(a, p) <==> HasFlag(b, p)
  }

  lemma {:induction false} FlagIff(flags: string, p: string)
    ensures p in FlagSet(flags) <==> HasFlag(flags, p)
  {
    if |flags| >= 2 {
      FlagIff(flags[2..], p);
      assert PairAt(flags, 0) == flags[..2];
      forall i | 0 <= i < |flags[2..]| - 1 ensures PairAt(flags[2..], i) == PairAt(flags, i + 2) {
        assert flags[2..][i..i + 2] == flags[i + 2..i + 4];
      }
      if HasFlag(flags[2..], p) {
        var i :| 0 <= i < |flags[2..]| - 1 && i % 2 == 0 && PairAt(flags[2..], i) == p;
        assert PairAt(flags, i + 2) == p;
      }
      if HasFlag(flags, p) && flags[..2] != p {
        var i :| 0 <= i < |flags| - 1 && i % 2 == 0 && PairAt(flags, i) == p;
        assert PairAt(flags[2..], i - 2) == p;
      }
    }
  }

  lemma FlagsIff(a: string, b: string)
    ensures FlagSet(a) == FlagSet(b) <==> SameFlags(a, b)
  {
    hide FlagSet, HasFlag;
    forall p ensures (p in FlagSet(a) <==> HasFlag(a, p)) && (p in FlagSet(b) <==> HasFlag(b, p)) {
      FlagIff(a, p);
      FlagIff(b, p);
    }
  }

  /** An entry is inherited exactly when "ID" is one of its flags. */
  lemma InheritedIff(f: Fields)
    requires PlainFields(f)
    ensures IsInherited(PrintAce(f)) == Some(HasFlag(f.flags, "ID"))
  {
    hide PlainFields, PrintAce, ParseAce, FlagSet, HasFlag;
    ParsePrint(f);
    FlagIff(f.flags, "ID");
  }

  // --- Masks ------------------------------------------------------------------------------------

  /** A number in decimal or after "0x", nothing, or two-letter rights one after the other. */
  ghost predicate Denotes(field: string, n: nat) {
    var text := Strip(field, WHITESPACE);
    || (text == "" && n == 0)
    || (text != "" && (HexPrefix(text) || AllDigits(text)) && IntAuto(text) == Some(n))
    || SpellsMask(text, n)
  }

  ghost predicate SpellsMask(text: string, n: nat) {
    exists codes :: AllRights(codes) && codes != [] && Concat(codes) == text && OrAll(codes) as nat == n
  }

  /** One number, or one text where there is none. */
  ghost predicate SameMask(a: string, b: string) {
    || (exists n :: Denotes(a, n) && Denotes(b, n))
    || (Strip(a, WHITESPACE) == Strip(b, WHITESPACE) && forall n :: !Denotes(a, n))
  }

  /** Letters that are read stand for rights. */
  lemma {:induction false} CodesIn(text: string, mask: bv32) returns (codes: seq<string>)
    requires Letters(text, mask).Some?
    ensures AllRights(codes) && Concat(codes) == text && (text != "" ==> codes != [])
    decreases |text|
  {
    hide RightBit, Or;
    if text == "" {
      codes := [];
    } else {
      var bit := RightBit(UpperChar(text[0]), UpperChar(text[1])).value;
      var rest := CodesIn(text[2..], Or(mask, bit));
      codes := [text[..2]] + rest;
      assert codes[1..] == rest && text == text[..2] + text[2..];
      assert IsRight(text[..2]);
    }
  }

  lemma LettersIff(text: string, n: nat)
    requires text != ""
    ensures SpellsMask(text, n) <==> Letters(text, 0).Some? && Letters(text, 0).value as nat == n
    ensures SpellsMask(text, n) ==> !HexPrefix(text) && !AllDigits(text)
  {
    hide AllRights, OrAll, Letters, Concat, Or, HexPrefix, AllDigits;
    if Letters(text, 0).Some? {
      var codes := CodesIn(text, 0);
      LettersAre(codes, 0);
      OrLaws(OrAll(codes), 0, 0);
      OrLaws(0, OrAll(codes), 0);
    }
    if SpellsMask(text, n) {
      var codes :| AllRights(codes) && codes != [] && Concat(codes) == text && OrAll(codes) as nat == n;
      LettersAre(codes, 0);
      OrLaws(OrAll(codes), 0, 0);
      OrLaws(0, OrAll(codes), 0);
      CodesAreLetters(codes);
      LettersAreNoNumber(text);
    }
  }

  lemma NothingSpelled(n: nat)
    ensures !SpellsMask("", n)
  {
    forall codes | AllRights(codes) && codes != [] ensures Concat(codes) != "" {
      assert |codes[0]| == 2 && Concat(codes) == codes[0] + Concat(codes[1..]);
    }
  }

  lemma MaskIff(field: string, n: nat)
    ensures NormalMask(field) == Number(n) <==> Denotes(field, n)
    ensures NormalMask(field).Unread? ==> NormalMask(field) == Unread(Strip(field, WHITESPACE))
  {
    hide Strip, HexPrefix, AllDigits, IntAuto, Letters, SpellsMask;
    var text := Strip(field, WHITESPACE);
    if text == "" {
      NothingSpelled(n);
    } else {
      LettersIff(text, n);
    }
  }

  lemma SameTextSameMask(a: string, b: string)
    ensures Strip(a, WHITESPACE) == Strip(b, WHITESPACE) ==> NormalMask(a) == NormalMask(b)
  {
    hide Strip, HexPrefix, AllDigits, IntAuto, Letters;
  }

  lemma MasksIff(a: string, b: string)
    ensures NormalMask(a) == NormalMask(b) <==> SameMask(a, b)
  {
    hide NormalMask, Denotes, Strip;
    forall n ensures (NormalMask(a) == Number(n) <==> Denotes(a, n)) && (NormalMask(b) == Number(n) <==> Denotes(b, n)) {
      MaskIff(a, n);
      MaskIff(b, n);
    }
    MaskIff(a, 0);
    MaskIff(b, 0);
    SameTextSameMask(a, b);
    if NormalMask(a) == NormalMask(b) && NormalMask(a).Number? {
      assert Denotes(a, NormalMask(a).value) && Denotes(b, NormalMask(a).value);
    }
  }

  // --- GUIDs and trustees ------------------------------------------------------------------------

  function Bare(guid: string): string {
    Strip(Strip(guid, WHITESPACE), BRACES)
  }

  predicate SameGuid(a: string, b: string) {
    EqualIgnoringCase(Bare(a), Bare(b))
  }

  lemma GuidsIff(a: string, b: string)
    ensures NormalGuid(a) == NormalGuid(b) <==> SameGuid(a, b)
  {
    hide Strip, Lower, EqualIgnoringCase;
    LowerIff(Bare(a), Bare(b));
  }

  /** The SID of an alias, or the text of the trustee itself. */
  function SidOf(trustee: string, domain: Option<string>): string {
    var t := Upper(Strip(trustee, WHITESPACE));
    if |t| == 2 && AliasSid(t[0], t[1], domain).Some? then AliasSid(t[0], t[1], domain).value else t
  }

  lemma SidIs(trustee: string, domain: Option<string>)
    ensures NormalSid(trustee, domain) == SidOf(trustee, domain)
  {
    hide WellKnownSid, DomainRid, Strip, Upper;
    var t := Upper(Strip(trustee, WHITESPACE));
    if |t| == 2 && AliasSid(t[0], t[1], domain).Some? {
      NoDashAlias(t[0], t[1], domain);
      assert t[1] != "S-"[1];
    }
  }

  // --- Two entries ---------------------------------------------------------------------------------

  /** Types that agree without case, the same set of flags, one mask, GUIDs that agree without case and braces, and
      one trustee. */
  ghost predicate SameFields(f: Fields, g: Fields, domain: Option<string>) {
    && EqualIgnoringCase(Strip(f.kind, WHITESPACE), Strip(g.kind, WHITESPACE))
    && SameFlags(f.flags, g.flags)
    && SameMask(f.rights, g.rights)
    && SameGuid(f.objectGuid, g.objectGuid)
    && SameGuid(f.appliesTo, g.appliesTo)
    && SidOf(f.trustee, domain) == SidOf(g.trustee, domain)
  }

  lemma MeaningIff(f: Fields, g: Fields, domain: Option<string>)
    ensures MeaningOf(f, domain) == MeaningOf(g, domain) <==> SameFields(f, g, domain)
  {
    hide Strip, Upper, EqualIgnoringCase, FlagSet, SameFlags, NormalMask, SameMask, NormalGuid, SameGuid, NormalSid, SidOf;
    UpperIff(Strip(f.kind, WHITESPACE), Strip(g.kind, WHITESPACE));
    FlagsIff(f.flags, g.flags);
    MasksIff(f.rights, g.rights);
    GuidsIff(f.objectGuid, g.objectGuid);
    GuidsIff(f.appliesTo, g.appliesTo);
    SidIs(f.trustee, domain);
    SidIs(g.trustee, domain);
  }

  /** Two printed entries are the same exactly when their six fields agree. */
  lemma SameIff(f: Fields, g: Fields, domain: Option<string>)
    requires PlainFields(f) && PlainFields(g)
    ensures SameAce(PrintAce(f), PrintAce(g), domain) <==> SameFields(f, g, domain)
  {
    hide PlainFields, PrintAce, MeaningOf, SameFields, NormalAce;
    PrintedMeaning(f, domain);
    PrintedMeaning(g, domain);
    MeaningIff(f, g, domain);
  }
}
