/** What an edit of the permissions takes for the same entry, and what it leaves alone (backend/samadcon/ad/sacl.py
    274-339 and 606-629, backend/samadcon/ad/users.py 948-999). */
module AclDifference {
  import opened Text
  import opened AceMeaning
  import opened AceSpelling
  import opened AceDifference
  import opened AclEditing
  import opened AclLaws
  import opened CannotChange

  /** An entry is the same as a printed one exactly when it can be taken apart into fields that agree with it. */
  lemma SameAsPrinted(ace: string, g: Fields, domain: Option<string>)
    requires PlainFields(g)
    ensures SameAce(ace, PrintAce(g), domain) <==> ParseAce(ace).Some? && SameFields(ParseAce(ace).value, g, domain)
  {
    hide PlainFields, PrintAce, MeaningOf, SameFields, ParseAce;
    ParsePrint(g);
    if ParseAce(ace).Some? {
      MeaningIff(ParseAce(ace).value, g, domain);
    }
  }

  // --- Adding ---------------------------------------------------------------------------------------

  ghost predicate AgreesWithOne(aces: seq<string>, g: Fields, domain: Option<string>) {
    exists i :: 0 <= i < |aces| && ParseAce(aces[i]).Some? && SameFields(ParseAce(aces[i]).value, g, domain)
  }

  lemma {:induction false} AmongIff(aces: seq<string>, g: Fields, domain: Option<string>)
    requires PlainFields(g)
    ensures Among(PrintAce(g), aces, domain) <==> AgreesWithOne(aces, g, domain)
  {
    hide PlainFields, PrintAce, SameFields, ParseAce, SameAce;
    if aces != [] {
      AmongIff(aces[1..], g, domain);
      SameAsPrinted(aces[0], g, domain);
      SameAceIsEquivalence(PrintAce(g), aces[0], aces[0], domain);
      SameAceIsEquivalence(aces[0], PrintAce(g), aces[0], domain);
      assert forall i :: 0 <= i < |aces[1..]| ==> aces[1..][i] == aces[i + 1];
      if AgreesWithOne(aces, g, domain) && !SameAce(aces[0], PrintAce(g), domain) {
        var i :| 0 <= i < |aces| && ParseAce(aces[i]).Some? && SameFields(ParseAce(aces[i]).value, g, domain);
        assert aces[1..][i - 1] == aces[i];
      }
    }
  }

  /** An addition is refused exactly when the list has an entry whose six fields agree with it; one for another object
      GUID, say, is no reason. */
  lemma AddRefusedIff(aces: seq<string>, g: Fields, domain: Option<string>)
    requires PlainFields(g)
    ensures AddOne(aces, PrintAce(g), domain).Refused? <==> AgreesWithOne(aces, g, domain)
    ensures (forall i :: 0 <= i < |aces| && ParseAce(aces[i]).Some? ==>
                           !SameGuid(ParseAce(aces[i]).value.objectGuid, g.objectGuid))
            ==> AddOne(aces, PrintAce(g), domain).Done?
  {
    hide PlainFields, PrintAce, ParseAce, Among, SameGuid, SameFlags, SameMask, SidOf, EqualIgnoringCase, Inserted;
    AmongIff(aces, g, domain);
  }

  /** What is assembled as a deny is taken for one, and as an allow for an allow. */
  lemma BuiltIsDeny(trustee: string, mask: int, deny: bool, objectGuid: Option<string>, appliesTo: Option<string>,
                    inherit: bool)
    requires BuildAce(trustee, mask, deny, objectGuid, appliesTo, inherit).Ace?
    ensures var ace := BuildAce(trustee, mask, deny, objectGuid, appliesTo, inherit).text;
            (IsDeny(ace) <==> deny) && (IsAllow(ace) <==> !deny)
  {
    hide HexText, GuidField;
    var f := BuiltFields(trustee, mask, deny, objectGuid, appliesTo, inherit);
    PrintStart(f);
  }

  lemma PrintStart(f: Fields)
    requires f.kind == "OD" || f.kind == "OA" || f.kind == "D" || f.kind == "A"
    ensures IsDeny(PrintAce(f)) <==> f.kind == "OD" || f.kind == "D"
    ensures IsAllow(PrintAce(f)) <==> f.kind == "OA" || f.kind == "A"
  {
    var rest := f.flags + ";" + f.rights + ";" + f.objectGuid + ";" + f.appliesTo + ";" + f.trustee + ")";
    assert PrintAce(f) == "(" + f.kind + ";" + rest;
    assert "(" + f.kind + ";" <= PrintAce(f);
    var t := PrintAce(f);
    assert t[0] == '(' && t[1] == f.kind[0] && t[2] == (if |f.kind| == 1 then ';' else f.kind[1]);
    assert |f.kind| == 2 ==> t[3] == ';';
    assert "(D;" == ['(', 'D', ';'] && "(OD;" == ['(', 'O', 'D', ';'];
    assert "(A;" == ['(', 'A', ';'] && "(OA;" == ['(', 'O', 'A', ';'];
  }

  /** After a batch, whatever was assembled as a deny and added stands before every entry assembled as an allow. */
  lemma BuiltDenyBeforeAllows(
    aces: seq<string>, remove: seq<int>, add: seq<string>, domain: Option<string>,
    trustee: string, mask: int, objectGuid: Option<string>, appliesTo: Option<string>, inherit: bool)
    requires ChangeAces(aces, remove, add, domain).Done?
    requires BuildAce(trustee, mask, true, objectGuid, appliesTo, inherit).Ace?
    requires BuildAce(trustee, mask, true, objectGuid, appliesTo, inherit).text in add
    ensures BeforeAllows(BuildAce(trustee, mask, true, objectGuid, appliesTo, inherit).text,
                         ChangeAces(aces, remove, add, domain).value)
  {
    hide BuildAce, ChangeAces, BeforeAllows, IsDeny, IsAllow;
    BuiltIsDeny(trustee, mask, true, objectGuid, appliesTo, inherit);
    ChangeDeniesFirst(aces, remove, add, domain, BuildAce(trustee, mask, true, objectGuid, appliesTo, inherit).text);
  }

  // --- The option "User cannot change password" ------------------------------------------------------

  const CHANGE_PASSWORD := "ab721a53-1e2f-11d0-9819-00aa0040529b"

  /** An object allow or deny of the one right to change the password, on the object itself, for SELF or Everyone. */
  ghost predicate OptionFields(f: Fields, value: bool, domain: Option<string>) {
    && EqualIgnoringCase(Strip(f.kind, WHITESPACE), if value then "OD" else "OA")
    && (forall p :: !HasFlag(f.flags, p))
    && Denotes(f.rights, 0x100)
    && EqualIgnoringCase(Bare(f.objectGuid), CHANGE_PASSWORD)
    && Bare(f.appliesTo) == ""
    && (SidOf(f.trustee, domain) == "S-1-5-10" || SidOf(f.trustee, domain) == "S-1-1-0")
  }

  lemma RightMask(field: string)
    ensures SameMask(field, "CR") <==> Denotes(field, 0x100)
  {
    hide Strip, Denotes, NormalMask;
    CrIs();
    MaskIff("CR", 0x100);
    MaskIff(field, 0x100);
    MasksIff(field, "CR");
  }

  lemma CrIs()
    ensures NormalMask("CR") == Number(0x100)
  {
    hide NormalMask;
    var codes := ["CR"];
    assert "CR" == ['C', 'R'];
    assert IsRight("CR") && Bit("CR") == 0x100;
    assert Concat(codes) == "CR" by { assert codes[1..] == []; }
    assert OrAll(codes) == 0x100 by {
      assert codes[1..] == [] && OrAll([]) == 0;
      OrLaws(0x100, 0, 0);
    }
    LettersMask(codes);
  }

  lemma EmptyIsBare()
    ensures Bare("") == "" && (forall p :: !HasFlag("", p)) && Bare(RIGHT) == CHANGE_PASSWORD
  {
    hide Strip;
    assert Strip("", WHITESPACE) == "" && Strip("", BRACES) == "";
    var g := RIGHT;
    assert RIGHT == ['a', 'b', '7', '2', '1', 'a', '5', '3', '-', '1', 'e', '2', 'f', '-', '1', '1', 'd', '0', '-',
        '9', '8', '1', '9', '-', '0', '0', 'a', 'a', '0', '0', '4', '0', '5', '2', '9', 'b'];
    assert !IsSpace('a') && !IsSpace('b');
    assert CleanEnds(RIGHT, WHITESPACE) && CleanEnds(RIGHT, BRACES);
  }

  lemma KindsAre(kind: string)
    requires kind == "OD" || kind == "OA"
    ensures Strip(kind, WHITESPACE) == kind
  {
    hide Strip;
    KindIsPlain(kind);
  }

  lemma OptionTrustees(domain: Option<string>)
    ensures SidOf("PS", domain) == "S-1-5-10" && SidOf("WD", domain) == "S-1-1-0"
  {
    hide SidOf, NormalSid, Strip, WellKnownSid;
    SidIs("PS", domain);
    SidIs("WD", domain);
    SelfAndEveryoneSids(domain);
  }

  lemma SelfAndEveryoneSids(domain: Option<string>)
    ensures NormalSid("PS", domain) == "S-1-5-10" && NormalSid("WD", domain) == "S-1-1-0"
  {
    hide Strip, Upper, WellKnownSid, DomainRid;
    AliasSids();
  }

  lemma FieldsAgree(f: Fields, value: bool, trustee: string, sid: string, domain: Option<string>)
    requires SidOf(trustee, domain) == sid
    ensures SameFields(f, EntryFields(if value then "OD" else "OA", trustee), domain)
       <==> EqualIgnoringCase(Strip(f.kind, WHITESPACE), if value then "OD" else "OA")
            && (forall p :: !HasFlag(f.flags, p)) && Denotes(f.rights, 0x100)
            && EqualIgnoringCase(Bare(f.objectGuid), CHANGE_PASSWORD) && Bare(f.appliesTo) == ""
            && SidOf(f.trustee, domain) == sid
  {
    hide Strip, EqualIgnoringCase, HasFlag, Denotes, Bare, SidOf, SameMask;
    var kind := if value then "OD" else "OA";
    KindsAre(kind);
    RightMask(f.rights);
    EmptyIsBare();
    EmptyIgnoringCase(Bare(f.appliesTo));
  }

  lemma EmptyIgnoringCase(s: string)
    ensures EqualIgnoringCase(s, "") <==> s == ""
  {
  }

  /** What counts as an entry of the option: exactly the fields above. */
  lemma OptionIff(ace: string, value: bool, domain: Option<string>)
    ensures IsWanted(ace, value, domain) <==> ParseAce(ace).Some? && OptionFields(ParseAce(ace).value, value, domain)
  {
    hide SameAce, SameFields, ParseAce, PrintAce, PlainFields, EntryFields, SidOf, EqualIgnoringCase, Strip, HasFlag,
      Denotes, Bare;
    var kind := if value then "OD" else "OA";
    EntryIsPlain(kind, "PS");
    EntryIsPlain(kind, "WD");
    SameAsPrinted(ace, EntryFields(kind, "PS"), domain);
    SameAsPrinted(ace, EntryFields(kind, "WD"), domain);
    OptionTrustees(domain);
    if ParseAce(ace).Some? {
      FieldsAgree(ParseAce(ace).value, value, "PS", "S-1-5-10", domain);
      FieldsAgree(ParseAce(ace).value, value, "WD", "S-1-1-0", domain);
    }
  }

  /** The option is set exactly when such a deny is in the list. */
  lemma {:induction false} CannotChangeIff(aces: seq<string>, domain: Option<string>)
    ensures CannotChangeIn(aces, domain)
       <==> exists i :: 0 <= i < |aces| && ParseAce(aces[i]).Some?
                        && OptionFields(ParseAce(aces[i]).value, true, domain)
  {
    hide IsWanted, ParseAce, OptionFields;
    if aces != [] {
      CannotChangeIff(aces[1..], domain);
      OptionIff(aces[0], true, domain);
      assert forall i :: 0 <= i < |aces[1..]| ==> aces[1..][i] == aces[i + 1];
      assert forall i :: 1 <= i < |aces| ==> aces[i] == aces[1..][i - 1];
    }
  }

  lemma {:induction false} FilterCounts(aces: seq<string>, x: string, domain: Option<string>)
    requires !IsEntry(x, domain)
    ensures multiset(Filter(aces, false, domain))[x] == multiset(aces)[x]
  {
    hide IsEntry;
    if aces != [] {
      FilterCounts(aces[1..], x, domain);
      CountCons(aces[0], aces[1..], x);
      CountCons(aces[0], Filter(aces[1..], false, domain), x);
      assert aces == [aces[0]] + aces[1..];
      if IsEntry(aces[0], domain) {
        assert [] + Filter(aces[1..], false, domain) == Filter(aces[1..], false, domain);
      }
    }
  }

  lemma CountCons(first: string, rest: seq<string>, x: string)
    ensures multiset([first] + rest)[x] == (if first == x then 1 else 0) + multiset(rest)[x]
  {
  }

  /** Setting or clearing the option keeps every entry that is not one of the option, as often as it stood: one for
      another object GUID, say. */
  lemma OthersStay(aces: seq<string>, value: bool, ace: string, domain: Option<string>)
    requires WithCannotChange(aces, value, domain).Some?
    requires forall v :: ParseAce(ace).Some? ==> !OptionFields(ParseAce(ace).value, v, domain)
    ensures multiset(WithCannotChange(aces, value, domain).value)[ace] == multiset(aces)[ace]
  {
    hide IsWanted, ParseAce, OptionFields, WithCannotChange, Filter;
    OptionIff(ace, false, domain);
    OptionIff(ace, true, domain);
    SetCannotChange(aces, value, domain);
    FilterCounts(aces, ace, domain);
    FilterCounts(WithCannotChange(aces, value, domain).value, ace, domain);
  }

  const SEND_AS := "ab721a54-1e2f-11d0-9819-00aa0040529b"

  /** SELF's right to send as itself differs from the option's entry in one digit of the GUID, and stays. */
  lemma SendAsStays(domain: Option<string>)
    ensures var ace := PrintAce(Fields("OA", "", "CR", SEND_AS, "", "PS"));
            && WithCannotChange([ace], true, domain).Some?
            && ace in WithCannotChange([ace], true, domain).value
  {
    hide PrintAce, WithCannotChange, OptionFields, ParseAce;
    var f := Fields("OA", "", "CR", SEND_AS, "", "PS");
    var ace := PrintAce(f);
    SendAsDiffers(f, domain);
    RefusedIff([ace], true, domain);
    OthersStay([ace], true, ace, domain);
    assert multiset([ace])[ace] == 1;
  }

  lemma SendAsDiffers(f: Fields, domain: Option<string>)
    requires f == Fields("OA", "", "CR", SEND_AS, "", "PS")
    ensures ParseAce(PrintAce(f)) == Some(f) && forall v :: !OptionFields(f, v, domain)
  {
    hide PrintAce, ParseAce, Strip, HasFlag, Denotes, SidOf, Bare;
    SendAsIsPlain(f);
    ParsePrint(f);
    SendAsText();
  }

  lemma SendAsIsPlain(f: Fields)
    requires f == Fields("OA", "", "CR", SEND_AS, "", "PS")
    ensures PlainFields(f)
  {
    SendAsLetters();
    assert "CR" == ['C', 'R'] && "PS" == ['P', 'S'] && "OA" == ['O', 'A'];
  }

  lemma SendAsLetters()
    ensures ';' !in SEND_AS && |SEND_AS| == 36 && SEND_AS[0] == 'a' && SEND_AS[35] == 'b' && SEND_AS[7] == '4'
  {
    assert SEND_AS == ['a', 'b', '7', '2', '1', 'a', '5', '4', '-', '1', 'e', '2', 'f', '-', '1', '1', 'd', '0', '-',
        '9', '8', '1', '9', '-', '0', '0', 'a', 'a', '0', '0', '4', '0', '5', '2', '9', 'b'];
  }

  lemma SendAsText()
    ensures Bare(SEND_AS) == SEND_AS && !EqualIgnoringCase(SEND_AS, CHANGE_PASSWORD)
  {
    hide Strip;
    SendAsLetters();
    assert !IsSpace('a') && !IsSpace('b');
    assert CleanEnds(SEND_AS, WHITESPACE) && CleanEnds(SEND_AS, BRACES);
    assert CHANGE_PASSWORD[7] == '3';
  }
}
