/** The option "User cannot change password" in the entries of a DACL (backend/samadcon/ad/users.py 948-999). */
module CannotChange {
  import opened Text
  import opened AceMeaning
  import opened AceSpelling
  import opened AclEditing

  const RIGHT := "ab721a53-1e2f-11d0-9819-00aa0040529b"

  function EntryFields(kind: string, trustee: string): Fields {
    Fields(kind, "", "CR", RIGHT, "", trustee)
  }

  function EntryFor(kind: string, trustee: string): string {
    PrintAce(EntryFields(kind, trustee))
  }

  /** SELF, then Everyone. */
  function Wanted(value: bool): seq<string> {
    var kind := if value then "OD" else "OA";
    [EntryFor(kind, "PS"), EntryFor(kind, "WD")]
  }

  predicate IsWanted(ace: string, value: bool, domain: Option<string>) {
    SameAce(ace, Wanted(value)[0], domain) || SameAce(ace, Wanted(value)[1], domain)
  }

  /** An explicit allow or deny of the right for SELF or Everyone. */
  predicate IsEntry(ace: string, domain: Option<string>) {
    IsWanted(ace, false, domain) || IsWanted(ace, true, domain)
  }

  predicate CannotChangeIn(aces: seq<string>, domain: Option<string>) {
    aces != [] && (IsWanted(aces[0], true, domain) || CannotChangeIn(aces[1..], domain))
  }

  /** The entries of the right, or the others. */
  function Filter(aces: seq<string>, entries: bool, domain: Option<string>): seq<string> {
    if aces == [] then []
    else (if IsEntry(aces[0], domain) == entries then [aces[0]] else []) + Filter(aces[1..], entries, domain)
  }

  predicate Matched(want: string, present: seq<string>, domain: Option<string>) {
    present != [] && (SameAce(present[0], want, domain) || Matched(want, present[1..], domain))
  }

  /** The list says it already, with two entries. */
  predicate Settled(aces: seq<string>, value: bool, domain: Option<string>) {
    var present := Filter(aces, true, domain);
    |present| == 2 && Matched(Wanted(value)[0], present, domain) && Matched(Wanted(value)[1], present, domain)
  }

  /** None when an entry before the first inherited one cannot be taken apart. */
  function FirstInherited(aces: seq<string>): (r: Option<nat>)
    ensures r.Some? ==> r.value <= |aces|
  {
    if aces == [] then Some(0)
    else
      var first := IsInherited(aces[0]);
      if first == None then None
      else if first.value then Some(0)
      else
        var rest := FirstInherited(aces[1..]);
        if rest == None then None else Some(rest.value + 1)
  }

  lemma {:induction false} BeforeInherited(aces: seq<string>)
    requires FirstInherited(aces).Some?
    ensures forall i :: 0 <= i < FirstInherited(aces).value ==> IsInherited(aces[i]) == Some(false)
    ensures FirstInherited(aces).value < |aces| ==> IsInherited(aces[FirstInherited(aces).value]) == Some(true)
  {
    hide IsInherited;
    if aces != [] && IsInherited(aces[0]) == Some(false) {
      BeforeInherited(aces[1..]);
    }
  }

  function PutAt(kept: seq<string>, at: nat, wanted: seq<string>): seq<string>
    requires at <= |kept|
  {
    kept[..at] + wanted + kept[at..]
  }

  function Place(kept: seq<string>, value: bool): (r: Option<nat>)
    ensures r.Some? ==> r.value <= |kept|
  {
    if value then Some(FirstAllow(kept)) else FirstInherited(kept)
  }

  function WithCannotChange(aces: seq<string>, value: bool, domain: Option<string>): Option<seq<string>> {
    if Settled(aces, value, domain) then Some(aces)
    else
      var kept := Filter(aces, false, domain);
      match Place(kept, value)
      case None => None
      case Some(at) => Some(PutAt(kept, at, Wanted(value)))
  }

  // --- The four entries ------------------------------------------------------------------------

  lemma EntryIsPlain(kind: string, trustee: string)
    requires kind == "OA" || kind == "OD"
    requires trustee == "PS" || trustee == "WD"
    ensures PlainFields(EntryFields(kind, trustee))
  {
    RightIsPlain();
  }

  lemma RightIsPlain()
    ensures ';' !in RIGHT && ';' !in "CR"
  {
    assert RIGHT == ['a', 'b', '7', '2', '1', 'a', '5', '3', '-', '1', 'e', '2', 'f', '-', '1', '1', 'd', '0', '-',
        '9', '8', '1', '9', '-', '0', '0', 'a', 'a', '0', '0', '4', '0', '5', '2', '9', 'b'];
  }

  lemma SelfAndEveryone(domain: Option<string>)
    ensures NormalSid("PS", domain) != NormalSid("WD", domain)
  {
    hide Strip, Upper, WellKnownSid, DomainRid;
    AliasSids();
    assert NormalSid("PS", domain) == "S-1-5-10" && NormalSid("WD", domain) == "S-1-1-0";
    assert "S-1-5-10"[4] != "S-1-1-0"[4];
  }

  lemma AliasSids()
    ensures Upper(Strip("PS", WHITESPACE)) == "PS" && Upper(Strip("WD", WHITESPACE)) == "WD"
    ensures !("S-" <= "PS") && !("S-" <= "WD")
    ensures WellKnownSid('P', 'S') == Some("S-1-5-10") && WellKnownSid('W', 'D') == Some("S-1-1-0")
  {
    hide Strip, Upper;
    CapitalsStay("PS");
    CapitalsStay("WD");
    assert "S-"[0] != "PS"[0] && "S-"[0] != "WD"[0];
    TableSids();
  }

  lemma TableSids()
    ensures WellKnownSid('P', 'S') == Some("S-1-5-10") && WellKnownSid('W', 'D') == Some("S-1-1-0")
  {
  }

  lemma CapitalsStay(s: string)
    requires s != "" && forall i :: 0 <= i < |s| ==> 'A' <= s[i] <= 'Z'
    ensures Upper(Strip(s, WHITESPACE)) == s
  {
    hide Strip;
    CapitalNoSpace(s[0]);
    CapitalNoSpace(s[|s| - 1]);
    assert Upper(s) == s;
  }

  lemma CapitalNoSpace(c: char)
    requires 'A' <= c <= 'Z'
    ensures c !in WHITESPACE
  {
  }

  lemma EntryMeaning(kind: string, trustee: string, domain: Option<string>)
    requires kind == "OA" || kind == "OD"
    requires trustee == "PS" || trustee == "WD"
    ensures NormalAce(EntryFor(kind, trustee), domain) == Some(MeaningOf(EntryFields(kind, trustee), domain))
    ensures MeaningOf(EntryFields(kind, trustee), domain).kind == kind
    ensures MeaningOf(EntryFields(kind, trustee), domain).trustee == NormalSid(trustee, domain)
  {
    hide PlainFields, PrintAce, NormalMask, NormalGuid, NormalSid, FlagSet, Strip, NormalAce;
    EntryIsPlain(kind, trustee);
    PrintedMeaning(EntryFields(kind, trustee), domain);
    KindIs(kind);
  }

  /** No two of the four entries mean the same. */
  lemma FourDiffer(a: bool, b: bool, domain: Option<string>)
    ensures !SameAce(Wanted(a)[0], Wanted(b)[1], domain)
    ensures a != b ==> !SameAce(Wanted(a)[0], Wanted(b)[0], domain) && !SameAce(Wanted(a)[1], Wanted(b)[1], domain)
  {
    hide NormalAce, MeaningOf, NormalSid, EntryFor, EntryFields;
    var ka, kb := if a then "OD" else "OA", if b then "OD" else "OA";
    EntryMeaning(ka, "PS", domain);
    EntryMeaning(ka, "WD", domain);
    EntryMeaning(kb, "PS", domain);
    EntryMeaning(kb, "WD", domain);
    SelfAndEveryone(domain);
    assert "OD"[1] != "OA"[1];
  }

  lemma Related(x: string, p: string, q: string, domain: Option<string>)
    requires SameAce(x, p, domain) && SameAce(x, q, domain)
    ensures SameAce(p, q, domain) && SameAce(q, p, domain)
  {
    hide SameAce;
    SameAceIsEquivalence(x, p, x, domain);
    SameAceIsEquivalence(p, x, q, domain);
    SameAceIsEquivalence(p, q, p, domain);
  }

  /** An entry is at most one of the four. */
  lemma OneOfFour(x: string, value: bool, domain: Option<string>)
    ensures !(SameAce(x, Wanted(value)[0], domain) && SameAce(x, Wanted(value)[1], domain))
    ensures !(IsWanted(x, value, domain) && IsWanted(x, !value, domain))
  {
    hide SameAce, EntryFor;
    var w, v := Wanted(value), Wanted(!value);
    FourDiffer(value, value, domain);
    FourDiffer(value, !value, domain);
    FourDiffer(!value, value, domain);
    if SameAce(x, w[0], domain) && SameAce(x, w[1], domain) {
      Related(x, w[0], w[1], domain);
    }
    if SameAce(x, w[0], domain) && SameAce(x, v[0], domain) {
      Related(x, w[0], v[0], domain);
    }
    if SameAce(x, w[0], domain) && SameAce(x, v[1], domain) {
      Related(x, w[0], v[1], domain);
    }
    if SameAce(x, w[1], domain) && SameAce(x, v[0], domain) {
      Related(x, w[1], v[0], domain);
    }
    if SameAce(x, w[1], domain) && SameAce(x, v[1], domain) {
      Related(x, w[1], v[1], domain);
    }
  }

  lemma WantedAreWanted(value: bool, domain: Option<string>)
    ensures IsWanted(Wanted(value)[0], value, domain) && IsWanted(Wanted(value)[1], value, domain)
    ensures IsEntry(Wanted(value)[0], domain) && IsEntry(Wanted(value)[1], domain)
  {
    hide SameAce, EntryFor;
    SameAceIsEquivalence(Wanted(value)[0], Wanted(value)[0], Wanted(value)[0], domain);
    SameAceIsEquivalence(Wanted(value)[1], Wanted(value)[1], Wanted(value)[1], domain);
  }

  // --- Filtering ---------------------------------------------------------------------------------

  lemma {:induction false} FilterAppend(a: seq<string>, b: seq<string>, entries: bool, domain: Option<string>)
    ensures Filter(a + b, entries, domain) == Filter(a, entries, domain) + Filter(b, entries, domain)
  {
    hide IsEntry;
    if a == [] {
      assert a + b == b;
    } else {
      assert (a + b)[1..] == a[1..] + b;
      FilterAppend(a[1..], b, entries, domain);
    }
  }

  predicate AllOf(aces: seq<string>, entries: bool, domain: Option<string>) {
    forall i :: 0 <= i < |aces| ==> IsEntry(aces[i], domain) == entries
  }

  lemma {:induction false} FilterAll(aces: seq<string>, entries: bool, domain: Option<string>)
    requires AllOf(aces, entries, domain)
    ensures Filter(aces, entries, domain) == aces && Filter(aces, !entries, domain) == []
  {
    hide IsEntry;
    if aces != [] {
      FilterAll(aces[1..], entries, domain);
    }
  }

  lemma {:induction false} FilterOf(aces: seq<string>, entries: bool, domain: Option<string>)
    ensures AllOf(Filter(aces, entries, domain), entries, domain)
  {
    hide IsEntry;
    if aces != [] {
      FilterOf(aces[1..], entries, domain);
    }
  }

  lemma {:induction false} CannotAppend(a: seq<string>, b: seq<string>, domain: Option<string>)
    ensures CannotChangeIn(a + b, domain) <==> CannotChangeIn(a, domain) || CannotChangeIn(b, domain)
  {
    hide IsWanted;
    if a == [] {
      assert a + b == b;
    } else {
      assert (a + b)[1..] == a[1..] + b;
      CannotAppend(a[1..], b, domain);
    }
  }

  /** Only entries of the right say it. */
  lemma {:induction false} CannotIsFilter(aces: seq<string>, domain: Option<string>)
    ensures CannotChangeIn(aces, domain) <==> CannotChangeIn(Filter(aces, true, domain), domain)
  {
    hide IsWanted;
    if aces != [] {
      CannotIsFilter(aces[1..], domain);
      var first := if IsEntry(aces[0], domain) then [aces[0]] else [];
      CannotAppend(first, Filter(aces[1..], true, domain), domain);
      if first != [] {
        assert first[1..] == [];
      }
    }
  }

  // --- What the rewrite gives ----------------------------------------------------------------------

  lemma WantedSettle(value: bool, domain: Option<string>)
    ensures var w := Wanted(value);
            Matched(w[0], w, domain) && Matched(w[1], w, domain) && CannotChangeIn(w, domain) == value
  {
    hide SameAce, EntryFor;
    var w := Wanted(value);
    assert w[1..] == [w[1]] && w[1..][1..] == [];
    SameAceIsEquivalence(w[0], w[0], w[0], domain);
    SameAceIsEquivalence(w[1], w[1], w[1], domain);
    WantedAreWanted(value, domain);
    OneOfFour(w[0], value, domain);
    OneOfFour(w[1], value, domain);
    assert CannotChangeIn(w, domain) <==> IsWanted(w[0], true, domain) || CannotChangeIn(w[1..], domain);
    assert CannotChangeIn(w[1..], domain) <==> IsWanted(w[1], true, domain) || CannotChangeIn([], domain);
  }

  /** A rewritten list has exactly the two entries, and the other entries as they were. */
  lemma RewrittenFilters(aces: seq<string>, value: bool, at: nat, domain: Option<string>)
    requires at <= |Filter(aces, false, domain)|
    ensures var r := PutAt(Filter(aces, false, domain), at, Wanted(value));
            Filter(r, true, domain) == Wanted(value) && Filter(r, false, domain) == Filter(aces, false, domain)
  {
    hide IsEntry, Wanted, Filter, PutAt;
    var kept, w := Filter(aces, false, domain), Wanted(value);
    FilterOf(aces, false, domain);
    AllWanted(value, domain);
    FilterAll(w, true, domain);
    FilterAll(kept[..at], false, domain);
    FilterAll(kept[at..], false, domain);
    FilterPutAt(kept, at, w, true, domain);
    FilterPutAt(kept, at, w, false, domain);
    assert kept[..at] + [] + kept[at..] == kept;
    assert [] + w + [] == w;
  }

  lemma AllWanted(value: bool, domain: Option<string>)
    ensures AllOf(Wanted(value), true, domain)
  {
    hide IsEntry, EntryFor;
    WantedAreWanted(value, domain);
  }

  lemma FilterPutAt(kept: seq<string>, at: nat, w: seq<string>, entries: bool, domain: Option<string>)
    requires at <= |kept|
    ensures Filter(PutAt(kept, at, w), entries, domain)
         == Filter(kept[..at], entries, domain) + Filter(w, entries, domain) + Filter(kept[at..], entries, domain)
  {
    hide Filter;
    FilterAppend(kept[..at] + w, kept[at..], entries, domain);
    FilterAppend(kept[..at], w, entries, domain);
  }

  lemma TwoWanted(value: bool)
    ensures |Wanted(value)| == 2
  {
  }

  /** Two entries that match the two wanted ones are one for each: nothing is left over for the other kind. */
  lemma Pigeonhole(x: string, y: string, value: bool, domain: Option<string>)
    requires Matched(Wanted(value)[0], [x, y], domain) && Matched(Wanted(value)[1], [x, y], domain)
    ensures (SameAce(x, Wanted(value)[0], domain) && SameAce(y, Wanted(value)[1], domain))
         || (SameAce(x, Wanted(value)[1], domain) && SameAce(y, Wanted(value)[0], domain))
  {
    hide SameAce, Wanted;
    assert [x, y][1..] == [y] && [y][1..] == [];
    OneOfFour(x, value, domain);
    OneOfFour(y, value, domain);
    TwoWanted(value);
    forall w ensures Matched(w, [x, y], domain) <==> SameAce(x, w, domain) || SameAce(y, w, domain) {
      assert Matched(w, [y], domain) <==> SameAce(y, w, domain) || Matched(w, [], domain);
    }
  }

  lemma SettledSays(aces: seq<string>, value: bool, domain: Option<string>)
    requires Settled(aces, value, domain)
    ensures CannotChangeIn(aces, domain) == value
  {
    hide SameAce, Wanted, IsEntry;
    var present := Filter(aces, true, domain);
    var x, y := present[0], present[1];
    assert present == [x, y];
    Pigeonhole(x, y, value, domain);
    CannotIsFilter(aces, domain);
    OneOfFour(x, value, domain);
    OneOfFour(y, value, domain);
    assert [x, y][1..] == [y] && [y][1..] == [];
    assert CannotChangeIn([y], domain) <==> IsWanted(y, true, domain) || CannotChangeIn([], domain);
    TwoWanted(value);
  }

  /** The option, once set or cleared, is read back; the list holds the two entries of the right and no other; every
      other entry is as it was, in order; doing it again changes nothing. */
  lemma SetCannotChange(aces: seq<string>, value: bool, domain: Option<string>)
    requires WithCannotChange(aces, value, domain).Some?
    ensures var r := WithCannotChange(aces, value, domain).value;
            && CannotChangeIn(r, domain) == value
            && Settled(r, value, domain)
            && Filter(r, false, domain) == Filter(aces, false, domain)
            && WithCannotChange(r, value, domain) == Some(r)
  {
    hide SameAce, Wanted, IsEntry, Filter, Matched, FirstAllow, FirstInherited;
    if !Settled(aces, value, domain) {
      var kept := Filter(aces, false, domain);
      var at := Place(kept, value).value;
      RewrittenFilters(aces, value, at, domain);
      WantedSettle(value, domain);
      TwoWanted(value);
    }
    SettledSays(WithCannotChange(aces, value, domain).value, value, domain);
  }

  /** The first is the entry for SELF and not the one for Everyone, the second the other way round. */
  predicate OneEach(x: string, y: string, value: bool, domain: Option<string>) {
    && SameAce(x, Wanted(value)[0], domain) && !SameAce(x, Wanted(value)[1], domain)
    && SameAce(y, Wanted(value)[1], domain) && !SameAce(y, Wanted(value)[0], domain)
  }

  /** Each of the two entries stands in the list exactly once. */
  lemma OnceEach(aces: seq<string>, value: bool, domain: Option<string>)
    requires Settled(aces, value, domain)
    ensures var p := Filter(aces, true, domain);
            |p| == 2 && (OneEach(p[0], p[1], value, domain) || OneEach(p[1], p[0], value, domain))
  {
    hide SameAce, Wanted, IsEntry, Filter;
    TwoWanted(value);
    var p := Filter(aces, true, domain);
    assert p == [p[0], p[1]];
    Pigeonhole(p[0], p[1], value, domain);
    OneOfFour(p[0], value, domain);
    OneOfFour(p[1], value, domain);
  }

  /** Where a rewrite puts them: denies before every allow, allows before every inherited entry. */
  lemma Placement(aces: seq<string>, value: bool, domain: Option<string>) returns (at: nat)
    requires WithCannotChange(aces, value, domain).Some? && !Settled(aces, value, domain)
    ensures var r := WithCannotChange(aces, value, domain).value;
            && at + 2 <= |r| && r[at..at + 2] == Wanted(value)
            && (value ==> forall i :: 0 <= i < at ==> !IsAllow(r[i]))
            && (!value ==> forall i :: 0 <= i < at ==> IsInherited(r[i]) == Some(false))
  {
    hide SameAce, Wanted, IsEntry, Filter, Matched, IsAllow, IsInherited, Settled;
    TwoWanted(value);
    var kept := Filter(aces, false, domain);
    at := Place(kept, value).value;
    var r := PutAt(kept, at, Wanted(value));
    assert r[at..at + 2] == Wanted(value);
    assert forall i :: 0 <= i < at ==> r[i] == kept[i];
    if !value {
      BeforeInherited(kept);
    }
  }

  /** An entry that cannot be taken apart stands before every inherited one. */
  predicate Stuck(kept: seq<string>) {
    exists i :: 0 <= i < |kept| && IsInherited(kept[i]) == None
             && forall j :: 0 <= j < i ==> IsInherited(kept[j]) == Some(false)
  }

  /** The change is refused exactly when the option is to be cleared, the list does not say so already, and an entry
      that cannot be taken apart stands before every inherited one. */
  lemma RefusedIff(aces: seq<string>, value: bool, domain: Option<string>)
    ensures WithCannotChange(aces, value, domain) == None
        <==> !value && !Settled(aces, value, domain) && Stuck(Filter(aces, false, domain))
  {
    hide Settled, Filter, IsInherited, Stuck;
    NoPlaceIff(Filter(aces, false, domain));
  }

  lemma {:induction false} NoPlaceIff(kept: seq<string>)
    ensures FirstInherited(kept) == None <==> Stuck(kept)
  {
    hide IsInherited;
    if kept != [] {
      NoPlaceIff(kept[1..]);
      assert forall i :: 1 <= i < |kept| ==> kept[i] == kept[1..][i - 1];
      match IsInherited(kept[0]) {
        case None => assert 0 < |kept|;
        case Some(true) =>
        case Some(false) =>
          if FirstInherited(kept[1..]) == None {
            var i :| 0 <= i < |kept[1..]| && IsInherited(kept[1..][i]) == None
                  && forall j :: 0 <= j < i ==> IsInherited(kept[1..][j]) == Some(false);
            assert IsInherited(kept[i + 1]) == None;
          }
      }
    }
  }

  lemma UnreadableIsNoEntry(ace: string, domain: Option<string>)
    requires ParseAce(ace) == None
    ensures !IsEntry(ace, domain)
  {
    hide SameAce, EntryFor;
    UnreadableDiffers(ace, "OD", "PS", domain);
    UnreadableDiffers(ace, "OD", "WD", domain);
    UnreadableDiffers(ace, "OA", "PS", domain);
    UnreadableDiffers(ace, "OA", "WD", domain);
  }

  lemma UnreadableDiffers(ace: string, kind: string, trustee: string, domain: Option<string>)
    requires ParseAce(ace) == None && (kind == "OA" || kind == "OD") && (trustee == "PS" || trustee == "WD")
    ensures !SameAce(ace, EntryFor(kind, trustee), domain)
  {
    hide NormalAce, EntryFor, EntryFields, MeaningOf, NormalSid, ParseAce;
    MeansNothing(ace, domain);
    EntryMeaning(kind, trustee, domain);
  }

  lemma MeansNothing(ace: string, domain: Option<string>)
    ensures ParseAce(ace) == None ==> NormalAce(ace, domain) == None && IsInherited(ace) == None
  {
    hide ParseAce, MeaningOf;
  }

  /** An entry that cannot be taken apart, such as "()", makes clearing the option fail when it is alone in the list. */
  lemma UnreadableRefused(ace: string, domain: Option<string>)
    requires ParseAce(ace) == None
    ensures WithCannotChange([ace], false, domain) == None
    ensures ParseAce("()") == None
  {
    hide ParseAce, IsEntry, Wanted, IsInherited, Settled, WithCannotChange;
    NothingReadable();
    UnreadableIsNoEntry(ace, domain);
    MeansNothing(ace, domain);
    assert [ace][1..] == [];
    assert Filter([ace], true, domain) == [] && Filter([ace], false, domain) == [ace];
    NotSettled([ace], domain);
    assert IsInherited([ace][0]) == None && Stuck([ace]);
    RefusedIff([ace], false, domain);
  }

  lemma NotSettled(aces: seq<string>, domain: Option<string>)
    requires Filter(aces, true, domain) == []
    ensures !Settled(aces, false, domain)
  {
    hide Filter, Matched, Wanted;
  }

  lemma NothingReadable()
    ensures ParseAce("()") == None
  {
    hide Strip;
    ParenthesesAreNoSpace();
    assert CleanEnds("()", WHITESPACE);
    assert IsParenthesis('(') && IsParenthesis(')');
    StripAround('(', "", ')', PARENTHESES);
    assert ['('] + "" + [')'] == "()";
    assert Split("", ';') == [""];
  }
}
