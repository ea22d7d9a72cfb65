/** Which entries protect an object from deletion, and what setting and clearing the protection leaves
    (backend/samadcon/ad/sacl.py 100-156). */
module ProtectionState {
  import opened Text
  import opened AceMeaning
  import opened Sddl
  import opened DeleteProtection
  import opened ProtectionEntries
  import opened SecuredObjects

  // --- Which entries protect -------------------------------------------------------------------

  /** Two capitals next to each other somewhere in the rights. */
  predicate HasLetters(rights: string, a: char, b: char) {
    exists k :: 0 <= k < |rights| - 1 && rights[k] == a && rights[k + 1] == b
  }

  predicate Capitals(rights: string) {
    forall i :: 0 <= i < |rights| ==> 'A' <= rights[i] <= 'Z'
  }

  /** A plain deny for Everyone, on no object type, whose rights in letters cover delete and delete-tree. */
  predicate DeniesDeletion(f: Fields) {
    && f.kind == "D" && f.objectGuid == "" && f.appliesTo == "" && f.trustee == "WD"
    && Capitals(f.rights) && HasLetters(f.rights, 'S', 'D') && HasLetters(f.rights, 'D', 'T')
  }

  predicate NoSemicolons(f: Fields) {
    && ';' !in f.kind && ';' !in f.flags && ';' !in f.rights && ';' !in f.objectGuid && ';' !in f.appliesTo
    && ';' !in f.trustee && ')' !in f.trustee
  }

  lemma LettersIff(rights: string, a: char, b: char)
    ensures Find(rights, [a, b]) >= 0 <==> HasLetters(rights, a, b)
  {
    var r := Find(rights, [a, b]);
    if r >= 0 {
      assert rights[r..][0] == rights[r] && rights[r..][1] == rights[r + 1];
    }
    if HasLetters(rights, a, b) {
      var k :| 0 <= k < |rights| - 1 && rights[k] == a && rights[k + 1] == b;
      assert rights[k..][..2] == [a, b];
      assert [a, b] <= rights[k..];
    }
  }

  lemma ProtectsIff(rights: string)
    ensures Protects(rights) <==> HasLetters(rights, 'S', 'D') && HasLetters(rights, 'D', 'T')
  {
    hide Find, HasLetters;
    LettersIff(rights, 'S', 'D');
    LettersIff(rights, 'D', 'T');
    assert "SD" == ['S', 'D'] && "DT" == ['D', 'T'];
  }

  /** The text of an entry from the rights on. */
  function Tail(f: Fields): string {
    ";" + f.objectGuid + ";" + f.appliesTo + ";" + f.trustee + ")"
  }

  lemma TailIff(f: Fields)
    requires NoSemicolons(f)
    ensures ClosesAt(Tail(f), 0) <==> f.objectGuid == "" && f.appliesTo == "" && f.trustee == "WD"
    ensures |Tail(f)| >= 4 && Tail(f)[0] == ';'
    ensures ClosesAt(Tail(f), 0) ==> |Tail(f)| == 6
  {
    var t := Tail(f);
    if f.objectGuid != "" {
      assert t[1] == f.objectGuid[0] && f.objectGuid[0] in f.objectGuid;
    } else if f.appliesTo != "" {
      assert t[2] == f.appliesTo[0] && f.appliesTo[0] in f.appliesTo;
    } else {
      assert t == ";;;" + f.trustee + ")";
      TrusteeIff(f.trustee, t);
    }
  }

  lemma TrusteeIff(trustee: string, t: string)
    requires t == ";;;" + trustee + ")" && ')' !in trustee
    ensures ClosesAt(t, 0) <==> trustee == "WD"
  {
    assert forall i :: 0 <= i < |trustee| ==> t[i + 3] == trustee[i] && trustee[i] in trustee;
    assert t[|trustee| + 3] == ')';
    if |trustee| > 2 {
      assert t[5] == trustee[2] && trustee[2] in trustee;
    } else if |trustee| == 2 {
      assert t[3] == trustee[0] && t[4] == trustee[1];
      assert trustee == [trustee[0], trustee[1]];
    }
  }

  lemma Associate(a: string, b: string, c: string)
    ensures a + (b + c) == a + b + c
  {
  }

  lemma TailBehind(a: string, f: Fields)
    ensures a + ";" + f.objectGuid + ";" + f.appliesTo + ";" + f.trustee + ")" == a + Tail(f)
  {
    var p := ";" + f.objectGuid;
    Associate(a, ";", f.objectGuid);
    Associate(a, p, ";");
    Associate(a, p + ";", f.appliesTo);
    Associate(a, p + ";" + f.appliesTo, ";");
    Associate(a, p + ";" + f.appliesTo + ";", f.trustee);
    Associate(a, p + ";" + f.appliesTo + ";" + f.trustee, ")");
  }

  /** How a plain deny is laid out. */
  lemma Layout(f: Fields)
    requires f.kind == "D" && ';' !in f.flags
    ensures var s, k := PrintAce(f), 3 + |f.flags|;
            && OpensAt(s, 0) && Semicolon(s, 3) == k && k < |s|
            && s[k + 1..] == f.rights + Tail(f)
  {
    hide Tail;
    var front := "(D;" + f.flags + ";";
    TailBehind("(" + f.kind + ";" + f.flags + ";" + f.rights, f);
    assert "(" + f.kind + ";" == "(D;";
    Associate(front, f.rights, Tail(f));
    LaidOut(f.flags, f.rights + Tail(f));
  }

  lemma LaidOut(flags: string, rest: string)
    requires ';' !in flags
    ensures var s, k := "(D;" + flags + ";" + rest, 3 + |flags|;
            OpensAt(s, 0) && Semicolon(s, 3) == k && k < |s| && s[k + 1..] == rest
  {
    var s, k := "(D;" + flags + ";" + rest, 3 + |flags|;
    assert forall i :: 0 <= i < |flags| ==> s[3 + i] == flags[i] && flags[i] in flags;
    assert s[k] == ';';
    SemicolonIs(s, 3, k);
  }

  lemma OtherKinds(f: Fields)
    requires NoSemicolons(f) && f.kind != "D"
    ensures !OpensAt(PrintAce(f), 0)
  {
    var s := PrintAce(f);
    if f.kind == "" {
      assert s[1] == ';';
    } else {
      assert s[1] == f.kind[0];
      if |f.kind| > 1 {
        assert s[2] == f.kind[1] && f.kind[1] in f.kind;
      } else {
        assert f.kind == [f.kind[0]];
      }
    }
  }

  lemma TextBehind(s: string, from: nat, rights: string, tail: string)
    requires from <= |s| && s[from..] == rights + tail
    ensures |s| == from + |rights| + |tail|
    ensures forall j :: 0 <= j < |rights| ==> s[from + j] == rights[j]
    ensures forall j :: 0 <= j < |tail| ==> s[from + |rights| + j] == tail[j]
  {
    assert forall j :: 0 <= j < |rights| + |tail| ==> s[from + j] == s[from..][j];
  }

  /** The rights end where the capitals do. */
  lemma RightsEnd(s: string, from: nat, rights: string, tail: string)
    requires from <= |s| && s[from..] == rights + tail && ';' !in rights && tail != "" && tail[0] == ';'
    ensures var n := UpperEnd(s, from);
            && (Capitals(rights) ==> n == from + |rights| && (ClosesAt(s, n) <==> ClosesAt(tail, 0)))
            && (!Capitals(rights) ==> !ClosesAt(s, n))
  {
    TextBehind(s, from, rights, tail);
    if Capitals(rights) {
      assert forall i :: from <= i < from + |rights| ==> s[i] == rights[i - from];
      assert s[from + |rights|] == tail[0];
      UpperEndIs(s, from, from + |rights|);
      ClosesBehind(s, from + |rights|, tail);
    } else {
      InterruptedEnd(s, from, rights);
    }
  }

  lemma ClosesBehind(s: string, at: nat, tail: string)
    requires |s| == at + |tail| && forall j :: 0 <= j < |tail| ==> s[at + j] == tail[j]
    ensures ClosesAt(s, at) <==> ClosesAt(tail, 0)
  {
  }

  lemma InterruptedEnd(s: string, from: nat, rights: string)
    requires from + |rights| <= |s| && forall j :: 0 <= j < |rights| ==> s[from + j] == rights[j]
    requires ';' !in rights && !Capitals(rights)
    ensures !ClosesAt(s, UpperEnd(s, from))
  {
    var i :| 0 <= i < |rights| && !('A' <= rights[i] <= 'Z');
    var n := UpperEnd(s, from);
    assert s[from + i] == rights[i];
    assert n <= from + i;
    assert s[n] == rights[n - from] && rights[n - from] in rights;
  }

  /** An entry protects exactly when it denies Everyone the deletion. */
  lemma CoversIff(f: Fields)
    requires NoSemicolons(f)
    ensures CoversAt(PrintAce(f), 0) <==> DeniesDeletion(f)
  {
    hide PrintAce, OpensAt, ClosesAt, Protects, HasLetters, Capitals, Tail, UpperEnd, Semicolon;
    if f.kind == "D" {
      var s, k := PrintAce(f), 3 + |f.flags|;
      Layout(f);
      TailIff(f);
      RightsEnd(s, k + 1, f.rights, Tail(f));
      ProtectsIff(f.rights);
      if Capitals(f.rights) {
        assert s[k + 1..k + 1 + |f.rights|] == s[k + 1..][..|f.rights|] == f.rights;
      }
    } else {
      OtherKinds(f);
    }
  }

  // --- What a call leaves ------------------------------------------------------------------------

  /** Asked to protect, the text afterwards is protected, whatever it was. */
  lemma ProtectingProtects(sddl: string)
    ensures IsProtected(SetProtection(sddl, true))
  {
    hide IsProtected, Insert, Cleared;
    SettingProtects(sddl);
  }

  /** On a descriptor made of entries the state afterwards is the one asked for; taking the protection away takes out
      the entries that deny the deletion and nothing else. */
  lemma ProtectionIsAsAsked(ps: seq<Piece>, protect: bool)
    requires AllWellFormed(ps)
    ensures IsProtected(SetProtection(TextOf(ps), protect)) == protect
    ensures !protect ==> SetProtection(TextOf(ps), false) == TextOf(Others(ps))
  {
    hide IsProtected, Insert, Cleared, CoversAt, WellFormed;
    ProtectingProtects(TextOf(ps));
    ClearEntries(ps);
    ClearingUnprotects(ps);
    NoOthers(ps);
  }

  lemma {:induction false} NoOthers(ps: seq<Piece>)
    ensures !AnyProtecting(ps) ==> Others(ps) == ps
  {
    hide Protecting;
    if ps != [] {
      NoOthers(ps[1..]);
    }
  }

  /** Any other text can be left protected: what is taken out can join the two sides to a new entry. */
  lemma ClearingCanJoin()
    ensures var s := With(PROTECTION_ACE, 6);
            IsProtected(s) && SetProtection(s, false) == PROTECTION_ACE && IsProtected(PROTECTION_ACE)
  {
    hide MatchAt, With, CoversAt, ProtectedFrom, ClearedFrom;
    var p := PROTECTION_ACE;
    var s := With(p, 6);
    NotAtStart();
    InsertedCovers(p, 6);
    ProtectedIff(s, 0);
    InsertedCovers("", 0);
    WithNothing();
    ProtectedIff(p, 0);
    Joined();
  }

  lemma WithNothing()
    ensures With("", 0) == PROTECTION_ACE
  {
  }

  lemma JoinChars()
    ensures var p := PROTECTION_ACE;
            && |p| == 14 && p[0] == '(' && p[1] == 'D' && p[2] == ';' && p[3] == ';' && p[4] == 'S' && p[5] == 'D'
            && forall i :: 1 <= i < 14 ==> p[i] != '('
  {
    assert PROTECTION_ACE == ['(', 'D', ';', ';', 'S', 'D', 'D', 'T', ';', ';', ';', 'W', 'D', ')'];
  }

  lemma SidesOf(s: string)
    requires s == With(PROTECTION_ACE, 6)
    ensures |s| == 28 && s[..6] == PROTECTION_ACE[..6] && s[20..] == PROTECTION_ACE[6..] && s[6] == '('
  {
    JoinChars();
  }

  /** The outer text is no match: its rights are interrupted. */
  lemma NotAtStart()
    ensures MatchAt(With(PROTECTION_ACE, 6), 0) == None
  {
    hide With;
    var s := With(PROTECTION_ACE, 6);
    JoinChars();
    SidesOf(s);
    assert forall i :: 0 <= i < 6 ==> s[i] == s[..6][i];
    SemicolonIs(s, 3, 3);
    UpperEndIs(s, 4, 6);
  }

  lemma Joined()
    ensures Cleared(With(PROTECTION_ACE, 6)) == PROTECTION_ACE
  {
    hide With, MatchAt, CoversAt;
    var p, s := PROTECTION_ACE, With(PROTECTION_ACE, 6);
    JoinChars();
    SidesOf(s);
    NotAtStart();
    InsertedCovers(p, 6);
    assert !CoversAt(s, 0) && Step(s, 0) == 1 && Step(s, 6) == 20 by { NoMatchNoCover(s, 0); }
    forall i | 1 <= i < 6 ensures s[i] != '(' {
      assert s[i] == s[..6][i];
    }
    PassOver(s, 1, 6);
    forall i | 20 <= i < 28 ensures s[i] != '(' {
      assert s[i] == s[20..][i - 20];
    }
    PassOver(s, 20, 28);
    assert ClearedFrom(s, 28) == "";
    assert s[0..1] + (s[1..6] + s[20..28]) == p by {
      assert s[0..1] + s[1..6] == p[..6] && s[20..28] == p[6..];
    }
  }

  lemma NoMatchNoCover(s: string, i: nat)
    ensures MatchAt(s, i) == None ==> !CoversAt(s, i)
  {
  }

  // --- Where the entry stands ---------------------------------------------------------------------

  predicate MarkerAt(s: string, j: int, c: char) {
    0 <= j && j + 2 <= |s| && s[j] == c && s[j + 1] == ':'
  }

  lemma MarkerIff(s: string, j: nat, c: char)
    requires j <= |s|
    ensures [c, ':'] <= s[j..] <==> MarkerAt(s, j, c)
  {
    if MarkerAt(s, j, c) {
      assert s[j..][..2] == [c, ':'];
    }
    if [c, ':'] <= s[j..] {
      assert s[j..][0] == c && s[j..][1] == ':';
    }
  }

  /** Where the first marker stands, by its two characters. */
  lemma FoundAt(s: string, c: char, k: int)
    requires (k == -1 && forall j :: 0 <= j <= |s| ==> !MarkerAt(s, j, c))
          || (k >= 0 && MarkerAt(s, k, c) && forall j :: 0 <= j < k ==> !MarkerAt(s, j, c))
    ensures Find(s, [c, ':']) == k
  {
    forall j | 0 <= j <= |s| ensures [c, ':'] <= s[j..] <==> MarkerAt(s, j, c) {
      MarkerIff(s, j, c);
    }
    if k >= 0 {
      FindIs(s, [c, ':'], k);
    }
  }

  lemma FoundMeans(s: string, c: char)
    ensures var k := Find(s, [c, ':']);
            && (k == -1 ==> forall j :: 0 <= j <= |s| ==> !MarkerAt(s, j, c))
            && (k >= 0 ==> MarkerAt(s, k, c) && forall j :: 0 <= j < k ==> !MarkerAt(s, j, c))
            && k >= -1
  {
    forall j | 0 <= j <= |s| ensures [c, ':'] <= s[j..] <==> MarkerAt(s, j, c) {
      MarkerIff(s, j, c);
    }
  }

  lemma AceLetters()
    ensures |PROTECTION_ACE| == 14 && PROTECTION_ACE[0] == '(' && PROTECTION_ACE[13] == ')'
    ensures forall i :: 0 <= i < 14 ==> PROTECTION_ACE[i] != ':'
    ensures ')' !in PROTECTION_ACE[..13]
  {
    assert PROTECTION_ACE == ['(', 'D', ';', ';', 'S', 'D', 'D', 'T', ';', ';', ';', 'W', 'D', ')'];
  }

  lemma EntryFirst(body: string)
    ensures FindAces(PROTECTION_ACE + body) == [PROTECTION_ACE] + FindAces(body)
  {
    hide IndexOf;
    AceLetters();
    var t := PROTECTION_ACE + body;
    assert t[..13] == PROTECTION_ACE[..13] && t[13] == ')';
    IndexOfIs(t, ')', 13);
    AtStart(t);
    assert t[0..14] == PROTECTION_ACE && t[14..] == body;
  }

  lemma SaclBehind(rest: string)
    ensures Find(PROTECTION_ACE + rest, "S:") == if Find(rest, "S:") < 0 then -1 else 14 + Find(rest, "S:")
  {
    AceLetters();
    var t, k := PROTECTION_ACE + rest, Find(rest, "S:");
    assert "S:" == ['S', ':'];
    FoundMeans(rest, 'S');
    assert forall j :: 0 <= j < |rest| ==> t[14 + j] == rest[j];
    forall j | 0 <= j <= |t| ensures MarkerAt(t, j, 'S') <==> j >= 14 && MarkerAt(rest, j - 14, 'S') {
      if j < 13 {
        assert t[j + 1] == PROTECTION_ACE[j + 1];
      }
    }
    FoundAt(t, 'S', if k < 0 then -1 else 14 + k);
  }

  /** The entry that is put in stands first in the DACL, before every other; everything around the entries is kept. */
  lemma ProtectionStandsFirst(sddl: string)
    ensures SplitDacl(Insert(sddl, PROTECTION_ACE))
         == match SplitDacl(sddl)
            case None => Some(Split(sddl + "D:", [PROTECTION_ACE], ""))
            case Some(s) => Some(s.(aces := [PROTECTION_ACE] + s.aces))
  {
    hide Find, Cursor, FindAces;
    FoundMeans(sddl, 'D');
    assert DACL_MARKER == ['D', ':'] && SACL_MARKER == "S:";
    if Find(sddl, DACL_MARKER) < 0 {
      NewDacl(sddl);
    } else {
      InDacl(sddl);
    }
  }

  /** A text taken apart, once the marker and the first entry are known. */
  lemma SplitAt(t: string, m: nat, c: nat)
    requires Find(t, DACL_MARKER) == m && m + 2 <= c <= |t| && Cursor(t, m + 2) == c
    ensures var k := Find(t[c..], SACL_MARKER);
            SplitDacl(t) == Some(Split(t[..c], FindAces(if k < 0 then t[c..] else t[c..][..k]),
                                       if k < 0 then "" else t[c..][k..]))
  {
    hide Find, Cursor, FindAces;
  }

  /** The entry put in at the cursor is the first one. */
  lemma EntryAt(t: string, m: nat, c: nat, rest: string)
    requires Find(t, DACL_MARKER) == m && m + 2 <= c <= |t| && Cursor(t, m + 2) == c
    requires t[c..] == PROTECTION_ACE + rest
    ensures var k := Find(rest, SACL_MARKER);
            SplitDacl(t) == Some(Split(t[..c], [PROTECTION_ACE] + FindAces(if k < 0 then rest else rest[..k]),
                                       if k < 0 then "" else rest[k..]))
  {
    hide Find, Cursor, FindAces, SplitDacl;
    var p, k := PROTECTION_ACE, Find(rest, SACL_MARKER);
    SplitAt(t, m, c);
    SaclBehind(rest);
    AceLetters();
    FoundMeans(rest, 'S');
    assert SACL_MARKER == ['S', ':'] == "S:";
    EntryFirst(if k < 0 then rest else rest[..k]);
    if k >= 0 {
      assert (p + rest)[..14 + k] == p + rest[..k] && (p + rest)[14 + k..] == rest[k..];
    }
  }

  lemma MarkedBehind(sddl: string, t: string)
    requires t == sddl + ("D:" + PROTECTION_ACE)
    ensures |t| == |sddl| + 16 && MarkerAt(t, |sddl|, 'D') && t[|sddl| + 2] == '('
    ensures forall j :: 0 <= j < |sddl| ==> t[j] == sddl[j]
    ensures t[|sddl| + 2..] == PROTECTION_ACE + "" && t[..|sddl| + 2] == sddl + "D:"
  {
    AceLetters();
  }

  lemma NewDacl(sddl: string)
    requires Find(sddl, DACL_MARKER) < 0
    ensures SplitDacl(Insert(sddl, PROTECTION_ACE)) == Some(Split(sddl + "D:", [PROTECTION_ACE], ""))
  {
    hide Find, Cursor, FindAces, SplitDacl;
    assert DACL_MARKER == ['D', ':'] == "D:";
    var c, t := |sddl| + 2, Insert(sddl, PROTECTION_ACE);
    MarkedBehind(sddl, t);
    FoundMeans(sddl, 'D');
    hide Insert;
    forall j | 0 <= j < |sddl| ensures !MarkerAt(t, j, 'D') {
      if j + 1 < |sddl| {
        assert !MarkerAt(sddl, j, 'D');
      }
    }
    FoundAt(t, 'D', |sddl|);
    CursorIs(t, c, c);
    EntryAt(t, |sddl|, c, "");
    NothingFound();
    assert [PROTECTION_ACE] + [] == [PROTECTION_ACE];
  }

  lemma NothingFound()
    ensures Find("", SACL_MARKER) < 0 && FindAces("") == []
  {
  }

  lemma PutIn(sddl: string, c: nat, t: string)
    requires c <= |sddl| && t == sddl[..c] + PROTECTION_ACE + sddl[c..]
    ensures |t| == |sddl| + 14 && t[c] == '(' && t[c..] == PROTECTION_ACE + sddl[c..] && t[..c] == sddl[..c]
    ensures forall j :: 0 <= j < c ==> t[j] == sddl[j]
  {
    AceLetters();
  }

  lemma InDacl(sddl: string)
    requires Find(sddl, DACL_MARKER) >= 0
    ensures SplitDacl(sddl).Some?
    ensures SplitDacl(Insert(sddl, PROTECTION_ACE))
         == Some(SplitDacl(sddl).value.(aces := [PROTECTION_ACE] + SplitDacl(sddl).value.aces))
  {
    hide Find, FindAces, SplitDacl, Cursor;
    var m := Find(sddl, DACL_MARKER);
    assert DACL_MARKER == ['D', ':'];
    FoundMeans(sddl, 'D');
    var c, t := Cursor(sddl, m + 2), Insert(sddl, PROTECTION_ACE);
    PutIn(sddl, c, t);
    hide Insert;
    forall j | 0 <= j < m ensures !MarkerAt(t, j, 'D') {
      assert !MarkerAt(sddl, j, 'D');
    }
    FoundAt(t, 'D', m);
    CursorIs(t, m + 2, c);
    SplitAt(sddl, m, c);
    EntryAt(t, m, c, sddl[c..]);
  }
}
