/** Protection from accidental deletion, found, set and cleared in SDDL text (backend/samadcon/ad/sacl.py 113-156). */
module DeleteProtection {
  import opened Text
  import opened Sddl

  const PROTECTION_ACE := "(D;;SDDT;;;WD)"

  function Semicolon(s: string, from: nat): (k: nat)
    requires from <= |s|
    ensures from <= k <= |s|
    ensures forall i :: from <= i < k ==> s[i] != ';'
    ensures k < |s| ==> s[k] == ';'
    decreases |s| - from
  {
    if from == |s| || s[from] == ';' then from else Semicolon(s, from + 1)
  }

  function UpperEnd(s: string, from: nat): (n: nat)
    requires from <= |s|
    ensures from <= n <= |s|
    ensures forall i :: from <= i < n ==> 'A' <= s[i] <= 'Z'
    ensures n < |s| ==> !('A' <= s[n] <= 'Z')
    decreases |s| - from
  {
    if from < |s| && 'A' <= s[from] <= 'Z' then UpperEnd(s, from + 1) else from
  }

  predicate OpensAt(s: string, i: int) {
    0 <= i && i + 3 <= |s| && s[i] == '(' && s[i + 1] == 'D' && s[i + 2] == ';'
  }

  predicate ClosesAt(s: string, n: int) {
    0 <= n && n + 6 <= |s| && s[n] == ';' && s[n + 1] == ';' && s[n + 2] == ';'
    && s[n + 3] == 'W' && s[n + 4] == 'D' && s[n + 5] == ')'
  }

  /** The expression at a position: "(D;", flags up to a semicolon, rights in capitals, ";;;WD)". The result is where
      the flags and where the rights end. */
  function MatchAt(s: string, i: nat): (m: Option<(nat, nat)>)
    ensures m.Some? ==> i + 3 <= m.value.0 < m.value.1 && m.value.1 + 6 <= |s|
  {
    if !OpensAt(s, i) then None
    else
      var k := Semicolon(s, i + 3);
      if k == |s| then None
      else
        var n := UpperEnd(s, k + 1);
        if ClosesAt(s, n) then Some((k, n)) else None
  }

  predicate Protects(rights: string) {
    Find(rights, "SD") >= 0 && Find(rights, "DT") >= 0
  }

  predicate CoversAt(s: string, i: nat) {
    match MatchAt(s, i) case Some((k, n)) => Protects(s[k + 1..n]) case None => false
  }

  /** Where the search goes on: after the match, or one character further. */
  function Step(s: string, i: nat): (r: nat)
    requires i < |s|
    ensures i < r <= |s|
  {
    match MatchAt(s, i) case Some((_, n)) => n + 6 case None => i + 1
  }

  /** Whether one of the matches from a position on, which do not overlap, covers delete and delete-tree. */
  predicate ProtectedFrom(s: string, from: nat)
    decreases |s| - from
  {
    from < |s| && (CoversAt(s, from) || ProtectedFrom(s, Step(s, from)))
  }

  predicate IsProtected(s: string) {
    ProtectedFrom(s, 0)
  }

  /** The text from a position on, without the matches that protect. */
  function ClearedFrom(s: string, from: nat): string
    decreases |s| - from
  {
    if from >= |s| then ""
    else (if CoversAt(s, from) then "" else s[from..Step(s, from)]) + ClearedFrom(s, Step(s, from))
  }

  function Cleared(s: string): string {
    ClearedFrom(s, 0)
  }

  function Insert(sddl: string, ace: string): string {
    var index := Find(sddl, DACL_MARKER);
    if index < 0 then sddl + (DACL_MARKER + ace)
    else
      var cursor := Cursor(sddl, index + 2);
      sddl[..cursor] + ace + sddl[cursor..]
  }

  method InsertAce(sddl: string, ace: string) returns (r: string)
    ensures r == Insert(sddl, ace)
  {
    var cursor := FindDacl(sddl);
    if cursor == None {
      return sddl + (DACL_MARKER + ace);
    }
    return sddl[..cursor.value] + ace + sddl[cursor.value..];
  }

  /** The source's loop over the matches. */
  method CheckProtected(sddl: string) returns (r: bool)
    ensures r == IsProtected(sddl)
  {
    hide Protects;
    var at := 0;
    while at < |sddl|
      invariant ProtectedFrom(sddl, at) == IsProtected(sddl)
    {
      match MatchAt(sddl, at) {
        case Some((k, n)) =>
          if Protects(sddl[k + 1..n]) {
            return true;
          }
        case None =>
      }
      at := Step(sddl, at);
    }
    return false;
  }

  // --- Matches do not overlap ------------------------------------------------------------------

  lemma SemicolonIs(s: string, from: nat, k: nat)
    requires from <= k <= |s| && forall i :: from <= i < k ==> s[i] != ';'
    requires k < |s| ==> s[k] == ';'
    ensures Semicolon(s, from) == k
  {
  }

  lemma UpperEndIs(s: string, from: nat, n: nat)
    requires from <= n <= |s| && forall i :: from <= i < n ==> 'A' <= s[i] <= 'Z'
    requires n < |s| ==> !('A' <= s[n] <= 'Z')
    ensures UpperEnd(s, from) == n
  {
  }

  lemma NoMatchInside(s: string, i: nat, j: nat)
    requires MatchAt(s, i).Some? && i < j < MatchAt(s, i).value.1 + 6
    ensures MatchAt(s, j).None?
  {
    var (k, n) := MatchAt(s, i).value;
    if OpensAt(s, j) {
      assert j < k + 1;
      assert j == k - 2;
      SemicolonIs(s, j + 3, n);
      UpperEndIs(s, n + 1, n + 1);
    }
  }

  lemma NoCoverInside(s: string, i: nat, j: nat)
    requires i < |s| && i < j < Step(s, i)
    ensures !CoversAt(s, j)
  {
    hide Protects;
    NoMatchInside(s, i, j);
  }

  /** The scan finds a protecting entry exactly when one is anywhere in the text. */
  lemma {:induction false} ProtectedIff(s: string, from: nat)
    ensures ProtectedFrom(s, from) <==> exists i :: from <= i < |s| && CoversAt(s, i)
    decreases |s| - from
  {
    hide CoversAt, Step;
    if from < |s| {
      ProtectedIff(s, Step(s, from));
      forall i | from < i < Step(s, from) ensures !CoversAt(s, i) {
        NoCoverInside(s, from, i);
      }
    }
  }

  // --- One text inside another -------------------------------------------------------------------

  /** *b* is the end of *a*, from *d* on. */
  predicate Shifted(a: string, b: string, d: nat) {
    |a| == |b| + d && forall j :: d <= j < |a| ==> a[j] == b[j - d]
  }

  lemma ShiftedEnds(a: string, b: string, d: nat, i: nat)
    requires Shifted(a, b, d) && i <= |b|
    ensures Semicolon(a, i + d) == Semicolon(b, i) + d && UpperEnd(a, i + d) == UpperEnd(b, i) + d
  {
    SemicolonIs(a, i + d, Semicolon(b, i) + d);
    UpperEndIs(a, i + d, UpperEnd(b, i) + d);
  }

  lemma ShiftedMatch(a: string, b: string, d: nat, i: nat)
    requires Shifted(a, b, d)
    ensures MatchAt(a, i + d) == match MatchAt(b, i) case Some((k, n)) => Some((k + d, n + d)) case None => None
  {
    hide Semicolon, UpperEnd;
    if OpensAt(b, i) {
      var k := Semicolon(b, i + 3);
      ShiftedEnds(a, b, d, i + 3);
      if k < |b| {
        ShiftedEnds(a, b, d, k + 1);
      }
    }
  }

  lemma ShiftedStep(a: string, b: string, d: nat, i: nat)
    requires Shifted(a, b, d)
    ensures CoversAt(a, i + d) == CoversAt(b, i)
    ensures i < |b| ==> Step(a, i + d) == Step(b, i) + d
  {
    hide MatchAt, Protects;
    ShiftedMatch(a, b, d, i);
    if MatchAt(b, i).Some? {
      var (k, n) := MatchAt(b, i).value;
      assert b[k + 1..n] == a[k + d + 1..n + d];
    }
  }

  lemma {:induction false} ShiftedClear(a: string, b: string, d: nat, i: nat)
    requires Shifted(a, b, d) && i <= |b|
    ensures ClearedFrom(a, i + d) == ClearedFrom(b, i)
    ensures ProtectedFrom(a, i + d) == ProtectedFrom(b, i)
    decreases |b| - i
  {
    hide CoversAt, Step;
    if i < |b| {
      ShiftedStep(a, b, d, i);
      var j := Step(b, i);
      assert b[i..j] == a[i + d..j + d];
      ShiftedClear(a, b, d, j);
    }
  }

  /** Where nothing protects, nothing is cleared. */
  lemma {:induction false} ClearNothing(s: string, from: nat)
    requires from <= |s| && forall i :: from <= i < |s| ==> !CoversAt(s, i)
    ensures ClearedFrom(s, from) == s[from..]
    decreases |s| - from
  {
    hide CoversAt, Step;
    if from < |s| {
      var j := Step(s, from);
      ClearNothing(s, j);
      assert s[from..] == s[from..j] + s[j..];
    }
  }

  // --- Setting, then clearing ----------------------------------------------------------------------

  function With(s: string, c: nat): string
    requires c <= |s|
  {
    s[..c] + PROTECTION_ACE + s[c..]
  }

  /** The characters of the protecting entry. */
  lemma AceChars(s: string, c: nat)
    requires c <= |s|
    ensures var t := With(s, c);
            && |t| == |s| + 14
            && (forall j :: 0 <= j < c ==> t[j] == s[j])
            && t[c] == '(' && t[c + 1] == 'D' && t[c + 2] == ';' && t[c + 3] == ';' && t[c + 4] == 'S'
            && t[c + 5] == 'D' && t[c + 6] == 'D' && t[c + 7] == 'T' && ClosesAt(t, c + 8)
            && Shifted(t, s[c..], c + 14)
  {
    var t := With(s, c);
    assert PROTECTION_ACE == ['(', 'D', ';', ';', 'S', 'D', 'D', 'T', ';', ';', ';', 'W', 'D', ')'];
    assert forall j :: 0 <= j < 14 ==> t[c + j] == PROTECTION_ACE[j];
  }

  /** The entry that was put in protects. */
  lemma InsertedCovers(s: string, c: nat)
    requires c <= |s|
    ensures MatchAt(With(s, c), c) == Some((c + 3, c + 8)) && CoversAt(With(s, c), c)
  {
    hide With, Shifted, Find, ClosesAt;
    AceChars(s, c);
    var t := With(s, c);
    SemicolonIs(t, c + 3, c + 3);
    UpperEndIs(t, c + 4, c + 8);
    assert t[c + 4..c + 8] == "SDDT";
    FindIs("SDDT", "SD", 0);
    assert "SDDT"[1..] == "DDT" && "SDDT"[2..] == "DT" && "SDDT"[0..] == "SDDT";
    FindIs("SDDT", "DT", 2);
  }

  lemma FlagsBefore(s: string, c: nat, i: nat, t: string)
    requires i + 3 <= c <= |s| && t == With(s, c) && MatchAt(t, i).Some?
    ensures MatchAt(t, i).value.0 < c
  {
    hide With, Shifted;
    AceChars(s, c);
    UpperEndIs(t, c + 3, c + 3);
  }

  /** A match before the new entry does not reach into it, and was there before. */
  lemma MatchBefore(s: string, c: nat, i: nat)
    requires i < c <= |s| && MatchAt(With(s, c), i).Some?
    ensures MatchAt(With(s, c), i).value.1 + 6 <= c && MatchAt(s, i) == MatchAt(With(s, c), i)
  {
    hide With, Shifted;
    AceChars(s, c);
    var t := With(s, c);
    var (k, n) := MatchAt(t, i).value;
    FlagsBefore(s, c, i, t);
    assert n + 6 <= c;
    SemicolonIs(s, i + 3, k);
    UpperEndIs(s, k + 1, n);
  }

  lemma StepBefore(s: string, c: nat, i: nat)
    requires i < c <= |s|
    ensures |With(s, c)| == |s| + 14 && Step(With(s, c), i) <= c
    ensures CoversAt(With(s, c), i) ==> CoversAt(s, i)
    ensures With(s, c)[i..Step(With(s, c), i)] == s[i..Step(With(s, c), i)]
  {
    hide With, Shifted, MatchAt, Protects, ClosesAt;
    AceChars(s, c);
    var t := With(s, c);
    if MatchAt(t, i).Some? {
      MatchBefore(s, c, i);
      var (k, n) := MatchAt(t, i).value;
      assert t[k + 1..n] == s[k + 1..n];
    }
  }

  /** Taking the new entry out again leaves the text as it was. */
  lemma {:induction false} ClearInserted(s: string, c: nat, from: nat)
    requires from <= c <= |s| && forall i :: 0 <= i < |s| ==> !CoversAt(s, i)
    ensures ClearedFrom(With(s, c), from) == s[from..]
    decreases c - from
  {
    hide With, MatchAt, CoversAt, Step, Shifted, ClosesAt;
    AceChars(s, c);
    var t := With(s, c);
    if from == c {
      ClearEntry(s, c);
    } else {
      StepBefore(s, c, from);
      assert !CoversAt(s, from);
      var j := Step(t, from);
      ClearInserted(s, c, j);
      assert s[from..] == s[from..j] + s[j..];
    }
  }

  lemma ClearEntry(s: string, c: nat)
    requires c <= |s| && forall i :: 0 <= i < |s| ==> !CoversAt(s, i)
    ensures ClearedFrom(With(s, c), c) == s[c..]
  {
    hide With, CoversAt, ClosesAt, MatchAt, Shifted;
    var t, rest := With(s, c), s[c..];
    AceChars(s, c);
    InsertedCovers(s, c);
    assert Shifted(s, rest, c) by { EndIsShifted(s, c); }
    forall i | 0 <= i < |rest| ensures !CoversAt(rest, i) {
      ShiftedStep(s, rest, c, i);
      assert !CoversAt(s, i + c);
    }
    ShiftedClear(t, rest, c + 14, 0);
    ClearNothing(rest, 0);
  }

  lemma EndIsShifted(s: string, c: nat)
    requires c <= |s|
    ensures Shifted(s, s[c..], c)
  {
  }

  lemma InsertIsWith(sddl: string)
    ensures Find(sddl, DACL_MARKER) >= 0
        ==> Insert(sddl, PROTECTION_ACE) == With(sddl, Cursor(sddl, Find(sddl, DACL_MARKER) + 2))
    ensures Find(sddl, DACL_MARKER) < 0
        ==> Insert(sddl, PROTECTION_ACE) == With(sddl + DACL_MARKER, |sddl + DACL_MARKER|)
  {
    hide Find, Cursor;
    if Find(sddl, DACL_MARKER) < 0 {
      AtTheEnd(sddl, DACL_MARKER, PROTECTION_ACE);
    }
  }

  lemma AtTheEnd(s: string, m: string, a: string)
    ensures var t := s + m;
            s + (m + a) == t[..|t|] + a + t[|t|..]
  {
  }

  lemma MarkerMatch(sddl: string, s: string, i: nat)
    requires |s| == |sddl| + 2 && s[|sddl|] == 'D' && s[|sddl| + 1] == ':'
    requires forall j :: 0 <= j < |sddl| ==> s[j] == sddl[j]
    requires MatchAt(s, i).Some?
    ensures MatchAt(s, i).value.1 + 6 <= |sddl| && MatchAt(sddl, i) == MatchAt(s, i)
  {
    var (k, n) := MatchAt(s, i).value;
    assert s[n + 5] == ')';
    SemicolonIs(sddl, i + 3, k);
    UpperEndIs(sddl, k + 1, n);
  }

  /** A marker at the end adds no entry. */
  lemma MarkerCoversNothing(sddl: string, i: nat)
    requires forall j :: 0 <= j < |sddl| ==> !CoversAt(sddl, j)
    ensures !CoversAt(sddl + DACL_MARKER, i)
  {
    hide MatchAt, Protects;
    var s := sddl + DACL_MARKER;
    if MatchAt(s, i).Some? {
      MarkerMatch(sddl, s, i);
      var (k, n) := MatchAt(s, i).value;
      assert s[k + 1..n] == sddl[k + 1..n];
      assert !CoversAt(sddl, i);
    }
  }

  /** Setting protection protects. */
  lemma SettingProtects(sddl: string)
    ensures IsProtected(Insert(sddl, PROTECTION_ACE))
  {
    hide Insert, With, MatchAt, Protects, ProtectedFrom, Find, CoversAt, ClosesAt, Shifted;
    var t := Insert(sddl, PROTECTION_ACE);
    InsertIsWith(sddl);
    var m := Find(sddl, DACL_MARKER);
    var s := if m >= 0 then sddl else sddl + DACL_MARKER;
    var c := if m >= 0 then Cursor(sddl, m + 2) else |s|;
    AceChars(s, c);
    InsertedCovers(s, c);
    ProtectedIff(t, 0);
  }

  /** Setting and clearing protection gives back the exact text exactly when the text has a DACL. */
  lemma SetThenClear(sddl: string)
    requires !IsProtected(sddl)
    ensures Cleared(Insert(sddl, PROTECTION_ACE)) == sddl <==> Find(sddl, DACL_MARKER) >= 0
  {
    hide Insert, With, ProtectedFrom, ClearedFrom, Find, CoversAt;
    InsertIsWith(sddl);
    ProtectedIff(sddl, 0);
    var m := Find(sddl, DACL_MARKER);
    if m >= 0 {
      ClearInserted(sddl, Cursor(sddl, m + 2), 0);
      assert sddl[0..] == sddl;
    } else {
      var s := sddl + DACL_MARKER;
      forall i | 0 <= i < |s| ensures !CoversAt(s, i) {
        MarkerCoversNothing(sddl, i);
      }
      ClearInserted(s, |s|, 0);
      assert s[0..] == s && |s| == |sddl| + 2;
    }
  }

}
