/** Clearing protection on a descriptor made of entries (backend/samadcon/ad/sacl.py 113-141). */
module ProtectionEntries {
  import opened DeleteProtection

  /** A piece of a descriptor: an entry with its parentheses, or the text between entries. */
  datatype Piece = Plain(text: string) | Group(text: string)

  /** No parenthesis opens outside an entry; an entry has one pair of them, and a field after its flags. */
  predicate WellFormed(p: Piece) {
    match p
    case Plain(t) => NoOpening(t, 0)
    case Group(g) =>
      |g| >= 3 && g[0] == '(' && g[|g| - 1] == ')' && NoOpening(g, 1)
      && (forall i :: 0 <= i < |g| - 1 ==> g[i] != ')')
      && (OpensAt(g, 0) ==> Semicolon(g, 3) < |g|)
  }

  predicate NoOpening(s: string, from: nat) {
    forall i :: from <= i < |s| ==> s[i] != '('
  }

  predicate AllWellFormed(ps: seq<Piece>) {
    ps == [] || (WellFormed(ps[0]) && AllWellFormed(ps[1..]))
  }

  function TextOf(ps: seq<Piece>): string {
    if ps == [] then "" else ps[0].text + TextOf(ps[1..])
  }

  predicate Protecting(p: Piece) {
    p.Group? && CoversAt(p.text, 0)
  }

  predicate AnyProtecting(ps: seq<Piece>) {
    ps != [] && (Protecting(ps[0]) || AnyProtecting(ps[1..]))
  }

  function Others(ps: seq<Piece>): seq<Piece> {
    if ps == [] then [] else (if Protecting(ps[0]) then [] else [ps[0]]) + Others(ps[1..])
  }

  /** Where no parenthesis opens, nothing matches. */
  lemma {:induction false} PassOver(t: string, from: nat, until: nat)
    requires from <= until <= |t| && forall i :: from <= i < until ==> t[i] != '('
    ensures ClearedFrom(t, from) == t[from..until] + ClearedFrom(t, until)
    ensures ProtectedFrom(t, from) == ProtectedFrom(t, until)
    decreases until - from
  {
    if from < until {
      assert MatchAt(t, from).None?;
      PassOver(t, from + 1, until);
      assert t[from..until] == [t[from]] + t[from + 1..until];
      assert t[from..from + 1] == [t[from]];
      Associate([t[from]], t[from + 1..until], ClearedFrom(t, until));
    } else {
      assert t[from..until] == "" && "" + ClearedFrom(t, until) == ClearedFrom(t, until);
    }
  }

  lemma Associate(a: string, b: string, c: string)
    ensures a + (b + c) == a + b + c
  {
  }

  /** A match at the start of an entry is the entry, whatever follows. */
  lemma EntryMatch(g: string, t: string)
    requires WellFormed(Group(g)) && |g| <= |t| && forall i :: 0 <= i < |g| ==> t[i] == g[i]
    ensures MatchAt(t, 0) == MatchAt(g, 0)
    ensures MatchAt(t, 0).Some? ==> MatchAt(t, 0).value.1 + 6 == |g|
  {
    hide Semicolon, UpperEnd;
    if OpensAt(t, 0) {
      assert OpensAt(g, 0);
      var k := Semicolon(g, 3);
      SemicolonIs(t, 3, k);
      var n := UpperEnd(g, k + 1);
      assert n < |g|;
      UpperEndIs(t, k + 1, n);
      if ClosesAt(t, n) {
        assert n + 6 == |g|;
      }
    }
  }

  lemma EntryStep(g: string, t: string)
    requires WellFormed(Group(g)) && |g| <= |t| && forall i :: 0 <= i < |g| ==> t[i] == g[i]
    ensures CoversAt(t, 0) == CoversAt(g, 0)
    ensures Step(t, 0) == 1 || Step(t, 0) == |g|
    ensures CoversAt(t, 0) ==> Step(t, 0) == |g|
  {
    hide Protects, WellFormed;
    EntryMatch(g, t);
    assert |g| >= 3 by { EntryLength(g); }
    if MatchAt(t, 0).Some? {
      var (k, n) := MatchAt(t, 0).value;
      assert t[k + 1..n] == g[k + 1..n];
    }
  }

  lemma EntryLength(g: string)
    requires WellFormed(Group(g))
    ensures |g| >= 3 && NoOpening(g, 1)
  {
  }

  /** One entry at the start: it goes when it protects and stays when not. */
  lemma ClearEntryFirst(g: string, rest: string)
    requires WellFormed(Group(g))
    ensures Cleared(g + rest) == (if CoversAt(g, 0) then "" else g) + Cleared(rest)
    ensures IsProtected(g + rest) <==> CoversAt(g, 0) || IsProtected(rest)
  {
    hide CoversAt, Step, WellFormed;
    var t := g + rest;
    EntryLength(g);
    EntryStep(g, t);
    ShiftedClear(t, rest, |g|, 0);
    if Step(t, 0) == |g| {
      assert t[0..|g|] == g;
    } else {
      assert t[0..1] + t[1..|g|] == g;
      PassOver(t, 1, |g|);
      Associate(t[0..1], t[1..|g|], ClearedFrom(t, |g|));
    }
  }

  lemma ClearPlainFirst(a: string, rest: string)
    requires NoOpening(a, 0)
    ensures Cleared(a + rest) == a + Cleared(rest)
    ensures IsProtected(a + rest) <==> IsProtected(rest)
  {
    hide CoversAt, Step;
    var t := a + rest;
    ShiftedClear(t, rest, |a|, 0);
    PassOver(t, 0, |a|);
    assert t[0..|a|] == a;
  }

  /** A descriptor is protected exactly when one of its entries protects; clearing takes out those entries and keeps
      everything else. */
  lemma {:induction false} ClearEntries(ps: seq<Piece>)
    requires AllWellFormed(ps)
    ensures IsProtected(TextOf(ps)) <==> AnyProtecting(ps)
    ensures Cleared(TextOf(ps)) == TextOf(Others(ps))
  {
    hide CoversAt, Cleared, IsProtected;
    if ps == [] {
      NothingToClear();
    } else {
      ClearEntries(ps[1..]);
      var rest := Others(ps[1..]);
      assert ([ps[0]] + rest)[1..] == rest && [] + rest == rest;
      match ps[0] {
        case Plain(t) => ClearPlainFirst(t, TextOf(ps[1..]));
        case Group(g) => ClearEntryFirst(g, TextOf(ps[1..]));
      }
    }
  }

  lemma NothingToClear()
    ensures Cleared("") == "" && !IsProtected("")
  {
  }

  lemma {:induction false} OthersDoNotProtect(ps: seq<Piece>)
    requires AllWellFormed(ps)
    ensures AllWellFormed(Others(ps)) && !AnyProtecting(Others(ps))
  {
    hide WellFormed, Protecting;
    if ps != [] {
      OthersDoNotProtect(ps[1..]);
      var rest := Others(ps[1..]);
      assert ([ps[0]] + rest)[1..] == rest && [] + rest == rest;
    }
  }

  /** After clearing, the descriptor is not protected. */
  lemma ClearingUnprotects(ps: seq<Piece>)
    requires AllWellFormed(ps)
    ensures !IsProtected(Cleared(TextOf(ps)))
  {
    ClearEntries(ps);
    OthersDoNotProtect(ps);
    ClearEntries(Others(ps));
  }
}
