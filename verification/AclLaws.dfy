/** What a batch of permission changes keeps (backend/samadcon/ad/sacl.py 309-436). */
module AclLaws {
  import opened Text
  import opened AceMeaning
  import opened AclEditing

  // --- Nothing is lost, nothing comes in on its own ------------------------------------------

  lemma {:induction false} PickedParts(aces: seq<string>, positions: set<int>, offset: nat)
    ensures multiset(Picked(aces, positions, offset, true)) + multiset(Picked(aces, positions, offset, false))
         == multiset(aces)
  {
    if aces != [] {
      PickedParts(aces[1..], positions, offset + 1);
      assert aces == [aces[0]] + aces[1..];
    }
  }

  lemma InsertedElements(aces: seq<string>, ace: string)
    ensures multiset(Inserted(aces, ace)) == multiset(aces) + multiset{ace}
  {
    var k := FirstAllow(aces);
    assert aces == aces[..k] + aces[k..];
  }

  lemma {:induction false} AddedElements(aces: seq<string>, add: seq<string>, domain: Option<string>)
    requires AddAll(aces, add, domain).Done?
    ensures multiset(AddAll(aces, add, domain).value) == multiset(aces) + multiset(add)
    decreases |add|
  {
    hide Inserted, Among;
    if add != [] {
      InsertedElements(aces, add[0]);
      AddedElements(Inserted(aces, add[0]), add[1..], domain);
      assert add == [add[0]] + add[1..];
    }
  }

  /** The result is the list as it was, without what was taken out and with what was added. */
  lemma ChangeConserves(aces: seq<string>, remove: seq<int>, add: seq<string>, domain: Option<string>)
    requires ChangeAces(aces, remove, add, domain).Done?
    ensures multiset(ChangeAces(aces, remove, add, domain).value) + multiset(Taken(aces, remove))
         == multiset(aces) + multiset(add)
  {
    hide AddAll, Picked, FirstObstacle;
    AddedElements(Kept(aces, remove), add, domain);
    PickedParts(aces, SetOf(remove), 0);
  }

  // --- The entries that stay keep their order -----------------------------------------------

  predicate Subsequence(a: seq<string>, b: seq<string>)
    decreases |b|
  {
    a == [] || (b != [] && ((a[0] == b[0] && Subsequence(a[1..], b[1..])) || Subsequence(a, b[1..])))
  }

  lemma {:induction false} Itself(a: seq<string>)
    ensures Subsequence(a, a)
  {
    if a != [] {
      Itself(a[1..]);
    }
  }

  lemma {:induction false} Widen(a: seq<string>, b: seq<string>, k: nat, x: string)
    requires Subsequence(a, b) && k <= |b|
    ensures Subsequence(a, b[..k] + [x] + b[k..])
    decreases |b|
  {
    var c := b[..k] + [x] + b[k..];
    if a != [] {
      if k == 0 {
        assert c[1..] == b;
      } else {
        assert c[0] == b[0] && c[1..] == b[1..][..k - 1] + [x] + b[1..][k - 1..];
        if a[0] == b[0] && Subsequence(a[1..], b[1..]) {
          Widen(a[1..], b[1..], k - 1, x);
        } else {
          Widen(a, b[1..], k - 1, x);
        }
      }
    }
  }

  lemma InsertedKeeps(a: seq<string>, aces: seq<string>, ace: string)
    requires Subsequence(a, aces)
    ensures Subsequence(a, Inserted(aces, ace))
  {
    hide Subsequence;
    if IsDeny(ace) {
      Widen(a, aces, FirstAllow(aces), ace);
    } else {
      Widen(a, aces, |aces|, ace);
      assert aces[..|aces|] + [ace] + aces[|aces|..] == aces + [ace];
    }
  }

  lemma {:induction false} AddedKeeps(a: seq<string>, aces: seq<string>, add: seq<string>, domain: Option<string>)
    requires Subsequence(a, aces) && AddAll(aces, add, domain).Done?
    ensures Subsequence(a, AddAll(aces, add, domain).value)
    decreases |add|
  {
    hide Inserted, Among, Subsequence;
    if add != [] {
      InsertedKeeps(a, aces, add[0]);
      AddedKeeps(a, Inserted(aces, add[0]), add[1..], domain);
    }
  }

  /** The kept entries are in the result in their old order. */
  lemma ChangeKeepsOrder(aces: seq<string>, remove: seq<int>, add: seq<string>, domain: Option<string>)
    requires ChangeAces(aces, remove, add, domain).Done?
    ensures Subsequence(Kept(aces, remove), ChangeAces(aces, remove, add, domain).value)
  {
    hide AddAll, Picked, FirstObstacle;
    Itself(Kept(aces, remove));
    AddedKeeps(Kept(aces, remove), Kept(aces, remove), add, domain);
  }

  // --- Denies come first ------------------------------------------------------------------------

  /** The entry stands somewhere before every allow. */
  predicate BeforeAllows(ace: string, aces: seq<string>) {
    exists p :: 0 <= p < |aces| && aces[p] == ace && forall i :: 0 <= i < p ==> !IsAllow(aces[i])
  }

  lemma DenyIsNoAllow(ace: string)
    requires IsDeny(ace)
    ensures !IsAllow(ace)
  {
    assert "(D;"[1] == 'D' && "(A;"[1] == 'A' && "(OD;"[1] == 'O' && "(OA;"[1] == 'O';
    assert "(OD;"[2] == 'D' && "(OA;"[2] == 'A';
  }

  lemma InsertedBefore(aces: seq<string>, ace: string)
    requires IsDeny(ace)
    ensures BeforeAllows(ace, Inserted(aces, ace))
  {
    hide IsAllow, IsDeny;
    var k := FirstAllow(aces);
    assert Inserted(aces, ace)[k] == ace;
  }

  lemma StaysBefore(deny: string, aces: seq<string>, ace: string)
    requires BeforeAllows(deny, aces)
    ensures BeforeAllows(deny, Inserted(aces, ace))
  {
    hide IsAllow, IsDeny, BeforeAllows;
    var p := PlaceBefore(deny, aces);
    var after := Inserted(aces, ace);
    if IsDeny(ace) {
      var k := FirstAllow(aces);
      DenyIsNoAllow(ace);
      var q := if p < k then p else p + 1;
      assert after[q] == deny;
      AtPlace(deny, after, q);
    } else {
      assert after[p] == deny;
      AtPlace(deny, after, p);
    }
  }

  lemma PlaceBefore(deny: string, aces: seq<string>) returns (p: nat)
    requires BeforeAllows(deny, aces)
    ensures p < |aces| && aces[p] == deny && forall i :: 0 <= i < p ==> !IsAllow(aces[i])
  {
    p :| 0 <= p < |aces| && aces[p] == deny && forall i :: 0 <= i < p ==> !IsAllow(aces[i]);
  }

  lemma AtPlace(deny: string, aces: seq<string>, p: nat)
    requires p < |aces| && aces[p] == deny && forall i :: 0 <= i < p ==> !IsAllow(aces[i])
    ensures BeforeAllows(deny, aces)
  {
  }

  lemma {:induction false} AddedStaysBefore(deny: string, aces: seq<string>, add: seq<string>, domain: Option<string>)
    requires BeforeAllows(deny, aces) && AddAll(aces, add, domain).Done?
    ensures BeforeAllows(deny, AddAll(aces, add, domain).value)
    decreases |add|
  {
    hide Inserted, Among, BeforeAllows;
    if add != [] {
      StaysBefore(deny, aces, add[0]);
      AddedStaysBefore(deny, Inserted(aces, add[0]), add[1..], domain);
    }
  }

  lemma {:induction false} AddedDenies(aces: seq<string>, add: seq<string>, domain: Option<string>, deny: string)
    requires AddAll(aces, add, domain).Done? && deny in add && IsDeny(deny)
    ensures BeforeAllows(deny, AddAll(aces, add, domain).value)
    decreases |add|
  {
    hide Inserted, Among, BeforeAllows, IsDeny;
    var next := Inserted(aces, add[0]);
    if deny == add[0] {
      InsertedBefore(aces, deny);
      AddedStaysBefore(deny, next, add[1..], domain);
    } else {
      AddedDenies(next, add[1..], domain, deny);
    }
  }

  /** Every deny that was added stands before every allow. */
  lemma ChangeDeniesFirst(aces: seq<string>, remove: seq<int>, add: seq<string>, domain: Option<string>, deny: string)
    requires ChangeAces(aces, remove, add, domain).Done? && deny in add && IsDeny(deny)
    ensures BeforeAllows(deny, ChangeAces(aces, remove, add, domain).value)
  {
    hide AddAll, Picked, FirstObstacle, BeforeAllows, IsDeny;
    AddedDenies(Kept(aces, remove), add, domain, deny);
  }

  /** No deny after an allow. */
  predicate Canonical(aces: seq<string>) {
    forall i, j :: 0 <= i < j < |aces| && IsAllow(aces[i]) ==> !IsDeny(aces[j])
  }

  lemma InsertedCanonical(aces: seq<string>, ace: string)
    requires Canonical(aces)
    ensures Canonical(Inserted(aces, ace))
  {
    hide IsAllow, IsDeny;
    var after := Inserted(aces, ace);
    if IsDeny(ace) {
      DenyIsNoAllow(ace);
      var k := FirstAllow(aces);
      forall i, j | 0 <= i < j < |after| && IsAllow(after[i]) ensures !IsDeny(after[j]) {
        assert i > k;
        assert after[i] == aces[i - 1] && after[j] == aces[j - 1];
      }
    }
  }

  lemma {:induction false} AddedCanonical(aces: seq<string>, add: seq<string>, domain: Option<string>)
    requires Canonical(aces) && AddAll(aces, add, domain).Done?
    ensures Canonical(AddAll(aces, add, domain).value)
    decreases |add|
  {
    hide Inserted, Among, Canonical;
    if add != [] {
      InsertedCanonical(aces, add[0]);
      AddedCanonical(Inserted(aces, add[0]), add[1..], domain);
    }
  }

  lemma {:induction false} PickedFrom(aces: seq<string>, positions: set<int>, offset: nat, within: bool, ace: string)
    requires ace in Picked(aces, positions, offset, within)
    ensures ace in aces
  {
    if aces != [] && ace in Picked(aces[1..], positions, offset + 1, within) {
      PickedFrom(aces[1..], positions, offset + 1, within, ace);
    }
  }

  lemma {:induction false} PickedCanonical(aces: seq<string>, positions: set<int>, offset: nat, within: bool)
    requires Canonical(aces)
    ensures Canonical(Picked(aces, positions, offset, within))
  {
    hide IsAllow, IsDeny;
    if aces != [] {
      PickedCanonical(aces[1..], positions, offset + 1, within);
      var rest := Picked(aces[1..], positions, offset + 1, within);
      var all := Picked(aces, positions, offset, within);
      forall i, j | 0 <= i < j < |all| && IsAllow(all[i]) ensures !IsDeny(all[j]) {
        if (offset in positions) == within {
          assert all[j] == rest[j - 1];
          if i == 0 {
            PickedFrom(aces[1..], positions, offset + 1, within, rest[j - 1]);
          } else {
            assert all[i] == rest[i - 1];
          }
        } else {
          assert all == rest;
        }
      }
    }
  }

  /** A list without a deny after an allow stays one. */
  lemma ChangeKeepsCanonical(aces: seq<string>, remove: seq<int>, add: seq<string>, domain: Option<string>)
    requires Canonical(aces) && ChangeAces(aces, remove, add, domain).Done?
    ensures Canonical(ChangeAces(aces, remove, add, domain).value)
  {
    hide AddAll, Picked, FirstObstacle, Canonical;
    PickedCanonical(aces, SetOf(remove), 0, false);
    AddedCanonical(Kept(aces, remove), add, domain);
  }

  // --- No entry twice ---------------------------------------------------------------------------

  /** No two entries mean the same. */
  predicate AllDiffer(aces: seq<string>, domain: Option<string>) {
    forall i, j :: 0 <= i < j < |aces| ==> !SameAce(aces[i], aces[j], domain)
  }

  lemma {:induction false} NotAmong(ace: string, aces: seq<string>, domain: Option<string>)
    ensures !Among(ace, aces, domain) <==> forall i :: 0 <= i < |aces| ==> !SameAce(ace, aces[i], domain)
  {
    hide SameAce;
    if aces != [] {
      NotAmong(ace, aces[1..], domain);
      assert forall i :: 1 <= i < |aces| ==> aces[i] == aces[1..][i - 1];
    }
  }

  lemma Symmetric(a: string, b: string, domain: Option<string>)
    ensures SameAce(a, b, domain) == SameAce(b, a, domain)
  {
    SameAceIsEquivalence(a, b, a, domain);
    SameAceIsEquivalence(b, a, b, domain);
  }

  lemma InsertedDiffer(aces: seq<string>, ace: string, domain: Option<string>)
    requires AllDiffer(aces, domain) && !Among(ace, aces, domain)
    ensures AllDiffer(Inserted(aces, ace), domain)
  {
    hide SameAce, IsDeny, IsAllow, Among;
    NotAmong(ace, aces, domain);
    var after := Inserted(aces, ace);
    var k := if IsDeny(ace) then FirstAllow(aces) else |aces|;
    assert after == aces[..k] + [ace] + aces[k..];
    forall i, j | 0 <= i < j < |after| ensures !SameAce(after[i], after[j], domain) {
      if i == k {
        assert after[j] == aces[j - 1];
      } else if j == k {
        Symmetric(after[i], ace, domain);
        assert after[i] == aces[i];
      } else {
        assert after[i] == aces[if i < k then i else i - 1] && after[j] == aces[if j < k then j else j - 1];
      }
    }
  }

  lemma {:induction false} AddedDiffer(aces: seq<string>, add: seq<string>, domain: Option<string>)
    requires AllDiffer(aces, domain) && AddAll(aces, add, domain).Done?
    ensures AllDiffer(AddAll(aces, add, domain).value, domain)
    decreases |add|
  {
    hide Inserted, Among, AllDiffer;
    if add != [] {
      InsertedDiffer(aces, add[0], domain);
      AddedDiffer(Inserted(aces, add[0]), add[1..], domain);
    }
  }

  lemma {:induction false} PickedDiffer(
    aces: seq<string>, positions: set<int>, offset: nat, within: bool, domain: Option<string>)
    requires AllDiffer(aces, domain)
    ensures AllDiffer(Picked(aces, positions, offset, within), domain)
  {
    hide SameAce;
    if aces != [] {
      PickedDiffer(aces[1..], positions, offset + 1, within, domain);
      var rest := Picked(aces[1..], positions, offset + 1, within);
      var all := Picked(aces, positions, offset, within);
      forall i, j | 0 <= i < j < |all| ensures !SameAce(all[i], all[j], domain) {
        if (offset in positions) == within {
          assert all[j] == rest[j - 1];
          if i == 0 {
            PickedFrom(aces[1..], positions, offset + 1, within, rest[j - 1]);
          } else {
            assert all[i] == rest[i - 1];
          }
        } else {
          assert all == rest;
        }
      }
    }
  }

  /** Entries that all differ in meaning still do after the change. */
  lemma ChangeKeepsDifferent(aces: seq<string>, remove: seq<int>, add: seq<string>, domain: Option<string>)
    requires AllDiffer(aces, domain) && ChangeAces(aces, remove, add, domain).Done?
    ensures AllDiffer(ChangeAces(aces, remove, add, domain).value, domain)
  {
    hide AddAll, Picked, FirstObstacle, AllDiffer;
    PickedDiffer(aces, SetOf(remove), 0, false, domain);
    AddedDiffer(Kept(aces, remove), add, domain);
  }

  lemma AmongInserted(x: string, aces: seq<string>, ace: string, domain: Option<string>)
    ensures Among(x, Inserted(aces, ace), domain) <==> SameAce(x, ace, domain) || Among(x, aces, domain)
  {
    hide SameAce, IsDeny, IsAllow, Among;
    NotAmong(x, aces, domain);
    var after := Inserted(aces, ace);
    NotAmong(x, after, domain);
    var k := if IsDeny(ace) then FirstAllow(aces) else |aces|;
    assert after == aces[..k] + [ace] + aces[k..];
    assert after[k] == ace;
    forall i | 0 <= i < |aces| ensures aces[i] == after[if i < k then i else i + 1] {
    }
  }

  /** Whether each entry means something new beside the list and the entries before it. */
  predicate AllNew(aces: seq<string>, add: seq<string>, domain: Option<string>) {
    AllDiffer(add, domain) && forall i :: 0 <= i < |add| ==> !Among(add[i], aces, domain)
  }

  lemma {:induction false} AddsIfNew(aces: seq<string>, add: seq<string>, domain: Option<string>)
    ensures AddAll(aces, add, domain).Done? <==> AllNew(aces, add, domain)
    decreases |add|
  {
    hide Inserted, Among, SameAce;
    if add != [] {
      var next := Inserted(aces, add[0]);
      AddsIfNew(next, add[1..], domain);
      forall x ensures Among(x, next, domain) <==> SameAce(x, add[0], domain) || Among(x, aces, domain) {
        AmongInserted(x, aces, add[0], domain);
      }
      forall i | 1 <= i < |add| ensures SameAce(add[i], add[0], domain) == SameAce(add[0], add[i], domain) {
        Symmetric(add[i], add[0], domain);
      }
      assert forall i :: 1 <= i < |add| ==> add[i] == add[1..][i - 1];
      if AllNew(aces, add, domain) {
        assert !Among(add[0], aces, domain);
      }
    }
  }

  /** A batch is refused for a duplicate exactly when an added entry means what a kept one or another added one does. */
  lemma ChangeSucceedsIff(aces: seq<string>, remove: seq<int>, add: seq<string>, domain: Option<string>)
    ensures ChangeAces(aces, remove, add, domain).Done?
        <==> (forall i :: i in remove ==> Obstacle(aces, i) == None) && AllNew(Kept(aces, remove), add, domain)
  {
    hide AddAll, Picked, AllNew, Obstacle;
    ObstacleFree(aces, remove);
    AddsIfNew(Kept(aces, remove), add, domain);
  }
}
