/** Edits of the permissions, on the text that is stored (backend/samadcon/ad/sacl.py 309-436,
    backend/samadcon/ad/users.py 1023-1033). */
module SecuredText {
  import opened Text
  import opened Sddl
  import opened AceMeaning
  import opened AceSpelling
  import opened AclEditing
  import opened CannotChange
  import opened SecuredObjects

  // --- The entries stay entries --------------------------------------------------------------

  lemma {:induction false} EntriesAppend(a: seq<string>, b: seq<string>)
    ensures Entries(a + b) <==> Entries(a) && Entries(b)
  {
    hide Entry;
    if a == [] {
      assert a + b == b;
    } else {
      assert (a + b)[1..] == a[1..] + b;
      EntriesAppend(a[1..], b);
    }
  }

  lemma EntriesCut(aces: seq<string>, k: nat)
    requires k <= |aces| && Entries(aces)
    ensures Entries(aces[..k]) && Entries(aces[k..])
  {
    assert aces == aces[..k] + aces[k..];
    EntriesAppend(aces[..k], aces[k..]);
  }

  lemma OneEntry(ace: string)
    requires Entry(ace)
    ensures Entries([ace])
  {
    assert [ace][1..] == [];
  }

  lemma EntriesWith(aces: seq<string>, k: nat, middle: seq<string>)
    requires k <= |aces| && Entries(aces) && Entries(middle)
    ensures Entries(aces[..k] + middle + aces[k..])
  {
    hide Entries;
    EntriesCut(aces, k);
    EntriesAppend(aces[..k], middle);
    EntriesAppend(aces[..k] + middle, aces[k..]);
  }

  lemma EntriesInserted(aces: seq<string>, ace: string)
    requires Entries(aces) && Entry(ace)
    ensures Entries(Inserted(aces, ace))
  {
    hide Entries, Entry;
    OneEntry(ace);
    if IsDeny(ace) {
      EntriesWith(aces, FirstAllow(aces), [ace]);
    } else {
      EntriesAppend(aces, [ace]);
    }
  }

  lemma {:induction false} EntriesPicked(aces: seq<string>, positions: set<int>, offset: nat, within: bool)
    requires Entries(aces)
    ensures Entries(Picked(aces, positions, offset, within))
  {
    hide Entry;
    if aces != [] {
      EntriesPicked(aces[1..], positions, offset + 1, within);
      var rest := Picked(aces[1..], positions, offset + 1, within);
      assert ([aces[0]] + rest)[1..] == rest && [] + rest == rest;
    }
  }

  lemma {:induction false} EntriesAdded(aces: seq<string>, add: seq<string>, domain: Option<string>)
    requires Entries(aces) && Entries(add) && AddAll(aces, add, domain).Done?
    ensures Entries(AddAll(aces, add, domain).value)
    decreases |add|
  {
    hide Entry, Inserted, Among;
    if add != [] {
      EntriesInserted(aces, add[0]);
      EntriesAdded(Inserted(aces, add[0]), add[1..], domain);
    }
  }

  lemma Respell(s: Split, aces: seq<string>)
    requires SplitShape(s) && Entries(aces)
    ensures SplitShape(s.(aces := aces)) && SplitDacl(Whole(s.(aces := aces))) == Some(s.(aces := aces))
  {
    hide Entries, SplitDacl, DaclPrefix, SaclSuffix, Whole;
    SplitWhole(s.(aces := aces));
  }

  /** After a change, the text holds the changed entries between the same prefix and suffix: owner, group, flags and
      SACL are as they were. */
  lemma ChangeKeepsTheRest(sddl: string, remove: seq<int>, add: seq<string>, domain: Option<string>)
    requires TextChange(sddl, remove, add, domain).Done? && Entries(add)
    ensures var s := SplitDacl(sddl).value;
            ChangeAces(s.aces, remove, add, domain).Done?
            && SplitDacl(TextChange(sddl, remove, add, domain).value)
            == Some(s.(aces := ChangeAces(s.aces, remove, add, domain).value))
  {
    hide Entries, SplitDacl, AddAll, Picked, Whole, FirstObstacle, DaclPrefix, SaclSuffix;
    SplitHasShape(sddl);
    var s := SplitDacl(sddl).value;
    EntriesPicked(s.aces, SetOf(remove), 0, false);
    EntriesAdded(Kept(s.aces, remove), add, domain);
    Respell(s, ChangeAces(s.aces, remove, add, domain).value);
  }

  // --- One call instead of many ----------------------------------------------------------------

  function TextRemoveEach(sddl: string, indices: seq<int>): Result<string>
    decreases |indices|
  {
    if indices == [] then Done(sddl)
    else
      match TextRemove(sddl, indices[0])
      case Refused(e) => Refused(e)
      case Done(next) => TextRemoveEach(next, indices[1..])
  }

  function TextAddEach(sddl: string, add: seq<string>, domain: Option<string>): Result<string>
    decreases |add|
  {
    if add == [] then Done(sddl)
    else
      match TextAdd(sddl, add[0], domain)
      case Refused(e) => Refused(e)
      case Done(next) => TextAddEach(next, add[1..], domain)
  }

  /** A call to remove_ace for each position, highest first, then one to add_ace for each entry. */
  function TextOneByOne(sddl: string, remove: seq<int>, add: seq<string>, domain: Option<string>): Result<string> {
    match SplitDacl(sddl)
    case None => Refused(NoDacl)
    case Some(s) =>
      match TextRemoveEach(sddl, Descending(|s.aces|, SetOf(remove)))
      case Refused(e) => Refused(e)
      case Done(next) => TextAddEach(next, add, domain)
  }

  lemma {:induction false} RemoveEachText(s: Split, indices: seq<int>)
    requires SplitShape(s)
    ensures TextRemoveEach(Whole(s), indices) == Rejoined(s, RemoveEach(s.aces, indices))
    ensures RemoveEach(s.aces, indices).Done? ==> Entries(RemoveEach(s.aces, indices).value)
    decreases |indices|
  {
    hide Entries, Whole, SplitDacl, Obstacle, DaclPrefix, SaclSuffix;
    SplitWhole(s);
    if indices != [] {
      match RemoveOne(s.aces, indices[0]) {
        case Refused(_) =>
        case Done(next) =>
          RemovedOnce(s.aces, indices[0]);
          Respell(s, next);
          RemoveEachText(s.(aces := next), indices[1..]);
      }
    }
  }

  lemma RemovedOnce(aces: seq<string>, index: int)
    requires Entries(aces) && RemoveOne(aces, index).Done?
    ensures Entries(RemoveOne(aces, index).value)
  {
    hide Entries, IsInherited;
    EntriesCut(aces, index);
    EntriesCut(aces, index + 1);
    EntriesAppend(aces[..index], aces[index + 1..]);
  }

  lemma {:induction false} AddEachText(s: Split, add: seq<string>, domain: Option<string>)
    requires SplitShape(s) && Entries(add)
    ensures TextAddEach(Whole(s), add, domain) == Rejoined(s, AddAll(s.aces, add, domain))
    decreases |add|
  {
    hide Entry, Whole, SplitDacl, Among, Inserted, DaclPrefix, SaclSuffix;
    SplitWhole(s);
    if add != [] && !Among(add[0], s.aces, domain) {
      var next := Inserted(s.aces, add[0]);
      EntriesInserted(s.aces, add[0]);
      Respell(s, next);
      AddEachText(s.(aces := next), add[1..], domain);
    }
  }

  /** The texts are the same from the start, or from the first step on. */
  lemma RemoveEachFrom(sddl: string, s: Split, indices: seq<int>)
    requires SplitDacl(sddl) == Some(s) && SplitShape(s)
    ensures indices != [] ==> TextRemoveEach(sddl, indices) == Rejoined(s, RemoveEach(s.aces, indices))
  {
    hide SplitDacl, SplitShape, Whole, RemoveOne;
    SplitWhole(s);
    RemoveEachText(s, indices);
  }

  lemma AddEachFrom(sddl: string, s: Split, add: seq<string>, domain: Option<string>)
    requires SplitDacl(sddl) == Some(s) && SplitShape(s) && Entries(add)
    ensures add != [] ==> TextAddEach(sddl, add, domain) == Rejoined(s, AddAll(s.aces, add, domain))
  {
    hide SplitDacl, SplitShape, Whole, AddOne, Entries;
    SplitWhole(s);
    AddEachText(s, add, domain);
  }

  lemma {:induction false} NothingBelow(n: nat, positions: set<int>)
    ensures Descending(n, positions) == [] <==> forall i :: 0 <= i < n ==> i !in positions
  {
    if n > 0 {
      NothingBelow(n - 1, positions);
    }
  }

  /** One call of change_acl writes the text that remove_ace from the highest position down and then add_ace one at a
      time would have written. */
  lemma ChangeIsManyCalls(sddl: string, remove: seq<int>, add: seq<string>, domain: Option<string>)
    requires (remove != [] || add != []) && Entries(add) && TextChange(sddl, remove, add, domain).Done?
    ensures TextOneByOne(sddl, remove, add, domain) == TextChange(sddl, remove, add, domain)
  {
    hide Entries, SplitDacl, AddAll, Picked, Whole, FirstObstacle, DaclPrefix, SaclSuffix, Descending, RemoveEach,
      TextRemoveEach, TextAddEach, Obstacle;
    SplitHasShape(sddl);
    var s := SplitDacl(sddl).value;
    var indices := Descending(|s.aces|, SetOf(remove));
    ChangeIsOneByOne(s.aces, remove, add, domain);
    NothingBelow(|s.aces|, SetOf(remove));
    RemoveEachFrom(sddl, s, indices);
    AddEachFrom(sddl, s, add, domain);
    if remove == [] {
      assert indices == [];
      NoSteps(sddl, s.aces);
    } else {
      var i := remove[0];
      assert i in remove && ChangeAces(s.aces, remove, add, domain).Done?;
      assert 0 <= i < |s.aces| && i in SetOf(remove);
      assert indices != [];
      var kept := RemoveEach(s.aces, indices).value;
      RemoveEachText(s, indices);
      SplitShapeWith(s, kept);
      AddEachText(s.(aces := kept), add, domain);
    }
  }

  lemma SplitShapeWith(s: Split, aces: seq<string>)
    requires SplitShape(s) && Entries(aces)
    ensures SplitShape(s.(aces := aces))
  {
  }

  lemma NoSteps(sddl: string, aces: seq<string>)
    ensures TextRemoveEach(sddl, []) == Done(sddl) && RemoveEach(aces, []) == Done(aces)
  {
  }

  // --- The password option ----------------------------------------------------------------------

  predicate Inside(field: string) {
    ')' !in field && ':' !in field
  }

  /** A printed entry is an entry when no field ends it early. */
  lemma PrintedIsEntry(f: Fields)
    requires Inside(f.kind) && Inside(f.flags) && Inside(f.rights) && Inside(f.objectGuid) && Inside(f.appliesTo)
    requires Inside(f.trustee)
    ensures Entry(PrintAce(f))
  {
    var ace := PrintAce(f);
    var inner := f.kind + ";" + f.flags + ";" + f.rights + ";" + f.objectGuid + ";" + f.appliesTo + ";" + f.trustee;
    assert Inside(inner);
    assert ace == "(" + inner + ")";
    assert ace[..|ace| - 1] == "(" + inner;
    forall k | 0 <= k < |ace| ensures !MarkerAt(ace, 'S', k) {
      if 0 <= k < |ace| - 2 {
        assert ace[k + 1] == inner[k];
      }
    }
  }

  lemma WantedAreEntries(value: bool)
    ensures Entries(Wanted(value))
  {
    hide Entry, PrintAce;
    var kind := if value then "OD" else "OA";
    RightIsInside();
    PrintedIsEntry(EntryFields(kind, "PS"));
    PrintedIsEntry(EntryFields(kind, "WD"));
    var w := Wanted(value);
    assert w[1..] == [w[1]] && w[1..][1..] == [];
    assert Entries(w[1..]);
  }

  lemma RightIsInside()
    ensures Inside(RIGHT) && Inside("CR") && Inside("") && Inside("OD") && Inside("OA") && Inside("PS") && Inside("WD")
  {
    assert RIGHT == ['a', 'b', '7', '2', '1', 'a', '5', '3', '-', '1', 'e', '2', 'f', '-', '1', '1', 'd', '0', '-',
        '9', '8', '1', '9', '-', '0', '0', 'a', 'a', '0', '0', '4', '0', '5', '2', '9', 'b'];
  }

  lemma {:induction false} EntriesFilter(aces: seq<string>, entries: bool, domain: Option<string>)
    requires Entries(aces)
    ensures Entries(Filter(aces, entries, domain))
  {
    hide Entry, IsEntry;
    if aces != [] {
      EntriesFilter(aces[1..], entries, domain);
      var rest := Filter(aces[1..], entries, domain);
      assert ([aces[0]] + rest)[1..] == rest && [] + rest == rest;
    }
  }

  lemma EntriesSet(aces: seq<string>, value: bool, domain: Option<string>)
    requires Entries(aces) && WithCannotChange(aces, value, domain).Some?
    ensures Entries(WithCannotChange(aces, value, domain).value)
  {
    hide Entries, Settled, Wanted, Filter, Place;
    if !Settled(aces, value, domain) {
      var kept := Filter(aces, false, domain);
      EntriesFilter(aces, false, domain);
      WantedAreEntries(value);
      EntriesWith(kept, Place(kept, value).value, Wanted(value));
    }
  }

  /** The option is read back from the text that was written for it, the rest of the descriptor is as it was, and
      setting it again writes nothing. */
  lemma OptionReadsBack(sddl: string, value: bool, domain: Option<string>)
    requires SetOption(sddl, value, domain).Done? && SetOption(sddl, value, domain).value.Some?
    ensures var text := SetOption(sddl, value, domain).value.value;
            var s := SplitDacl(sddl).value;
            && SplitDacl(text).Some?
            && SplitDacl(text).value.prefix == s.prefix && SplitDacl(text).value.suffix == s.suffix
            && CannotChangeIn(SplitDacl(text).value.aces, domain) == value
            && SetOption(text, value, domain) == Done(None)
  {
    hide Entries, SplitDacl, Whole, WithCannotChange, CannotChangeIn, DaclPrefix, SaclSuffix, Settled, Filter;
    SplitHasShape(sddl);
    var s := SplitDacl(sddl).value;
    var aces := WithCannotChange(s.aces, value, domain).value;
    EntriesSet(s.aces, value, domain);
    Respell(s, aces);
    SetCannotChange(s.aces, value, domain);
  }

  /** What build_ace assembles is an entry, so it is found again beside the others. */
  lemma BuiltIsEntry(trustee: string, mask: nat, deny: bool, objectGuid: Option<string>, appliesTo: Option<string>,
                     inherit: bool)
    requires Inside(trustee) && Inside(GuidField(objectGuid)) && Inside(GuidField(appliesTo))
    ensures Entry(PrintAce(BuiltFields(trustee, mask, deny, objectGuid, appliesTo, inherit)))
  {
    hide Entry, PrintAce, GuidField, HexText;
    var f := BuiltFields(trustee, mask, deny, objectGuid, appliesTo, inherit);
    var padded := PaddedFold(mask);
    HexIsInside(padded);
    assert "0x" == ['0', 'x'];
    assert Inside(f.kind) && Inside(f.flags);
    PrintedIsEntry(f);
  }

  lemma {:induction false} HexIsInside(s: string)
    requires AllHex(s)
    ensures Inside(s)
  {
    if s != "" {
      HexIsInside(s[1..]);
    }
  }
}
