/** The permissions of one object, edited in place (backend/samadcon/ad/sacl.py 122-141, 309-436 and
    backend/samadcon/ad/users.py 1023-1033). */
module SecuredObjects {
  import opened Text
  import opened Sddl
  import opened AceMeaning
  import opened AclEditing
  import opened DeleteProtection
  import opened CannotChange

  // --- The new text, or why there is none ----------------------------------------------------

  predicate Unexpected(current: string, expected: Option<string>) {
    expected.Some? && current != expected.value
  }

  function Rejoined(s: Split, edited: Result<seq<string>>): Result<string> {
    match edited case Refused(e) => Refused(e) case Done(aces) => Done(Whole(s.(aces := aces)))
  }

  function TextAdd(sddl: string, ace: string, domain: Option<string>): Result<string> {
    match SplitDacl(sddl) case None => Refused(NoDacl) case Some(s) => Rejoined(s, AddOne(s.aces, ace, domain))
  }

  function TextRemove(sddl: string, index: int): Result<string> {
    match SplitDacl(sddl) case None => Refused(NoDacl) case Some(s) => Rejoined(s, RemoveOne(s.aces, index))
  }

  function TextChange(sddl: string, remove: seq<int>, add: seq<string>, domain: Option<string>): Result<string> {
    match SplitDacl(sddl)
    case None => Refused(NoDacl)
    case Some(s) => Rejoined(s, ChangeAces(s.aces, remove, add, domain))
  }

  /** What a call leaves behind: all of it, when the edit is possible and the directory takes the write, or nothing. */
  predicate AllOrNothing<T(==)>(
    edit: Result<string>, writable: bool, before: string, after: string, answer: T, r: Result<T>)
  {
    match edit
    case Refused(e) => r == Refused(e) && after == before
    case Done(text) =>
      if writable then r == Done(answer) && after == text else r == Refused(WriteDenied) && after == before
  }

  function RemovedAce(sddl: string, index: int): string {
    match SplitDacl(sddl) case Some(s) => (if 0 <= index < |s.aces| then s.aces[index] else "") case None => ""
  }

  function RemovedAces(sddl: string, remove: seq<int>): seq<string> {
    match SplitDacl(sddl) case Some(s) => Taken(s.aces, remove) case None => []
  }

  function SetProtection(sddl: string, protect: bool): string {
    if IsProtected(sddl) == protect then sddl
    else if protect then Insert(sddl, PROTECTION_ACE)
    else Cleared(sddl)
  }

  /** The text to write, or None when the list says it already. */
  function SetOption(sddl: string, value: bool, domain: Option<string>): Result<Option<string>> {
    match SplitDacl(sddl)
    case None => Refused(NoDacl)
    case Some(s) =>
      match WithCannotChange(s.aces, value, domain)
      case None => Refused(Malformed)
      case Some(aces) => Done(if aces == s.aces then None else Some(Whole(s.(aces := aces))))
  }

  // --- The searches, as loops --------------------------------------------------------------------

  method FindSame(ace: string, aces: seq<string>, domain: Option<string>) returns (found: bool)
    ensures found == Among(ace, aces, domain)
  {
    hide SameAce;
    assert aces[0..] == aces;
    for i := 0 to |aces|
      invariant Among(ace, aces, domain) == Among(ace, aces[i..], domain)
    {
      assert aces[i..][1..] == aces[i + 1..];
      if SameAce(ace, aces[i], domain) {
        return true;
      }
    }
    return false;
  }

  /** The source's insertion before the first allow. */
  method InsertInOrder(aces: seq<string>, ace: string) returns (r: seq<string>)
    ensures r == Inserted(aces, ace)
  {
    hide IsAllow;
    if IsDeny(ace) {
      var at := 0;
      while at < |aces| && !IsAllow(aces[at])
        invariant 0 <= at <= FirstAllow(aces)
      {
        at := at + 1;
      }
      return aces[..at] + [ace] + aces[at..];
    }
    return aces + [ace];
  }

  /** The source's check of every position before anything is taken out. */
  method CheckPositions(aces: seq<string>, remove: seq<int>) returns (r: Option<Refusal>)
    ensures r == FirstObstacle(aces, remove)
  {
    hide IsInherited;
    assert remove[0..] == remove;
    for i := 0 to |remove|
      invariant FirstObstacle(aces, remove[i..]) == FirstObstacle(aces, remove)
    {
      assert remove[i..][1..] == remove[i + 1..];
      var index := remove[i];
      if index < 0 || index >= |aces| {
        return Some(NotThere);
      }
      match IsInherited(aces[index]) {
        case None => return Some(Malformed);
        case Some(inherited) =>
          if inherited {
            return Some(Inherited);
          }
      }
    }
    return None;
  }

  method Separate(aces: seq<string>, remove: seq<int>) returns (taken: seq<string>, kept: seq<string>)
    ensures taken == Taken(aces, remove) && kept == Kept(aces, remove)
  {
    var positions := set i | i in remove;
    taken, kept := [], [];
    assert aces[0..] == aces;
    for i := 0 to |aces|
      invariant taken + Picked(aces[i..], positions, i, true) == Picked(aces, positions, 0, true)
      invariant kept + Picked(aces[i..], positions, i, false) == Picked(aces, positions, 0, false)
    {
      assert aces[i..][1..] == aces[i + 1..];
      ghost var ts, ks := Picked(aces[i + 1..], positions, i + 1, true), Picked(aces[i + 1..], positions, i + 1, false);
      if i in positions {
        assert taken + ([aces[i]] + ts) == taken + [aces[i]] + ts && [] + ks == ks;
        taken := taken + [aces[i]];
      } else {
        assert kept + ([aces[i]] + ks) == kept + [aces[i]] + ks && [] + ts == ts;
        kept := kept + [aces[i]];
      }
    }
    assert taken + [] == taken && kept + [] == kept;
  }

  /** The source's loop over the entries to add. */
  method AddEach(start: seq<string>, add: seq<string>, domain: Option<string>) returns (r: Result<seq<string>>)
    ensures r == AddAll(start, add, domain)
  {
    hide Inserted, Among;
    var kept := start;
    assert add[0..] == add;
    for i := 0 to |add|
      invariant AddAll(kept, add[i..], domain) == AddAll(start, add, domain)
    {
      assert add[i..][1..] == add[i + 1..];
      var present := FindSame(add[i], kept, domain);
      if present {
        return Refused(AlreadyThere);
      }
      kept := InsertInOrder(kept, add[i]);
    }
    return Done(kept);
  }

  class SecuredObject {
    var sddl: string
    const domain: Option<string>

    constructor (text: string, domainSid: Option<string>)
      ensures sddl == text && domain == domainSid
    {
      sddl, domain := text, domainSid;
    }

    /** *writable* says whether the directory takes the write. */
    method AddAce(ace: string, expected: Option<string>, writable: bool) returns (r: Result<string>)
      modifies this
      ensures AllOrNothing(if Unexpected(old(sddl), expected) then Refused(Changed)
                           else TextAdd(old(sddl), ace, domain),
                           writable, old(sddl), sddl, ace, r)
      ensures expected.Some? && expected.value != old(sddl) ==> r == Refused(Changed) && sddl == old(sddl)
      ensures r == Refused(Changed) ==> expected.Some? && expected.value != old(sddl)
    {
      hide SplitDacl, Inserted, Among, Whole;
      if Unexpected(sddl, expected) {
        return Refused(Changed);
      }
      var split := SplitText(sddl);
      if split == None {
        return Refused(NoDacl);
      }
      var present := FindSame(ace, split.value.aces, domain);
      if present {
        return Refused(AlreadyThere);
      }
      var aces := InsertInOrder(split.value.aces, ace);
      if !writable {
        return Refused(WriteDenied);
      }
      sddl := split.value.prefix + Concat(aces) + split.value.suffix;
      assert sddl == Whole(split.value.(aces := aces)) by { WholeIs(split.value, aces); }
      return Done(ace);
    }

    method RemoveAce(index: int, expected: Option<string>, writable: bool) returns (r: Result<string>)
      modifies this
      ensures AllOrNothing(if Unexpected(old(sddl), expected) then Refused(Changed) else TextRemove(old(sddl), index),
                           writable, old(sddl), sddl, RemovedAce(old(sddl), index), r)
      ensures expected.Some? && expected.value != old(sddl) ==> r == Refused(Changed) && sddl == old(sddl)
      ensures r == Refused(Changed) ==> expected.Some? && expected.value != old(sddl)
    {
      hide SplitDacl, Whole, IsInherited;
      if Unexpected(sddl, expected) {
        return Refused(Changed);
      }
      var split := SplitText(sddl);
      if split == None {
        return Refused(NoDacl);
      }
      var aces := split.value.aces;
      if index < 0 || index >= |aces| {
        return Refused(NotThere);
      }
      var target := aces[index];
      match IsInherited(target) {
        case None => return Refused(Malformed);
        case Some(inherited) =>
          if inherited {
            return Refused(Inherited);
          }
      }
      aces := aces[..index] + aces[index + 1..];
      if !writable {
        return Refused(WriteDenied);
      }
      sddl := split.value.prefix + Concat(aces) + split.value.suffix;
      assert sddl == Whole(split.value.(aces := aces)) by { WholeIs(split.value, aces); }
      return Done(target);
    }

    /** One read, one check, one write. */
    method ChangeAcl(remove: seq<int>, add: seq<string>, expected: string, writable: bool)
      returns (r: Result<(seq<string>, seq<string>)>)
      modifies this
      ensures AllOrNothing(if expected == "" then Refused(ExpectedMissing)
                           else if remove == [] && add == [] then Refused(NothingToDo)
                           else if old(sddl) != expected then Refused(Changed)
                           else TextChange(old(sddl), remove, add, domain),
                           writable, old(sddl), sddl, (RemovedAces(old(sddl), remove), add), r)
    {
      hide SplitDacl, Whole, FirstObstacle, AddAll, Picked;
      if expected == "" {
        return Refused(ExpectedMissing);
      }
      if remove == [] && add == [] {
        return Refused(NothingToDo);
      }
      if sddl != expected {
        return Refused(Changed);
      }
      var split := SplitText(sddl);
      if split == None {
        return Refused(NoDacl);
      }
      var obstacle := CheckPositions(split.value.aces, remove);
      if obstacle.Some? {
        return Refused(obstacle.value);
      }
      var taken, kept := Separate(split.value.aces, remove);
      var changed := AddEach(kept, add, domain);
      match changed {
        case Refused(e) => return Refused(e);
        case Done(aces) =>
          if !writable {
            return Refused(WriteDenied);
          }
          sddl := split.value.prefix + Concat(aces) + split.value.suffix;
          assert sddl == Whole(split.value.(aces := aces)) by { WholeIs(split.value, aces); }
          return Done((taken, add));
      }
    }

    /** True when the text was changed. */
    method SetDeleteProtection(protect: bool, writable: bool) returns (r: Result<bool>)
      modifies this
      ensures if IsProtected(old(sddl)) == protect then r == Done(false) && sddl == old(sddl)
              else AllOrNothing(Done(SetProtection(old(sddl), protect)), writable, old(sddl), sddl, true, r)
      ensures protect && r.Done? ==> IsProtected(sddl)
    {
      hide IsProtected, Insert, Cleared;
      SettingProtects(sddl);
      var protected := CheckProtected(sddl);
      if protected == protect {
        return Done(false);
      }
      var updated;
      if protect {
        updated := InsertAce(sddl, PROTECTION_ACE);
      } else {
        updated := Cleared(sddl);
      }
      if !writable {
        return Refused(WriteDenied);
      }
      sddl := updated;
      return Done(true);
    }

    /** *mustChange* says whether the user has to change the password at the next logon. */
    method SetCannotChangePassword(value: bool, mustChange: bool, writable: bool) returns (r: Result<()>)
      modifies this
      ensures if value && mustChange then r == Refused(MustChange) && sddl == old(sddl)
              else match SetOption(old(sddl), value, domain)
                   case Refused(e) => r == Refused(e) && sddl == old(sddl)
                   case Done(None) => r == Done(()) && sddl == old(sddl)
                   case Done(Some(text)) => AllOrNothing(Done(text), writable, old(sddl), sddl, (), r)
    {
      hide SplitDacl, Whole, WithCannotChange;
      if value && mustChange {
        return Refused(MustChange);
      }
      var split := SplitText(sddl);
      if split == None {
        return Refused(NoDacl);
      }
      var updated := WithCannotChange(split.value.aces, value, domain);
      match updated {
        case None => return Refused(Malformed);
        case Some(aces) =>
          if aces != split.value.aces {
            var text := split.value.prefix + Concat(aces) + split.value.suffix;
            assert text == Whole(split.value.(aces := aces)) by { WholeIs(split.value, aces); }
            if !writable {
              return Refused(WriteDenied);
            }
            sddl := text;
          }
          return Done(());
      }
    }
  }

  lemma WholeIs(s: Split, aces: seq<string>)
    ensures s.prefix + Concat(aces) + s.suffix == Whole(s.(aces := aces))
  {
  }
}
