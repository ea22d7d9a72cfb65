/** Editing a list of entries (backend/samadcon/ad/sacl.py 309-436). */
module AclEditing {
  import opened Text
  import opened AceMeaning

  datatype Refusal =
    NoDacl | AlreadyThere | NotThere | Inherited | Malformed | Changed | ExpectedMissing | NothingToDo | MustChange |
    WriteDenied

  datatype Result<+T> = Done(value: T) | Refused(why: Refusal)

  predicate IsDeny(ace: string) {
    "(D;" <= ace || "(OD;" <= ace
  }

  predicate IsAllow(ace: string) {
    "(A;" <= ace || "(OA;" <= ace
  }

  function FirstAllow(aces: seq<string>): (k: nat)
    ensures k <= |aces|
    ensures forall i :: 0 <= i < k ==> !IsAllow(aces[i])
    ensures k < |aces| ==> IsAllow(aces[k])
  {
    if aces == [] || IsAllow(aces[0]) then 0 else 1 + FirstAllow(aces[1..])
  }

  predicate Among(ace: string, aces: seq<string>, domain: Option<string>) {
    aces != [] && (SameAce(ace, aces[0], domain) || Among(ace, aces[1..], domain))
  }

  /** A deny goes before the first allow, anything else to the end. */
  function Inserted(aces: seq<string>, ace: string): seq<string> {
    if IsDeny(ace) then aces[..FirstAllow(aces)] + [ace] + aces[FirstAllow(aces)..] else aces + [ace]
  }

  function AddOne(aces: seq<string>, ace: string, domain: Option<string>): Result<seq<string>> {
    if Among(ace, aces, domain) then Refused(AlreadyThere) else Done(Inserted(aces, ace))
  }

  function AddAll(aces: seq<string>, add: seq<string>, domain: Option<string>): Result<seq<string>>
    decreases |add|
  {
    if add == [] then Done(aces)
    else
      match AddOne(aces, add[0], domain)
      case Refused(e) => Refused(e)
      case Done(next) => AddAll(next, add[1..], domain)
  }

  /** Why the entry at a position cannot be removed. */
  function Obstacle(aces: seq<string>, index: int): Option<Refusal> {
    if index < 0 || index >= |aces| then Some(NotThere)
    else
      match IsInherited(aces[index])
      case None => Some(Malformed)
      case Some(inherited) => if inherited then Some(Inherited) else None
  }

  function RemoveOne(aces: seq<string>, index: int): Result<seq<string>> {
    match Obstacle(aces, index)
    case Some(e) => Refused(e)
    case None => Done(aces[..index] + aces[index + 1..])
  }

  function FirstObstacle(aces: seq<string>, remove: seq<int>): Option<Refusal>
    decreases |remove|
  {
    if remove == [] then None
    else match Obstacle(aces, remove[0]) case Some(e) => Some(e) case None => FirstObstacle(aces, remove[1..])
  }

  /** The entries whose positions, counted from *offset*, are in the set or are not. */
  function Picked(aces: seq<string>, positions: set<int>, offset: nat, within: bool): seq<string> {
    if aces == [] then []
    else (if (offset in positions) == within then [aces[0]] else []) + Picked(aces[1..], positions, offset + 1, within)
  }

  function SetOf(remove: seq<int>): set<int> {
    set i | i in remove
  }

  function Kept(aces: seq<string>, remove: seq<int>): seq<string> {
    Picked(aces, SetOf(remove), 0, false)
  }

  function Taken(aces: seq<string>, remove: seq<int>): seq<string> {
    Picked(aces, SetOf(remove), 0, true)
  }

  function ChangeAces(aces: seq<string>, remove: seq<int>, add: seq<string>, domain: Option<string>)
    : Result<seq<string>>
  {
    match FirstObstacle(aces, remove)
    case Some(e) => Refused(e)
    case None => AddAll(Kept(aces, remove), add, domain)
  }

  // --- The same, one entry at a time ----------------------------------------------------------

  /** The positions below *n* in the set, highest first. */
  function Descending(n: nat, positions: set<int>): seq<int> {
    if n == 0 then [] else (if n - 1 in positions then [n - 1] else []) + Descending(n - 1, positions)
  }

  function RemoveEach(aces: seq<string>, indices: seq<int>): Result<seq<string>>
    decreases |indices|
  {
    if indices == [] then Done(aces)
    else
      match RemoveOne(aces, indices[0])
      case Refused(e) => Refused(e)
      case Done(next) => RemoveEach(next, indices[1..])
  }

  function OneByOne(aces: seq<string>, remove: seq<int>, add: seq<string>, domain: Option<string>)
    : Result<seq<string>>
  {
    match RemoveEach(aces, Descending(|aces|, SetOf(remove)))
    case Refused(e) => Refused(e)
    case Done(next) => AddAll(next, add, domain)
  }

  lemma {:induction false} PickedSnoc(aces: seq<string>, ace: string, positions: set<int>, offset: nat, within: bool)
    ensures Picked(aces + [ace], positions, offset, within)
         == Picked(aces, positions, offset, within) + if (offset + |aces| in positions) == within then [ace] else []
  {
    var last := if (offset + |aces| in positions) == within then [ace] else [];
    if aces == [] {
      assert aces + [ace] == [ace] && [ace][1..] == [];
      assert [] + last == last + [] == last;
    } else {
      assert (aces + [ace])[1..] == aces[1..] + [ace] && (aces + [ace])[0] == aces[0];
      PickedSnoc(aces[1..], ace, positions, offset + 1, within);
      var first := if (offset in positions) == within then [aces[0]] else [];
      var rest := Picked(aces[1..], positions, offset + 1, within);
      assert first + (rest + last) == first + rest + last;
    }
  }

  predicate AllRemovable(aces: seq<string>, positions: set<int>, n: nat) {
    forall i :: 0 <= i < n && i in positions ==> Obstacle(aces, i) == None
  }

  lemma NothingPicked(positions: set<int>)
    ensures Picked([], positions, 0, false) == []
  {
  }

  /** The last of the first *n* entries is taken out when nothing is in the way. */
  lemma RemoveLast(aces: seq<string>, n: nat, tail: seq<string>)
    requires 0 < n <= |aces|
    ensures RemoveOne(aces[..n] + tail, n - 1)
         == match Obstacle(aces, n - 1)
            case Some(e) => Refused(e)
            case None => Done(aces[..n - 1] + tail)
    ensures aces[..n] + tail == aces[..n - 1] + ([aces[n - 1]] + tail)
  {
    hide IsInherited;
    var list := aces[..n] + tail;
    assert list[n - 1] == aces[n - 1];
    assert list[..n - 1] == aces[..n - 1] && list[n..] == tail;
  }

  /** Taking out entries from the highest position down leaves the lower positions alone. */
  lemma {:induction false} RemoveDown(aces: seq<string>, n: nat, tail: seq<string>, positions: set<int>)
    requires n <= |aces|
    ensures var kept := Picked(aces[..n], positions, 0, false);
            AllRemovable(aces, positions, n)
            ==> RemoveEach(aces[..n] + tail, Descending(n, positions)) == Done(kept + tail)
    ensures RemoveEach(aces[..n] + tail, Descending(n, positions)).Done? ==> AllRemovable(aces, positions, n)
    decreases n
  {
    hide IsInherited, RemoveOne, Picked;
    if n == 0 {
      NothingPicked(positions);
      assert aces[..n] == [] && [] + tail == tail;
    } else {
      var last := aces[n - 1];
      assert aces[..n] == aces[..n - 1] + [last];
      PickedSnoc(aces[..n - 1], last, positions, 0, false);
      RemoveLast(aces, n, tail);
      if n - 1 in positions {
        RemoveDown(aces, n - 1, tail, positions);
        assert Descending(n, positions)[1..] == Descending(n - 1, positions);
        assert Picked(aces[..n - 1], positions, 0, false) + [] == Picked(aces[..n - 1], positions, 0, false);
      } else {
        RemoveDown(aces, n - 1, [last] + tail, positions);
        assert [] + Descending(n - 1, positions) == Descending(n - 1, positions);
        var picked := Picked(aces[..n - 1], positions, 0, false);
        assert picked + ([last] + tail) == (picked + [last]) + tail;
      }
    }
  }

  lemma {:induction false} ObstacleFree(aces: seq<string>, remove: seq<int>)
    ensures FirstObstacle(aces, remove) == None <==> forall i :: i in remove ==> Obstacle(aces, i) == None
  {
    hide Obstacle;
    if remove != [] {
      ObstacleFree(aces, remove[1..]);
      assert forall i :: i in remove <==> i == remove[0] || i in remove[1..];
    }
  }

  /** The batch succeeds exactly when every position is in the list and removing them from the highest down, then
      adding one entry after the other, succeeds; and then the lists are the same. */
  lemma ChangeIsOneByOne(aces: seq<string>, remove: seq<int>, add: seq<string>, domain: Option<string>)
    ensures ChangeAces(aces, remove, add, domain).Done?
        <==> (forall i :: i in remove ==> 0 <= i < |aces|) && OneByOne(aces, remove, add, domain).Done?
    ensures ChangeAces(aces, remove, add, domain).Done?
        ==> ChangeAces(aces, remove, add, domain) == OneByOne(aces, remove, add, domain)
  {
    hide AddAll, Picked, Descending, RemoveEach, IsInherited;
    var n, positions := |aces|, SetOf(remove);
    assert aces[..n] + [] == aces && aces[..n] == aces;
    RemoveDown(aces, n, [], positions);
    assert Kept(aces, remove) + [] == Kept(aces, remove);
    ObstacleFree(aces, remove);
    assert forall i :: i in positions <==> i in remove;
  }
}
