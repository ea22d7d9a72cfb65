/** No run of writes gives out a reserved name (backend/samadcon/ad/connection.py,
    _refuse_reserved). */
module ReservedNames {
  import opened Text
  import opened WriteGuard
  import opened Directory
  import opened Connection

  /** Whether the settings reserve the value compared as *norm* for the attribute *a*. */
  predicate Reserved(s: Settings, a: string, norm: string) {
    HitOf(a, norm, s.prefixes, s.names).Some?
  }

  /** Where the objects stand that hold, in the attribute *a*, a value compared as *norm*. */
  ghost function Holders(t: Tree, a: string, norm: string): set<Key> {
    set k | k in t && HeldBy(t[k].attrs, a, norm)
  }

  ghost predicate HeldBy(attrs: Attrs, a: string, norm: string) {
    exists v :: v in ValuesOf(attrs, a) && Norm(v) == norm
  }

  /** Whether the message writes such a value. */
  ghost predicate Gives(elements: seq<Element>, a: string, norm: string) {
    exists e, v :: e in elements && e.flag != ModDelete && Lower(e.attr) == a
                   && v in e.values && Norm(v) == norm
  }

  lemma {:induction false} WithoutSubset(values: seq<string>, gone: seq<string>, v: string)
    ensures v in Without(values, gone) ==> v in values
  {
    if values != [] {
      WithoutSubset(values[1..], gone, v);
    }
  }

  lemma ElementHeld(attrs: Attrs, e: Element, a: string, norm: string)
    requires HeldBy(ApplyElement(attrs, e), a, norm)
    ensures HeldBy(attrs, a, norm) || Gives([e], a, norm)
  {
    hide Norm;
    var v :| v in ValuesOf(ApplyElement(attrs, e), a) && Norm(v) == norm;
    if Lower(e.attr) == a {
      WithoutSubset(ValuesOf(attrs, a), e.values, v);
      assert e in [e];
      assert e.flag != ModDelete && v in e.values ==> Gives([e], a, norm);
    }
  }

  /** A value an object holds after a message was held before it or is written by it. */
  lemma {:induction false} ElementsHeld(attrs: Attrs, elements: seq<Element>, a: string, norm: string)
    requires HeldBy(ApplyElements(attrs, elements), a, norm)
    ensures HeldBy(attrs, a, norm) || Gives(elements, a, norm)
    decreases |elements|
  {
    hide Norm, HeldBy, ApplyElement;
    if elements != [] {
      var next := ApplyElement(attrs, elements[0]);
      ElementsHeld(next, elements[1..], a, norm);
      if HeldBy(next, a, norm) {
        ElementHeld(attrs, elements[0], a, norm);
      }
    }
  }

  lemma HitIsChecked(s: Settings, a: string, norm: string)
    requires Reserved(s, a, norm)
    ensures Checked(a) && !(s.prefixes == [] && s.names == [])
  {
  }

  lemma {:induction false} GuardedValue(s: Settings, attribute: string, given: seq<string>, had: seq<string>, v: string)
    requires FirstNewHit(s, attribute, given, had) == None && v in given
    requires Reserved(s, Lower(attribute), Norm(v))
    ensures exists w :: w in had && Norm(w) == Norm(v)
  {
    hide Norm, HitOf;
    if v != given[0] {
      GuardedValue(s, attribute, given[1..], had, v);
    }
  }

  /** A message the guard lets through writes a reserved value only where it already is. */
  lemma {:induction false} GuardedMessage(s: Settings, elements: seq<Element>, current: Attrs, a: string, norm: string)
    requires FirstRefused(s, elements, current) == None
    requires Gives(elements, a, norm) && Reserved(s, a, norm)
    ensures HeldBy(current, a, norm)
  {
    hide Norm, HitOf;
    var e, v :| e in elements && e.flag != ModDelete && Lower(e.attr) == a && v in e.values && Norm(v) == norm;
    HitIsChecked(s, a, norm);
    if e == elements[0] {
      GuardedValue(s, e.attr, e.values, ValuesOf(current, a), v);
    } else {
      assert e in elements[1..];
      GuardedMessage(s, elements[1..], current, a, norm);
    }
  }

  lemma AddHeld(s: Settings, m: Message, a: string, norm: string)
    requires Reserved(s, a, norm)
    requires HeldBy(ApplyElements(map[], m.elements), a, norm)
    ensures RefuseReserved(s, m.elements, map[]) != None
  {
    hide Norm, HitOf;
    HitIsChecked(s, a, norm);
    ElementsHeld(map[], m.elements, a, norm);
    if FirstRefused(s, m.elements, map[]) == None {
      GuardedMessage(s, m.elements, map[], a, norm);
    }
  }

  lemma ModifyHeld(s: Settings, t: Tree, m: Message, a: string, norm: string)
    requires Reserved(s, a, norm)
    requires HeldBy(ApplyElements(CurrentAttrs(t, m.dn), m.elements), a, norm)
    ensures RefuseReserved(s, m.elements, CurrentAttrs(t, m.dn)) == None ==> HeldBy(CurrentAttrs(t, m.dn), a, norm)
  {
    hide Norm, HitOf, HeldBy, CurrentAttrs;
    HitIsChecked(s, a, norm);
    var current := CurrentAttrs(t, m.dn);
    ElementsHeld(current, m.elements, a, norm);
    if FirstRefused(s, m.elements, current) == None && Gives(m.elements, a, norm) {
      GuardedMessage(s, m.elements, current, a, norm);
    }
  }

  // --- Where an object came from ------------------------------------------------------------

  /** Where the object that stands at *k* after the operation stood before it; None for one that
      was just added. */
  function ServerOrigin(t: Tree, op: Op, k: Key): Option<Key> {
    match op
    case Add(m) => if k == DnKey(m.dn) then None else Some(k)
    case Modify(_) => Some(k)
    case Delete(_, _) => Some(k)
    case Rename(oldDn, newDn) =>
      var old', new' := DnKey(oldDn), DnKey(newDn);
      Some(if IsMoved(t, k, old', new') then Retarget(k, new', old') else k)
  }

  function StepOrigin(s: Settings, t: Tree, op: Op, denied: bool, k: Key): Option<Key> {
    if Guard(s, t, op).Some? || denied || Server(t, op) == None then Some(k) else ServerOrigin(t, op, k)
  }

  /** The same over a run, back through all its renames. */
  function RunOrigin(s: Settings, t: Tree, ops: seq<(Op, bool)>, k: Key): Option<Key>
    decreases |ops|
  {
    if ops == [] then Some(k)
    else
      match RunOrigin(s, Step(s, t, ops[0].0, ops[0].1).0, ops[1..], k)
      case None => None
      case Some(j) => StepOrigin(s, t, ops[0].0, ops[0].1, j)
  }

  lemma RenameOrigin(t: Tree, oldDn: string, newDn: string, k: Key)
    requires ServerRename(t, oldDn, newDn).Some? && k in ServerRename(t, oldDn, newDn).value
    ensures var from := ServerOrigin(t, Op.Rename(oldDn, newDn), k).value;
            from in t && ServerRename(t, oldDn, newDn).value[k].attrs == t[from].attrs
  {
    hide DnKey, Spelling, KeyOf;
    RenamedPlaces(t, DnKey(oldDn), Spelling(newDn), k);
    KeyIsKeyOf(newDn);
  }

  /** An object that was there before stood where its origin says, and two never stood at one place. */
  lemma RenameOriginsDiffer(t: Tree, oldDn: string, newDn: string, j: Key, k: Key)
    requires ServerRename(t, oldDn, newDn).Some? && j != k
    requires j in ServerRename(t, oldDn, newDn).value && k in ServerRename(t, oldDn, newDn).value
    ensures ServerOrigin(t, Op.Rename(oldDn, newDn), j) != ServerOrigin(t, Op.Rename(oldDn, newDn), k)
  {
    hide DnKey, Spelling, KeyOf, AfterRename, Retarget;
    var old', new' := DnKey(oldDn), DnKey(newDn);
    KeyIsKeyOf(newDn);
    RenamedPlaces(t, old', Spelling(newDn), j);
    RenamedPlaces(t, old', Spelling(newDn), k);
    if IsMoved(t, j, old', new') { RetargetWithin(j, new', old'); }
    if IsMoved(t, k, old', new') { RetargetWithin(k, new', old'); }
  }

  lemma StepOrigins(s: Settings, t: Tree, op: Op, denied: bool, j: Key, k: Key)
    requires var t' := Step(s, t, op, denied).0; j in t' && k in t'
    ensures var o := StepOrigin(s, t, op, denied, k);
            && (o.Some? ==> o.value in t)
            && (j != k && o.Some? ==> StepOrigin(s, t, op, denied, j) != o)
  {
    hide DnKey, Guard, ServerRename, IsMoved, Retarget;
    if op.Rename? && Guard(s, t, op) == None && !denied && Server(t, op).Some? {
      RenameOrigin(t, op.oldDn, op.newDn, k);
      if j != k {
        RenameOriginsDiffer(t, op.oldDn, op.newDn, j, k);
      }
    } else {
      AddIsAtKey(op);
    }
  }

  lemma AddIsAtKey(op: Op)
    ensures op.Add? ==> KeyOf(Spelling(op.m.dn)) == DnKey(op.m.dn)
  {
    if op.Add? { KeyIsKeyOf(op.m.dn); }
  }

  /** Each object at the end of a run that was not added in it stood at its origin at the start,
      and no two at the same place. */
  lemma {:induction false} RunOrigins(s: Settings, t: Tree, ops: seq<(Op, bool)>, j: Key, k: Key)
    requires var t' := Run(s, t, ops); j in t' && k in t'
    ensures var o := RunOrigin(s, t, ops, k);
            && (o.Some? ==> o.value in t)
            && (j != k && o.Some? ==> RunOrigin(s, t, ops, j) != o)
    decreases |ops|
  {
    hide Step, StepOrigin;
    if ops != [] {
      var next := Step(s, t, ops[0].0, ops[0].1).0;
      RunOrigins(s, next, ops[1..], j, k);
      RunOrigins(s, next, ops[1..], k, j);
      var from, other := RunOrigin(s, next, ops[1..], k), RunOrigin(s, next, ops[1..], j);
      if from.Some? {
        StepOrigins(s, t, ops[0].0, ops[0].1, if other.Some? then other.value else from.value, from.value);
      }
    }
  }

  // --- Nothing is given ------------------------------------------------------------------------

  lemma ServerGivesNothing(s: Settings, t: Tree, op: Op, k: Key, a: string, norm: string)
    requires Reserved(s, a, norm) && Guard(s, t, op) == None && Server(t, op).Some?
    requires k in Holders(Server(t, op).value, a, norm)
    ensures var o := ServerOrigin(t, op, k); o.Some? && o.value in Holders(t, a, norm)
  {
    hide DnKey, Norm, HitOf, HeldBy, RefuseInside, RefuseAbove, ServerRename, RefuseReserved, Reserved, IsMoved, Retarget;
    match op {
      case Add(m) =>
        AddIsAtKey(op);
        if k == DnKey(m.dn) { AddHeld(s, m, a, norm); }
      case Modify(m) =>
        if k == DnKey(m.dn) { ModifyHeld(s, t, m, a, norm); }
      case Delete(dn, recursive) =>
      case Rename(oldDn, newDn) =>
        RenameOrigin(t, oldDn, newDn, k);
    }
  }

  lemma StepGivesNothing(s: Settings, t: Tree, op: Op, denied: bool, k: Key, a: string, norm: string)
    requires Reserved(s, a, norm) && k in Holders(Step(s, t, op, denied).0, a, norm)
    ensures var o := StepOrigin(s, t, op, denied, k); o.Some? && o.value in Holders(t, a, norm)
  {
    hide Guard, Server, Holders, Reserved, ServerOrigin;
    if Guard(s, t, op) == None && !denied && Server(t, op).Some? {
      ServerGivesNothing(s, t, op, k, a, norm);
    }
  }

  /** Over any run, an object holds a reserved value at the end only if that very object, traced
      back through the renames, held it at the start. */
  lemma {:induction false} RunGivesNothing(s: Settings, t: Tree, ops: seq<(Op, bool)>, k: Key, a: string, norm: string)
    requires Reserved(s, a, norm) && k in Holders(Run(s, t, ops), a, norm)
    ensures var o := RunOrigin(s, t, ops, k); o.Some? && o.value in Holders(t, a, norm)
    decreases |ops|
  {
    hide Reserved, Holders, Step, StepOrigin;
    if ops != [] {
      var next := Step(s, t, ops[0].0, ops[0].1).0;
      RunGivesNothing(s, next, ops[1..], k, a, norm);
      StepGivesNothing(s, t, ops[0].0, ops[0].1, RunOrigin(s, next, ops[1..], k).value, a, norm);
    }
  }

  /** So the holders of a reserved value never become more. */
  lemma HoldersNeverGrow(s: Settings, t: Tree, ops: seq<(Op, bool)>, a: string, norm: string)
    requires Reserved(s, a, norm)
    ensures |Holders(Run(s, t, ops), a, norm)| <= |Holders(t, a, norm)|
  {
    hide Reserved, RunOrigin, HeldBy, Run;
    var after, before := Holders(Run(s, t, ops), a, norm), Holders(t, a, norm);
    forall k | k in after ensures RunOrigin(s, t, ops, k).Some? && RunOrigin(s, t, ops, k).value in before {
      RunGivesNothing(s, t, ops, k, a, norm);
    }
    forall j, k | j in after && k in after && j != k
      ensures RunOrigin(s, t, ops, j) != RunOrigin(s, t, ops, k)
    {
      RunOrigins(s, t, ops, j, k);
    }
    FewerByOrigin(s, t, ops, after, before);
  }

  lemma {:induction false} FewerByOrigin(
    s: Settings, t: Tree, ops: seq<(Op, bool)>, after: set<Key>, before: set<Key>)
    requires forall k :: k in after ==> RunOrigin(s, t, ops, k).Some? && RunOrigin(s, t, ops, k).value in before
    requires forall j, k :: j in after && k in after && j != k ==> RunOrigin(s, t, ops, j) != RunOrigin(s, t, ops, k)
    ensures |after| <= |before|
    decreases |after|
  {
    hide RunOrigin;
    if after != {} {
      var k :| k in after;
      FewerByOrigin(s, t, ops, after - {k}, before - {RunOrigin(s, t, ops, k).value});
    }
  }
}
