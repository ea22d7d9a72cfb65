/** When each kind of write goes through (backend/samadcon/ad/connection.py 259-357). */
module WriteAnswers {
  import opened Text
  import opened WriteGuard
  import opened Directory
  import opened Connection

  /** No configured OU is the object or holds it. */
  ghost predicate Outside(s: Settings, dn: string) {
    forall ou :: ou in s.protectedOus ==> !Within(DnKey(dn), DnKey(ou))
  }

  /** No configured OU lies strictly below the object. */
  ghost predicate NoneBelow(s: Settings, dn: string) {
    forall ou :: ou in s.protectedOus ==> !StrictlyBelow(DnKey(ou), DnKey(dn))
  }

  /** No value written falls under a rule, unless the object has it. */
  ghost predicate NothingNew(s: Settings, elements: seq<Element>, current: Attrs) {
    forall e, v :: e in elements && e.flag != ModDelete && v in e.values ==>
      !IsNewHit(s, e.attr, v, ValuesOf(current, Lower(e.attr)))
  }

  lemma {:induction false} FirstRefusedIff(s: Settings, elements: seq<Element>, current: Attrs)
    ensures FirstRefused(s, elements, current) == None <==> NothingNew(s, elements, current)
  {
    hide IsNewHit, FirstNewHit, Checked, Lower, ValuesOf;
    if elements != [] {
      var e := elements[0];
      var had := ValuesOf(current, Lower(e.attr));
      FirstRefusedIff(s, elements[1..], current);
      FirstNewHitIff(s, e.attr, e.values, had);
      forall v | v in e.values && IsNewHit(s, e.attr, v, had) ensures Checked(Lower(e.attr)) {
        NewHitIsChecked(s, e.attr, v, had);
      }
      assert forall x :: x in elements <==> x == e || x in elements[1..];
    }
  }

  lemma ReservedIff(s: Settings, elements: seq<Element>, current: Attrs)
    ensures RefuseReserved(s, elements, current) == None <==> NothingNew(s, elements, current)
  {
    hide FirstRefused, IsNewHit, Lower, ValuesOf;
    FirstRefusedIff(s, elements, current);
    forall e, v | e in elements && v in e.values && IsNewHit(s, e.attr, v, ValuesOf(current, Lower(e.attr)))
      ensures !(s.prefixes == [] && s.names == [])
    {
      NewHitIsChecked(s, e.attr, v, ValuesOf(current, Lower(e.attr)));
    }
  }

  lemma InsideIff(s: Settings, dn: string, moveIn: bool)
    ensures RefuseInside(s, dn, moveIn) == None <==> Outside(s, dn)
  {
    hide DnKey, Within;
  }

  lemma AboveIff(s: Settings, dn: string)
    ensures RefuseAbove(s, dn) == None <==> NoneBelow(s, dn)
  {
    hide DnKey, Within;
  }

  lemma StepDone(s: Settings, t: Tree, op: Op, denied: bool)
    ensures Step(s, t, op, denied).1 == Done <==> Guard(s, t, op) == None && !denied && Server(t, op).Some?
  {
    hide Server, ProtectingOu, ProtectedBelow, FirstRefused, DnKey;
  }

  /** An object is added exactly outside the protected OUs, without a reserved value, under a free name whose parent
      exists. */
  lemma AddIff(s: Settings, t: Tree, m: Message, denied: bool)
    ensures Step(s, t, Op.Add(m), denied).1 == Done
       <==> !denied && Outside(s, m.dn) && NothingNew(s, m.elements, map[])
            && DnKey(m.dn) != [] && DnKey(m.dn) !in t && DnKey(m.dn)[1..] in t
  {
    hide Step, RefuseInside, RefuseReserved, Outside, NothingNew, Spelling, KeyOf;
    StepDone(s, t, Op.Add(m), denied);
    InsideIff(s, m.dn, false);
    ReservedIff(s, m.elements, map[]);
    KeyIsKeyOf(m.dn);
  }

  /** An object is modified exactly outside the protected OUs, when it exists and gets no reserved value it does not
      have. */
  lemma ModifyIff(s: Settings, t: Tree, m: Message, denied: bool)
    ensures Step(s, t, Op.Modify(m), denied).1 == Done
       <==> !denied && Outside(s, m.dn) && DnKey(m.dn) in t && NothingNew(s, m.elements, t[DnKey(m.dn)].attrs)
  {
    hide Step, RefuseInside, RefuseReserved, Outside, NothingNew, DnKey;
    StepDone(s, t, Op.Modify(m), denied);
    InsideIff(s, m.dn, false);
    ReservedIff(s, m.elements, CurrentAttrs(t, m.dn));
  }

  /** An object is deleted exactly outside the protected OUs and when it exists: alone, when nothing lies below it; with
      its subtree, when no protected OU does. */
  lemma DeleteIff(s: Settings, t: Tree, dn: string, recursive: bool, denied: bool)
    ensures Step(s, t, Op.Delete(dn, recursive), denied).1 == Done
       <==> !denied && Outside(s, dn) && DnKey(dn) in t
            && if recursive then NoneBelow(s, dn) else forall k :: k in t ==> !StrictlyBelow(k, DnKey(dn))
  {
    hide Step, RefuseInside, RefuseAbove, Outside, NoneBelow, DnKey, Within, StrictlyBelow;
    StepDone(s, t, Op.Delete(dn, recursive), denied);
    InsideIff(s, dn, false);
    AboveIff(s, dn);
  }

  /** An object is renamed exactly when neither its old nor its new place is in a protected OU and none lies below it,
      the new name is free or its own, and the new parent exists outside the subtree. */
  lemma RenameIff(s: Settings, t: Tree, oldDn: string, newDn: string, denied: bool)
    ensures var old', new' := DnKey(oldDn), DnKey(newDn);
            Step(s, t, Op.Rename(oldDn, newDn), denied).1 == Done
            <==> !denied && Outside(s, oldDn) && Outside(s, newDn) && NoneBelow(s, oldDn)
                 && old' in t && new' != [] && (new' == old' || new' !in t) && new'[1..] in t && !Within(new'[1..], old')
  {
    hide Step, RefuseInside, RefuseAbove, Outside, NoneBelow, DnKey, Within, Spelling, KeyOf, AfterRename;
    StepDone(s, t, Op.Rename(oldDn, newDn), denied);
    InsideIff(s, oldDn, false);
    InsideIff(s, newDn, true);
    AboveIff(s, oldDn);
    KeyIsKeyOf(newDn);
  }
}
