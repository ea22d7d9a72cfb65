/** Every write to the directory, and what is refused before it is made
    (backend/samadcon/ad/connection.py). */
module Connection {
  import opened Text
  import opened WriteGuard
  import opened Directory
  import opened AttributeEdits

  datatype Settings = Settings(protectedOus: seq<string>, prefixes: seq<string>, names: seq<string>)

  datatype Outcome =
    | Done
    | RefusedInside(ou: string)
    | RefusedMoveIn(ou: string)
    | RefusedAncestor(ou: string)
    | RefusedReserved(attribute: string, value: string, hit: Hit)
    | ServerError
    | NotFound

  // --- The guards -------------------------------------------------------------------

  /** The first value of *given* that falls under a rule and is not one the object had. */
  function FirstNewHit(s: Settings, attribute: string, given: seq<string>, had: seq<string>): (r: Option<Outcome>)
    ensures r.Some? ==> r.value.RefusedReserved?
  {
    if given == [] then None
    else
      var hit := ReservedHit(attribute, given[0], s.prefixes, s.names);
      if hit.Some? && Norm(given[0]) !in Norms(had) then Some(RefusedReserved(attribute, given[0], hit.value))
      else FirstNewHit(s, attribute, given[1..], had)
  }

  function Norms(values: seq<string>): (r: seq<string>)
    ensures forall n :: n in r <==> exists v :: v in values && Norm(v) == n
  {
    hide Norm;
    if values == [] then []
    else
      var rest := Norms(values[1..]);
      assert forall v :: v in values <==> v == values[0] || v in values[1..];
      [Norm(values[0])] + rest
  }

  function HitsOf(s: Settings, attribute: string, given: seq<string>): seq<(string, Hit)> {
    if given == [] then []
    else
      var hit := ReservedHit(attribute, given[0], s.prefixes, s.names);
      (if hit.Some? then [(given[0], hit.value)] else []) + HitsOf(s, attribute, given[1..])
  }

  function NotHad(hits: seq<(string, Hit)>, had: seq<string>): seq<(string, Hit)> {
    if hits == [] then []
    else (if Norm(hits[0].0) in Norms(had) then [] else [hits[0]]) + NotHad(hits[1..], had)
  }

  lemma {:induction false} NothingHad(hits: seq<(string, Hit)>)
    ensures NotHad(hits, []) == hits
  {
    if hits != [] {
      NothingHad(hits[1..]);
    }
  }

  lemma NoHits(had: seq<string>)
    ensures NotHad([], had) == []
  {
  }

  lemma RefusedFrom(s: Settings, elements: seq<Element>, current: Attrs, i: nat)
    requires i < |elements|
    ensures var e := elements[i];
            var refused :=
              if !Checked(Lower(e.attr)) || e.flag == ModDelete then None
              else FirstNewHit(s, e.attr, e.values, ValuesOf(current, Lower(e.attr)));
            FirstRefused(s, elements[i..], current)
            == if refused.Some? then refused else FirstRefused(s, elements[i + 1..], current)
  {
    hide FirstNewHit, Checked;
    assert elements[i..][1..] == elements[i + 1..];
  }

  lemma RefusedEnd(s: Settings, elements: seq<Element>, current: Attrs)
    ensures FirstRefused(s, elements[|elements|..], current) == None
  {
  }

  /** All hits first and the values the object had afterwards: the same first new hit. */
  lemma {:induction false} FirstOfHits(s: Settings, attribute: string, given: seq<string>, had: seq<string>)
    ensures var hits := NotHad(HitsOf(s, attribute, given), had);
            FirstNewHit(s, attribute, given, had)
            == if hits == [] then None else Some(RefusedReserved(attribute, hits[0].0, hits[0].1))
  {
    hide ReservedHit, Norm, Norms;
    if given != [] {
      FirstOfHits(s, attribute, given[1..], had);
      var hit := ReservedHit(attribute, given[0], s.prefixes, s.names);
      var rest := HitsOf(s, attribute, given[1..]);
      if hit.Some? {
        assert ([(given[0], hit.value)] + rest)[1..] == rest;
      } else {
        assert [] + rest == rest;
      }
    }
  }

  function RefuseReserved(s: Settings, elements: seq<Element>, current: Attrs): (r: Option<Outcome>)
    ensures r.Some? ==> r.value.RefusedReserved?
  {
    if s.prefixes == [] && s.names == [] then None
    else FirstRefused(s, elements, current)
  }

  function FirstRefused(s: Settings, elements: seq<Element>, current: Attrs): (r: Option<Outcome>)
    ensures r.Some? ==> r.value.RefusedReserved?
  {
    if elements == [] then None
    else
      var e := elements[0];
      var refused :=
        if !Checked(Lower(e.attr)) || e.flag == ModDelete then None
        else FirstNewHit(s, e.attr, e.values, ValuesOf(current, Lower(e.attr)));
      if refused.Some? then refused else FirstRefused(s, elements[1..], current)
  }

  function CurrentAttrs(t: Tree, dn: string): Attrs {
    var key := DnKey(dn);
    if key in t then t[key].attrs else map[]
  }

  // --- One write -----------------------------------------------------------------------

  datatype Op =
    | Add(m: Message)
    | Modify(m: Message)
    | Delete(dn: string, recursive: bool)
    | Rename(oldDn: string, newDn: string)

  function RefuseInside(s: Settings, dn: string, moveIn: bool): Option<Outcome> {
    match ProtectingOu(dn, s.protectedOus)
    case None => None
    case Some(ou) => Some(if moveIn then RefusedMoveIn(ou) else RefusedInside(ou))
  }

  function RefuseAbove(s: Settings, dn: string): Option<Outcome> {
    match ProtectedBelow(dn, s.protectedOus) case None => None case Some(ou) => Some(RefusedAncestor(ou))
  }

  /** What the guards say to a write; None lets it through. */
  function Guard(s: Settings, t: Tree, op: Op): Option<Outcome> {
    match op
    case Add(m) =>
      var inside := RefuseInside(s, m.dn, false);
      if inside.Some? then inside else RefuseReserved(s, m.elements, map[])
    case Modify(m) =>
      var inside := RefuseInside(s, m.dn, false);
      if inside.Some? then inside else RefuseReserved(s, m.elements, CurrentAttrs(t, m.dn))
    case Delete(dn, recursive) =>
      var inside := RefuseInside(s, dn, false);
      if inside.Some? || !recursive then inside else RefuseAbove(s, dn)
    case Rename(oldDn, newDn) =>
      var inside := RefuseInside(s, oldDn, false);
      if inside.Some? then inside
      else
        var target := RefuseInside(s, newDn, true);
        if target.Some? then target else RefuseAbove(s, oldDn)
  }

  function Server(t: Tree, op: Op): Option<Tree> {
    match op
    case Add(m) => ServerAdd(t, m)
    case Modify(m) => ServerModify(t, m)
    case Delete(dn, recursive) => ServerDelete(t, dn, recursive)
    case Rename(oldDn, newDn) => ServerRename(t, oldDn, newDn)
  }

  /** One write through the connection. The server may also refuse it for reasons of its
      own (rights, schema, size limits): *denied*. */
  function Step(s: Settings, t: Tree, op: Op, denied: bool): (r: (Tree, Outcome)) {
    var refused := Guard(s, t, op);
    if refused.Some? then (t, refused.value)
    else
      var after := Server(t, op);
      if denied || after == None then (t, ServerError) else (after.value, Done)
  }

  function Run(s: Settings, t: Tree, ops: seq<(Op, bool)>): Tree
    decreases |ops|
  {
    if ops == [] then t else Run(s, Step(s, t, ops[0].0, ops[0].1).0, ops[1..])
  }

  datatype Edited = Edited(report: Report) | Failed(why: Outcome)

  /** One attribute edit: a write is made only when something changes. */
  function EditStep(s: Settings, t: Tree, dn: string, changes: Changes, denied: bool): (Tree, Edited) {
    if DnKey(dn) !in t then (t, Failed(NotFound))
    else
      var attrs := CurrentAttrs(t, dn);
      var report := ReportOf(attrs, changes);
      if report == [] then (t, Edited([]))
      else
        var (t', r) := Step(s, t, Op.Modify(Message(dn, Plan(attrs, changes))), denied);
        (t', if r == Done then Edited(report) else Failed(r))
  }

  // --- The connection object -------------------------------------------------------------

  class DirectoryConnection {
    var samdb: Tree
    const settings: Settings

    constructor (samdb: Tree, settings: Settings)
      ensures this.samdb == samdb && this.settings == settings
    {
      this.samdb := samdb;
      this.settings := settings;
    }

    method RefuseProtected(dn: string, moveIn: bool) returns (r: Option<Outcome>)
      ensures r == RefuseInside(settings, dn, moveIn)
    {
      var ou := ProtectingOu(dn, settings.protectedOus);
      if ou.Some? {
        return Some(if moveIn then RefusedMoveIn(ou.value) else RefusedInside(ou.value));
      }
      return None;
    }

    method RefuseProtectedBelow(dn: string) returns (r: Option<Outcome>)
      ensures r == RefuseAbove(settings, dn)
    {
      var ou := ProtectedBelow(dn, settings.protectedOus);
      if ou.Some? {
        return Some(RefusedAncestor(ou.value));
      }
      return None;
    }

    method CheckReserved(m: Message, existing: bool) returns (r: Option<Outcome>)
      ensures r == RefuseReserved(settings, m.elements,
                                  if existing then CurrentAttrs(samdb, m.dn) else map[])
    {
      hide FirstRefused, HitsOf, NotHad, FirstNewHit, CurrentAttrs, Checked;
      if settings.prefixes == [] && settings.names == [] {
        return None;
      }
      ghost var current := if existing then CurrentAttrs(samdb, m.dn) else map[];
      assert m.elements[0..] == m.elements;
      RefusedEnd(settings, m.elements, current);
      for i := 0 to |m.elements|
        invariant FirstRefused(settings, m.elements, current) == FirstRefused(settings, m.elements[i..], current)
      {
        RefusedFrom(settings, m.elements, current, i);
        var e := m.elements[i];
        if !Checked(Lower(e.attr)) || e.flag == ModDelete {
          continue;
        }
        var hits := HitsOf(settings, e.attr, e.values);
        FirstOfHits(settings, e.attr, e.values, ValuesOf(current, Lower(e.attr)));
        if hits == [] {
          NoHits(ValuesOf(current, Lower(e.attr)));
          continue;
        }
        if existing {
          hits := NotHad(hits, ValuesOf(CurrentAttrs(samdb, m.dn), Lower(e.attr)));
        } else {
          NothingHad(hits);
        }
        if hits != [] {
          return Some(RefusedReserved(e.attr, hits[0].0, hits[0].1));
        }
      }
      return None;
    }

    method Write(after: Option<Tree>, denied: bool) returns (r: Outcome)
      modifies this`samdb
      ensures if denied || after == None then samdb == old(samdb) && r == ServerError
              else samdb == after.value && r == Done
    {
      if denied || after == None {
        return ServerError;
      }
      samdb := after.value;
      return Done;
    }

    method Add(m: Message, denied: bool) returns (r: Outcome)
      modifies this`samdb
      ensures (samdb, r) == Step(settings, old(samdb), Op.Add(m), denied)
    {
      hide ServerAdd, ServerModify, ServerDelete, ServerRename, RefuseInside, RefuseAbove, RefuseReserved;
      var refused := RefuseProtected(m.dn, false);
      if refused.Some? { return refused.value; }
      refused := CheckReserved(m, false);
      if refused.Some? { return refused.value; }
      r := Write(ServerAdd(samdb, m), denied);
    }

    method Modify(m: Message, denied: bool) returns (r: Outcome)
      modifies this`samdb
      ensures (samdb, r) == Step(settings, old(samdb), Op.Modify(m), denied)
    {
      hide ServerAdd, ServerModify, ServerDelete, ServerRename, RefuseInside, RefuseAbove, RefuseReserved;
      var refused := RefuseProtected(m.dn, false);
      if refused.Some? { return refused.value; }
      refused := CheckReserved(m, true);
      if refused.Some? { return refused.value; }
      r := Write(ServerModify(samdb, m), denied);
    }

    method Delete(dn: string, recursive: bool, denied: bool) returns (r: Outcome)
      modifies this`samdb
      ensures (samdb, r) == Step(settings, old(samdb), Op.Delete(dn, recursive), denied)
    {
      hide ServerAdd, ServerModify, ServerDelete, ServerRename, RefuseInside, RefuseAbove, RefuseReserved;
      var refused := RefuseProtected(dn, false);
      if refused.Some? { return refused.value; }
      if recursive {
        refused := RefuseProtectedBelow(dn);
        if refused.Some? { return refused.value; }
      }
      r := Write(ServerDelete(samdb, dn, recursive), denied);
    }

    method Rename(oldDn: string, newDn: string, denied: bool) returns (r: Outcome)
      modifies this`samdb
      ensures (samdb, r) == Step(settings, old(samdb), Op.Rename(oldDn, newDn), denied)
    {
      hide ServerRename, RefuseInside, RefuseAbove;
      var refused := RefuseProtected(oldDn, false);
      if refused.Some? { return refused.value; }
      refused := RefuseProtected(newDn, true);
      if refused.Some? { return refused.value; }
      refused := RefuseProtectedBelow(oldDn);
      if refused.Some? { return refused.value; }
      r := Write(ServerRename(samdb, oldDn, newDn), denied);
    }

    method ModifyAttributes(dn: string, changes: Changes, denied: bool) returns (r: Edited)
      modifies this`samdb
      ensures (samdb, r) == EditStep(settings, old(samdb), dn, changes, denied)
    {
      hide DnKey, Plan, ReportOf, Step;
      if DnKey(dn) !in samdb {
        return Failed(NotFound);
      }
      var message, applied := PlanChanges(CurrentAttrs(samdb, dn), changes);
      if applied == [] {
        return Edited([]);
      }
      var outcome := Modify(Message(dn, message), denied);
      return if outcome == Done then Edited(applied) else Failed(outcome);
    }
  }

  // --- Safety over runs: protected OUs ------------------------------------------------------

  predicate Protected(s: Settings, k: Key) {
    exists ou :: ou in s.protectedOus && Within(k, DnKey(ou))
  }

  /** Every protected OU exists. */
  ghost predicate OusExist(s: Settings, t: Tree) {
    forall ou :: ou in s.protectedOus ==> DnKey(ou) in t
  }

  /** The same objects at or below the protected OUs, with the same names and attributes. */
  ghost predicate SameProtected(s: Settings, t: Tree, t': Tree) {
    forall k :: Protected(s, k) ==> (k in t <==> k in t') && (k in t ==> t[k] == t'[k])
  }

  /** A key that is neither in a protected OU nor above it has nothing of the OU below it. */
  lemma KeyMisses(k: Key, ou: Key, key: Key)
    requires Within(k, ou) && !Within(key, ou) && !StrictlyBelow(ou, key)
    ensures !Within(k, key)
  {
    if Within(k, key) {
      if |key| >= |ou| {
        AncestorsOrdered(k, ou, key);
      } else {
        AncestorsOrdered(k, key, ou);
      }
    }
  }

  predicate Clear(s: Settings, key: Key) {
    forall ou :: ou in s.protectedOus ==> !Within(key, DnKey(ou)) && !StrictlyBelow(DnKey(ou), key)
  }

  lemma ClearMisses(s: Settings, k: Key, key: Key)
    requires Protected(s, k) && Clear(s, key)
    ensures !Within(k, key)
  {
    hide DnKey;
    var ou :| ou in s.protectedOus && Within(k, DnKey(ou));
    KeyMisses(k, DnKey(ou), key);
  }

  lemma DeleteIsClear(s: Settings, t: Tree, dn: string, recursive: bool)
    requires OusExist(s, t) && Guard(s, t, Op.Delete(dn, recursive)) == None
    requires ServerDelete(t, dn, recursive).Some?
    ensures Clear(s, DnKey(dn))
  {
    hide DnKey;
    forall ou | ou in s.protectedOus
      ensures !Within(DnKey(dn), DnKey(ou)) && !StrictlyBelow(DnKey(ou), DnKey(dn))
    {
      assert DnKey(ou) in t;
    }
  }

  lemma DeleteKeepsProtected(s: Settings, t: Tree, dn: string, recursive: bool)
    requires OusExist(s, t)
    requires Guard(s, t, Op.Delete(dn, recursive)) == None && ServerDelete(t, dn, recursive).Some?
    ensures SameProtected(s, t, ServerDelete(t, dn, recursive).value)
  {
    hide DnKey, Protected, Clear;
    DeleteIsClear(s, t, dn, recursive);
    forall k | Protected(s, k) ensures !Within(k, DnKey(dn)) {
      ClearMisses(s, k, DnKey(dn));
    }
  }

  lemma RenameGuard(s: Settings, t: Tree, oldDn: string, newDn: string)
    requires Guard(s, t, Op.Rename(oldDn, newDn)) == None
    ensures forall ou :: ou in s.protectedOus ==>
              && !Within(DnKey(oldDn), DnKey(ou)) && !Within(DnKey(newDn), DnKey(ou))
              && !StrictlyBelow(DnKey(ou), DnKey(oldDn))
  {
    hide DnKey;
  }

  lemma RenameIsClear(s: Settings, t: Tree, oldDn: string, newDn: string)
    requires WellFormed(t) && OusExist(s, t) && CanRename(t, DnKey(oldDn), DnKey(newDn))
    requires Guard(s, t, Op.Rename(oldDn, newDn)) == None
    ensures Clear(s, DnKey(oldDn)) && Clear(s, DnKey(newDn))
  {
    hide DnKey, Guard, Within;
    RenameGuard(s, t, oldDn, newDn);
    if DnKey(newDn) != DnKey(oldDn) {
      NothingBelowFree(t, DnKey(newDn));
    }
  }

  /** A subtree that may be moved holds nothing of a protected OU, and never lands on one:
      not in it, and not on the name of a container above it. */
  lemma RenameKeepsProtected(s: Settings, t: Tree, oldDn: string, newDn: string)
    requires WellFormed(t) && OusExist(s, t)
    requires Guard(s, t, Op.Rename(oldDn, newDn)) == None && ServerRename(t, oldDn, newDn).Some?
    ensures SameProtected(s, t, ServerRename(t, oldDn, newDn).value)
  {
    hide DnKey, KeyOf, Spelling, Protected, Clear;
    var old', newName := DnKey(oldDn), Spelling(newDn);
    KeyIsKeyOf(newDn);
    RenameIsClear(s, t, oldDn, newDn);
    forall k | Protected(s, k)
      ensures (k in t <==> k in AfterRename(t, old', newName))
           && (k in t ==> t[k] == AfterRename(t, old', newName)[k])
    {
      ClearMisses(s, k, old');
      ClearMisses(s, k, KeyOf(newName));
      RenamedPlaces(t, old', newName, k);
    }
  }

  lemma AddKeepsProtected(s: Settings, t: Tree, m: Message)
    requires Guard(s, t, Op.Add(m)) == None && ServerAdd(t, m).Some?
    ensures SameProtected(s, t, ServerAdd(t, m).value)
  {
    hide DnKey, Spelling, KeyOf, RefuseReserved, Within;
    KeyIsKeyOf(m.dn);
    assert !Protected(s, DnKey(m.dn));
  }

  lemma ModifyKeepsProtected(s: Settings, t: Tree, m: Message)
    requires Guard(s, t, Op.Modify(m)) == None && ServerModify(t, m).Some?
    ensures SameProtected(s, t, ServerModify(t, m).value)
  {
    hide DnKey, RefuseReserved, CurrentAttrs, Within;
    assert !Protected(s, DnKey(m.dn));
  }

  lemma ServerKeepsProtected(s: Settings, t: Tree, op: Op)
    requires WellFormed(t) && OusExist(s, t) && Guard(s, t, op) == None && Server(t, op).Some?
    ensures SameProtected(s, t, Server(t, op).value) && WellFormed(Server(t, op).value)
  {
    hide DnKey, Spelling, KeyOf, WellFormed, SameProtected, OusExist, Guard, ServerAdd, ServerModify, ServerDelete,
      ServerRename;
    match op {
      case Add(m) =>
        AddKeeps(t, m);
        AddKeepsProtected(s, t, m);
      case Modify(m) =>
        ModifyKeeps(t, m);
        ModifyKeepsProtected(s, t, m);
      case Delete(dn, recursive) =>
        DeleteKeeps(t, dn, recursive);
        DeleteKeepsProtected(s, t, dn, recursive);
      case Rename(oldDn, newDn) =>
        RenameKeeps(t, oldDn, newDn);
        RenameKeepsProtected(s, t, oldDn, newDn);
    }
  }

  lemma StepKeepsProtected(s: Settings, t: Tree, op: Op, denied: bool)
    requires WellFormed(t) && OusExist(s, t)
    ensures var t' := Step(s, t, op, denied).0;
            SameProtected(s, t, t') && WellFormed(t') && OusExist(s, t')
  {
    hide DnKey, Guard, Server, WellFormed, Within;
    var t' := Step(s, t, op, denied).0;
    if Guard(s, t, op) == None && !denied && Server(t, op).Some? {
      ServerKeepsProtected(s, t, op);
    }
    forall ou | ou in s.protectedOus ensures DnKey(ou) in t' {
      WithinItself(DnKey(ou));
      assert Protected(s, DnKey(ou));
    }
  }

  lemma WithinItself(k: Key)
    ensures Within(k, k)
  {
  }

  lemma KeyIsKeyOf(dn: string)
    ensures DnKey(dn) == KeyOf(Spelling(dn))
  {
  }

  lemma SameProtectedTransitive(s: Settings, a: Tree, b: Tree, c: Tree)
    ensures SameProtected(s, a, a)
    ensures SameProtected(s, a, b) && SameProtected(s, b, c) ==> SameProtected(s, a, c)
  {
    hide Protected;
  }

  /** Over any run of writes, whatever the server refuses on top, every object at or below
      a protected OU keeps its name and its attributes, none leaves and none appears. */
  lemma {:induction false} RunKeepsProtected(s: Settings, t: Tree, ops: seq<(Op, bool)>)
    requires WellFormed(t) && OusExist(s, t)
    ensures SameProtected(s, t, Run(s, t, ops)) && WellFormed(Run(s, t, ops))
    decreases |ops|
  {
    hide Step, SameProtected, WellFormed, OusExist;
    if ops == [] {
      SameProtectedTransitive(s, t, t, t);
    } else {
      var next := Step(s, t, ops[0].0, ops[0].1).0;
      StepKeepsProtected(s, t, ops[0].0, ops[0].1);
      RunKeepsProtected(s, next, ops[1..]);
      SameProtectedTransitive(s, t, next, Run(s, next, ops[1..]));
    }
  }

  // --- Attribute edits ------------------------------------------------------------------------

  lemma EditDone(s: Settings, t: Tree, dn: string, changes: Changes)
    requires EditStep(s, t, dn, changes, false).1.Edited?
    ensures var attrs := CurrentAttrs(t, dn);
            && DnKey(dn) in t && EditStep(s, t, dn, changes, false).1.report == ReportOf(attrs, changes)
            && EditStep(s, t, dn, changes, false).0
            == if ReportOf(attrs, changes) == [] then t
               else t[DnKey(dn) := t[DnKey(dn)].(attrs := ApplyElements(attrs, Plan(attrs, changes)))]
  {
    hide DnKey, Plan, ReportOf, ProtectingOu, RefuseReserved;
  }

  lemma {:induction false} NoReportNoPlan(attrs: Attrs, changes: Changes)
    ensures ReportOf(attrs, changes) == [] <==> Plan(attrs, changes) == []
  {
    if changes != [] {
      NoReportNoPlan(attrs, changes[1..]);
    }
  }

  /** An edit touches one object, and on it exactly the attributes it reports. */
  lemma EditChangesWhatItReports(s: Settings, t: Tree, dn: string, changes: Changes)
    requires forall k :: k in t ==> NonEmpty(t[k].attrs)
    requires Distinct(changes)
    requires EditStep(s, t, dn, changes, false).1.Edited?
    ensures var (t', r) := EditStep(s, t, dn, changes, false);
            && t'.Keys == t.Keys && DnKey(dn) in t
            && (forall k :: k in t && k != DnKey(dn) ==> t'[k] == t[k])
            && t'[DnKey(dn)].name == t[DnKey(dn)].name
            && forall a :: ChangeFor(r.report, a).Some? <==>
                             ValuesOf(t'[DnKey(dn)].attrs, a) != ValuesOf(t[DnKey(dn)].attrs, a)
  {
    hide DnKey, Plan, ReportOf, EditStep, ApplyElements, Wire, Shown;
    EditDone(s, t, dn, changes);
    var (t', r) := EditStep(s, t, dn, changes, false);
    var attrs := t[DnKey(dn)].attrs;
    NoReportNoPlan(attrs, changes);
    EmptyPlan(attrs);
    forall a ensures ChangeFor(r.report, a).Some? <==> ValuesOf(t'[DnKey(dn)].attrs, a) != ValuesOf(attrs, a) {
      PlanEffect(attrs, attrs, changes, a);
      ReportSays(attrs, changes, a);
    }
  }

  lemma EmptyPlan(attrs: Attrs)
    ensures ApplyElements(attrs, []) == attrs
  {
  }

  /** The same edit a second time writes nothing and reports nothing. */
  lemma EditTwice(s: Settings, t: Tree, dn: string, changes: Changes, denied: bool)
    requires forall k :: k in t ==> NonEmpty(t[k].attrs)
    requires Distinct(changes)
    requires EditStep(s, t, dn, changes, false).1.Edited?
    ensures var t' := EditStep(s, t, dn, changes, false).0;
            EditStep(s, t', dn, changes, denied) == (t', Edited([]))
  {
    hide DnKey, Plan, ReportOf, ApplyElements, Step;
    EditDone(s, t, dn, changes);
    SecondEditIsEmpty(t[DnKey(dn)].attrs, changes);
    NoReportNoPlan(t[DnKey(dn)].attrs, changes);
    EmptyPlan(t[DnKey(dn)].attrs);
  }

  // --- Undoing an edit ------------------------------------------------------------------------

  /** A value that falls under a rule and is not one the object has. */
  predicate IsNewHit(s: Settings, attribute: string, v: string, had: seq<string>) {
    ReservedHit(attribute, v, s.prefixes, s.names).Some? && Norm(v) !in Norms(had)
  }

  lemma {:induction false} FirstNewHitIff(s: Settings, attribute: string, given: seq<string>, had: seq<string>)
    ensures FirstNewHit(s, attribute, given, had) != None <==> exists v :: v in given && IsNewHit(s, attribute, v, had)
  {
    hide ReservedHit, Norm, Norms;
    if given != [] {
      FirstNewHitIff(s, attribute, given[1..], had);
      assert forall v :: v in given <==> v == given[0] || v in given[1..];
      assert IsNewHit(s, attribute, given[0], had) ==> given[0] in given;
    }
  }

  /** Whether the changes give the object a reserved value it does not have. */
  predicate GivesNew(s: Settings, attrs: Attrs, changes: Changes) {
    exists c, v :: c in changes && v in Wire(c.1) && IsNewHit(s, c.0, v, ValuesOf(attrs, Lower(c.0)))
  }

  lemma GivesNewCons(s: Settings, attrs: Attrs, c: (string, Change), rest: Changes)
    ensures GivesNew(s, attrs, [c] + rest)
       <==> (exists v :: v in Wire(c.1) && IsNewHit(s, c.0, v, ValuesOf(attrs, Lower(c.0)))) || GivesNew(s, attrs, rest)
  {
    hide IsNewHit, Wire, Lower, ValuesOf;
    var all := [c] + rest;
    assert c in all && forall d :: d in all <==> d == c || d in rest;
  }

  lemma NoneGiven(s: Settings, attrs: Attrs)
    ensures !GivesNew(s, attrs, [])
  {
  }

  lemma NormIn(v: string, values: seq<string>)
    requires v in values
    ensures Norm(v) in Norms(values)
  {
  }

  lemma NewHitIsChecked(s: Settings, attribute: string, v: string, had: seq<string>)
    requires IsNewHit(s, attribute, v, had)
    ensures Checked(Lower(attribute)) && !(s.prefixes == [] && s.names == [])
  {
    hide Norm, Norms;
  }

  /** One planned element is refused exactly when its change gives a new reserved value. */
  lemma PlanOneRefused(s: Settings, attrs: Attrs, attr: string, c: Change)
    ensures FirstRefused(s, PlanOne(attrs, attr, c), attrs) != None
       <==> exists v :: v in Wire(c) && IsNewHit(s, attr, v, ValuesOf(attrs, Lower(attr)))
  {
    hide IsNewHit, Lower, ValuesOf, Checked, FirstNewHit;
    var had, plan := ValuesOf(attrs, Lower(attr)), PlanOne(attrs, attr, c);
    FirstNewHitIff(s, attr, Wire(c), had);
    forall v | v in Wire(c) && IsNewHit(s, attr, v, had) ensures Wire(c) != had && Checked(Lower(attr)) {
      NewHitIsChecked(s, attr, v, had);
      NewHitIsNew(s, attr, v, had);
    }
    if plan != [] {
      assert plan[1..] == [] && FirstRefused(s, plan[1..], attrs) == None;
    }
  }

  lemma NewHitIsNew(s: Settings, attribute: string, v: string, had: seq<string>)
    requires IsNewHit(s, attribute, v, had)
    ensures v !in had
  {
    hide ReservedHit, Norm, Norms;
    if v in had {
      NormIn(v, had);
    }
  }

  lemma RefusedAppend(s: Settings, a: seq<Element>, b: seq<Element>, current: Attrs)
    requires |a| <= 1
    ensures FirstRefused(s, a + b, current)
         == if FirstRefused(s, a, current) != None then FirstRefused(s, a, current) else FirstRefused(s, b, current)
  {
    hide FirstNewHit, Checked, Lower, ValuesOf;
    if a == [] {
      assert a + b == b;
    } else {
      assert (a + b)[1..] == b && a[1..] == [];
    }
  }

  lemma {:induction false} PlanRefused(s: Settings, attrs: Attrs, changes: Changes)
    ensures FirstRefused(s, Plan(attrs, changes), attrs) != None <==> GivesNew(s, attrs, changes)
  {
    hide GivesNew, PlanOne, FirstRefused, IsNewHit, Wire, Lower, ValuesOf;
    if changes == [] {
      NoneGiven(s, attrs);
      RefusedEnd(s, [], attrs);
      assert Plan(attrs, changes) == [][0..];
    } else {
      var (attr, c) := changes[0];
      PlanRefused(s, attrs, changes[1..]);
      PlanOneRefused(s, attrs, attr, c);
      PlanOneShort(attrs, attr, c);
      RefusedAppend(s, PlanOne(attrs, attr, c), Plan(attrs, changes[1..]), attrs);
      GivesNewCons(s, attrs, (attr, c), changes[1..]);
      assert changes == [(attr, c)] + changes[1..];
    }
  }

  lemma PlanOneShort(attrs: Attrs, attr: string, c: Change)
    ensures |PlanOne(attrs, attr, c)| <= 1
  {
  }

  /** Without a rule nothing is new, so the guard's shortcut changes nothing. */
  lemma RefuseReservedIff(s: Settings, attrs: Attrs, changes: Changes)
    ensures RefuseReserved(s, Plan(attrs, changes), attrs) != None <==> GivesNew(s, attrs, changes)
  {
    hide FirstRefused, Plan, IsNewHit, Wire, Lower, ValuesOf;
    PlanRefused(s, attrs, changes);
    forall c, v | c in changes && v in Wire(c.1) && IsNewHit(s, c.0, v, ValuesOf(attrs, Lower(c.0)))
      ensures !(s.prefixes == [] && s.names == [])
    {
      NewHitIsChecked(s, c.0, v, ValuesOf(attrs, Lower(c.0)));
    }
  }

  /** An edit of an existing object is made exactly when it changes nothing, or the object is
      not protected and gets no reserved value it does not have. */
  lemma EditedIff(s: Settings, t: Tree, dn: string, changes: Changes)
    ensures EditStep(s, t, dn, changes, false).1.Edited?
       <==> DnKey(dn) in t
            && (ReportOf(CurrentAttrs(t, dn), changes) == []
                || (RefuseInside(s, dn, false) == None && !GivesNew(s, CurrentAttrs(t, dn), changes)))
  {
    hide DnKey, Plan, ReportOf, ApplyElements, GivesNew, RefuseReserved, ProtectingOu;
    RefuseReservedIff(s, CurrentAttrs(t, dn), changes);
  }

  /** Writing an old value back would give a reserved value that the edit took away. */
  predicate UndoRefused(s: Settings, attrs: Attrs, changes: Changes) {
    exists c, v :: c in changes && v in Wire(Shown(ValuesOf(attrs, Lower(c.0)))) && IsNewHit(s, c.0, v, Wire(c.1))
  }

  lemma UndoRefusedCons(s: Settings, attrs: Attrs, c: (string, Change), rest: Changes)
    ensures UndoRefused(s, attrs, [c] + rest)
       <==> (exists v :: v in Wire(Shown(ValuesOf(attrs, Lower(c.0)))) && IsNewHit(s, c.0, v, Wire(c.1)))
            || UndoRefused(s, attrs, rest)
  {
    hide IsNewHit, Wire, Shown, Lower, ValuesOf;
    var all := [c] + rest;
    assert c in all && forall d :: d in all <==> d == c || d in rest;
  }

  /** An unchanged attribute is not reported, and writing it back would give nothing new. */
  lemma UnchangedNotRefused(s: Settings, attrs: Attrs, attr: string, c: Change, v: string)
    requires ReportOne(attrs, attr, c) == [] && v in Wire(Shown(ValuesOf(attrs, Lower(attr))))
    ensures !IsNewHit(s, attr, v, Wire(c))
  {
    hide IsNewHit, Lower, ValuesOf;
    if IsNewHit(s, attr, v, Wire(c)) {
      NewHitIsNew(s, attr, v, Wire(c));
    }
  }

  /** The undo gives a new reserved value to the edited object exactly when `UndoRefused` says so. */
  lemma {:induction false} UndoGivesNew(s: Settings, attrs: Attrs, done: Attrs, changes: Changes)
    requires forall i :: 0 <= i < |changes| ==> ValuesOf(done, Lower(changes[i].0)) == Wire(changes[i].1)
    ensures GivesNew(s, done, UndoOf(ReportOf(attrs, changes))) <==> UndoRefused(s, attrs, changes)
    decreases |changes|
  {
    hide GivesNew, UndoRefused, IsNewHit, Wire, Shown, Lower, ValuesOf, ReportOne;
    if changes == [] {
      NoneGiven(s, done);
      NoneToUndo(s, attrs);
    } else {
      var (attr, c) := changes[0];
      var rest := ReportOf(attrs, changes[1..]);
      assert forall i :: 0 <= i < |changes[1..]| ==> changes[1..][i] == changes[i + 1];
      UndoGivesNew(s, attrs, done, changes[1..]);
      UndoRefusedCons(s, attrs, (attr, c), changes[1..]);
      assert changes == [(attr, c)] + changes[1..];
      UndoOfOne(attrs, attr, c, rest);
      if ReportOne(attrs, attr, c) == [] {
        assert [] + UndoOf(rest) == UndoOf(rest);
        forall v | v in Wire(Shown(ValuesOf(attrs, Lower(attr)))) ensures !IsNewHit(s, attr, v, Wire(c)) {
          UnchangedNotRefused(s, attrs, attr, c, v);
        }
      } else {
        GivesNewCons(s, done, (attr, Shown(ValuesOf(attrs, Lower(attr)))), UndoOf(rest));
      }
    }
  }

  lemma NoneToUndo(s: Settings, attrs: Attrs)
    ensures UndoOf(ReportOf(attrs, [])) == [] && !UndoRefused(s, attrs, [])
  {
  }

  lemma UndoOfOne(attrs: Attrs, attr: string, c: Change, rest: Report)
    ensures UndoOf(ReportOne(attrs, attr, c) + rest)
         == (if ReportOne(attrs, attr, c) == [] then [] else [(attr, Shown(ValuesOf(attrs, Lower(attr))))])
            + UndoOf(rest)
  {
    hide Lower, ValuesOf, Shown, Wire;
    var one := ReportOne(attrs, attr, c);
    if one == [] {
      assert one + rest == rest && [] + UndoOf(rest) == UndoOf(rest);
    } else {
      assert (one + rest)[1..] == rest;
    }
  }

  /** The undo call goes through exactly when it gives no reserved value back that the edit
      took away. */
  lemma UndoEditedIff(s: Settings, t: Tree, dn: string, changes: Changes)
    requires forall k :: k in t ==> NonEmpty(t[k].attrs)
    requires Distinct(changes)
    requires EditStep(s, t, dn, changes, false).1.Edited?
    ensures var (t', r) := EditStep(s, t, dn, changes, false);
            EditStep(s, t', dn, UndoOf(r.report), false).1.Edited?
            <==> !UndoRefused(s, CurrentAttrs(t, dn), changes)
  {
    hide DnKey, Plan, ReportOf, UndoOf, ApplyElements, EditStep, GivesNew, UndoRefused, RefuseInside, Wire, Lower, ValuesOf;
    EditDone(s, t, dn, changes);
    EditedIff(s, t, dn, changes);
    var (t', r) := EditStep(s, t, dn, changes, false);
    var attrs, done := CurrentAttrs(t, dn), CurrentAttrs(t', dn);
    EmptyUndo();
    NoReportNoPlan(attrs, changes);
    EmptyPlan(attrs);
    forall i | 0 <= i < |changes| ensures ValuesOf(done, Lower(changes[i].0)) == Wire(changes[i].1) {
      PlanEffect(attrs, attrs, changes, Lower(changes[i].0));
      DistinctFor(changes, i);
    }
    UndoGivesNew(s, attrs, done, changes);
    EditedIff(s, t', dn, UndoOf(r.report));
    if ReportOf(done, UndoOf(r.report)) == [] {
      NoReportNoPlan(done, UndoOf(r.report));
      NothingPlannedNothingNew(s, done, UndoOf(r.report));
    }
  }

  lemma NothingPlannedNothingNew(s: Settings, attrs: Attrs, changes: Changes)
    requires Plan(attrs, changes) == []
    ensures !GivesNew(s, attrs, changes)
  {
    hide GivesNew, Plan;
    PlanRefused(s, attrs, changes);
  }

  /** Editing back with the reported old values restores the whole tree exactly when the edit
      changed no attribute that stored a single empty text and took no reserved value away. */
  lemma EditUndo(s: Settings, t: Tree, dn: string, changes: Changes)
    requires forall k :: k in t ==> NonEmpty(t[k].attrs)
    requires Distinct(changes)
    requires EditStep(s, t, dn, changes, false).1.Edited?
    ensures var (t', r) := EditStep(s, t, dn, changes, false);
            var (t'', r') := EditStep(s, t', dn, UndoOf(r.report), false);
            var attrs := CurrentAttrs(t, dn);
            && (r'.Edited? <==> !UndoRefused(s, attrs, changes))
            && (t'' == t <==> !LosesOld(attrs, changes) && !UndoRefused(s, attrs, changes))
  {
    hide DnKey, Plan, ReportOf, UndoOf, ApplyElements, UndoRefused, EditStep, LosesOld;
    EditDone(s, t, dn, changes);
    UndoEditedIff(s, t, dn, changes);
    var (t', r) := EditStep(s, t, dn, changes, false);
    var attrs := CurrentAttrs(t, dn);
    var undo := EditStep(s, t', dn, UndoOf(r.report), false);
    UndoRestores(attrs, changes);
    NoReportNoPlan(attrs, changes);
    EmptyPlan(attrs);
    EmptyUndo();
    if undo.1.Edited? {
      EditDone(s, t', dn, UndoOf(r.report));
      NoReportNoPlan(CurrentAttrs(t', dn), UndoOf(r.report));
      EmptyPlan(CurrentAttrs(t', dn));
    } else {
      NotEdited(s, t', dn, UndoOf(r.report));
      if r.report == [] {
        UndoEmptyEdited(s, t, dn);
      }
      ReportedChanges(attrs, changes);
    }
  }

  lemma NotEdited(s: Settings, t: Tree, dn: string, changes: Changes)
    requires !EditStep(s, t, dn, changes, false).1.Edited?
    ensures EditStep(s, t, dn, changes, false).0 == t
  {
    hide DnKey, Plan, ReportOf, ApplyElements, RefuseReserved, RefuseInside;
  }

  lemma UndoEmptyEdited(s: Settings, t: Tree, dn: string)
    requires DnKey(dn) in t
    ensures EditStep(s, t, dn, [], false).1.Edited?
  {
    hide DnKey;
  }

  /** What is reported is a change of the object. */
  lemma ReportedChanges(attrs: Attrs, changes: Changes)
    requires NonEmpty(attrs) && Distinct(changes)
    ensures ReportOf(attrs, changes) != [] ==> ApplyElements(attrs, Plan(attrs, changes)) != attrs
  {
    hide Plan, ApplyElements, Wire, Shown, ValuesOf;
    var report := ReportOf(attrs, changes);
    if report != [] {
      var a := Lower(report[0].0);
      PlanEffect(attrs, attrs, changes, a);
      ReportSays(attrs, changes, a);
    }
  }

  lemma EmptyUndo()
    ensures UndoOf([]) == [] && forall attrs: Attrs :: ReportOf(attrs, []) == []
  {
  }

  lemma MailHits(s: Settings)
    requires s.prefixes == ["adm-"] && s.names == []
    ensures IsNewHit(s, "mail", "adm-", ["foo"])
    ensures !IsNewHit(s, "mail", "foo", ["adm-"])
    ensures Lower("mail") == "mail"
  {
    hide Norm, Norms, HitOf;
    MailIsLower();
    PlainNorms();
    HitOfMail("adm-", s);
    HitOfMail("foo", s);
  }

  lemma MailIsLower()
    ensures Lower("mail") == "mail" && Lower("foo") == "foo" && Lower("adm-") == "adm-"
  {
  }

  lemma PlainNorms()
    ensures Norm("adm-") == "adm-" && Norm("foo") == "foo" && Norms(["foo"]) == ["foo"]
    ensures "adm-" != "foo" && !("adm-" <= "foo") && '@' !in "adm-" && '@' !in "foo"
  {
    hide Strip, Lower;
    MailIsLower();
    assert "adm-"[0] == 'a' && "foo"[0] == 'f' && ["foo"][1..] == [];
    assert !IsSpace('a') && !IsSpace('-') && !IsSpace('f') && !IsSpace('o');
    assert CleanEnds("adm-", WHITESPACE) && CleanEnds("foo", WHITESPACE);
  }

  lemma HitOfMail(text: string, s: Settings)
    requires s.prefixes == ["adm-"] && s.names == [] && '@' !in text
    ensures HitOf("mail", text, s.prefixes, s.names).Some? <==> "adm-" <= text
  {
    hide IndexOf;
    assert text[..|text|] == text;
    IndexOfIs(text, '@', |text|);
    assert Before(text, '@') == text;
    assert HitLocal(text, text, ["adm-"], []).Some? <==> "adm-" <= text by {
      assert ["adm-"][1..] == [];
      assert FirstPrefix(text, []) == None && FirstName(text, text, []) == None;
    }
    assert "mail" != "proxyaddresses" && "mail" != "samaccountname" by {
      assert |"mail"| == 4 && |"proxyaddresses"| == 14 && |"samaccountname"| == 14;
    }
  }

  lemma OneMail(s: Settings, attrs: Attrs, changes: Changes)
    requires s.prefixes == ["adm-"] && s.names == []
    requires attrs == map["mail" := ["adm-"]] && changes == [("mail", One("foo"))]
    ensures !GivesNew(s, attrs, changes) && UndoRefused(s, attrs, changes) && !LosesOld(attrs, changes)
  {
    hide IsNewHit, Lower;
    MailHits(s);
    assert "foo" != "" && "adm-" != "";
    assert changes[0] in changes && Wire(changes[0].1) == ["foo"];
    assert ValuesOf(attrs, Lower("mail")) == ["adm-"] && Wire(Shown(["adm-"])) == ["adm-"];
    assert "adm-" in Wire(Shown(ValuesOf(attrs, Lower(changes[0].0))));
  }

  /** An object whose only address is a reserved one, edited to another and back: the first call
      goes through, the second is refused, and the tree is not as it was. */
  lemma ReservedUndoRefused(t: Tree, dn: string)
    requires forall k :: k in t ==> NonEmpty(t[k].attrs)
    requires DnKey(dn) in t && t[DnKey(dn)].attrs == map["mail" := ["adm-"]]
    ensures var s, changes := Settings([], ["adm-"], []), [("mail", One("foo"))];
            var (t', r) := EditStep(s, t, dn, changes, false);
            && r.Edited? && !LosesOld(CurrentAttrs(t, dn), changes)
            && var (t'', r') := EditStep(s, t', dn, UndoOf(r.report), false);
               !r'.Edited? && t'' != t
  {
    hide DnKey, EditStep, UndoOf, GivesNew, UndoRefused, LosesOld, ReportOf;
    var s, changes := Settings([], ["adm-"], []), [("mail", One("foo"))];
    OneMail(s, CurrentAttrs(t, dn), changes);
    EditedIff(s, t, dn, changes);
    EditUndo(s, t, dn, changes);
  }
}
