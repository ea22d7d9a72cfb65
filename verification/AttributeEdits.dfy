/** What an attribute edit writes and what it reports (backend/samadcon/ad/connection.py,
    modify_attributes). */
module AttributeEdits {
  import opened Text
  import opened Directory

  /** A new value as a caller gives it: nothing, one text, or a list. */
  datatype Change = Clear | One(text: string) | Many(texts: seq<string>)

  datatype Diff = Diff(before: Change, after: Change)

  type Changes = seq<(string, Change)>
  type Report = seq<(string, Diff)>

  /** What goes to the server; the empty list deletes the attribute. */
  function Wire(c: Change): seq<string> {
    match c
    case Clear => []
    case One(text) => if text == "" then [] else [text]
    case Many(texts) => texts
  }

  /** Stored values as they are reported. */
  function Shown(values: seq<string>): Change {
    if |values| == 1 then One(values[0]) else if values == [] then Clear else Many(values)
  }

  function PlanOne(attrs: Attrs, attr: string, c: Change): seq<Element> {
    var old' := ValuesOf(attrs, Lower(attr));
    if Wire(c) == [] then
      if old' == [] then [] else [Element(attr, ModDelete, [])]
    else if Wire(c) == old' then []
    else [Element(attr, ModReplace, Wire(c))]
  }

  function ReportOne(attrs: Attrs, attr: string, c: Change): Report {
    var old' := ValuesOf(attrs, Lower(attr));
    if Wire(c) == [] then
      if old' == [] then [] else [(attr, Diff(Shown(old'), Clear))]
    else if Wire(c) == old' then []
    else [(attr, Diff(Shown(old'), c))]
  }

  function Plan(attrs: Attrs, changes: Changes): seq<Element> {
    if changes == [] then []
    else PlanOne(attrs, changes[0].0, changes[0].1) + Plan(attrs, changes[1..])
  }

  function ReportOf(attrs: Attrs, changes: Changes): Report {
    if changes == [] then []
    else ReportOne(attrs, changes[0].0, changes[0].1) + ReportOf(attrs, changes[1..])
  }

  lemma PlanFrom(attrs: Attrs, changes: Changes, i: nat)
    requires i < |changes|
    ensures Plan(attrs, changes[i..]) == PlanOne(attrs, changes[i].0, changes[i].1) + Plan(attrs, changes[i + 1..])
    ensures ReportOf(attrs, changes[i..])
         == ReportOne(attrs, changes[i].0, changes[i].1) + ReportOf(attrs, changes[i + 1..])
  {
    assert changes[i..][1..] == changes[i + 1..];
  }

  method PlanChanges(current: Attrs, changes: Changes) returns (message: seq<Element>, applied: Report)
    ensures message == Plan(current, changes)
    ensures applied == ReportOf(current, changes)
  {
    hide Plan, ReportOf, ValuesOf, Wire, Shown;
    message, applied := [], [];
    assert changes[0..] == changes;
    for i := 0 to |changes|
      invariant message + Plan(current, changes[i..]) == Plan(current, changes)
      invariant applied + ReportOf(current, changes[i..]) == ReportOf(current, changes)
    {
      PlanFrom(current, changes, i);
      var attr, newValue := changes[i].0, changes[i].1;
      var oldValues := ValuesOf(current, Lower(attr));
      var old' := Shown(oldValues);
      var wire := Wire(newValue);
      var element: seq<Element>, diff: Report := [], [];
      if wire == [] {
        if oldValues != [] {
          element, diff := [Element(attr, ModDelete, [])], [(attr, Diff(old', Clear))];
        }
      } else if wire != oldValues {
        element, diff := [Element(attr, ModReplace, wire)], [(attr, Diff(old', newValue))];
      }
      assert element == PlanOne(current, attr, newValue) && diff == ReportOne(current, attr, newValue);
      ghost var rest, later := Plan(current, changes[i + 1..]), ReportOf(current, changes[i + 1..]);
      assert message + (element + rest) == message + element + rest;
      assert applied + (diff + later) == applied + diff + later;
      message, applied := message + element, applied + diff;
    }
    PlanEnd(current, changes);
  }

  lemma PlanEnd(attrs: Attrs, changes: Changes)
    ensures changes[|changes|..] == [] && Plan(attrs, []) == [] && ReportOf(attrs, []) == []
  {
  }

  // --- What an edit leaves behind ------------------------------------------------------

  /** A stored attribute has values. */
  ghost predicate NonEmpty(attrs: Attrs) {
    forall a :: a in attrs ==> attrs[a] != []
  }

  /** No attribute is named twice. */
  predicate Distinct<T>(changes: seq<(string, T)>) {
    forall i, j :: 0 <= i < j < |changes| ==> Lower(changes[i].0) != Lower(changes[j].0)
  }

  /** The change asked for the attribute *a*. */
  function ChangeFor<T>(changes: seq<(string, T)>, a: string): Option<T> {
    if changes == [] then None
    else if Lower(changes[0].0) == a then Some(changes[0].1)
    else ChangeFor(changes[1..], a)
  }

  lemma {:induction false} ChangeForIn<T>(changes: seq<(string, T)>, a: string)
    ensures ChangeFor(changes, a) == None <==> forall i :: 0 <= i < |changes| ==> Lower(changes[i].0) != a
  {
    if changes != [] {
      ChangeForIn(changes[1..], a);
      assert forall i :: 1 <= i < |changes| ==> changes[i] == changes[1..][i - 1];
      assert forall i :: 0 <= i < |changes[1..]| ==> changes[1..][i] == changes[i + 1];
    }
  }

  lemma SameValuesSameAttrs(x: Attrs, y: Attrs)
    requires NonEmpty(x) && NonEmpty(y)
    requires forall a :: ValuesOf(x, a) == ValuesOf(y, a)
    ensures x == y
  {
    forall a ensures a in x <==> a in y {
      assert ValuesOf(x, a) == ValuesOf(y, a);
    }
    forall a | a in x ensures x[a] == y[a] {
      assert ValuesOf(x, a) == ValuesOf(y, a);
    }
  }

  /** After the edit, every attribute that was named has the values asked for, and every
      other one the values it had. *cur* is the object once the changes before these are made. */
  lemma {:induction false} PlanEffect(attrs: Attrs, cur: Attrs, changes: Changes, a: string)
    requires NonEmpty(cur) && Distinct(changes)
    requires forall i :: 0 <= i < |changes| ==>
               ValuesOf(cur, Lower(changes[i].0)) == ValuesOf(attrs, Lower(changes[i].0))
    ensures var done := ApplyElements(cur, Plan(attrs, changes));
            && NonEmpty(done)
            && ValuesOf(done, a) == match ChangeFor(changes, a)
                                    case None => ValuesOf(cur, a)
                                    case Some(c) => Wire(c)
    decreases |changes|
  {
    hide PlanOne, Wire, ApplyElements, ValuesOf, NonEmpty, Lower;
    if changes == [] {
      NoElements(cur);
    } else {
      var first, rest := PlanOne(attrs, changes[0].0, changes[0].1), Plan(attrs, changes[1..]);
      var next := ApplyElements(cur, first);
      assert NonEmpty(next)
          && forall b :: ValuesOf(next, b) == if b == Lower(changes[0].0) then Wire(changes[0].1) else ValuesOf(cur, b)
      by { OneEffect(attrs, cur, changes[0].0, changes[0].1); }
      ApplyAppend(cur, first, rest);
      forall i | 0 <= i < |changes[1..]|
        ensures ValuesOf(next, Lower(changes[1..][i].0)) == ValuesOf(attrs, Lower(changes[1..][i].0))
      {
        assert changes[1..][i] == changes[i + 1];
      }
      PlanEffect(attrs, next, changes[1..], a);
      ChangeForIn(changes[1..], Lower(changes[0].0));
    }
  }

  lemma NoElements(cur: Attrs)
    ensures ApplyElements(cur, []) == cur
  {
  }

  lemma OneEffect(attrs: Attrs, cur: Attrs, attr: string, c: Change)
    requires NonEmpty(cur) && ValuesOf(cur, Lower(attr)) == ValuesOf(attrs, Lower(attr))
    ensures var next := ApplyElements(cur, PlanOne(attrs, attr, c));
            && NonEmpty(next)
            && forall b :: ValuesOf(next, b) == if b == Lower(attr) then Wire(c) else ValuesOf(cur, b)
  {
    var plan := PlanOne(attrs, attr, c);
    if plan != [] {
      assert plan[1..] == [];
      assert ApplyElements(cur, plan) == ApplyElement(cur, plan[0]);
    }
  }

  lemma {:induction false} ReportNames(attrs: Attrs, changes: Changes, a: string)
    requires forall i :: 0 <= i < |changes| ==> Lower(changes[i].0) != a
    ensures forall i :: 0 <= i < |ReportOf(attrs, changes)| ==> Lower(ReportOf(attrs, changes)[i].0) != a
  {
    if changes != [] {
      assert forall i :: 0 <= i < |changes[1..]| ==> changes[1..][i] == changes[i + 1];
      ReportNames(attrs, changes[1..], a);
    }
  }

  lemma {:induction false} ReportDistinct(attrs: Attrs, changes: Changes)
    requires Distinct(changes)
    ensures Distinct(ReportOf(attrs, changes))
  {
    if changes != [] {
      assert forall i :: 0 <= i < |changes[1..]| ==> changes[1..][i] == changes[i + 1];
      ReportDistinct(attrs, changes[1..]);
      ReportNames(attrs, changes[1..], Lower(changes[0].0));
    }
  }

  /** The report names exactly the attributes whose values change, with the values they had. */
  lemma {:induction false} ReportSays(attrs: Attrs, changes: Changes, a: string)
    requires Distinct(changes)
    ensures var c, d := ChangeFor(changes, a), ChangeFor(ReportOf(attrs, changes), a);
            && (d.Some? <==> c.Some? && Wire(c.value) != ValuesOf(attrs, a))
            && (d.Some? ==> d.value.before == Shown(ValuesOf(attrs, a)) && Wire(d.value.after) == Wire(c.value))
    decreases |changes|
  {
    hide Shown, ValuesOf, Lower;
    if changes != [] {
      var attr := changes[0].0;
      var first, rest := ReportOne(attrs, attr, changes[0].1), ReportOf(attrs, changes[1..]);
      assert forall i :: 0 <= i < |changes[1..]| ==> changes[1..][i] == changes[i + 1];
      if first == [] {
        assert first + rest == rest;
      } else {
        assert (first + rest)[1..] == rest;
      }
      if Lower(attr) == a {
        ReportNames(attrs, changes[1..], a);
        ChangeForIn(rest, a);
      } else {
        ReportSays(attrs, changes[1..], a);
      }
    }
  }

  /** The reported old values as the changes that would bring them back. */
  function UndoOf(report: Report): Changes {
    if report == [] then [] else [(report[0].0, report[0].1.before)] + UndoOf(report[1..])
  }

  lemma {:induction false} UndoFor(report: Report, a: string)
    requires Distinct(report)
    ensures |UndoOf(report)| == |report|
    ensures forall i :: 0 <= i < |report| ==> UndoOf(report)[i] == (report[i].0, report[i].1.before)
    ensures Distinct(UndoOf(report))
    ensures ChangeFor(UndoOf(report), a) == match ChangeFor(report, a)
                                            case None => None
                                            case Some(d) => Some(d.before)
    decreases |report|
  {
    if report != [] {
      assert forall i :: 0 <= i < |report[1..]| ==> report[1..][i] == report[i + 1];
      UndoFor(report[1..], a);
    }
  }

  /** A change of an attribute that stores a single empty text: as an old value that text
      asks for the deletion. */
  predicate LosesOld(attrs: Attrs, changes: Changes) {
    exists i :: 0 <= i < |changes| && ValuesOf(attrs, Lower(changes[i].0)) == [""] && Wire(changes[i].1) != [""]
  }

  lemma SecondEditIsEmpty(attrs: Attrs, changes: Changes)
    requires NonEmpty(attrs) && Distinct(changes)
    ensures var done := ApplyElements(attrs, Plan(attrs, changes));
            Plan(done, changes) == [] && ReportOf(done, changes) == []
  {
    var done := ApplyElements(attrs, Plan(attrs, changes));
    forall i | 0 <= i < |changes| ensures ValuesOf(done, Lower(changes[i].0)) == Wire(changes[i].1) {
      PlanEffect(attrs, attrs, changes, Lower(changes[i].0));
      DistinctFor(changes, i);
    }
    AllEqualIsEmpty(done, changes);
  }

  lemma {:induction false} DistinctFor<T>(changes: seq<(string, T)>, i: nat)
    requires Distinct(changes) && i < |changes|
    ensures ChangeFor(changes, Lower(changes[i].0)) == Some(changes[i].1)
    decreases i
  {
    if i > 0 {
      assert forall j :: 0 <= j < |changes[1..]| ==> changes[1..][j] == changes[j + 1];
      DistinctFor(changes[1..], i - 1);
    }
  }

  lemma {:induction false} AllEqualIsEmpty(attrs: Attrs, changes: Changes)
    requires forall i :: 0 <= i < |changes| ==> ValuesOf(attrs, Lower(changes[i].0)) == Wire(changes[i].1)
    ensures Plan(attrs, changes) == [] && ReportOf(attrs, changes) == []
  {
    if changes != [] {
      assert forall j :: 0 <= j < |changes[1..]| ==> changes[1..][j] == changes[j + 1];
      AllEqualIsEmpty(attrs, changes[1..]);
    }
  }

  /** What the edit and then its undo leave in one attribute. */
  lemma UndoAt(attrs: Attrs, changes: Changes, a: string)
    requires NonEmpty(attrs) && Distinct(changes)
    ensures var report := ReportOf(attrs, changes);
            var done := ApplyElements(attrs, Plan(attrs, changes));
            var back := ApplyElements(done, Plan(done, UndoOf(report)));
            && NonEmpty(done) && NonEmpty(back)
            && ValuesOf(back, a)
               == (if ChangeFor(report, a).Some? then Wire(Shown(ValuesOf(attrs, a))) else ValuesOf(attrs, a))
            && (ChangeFor(report, a).Some? ==> ChangeFor(report, a).value.before == Shown(ValuesOf(attrs, a)))
  {
    hide Wire, Shown, ValuesOf, Plan, ReportOf, UndoOf, ChangeFor, ApplyElements;
    var report := ReportOf(attrs, changes);
    var done := ApplyElements(attrs, Plan(attrs, changes));
    ReportSays(attrs, changes, a);
    ReportDistinct(attrs, changes);
    UndoFor(report, a);
    PlanEffect(attrs, attrs, changes, a);
    PlanEffect(done, done, UndoOf(report), a);
  }

  /** Writing the reported old values back restores the object exactly when the edit changes
      no attribute that stores a single empty text. */
  lemma UndoRestores(attrs: Attrs, changes: Changes)
    requires NonEmpty(attrs) && Distinct(changes)
    ensures var report := ReportOf(attrs, changes);
            var done := ApplyElements(attrs, Plan(attrs, changes));
            ApplyElements(done, Plan(done, UndoOf(report))) == attrs <==> !LosesOld(attrs, changes)
  {
    hide Plan, ReportOf, UndoOf, ChangeFor, ApplyElements, ValuesOf;
    var report := ReportOf(attrs, changes);
    var done := ApplyElements(attrs, Plan(attrs, changes));
    var back := ApplyElements(done, Plan(done, UndoOf(report)));
    if LosesOld(attrs, changes) {
      var i :| 0 <= i < |changes| && ValuesOf(attrs, Lower(changes[i].0)) == [""] && Wire(changes[i].1) != [""];
      var a := Lower(changes[i].0);
      DistinctFor(changes, i);
      ReportSays(attrs, changes, a);
      UndoAt(attrs, changes, a);
      assert ValuesOf(back, a) == [] && ValuesOf(attrs, a) == [""];
    } else {
      UndoAt(attrs, changes, "");
      forall a ensures ValuesOf(back, a) == ValuesOf(attrs, a) {
        UndoAt(attrs, changes, a);
        ReportSays(attrs, changes, a);
        ChangeForMember(changes, a);
      }
      SameValuesSameAttrs(back, attrs);
    }
  }

  lemma {:induction false} ChangeForMember<T>(changes: seq<(string, T)>, a: string)
    ensures ChangeFor(changes, a).Some? ==>
              exists i :: 0 <= i < |changes| && Lower(changes[i].0) == a && changes[i].1 == ChangeFor(changes, a).value
  {
    if changes != [] && Lower(changes[0].0) != a {
      ChangeForMember(changes[1..], a);
      assert forall j :: 0 <= j < |changes[1..]| ==> changes[1..][j] == changes[j + 1];
    }
  }
}
