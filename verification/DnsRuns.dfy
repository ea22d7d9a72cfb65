/** What every run of record edits keeps (backend/samadcon/ad/dns.py). */
module DnsRuns {
  import opened Text
  import opened DnsRecords
  import opened DnsZone

  datatype Op =
    | CreateOp(node: string, kind: string, data: Data, ttl: Option<int>)
    | UpdateOp(node: string, kind: string, oldData: Data, data: Data, ttl: Option<int>)
    | DeleteOp(node: string, kind: string, data: Data)

  function Step(lib: Library, z: Zone, op: Op): (Zone, Outcome) {
    match op
    case CreateOp(node, kind, data, ttl) => Created(lib, z, node, kind, data, ttl)
    case UpdateOp(node, kind, oldData, data, ttl) => Updated(lib, z, node, kind, oldData, data, ttl)
    case DeleteOp(node, kind, data) => Deleted(lib, z, node, kind, data)
  }

  function Run(lib: Library, z: Zone, ops: seq<Op>): Zone
    decreases |ops|
  {
    if ops == [] then z else Run(lib, Step(lib, z, ops[0]).0, ops[1..])
  }

  /** How many operations of the run succeeded. */
  function Successes(lib: Library, z: Zone, ops: seq<Op>): nat
    decreases |ops|
  {
    if ops == [] then 0
    else
      var (z', r) := Step(lib, z, ops[0]);
      (if r == Done then 1 else 0) + Successes(lib, z', ops[1..])
  }

  /** No operation of the run ended in the second "not found". */
  ghost predicate NoneVanished(lib: Library, z: Zone, ops: seq<Op>)
    decreases |ops|
  {
    ops == [] || (Step(lib, z, ops[0]).1 != RecordVanished && NoneVanished(lib, Step(lib, z, ops[0]).0, ops[1..]))
  }

  /** The interface offers these kinds; an SOA is not deleted record by record. */
  predicate Editable(op: Op) {
    op.kind in EDITABLE_TYPES
  }

  /** Every value is one the zone had, or carries a serial in the range. */
  ghost predicate Stamped(z: Zone, z': Zone, above: int, upTo: int) {
    forall node, r :: node in z' && r in z'[node] ==>
      (node in z && r in z[node]) || (r.Packed? && above < r.serial <= upTo)
  }

  /** A name without values was there without values before. */
  ghost predicate NoNewEmpty(z: Zone, z': Zone) {
    forall node :: node in z' && z'[node] == [] ==> node in z && z[node] == []
  }

  ghost predicate StepGood(z: Zone, z': Zone, done: bool) {
    && HasSoa(z) && HasSoa(z')
    && Serial(z') == Serial(z) + (if done then 1 else 0)
    && (!done ==> z' == z)
    && Stamped(z, z', Serial(z), Serial(z'))
    && NoNewEmpty(z, z')
  }

  lemma AdvanceStamped(z: Zone)
    requires HasSoa(z) && Serial(z) + 1 < SERIAL_LIMIT
    ensures Stamped(z, Advance(z).0, Serial(z), Serial(z) + 1) && NoNewEmpty(z, Advance(z).0)
    ensures Advance(z).0.Keys == z.Keys
  {
    AdvanceExact(z);
    var i := FirstSoa(z[APEX]);
    var z' := Advance(z).0;
    forall node, r | node in z' && r in z'[node]
      ensures (node in z && r in z[node]) || (r.Packed? && Serial(z) < r.serial <= Serial(z) + 1)
    {
      var j :| 0 <= j < |z'[node]| && z'[node][j] == r;
      if node == APEX && j == i {
        assert r == Bumped(z[APEX][i]);
      } else {
        assert r == z[node][j];
      }
    }
  }

  /** Changing values that are not the SOA leaves the zone's serial where it is. */
  lemma KeepsSerial(z: Zone, node: string, values: seq<Raw>)
    requires HasSoa(z)
    requires node == APEX ==>
               FirstSoa(values) < |values| && SoaSerial(values[FirstSoa(values)]) == Serial(z)
    ensures HasSoa(z[node := values]) && Serial(z[node := values]) == Serial(z)
  {
  }

  /** A value replaced, added or taken out beside the SOA leaves the SOA the first one. */
  lemma SoaBeside(values: seq<Raw>, r: Raw, i: nat)
    requires FirstSoa(values) < |values| && !IsSoa(r)
    ensures var s := values[FirstSoa(values)];
            && (var v := values + [r]; FirstSoa(v) < |v| && v[FirstSoa(v)] == s)
            && (i < |values| && i != FirstSoa(values) ==>
                  && (var v := values[i := r]; FirstSoa(v) < |v| && v[FirstSoa(v)] == s)
                  && (var v := values[..i] + values[i + 1..]; FirstSoa(v) < |v| && v[FirstSoa(v)] == s))
  {
    hide IsSoa;
    var k := FirstSoa(values);
    FirstSoaIs(values + [r], k);
    if i < |values| && i != k {
      FirstSoaIs(values[i := r], k);
      SoaWithout(values, i);
    }
  }

  lemma SoaWithout(values: seq<Raw>, i: nat)
    requires FirstSoa(values) < |values| && i < |values| && i != FirstSoa(values)
    ensures var k := if i < FirstSoa(values) then FirstSoa(values) - 1 else FirstSoa(values);
            var v := values[..i] + values[i + 1..];
            k < |v| && FirstSoa(v) == k && v[k] == values[FirstSoa(values)]
  {
    hide IsSoa, FirstSoa;
    var k := if i < FirstSoa(values) then FirstSoa(values) - 1 else FirstSoa(values);
    var v := values[..i] + values[i + 1..];
    assert forall j :: 0 <= j < |v| ==> v[j] == values[if j < i then j else j + 1];
    FirstSoaIs(v, k);
  }

  lemma NotSoa(kind: string, data: Data, ttl: int, serial: int)
    requires kind in EDITABLE_TYPES
    ensures !IsSoa(Encode(kind, data, ttl, serial))
  {
  }

  lemma WriteStamped(z: Zone, bumped: Zone, node: string, values: seq<Raw>, above: int, upTo: int)
    requires Stamped(z, bumped, above, upTo) && NoNewEmpty(z, bumped) && values != []
    requires forall r :: r in values ==> r in Values(bumped, node) || (r.Packed? && above < r.serial <= upTo)
    ensures Stamped(z, bumped[node := values], above, upTo) && NoNewEmpty(z, bumped[node := values])
  {
    var z' := bumped[node := values];
    forall n, r | n in z' && r in z'[n]
      ensures (n in z && r in z[n]) || (r.Packed? && above < r.serial <= upTo)
    {
      if n == node && r in Values(bumped, node) {
        assert node in bumped;
      }
    }
  }

  /** Writing one name after the serial was raised. *values* holds old values and at most
      records of the new serial. */
  lemma WriteGood(z: Zone, node: string, values: seq<Raw>)
    requires HasSoa(z) && Serial(z) + 1 < SERIAL_LIMIT && values != []
    requires forall r :: r in values ==> r in Values(Advance(z).0, node) || (r.Packed? && r.serial == Serial(z) + 1)
    requires node == APEX ==>
               FirstSoa(values) < |values| && values[FirstSoa(values)] == Advance(z).0[APEX][FirstSoa(z[APEX])]
    ensures StepGood(z, Advance(z).0[node := values], true)
  {
    hide Advance, FirstSoa, Stamped, NoNewEmpty, Bumped;
    AdvanceExact(z);
    AdvanceStamped(z);
    var bumped := Advance(z).0;
    KeepsSerial(bumped, node, values);
    WriteStamped(z, bumped, node, values, Serial(z), Serial(z) + 1);
  }

  lemma CreateGood(lib: Library, z: Zone, node: string, kind: string, data: Data, ttl: Option<int>)
    requires Lawful(lib) && HasSoa(z) && Serial(z) + 1 < SERIAL_LIMIT
    ensures var (z', r) := Created(lib, z, node, kind, data, ttl);
            r != RecordVanished && StepGood(z, z', r == Done)
  {
    hide Matches, FirstMatch, FirstSoa, Lawful, Advance, Encode;
    var (z', r) := Created(lib, z, node, kind, data, ttl);
    if r == Done {
      ValidKind(lib, kind, data);
      AdvanceExact(z);
      var clean, seconds := lib.validateData(kind, data).value, ValidateTtl(ttl).value;
      var packed := Encode(kind, clean, seconds, Serial(z) + 1);
      var values := Values(Advance(z).0, node);
      NotSoa(kind, clean, seconds, Serial(z) + 1);
      if node == APEX { SoaBeside(values, packed, 0); }
      EncodeSerial(kind, clean, seconds, Serial(z) + 1);
      WriteGood(z, node, values + [packed]);
    }
  }

  lemma EncodeSerial(kind: string, data: Data, ttl: int, serial: int)
    ensures Encode(kind, data, ttl, serial).Packed? && Encode(kind, data, ttl, serial).serial == serial
  {
  }

  lemma UpdateGood(lib: Library, z: Zone, node: string, kind: string, oldData: Data, data: Data, ttl: Option<int>)
    requires Lawful(lib) && HasSoa(z) && Serial(z) + 1 < SERIAL_LIMIT
    ensures var (z', r) := Updated(lib, z, node, kind, oldData, data, ttl);
            r != RecordVanished && StepGood(z, z', r == Done)
  {
    hide Matches, FirstMatch, FirstSoa, Lawful, Advance, Encode, Updated;
    UpdateExact(lib, z, node, kind, oldData, data, ttl);
    var (z', r) := Updated(lib, z, node, kind, oldData, data, ttl);
    if r == Done {
      ValidKind(lib, kind, data);
      AdvanceExact(z);
      AdvanceKeepsMatch(lib, z, node, kind, oldData);
      var clean, seconds := lib.validateData(kind, data).value, ValidateTtl(ttl).value;
      var packed := Encode(kind, clean, seconds, Serial(z) + 1);
      var values, i := Values(Advance(z).0, node), FirstMatch(lib, z[node], kind, oldData);
      NotSoa(kind, clean, seconds, Serial(z) + 1);
      if node == APEX { SoaBeside(values, packed, i); }
      EncodeSerial(kind, clean, seconds, Serial(z) + 1);
      WriteGood(z, node, values[i := packed]);
    }
  }

  lemma DeleteGood(lib: Library, z: Zone, node: string, kind: string, data: Data)
    requires HasSoa(z) && Serial(z) + 1 < SERIAL_LIMIT && kind in EDITABLE_TYPES
    ensures var (z', r) := Deleted(lib, z, node, kind, data);
            r != RecordVanished && StepGood(z, z', r == Done)
  {
    hide Matches, FirstMatch, FirstSoa, Advance, Encode, Deleted;
    DeleteEditable(lib, z, node, kind, data);
    var (z', r) := Deleted(lib, z, node, kind, data);
    if r == Done {
      AdvanceExact(z);
      AdvanceStamped(z);
      AdvanceKeepsMatch(lib, z, node, kind, data);
      var bumped, i := Advance(z).0, FirstMatch(lib, z[node], kind, data);
      var values := Values(bumped, node);
      var kept := values[..i] + values[i + 1..];
      if node == APEX {
        NotSoa(kind, data, 0, 0);
        SoaBeside(values, Encode(kind, data, 0, 0), i);
      }
      if kept != [] {
        WriteGood(z, node, kept);
      } else {
        assert HasSoa(z') && Serial(z') == Serial(bumped);
      }
    }
  }

  lemma StepIsGood(lib: Library, z: Zone, op: Op)
    requires Lawful(lib) && HasSoa(z) && Serial(z) + 1 < SERIAL_LIMIT && Editable(op)
    ensures var (z', r) := Step(lib, z, op);
            r != RecordVanished && StepGood(z, z', r == Done)
  {
    hide Created, Updated, Deleted, StepGood;
    match op {
      case CreateOp(node, kind, data, ttl) => CreateGood(lib, z, node, kind, data, ttl);
      case UpdateOp(node, kind, oldData, data, ttl) => UpdateGood(lib, z, node, kind, oldData, data, ttl);
      case DeleteOp(node, kind, data) => DeleteGood(lib, z, node, kind, data);
    }
  }

  /** Over any run of editable records in a zone with a readable SOA, and as long as the serial
      fits: the serial has gone up by one for each success and for nothing else, the apex and its
      SOA are still there, every value not there before carries a serial of the run, no name is
      left empty, and the second "not found" never happens. */
  lemma {:induction false} RunIsGood(lib: Library, z: Zone, ops: seq<Op>)
    requires Lawful(lib) && HasSoa(z) && Serial(z) + |ops| < SERIAL_LIMIT
    requires forall i :: 0 <= i < |ops| ==> Editable(ops[i])
    ensures var z' := Run(lib, z, ops);
            && HasSoa(z') && Serial(z') == Serial(z) + Successes(lib, z, ops)
            && Stamped(z, z', Serial(z), Serial(z')) && NoNewEmpty(z, z')
    ensures NoneVanished(lib, z, ops)
    decreases |ops|
  {
    hide Step, Editable;
    if ops != [] {
      var next := Step(lib, z, ops[0]).0;
      StepIsGood(lib, z, ops[0]);
      assert forall i :: 0 <= i < |ops[1..]| ==> ops[1..][i] == ops[i + 1];
      RunIsGood(lib, next, ops[1..]);
      ThroughStamped(z, next, Run(lib, next, ops[1..]));
    }
  }

  lemma ThroughStamped(a: Zone, b: Zone, c: Zone)
    requires HasSoa(a) && HasSoa(b) && HasSoa(c) && Serial(a) <= Serial(b) <= Serial(c)
    requires Stamped(a, b, Serial(a), Serial(b)) && Stamped(b, c, Serial(b), Serial(c))
    requires NoNewEmpty(a, b) && NoNewEmpty(b, c)
    ensures Stamped(a, c, Serial(a), Serial(c)) && NoNewEmpty(a, c)
  {
    hide Serial, HasSoa;
  }

  /** An operation that does not succeed changes nothing, with one exception: the deletion that names the SOA by its
      old serial and no other value. */
  lemma RefusedChangesNothing(lib: Library, z: Zone, op: Op)
    requires Lawful(lib) && HasSoa(z) && Serial(z) + 1 < SERIAL_LIMIT
    ensures var (z', r) := Step(lib, z, op);
            && (r != Done ==> (z' == z <==> r != RecordVanished))
            && (r == RecordVanished <==> op.DeleteOp? && NamesOldSoa(lib, z, op.node, op.kind, op.data))
  {
    hide Matches, FirstMatch, Advance, Lawful, Updated, Deleted, NamesOldSoa, Encode;
    AdvanceExact(z);
    assert Advance(z).0 != z by {
      assert HasSoa(Advance(z).0) && Serial(Advance(z).0) == Serial(z) + 1;
    }
    match op {
      case CreateOp(node, kind, data, ttl) =>
      case UpdateOp(node, kind, oldData, data, ttl) => UpdateExact(lib, z, node, kind, oldData, data, ttl);
      case DeleteOp(node, kind, data) => DeleteExact(lib, z, node, kind, data);
    }
  }

  // --- Deleting the SOA ----------------------------------------------------------------------

  /** An SOA with all the fields unpacking gives it. */
  predicate FullSoa(r: Raw) {
    IsSoa(r)
    && r.data.Keys == {"serial", "refresh", "retry", "expire", "minimum", "mname", "rname"}
  }

  /** A record matches what it decodes to, and any part of that. */
  lemma DecodedMatches(lib: Library, r: Raw, data: Data)
    requires r.Packed? && forall key :: key in data ==> key in Decode(lib, r) && data[key] == Decode(lib, r)[key]
    ensures Matches(lib, r, r.kind, data)
  {
    hide ComparableValue, DecodedValue;
  }

  lemma ApexOnly(lib: Library, soa: Raw)
    requires Lawful(lib) && FullSoa(soa) && SoaSerial(soa) + 1 < SERIAL_LIMIT
    ensures var z: Zone := map[APEX := [soa]];
            && HasSoa(z) && FirstSoa(z[APEX]) == 0 && Serial(z) == SoaSerial(soa)
            && Advance(z).0 == map[APEX := [Bumped(soa)]]
    ensures "serial" in Decode(lib, soa)
  {
    hide Bumped, Lawful;
    var z: Zone := map[APEX := [soa]];
    FirstSoaIs([soa], 0);
    AdvanceExact(z);
    assert [soa][0 := Bumped(soa)] == [Bumped(soa)];
  }

  /** Asked to delete the SOA by everything it shows, the code finds it, raises its serial, and no longer finds it. */
  lemma DeletingSoaVanishes(lib: Library, soa: Raw)
    requires Lawful(lib) && FullSoa(soa) && SoaSerial(soa) + 1 < SERIAL_LIMIT
    ensures Deleted(lib, map[APEX := [soa]], APEX, "SOA", Decode(lib, soa))
         == (map[APEX := [Bumped(soa)]], RecordVanished)
  {
    hide Matches, Advance, Bumped, Lawful, Deleted, Decode, FirstMatch, FirstSoa, SomeMatch;
    var z: Zone := map[APEX := [soa]];
    var data := Decode(lib, soa);
    ApexOnly(lib, soa);
    DecodedMatches(lib, soa, data);
    DeleteExact(lib, z, APEX, "SOA", data);
    assert NamesOldSoa(lib, z, APEX, "SOA", data);
  }

  /** Asked to delete it by the same data without the serial, the code takes the SOA out, and the apex with it. */
  lemma DeletingSoaSucceeds(lib: Library, soa: Raw)
    requires Lawful(lib) && FullSoa(soa) && SoaSerial(soa) + 1 < SERIAL_LIMIT
    ensures Deleted(lib, map[APEX := [soa]], APEX, "SOA", Decode(lib, soa) - {"serial"}) == (map[], Done)
  {
    hide Matches, Advance, Bumped, Lawful, Deleted, Decode, FirstMatch, FirstSoa;
    var z: Zone := map[APEX := [soa]];
    var data := Decode(lib, soa) - {"serial"};
    ApexOnly(lib, soa);
    DecodedMatches(lib, soa, data);
    assert SomeMatch(lib, z[APEX], "SOA", data) by { assert Matches(lib, z[APEX][0], "SOA", data); }
    DeleteExact(lib, z, APEX, "SOA", data);
  }

  // --- There and back -------------------------------------------------------------------------------

  /** Creating a record and deleting it by the validated data brings back the zone, with the
      serial raised twice, unless the name was there without any value: then the name goes too. */
  lemma CreateThenDelete(lib: Library, z: Zone, node: string, kind: string, given: Data, ttl: Option<int>)
    requires Lawful(lib) && HasSoa(z) && Serial(z) + 2 < SERIAL_LIMIT
    requires Created(lib, z, node, kind, given, ttl).1 == Done
    ensures var clean := lib.validateData(kind, given).value;
            var (z', r) := Deleted(lib, Created(lib, z, node, kind, given, ttl).0, node, kind, clean);
            && r == Done
            && z' == (var twice := Advance(Advance(z).0).0; if Values(z, node) == [] then twice - {node} else twice)
            && (z' == Advance(Advance(z).0).0 <==> !(node in z && z[node] == []))
  {
    hide Matches, FirstMatch, FirstSoa, Lawful, Encode, Advance, HasSoa, Serial, Deleted;
    var clean, seconds := lib.validateData(kind, given).value, ValidateTtl(ttl).value;
    var twice := Advance(Advance(z).0).0;
    AdvanceExact(z);
    var packed := Encode(kind, clean, seconds, Serial(z) + 1);
    ValidKind(lib, kind, given);
    NotSoa(kind, clean, seconds, Serial(z) + 1);
    var made := Created(lib, z, node, kind, given, ttl).0;
    var values := Values(Advance(z).0, node);
    assert made == Advance(z).0[node := values + [packed]];
    AdvanceCommutes(z, node, packed);
    EncodedMatches(lib, kind, given, seconds, Serial(z) + 1);
    NoMatchBefore(lib, z, node, kind, clean);
    FirstMatchIs(lib, values + [packed], kind, clean, |values|);
    AdvanceKeepsMatch(lib, Advance(z).0, node, kind, clean);
    DeleteLast(lib, z, made, twice, node, kind, clean, packed);
    SameNames(z, node);
  }

  lemma SameNames(z: Zone, node: string)
    requires HasSoa(z) && Serial(z) + 2 < SERIAL_LIMIT
    ensures var twice := Advance(Advance(z).0).0;
            && (node in twice <==> node in z) && |Values(twice, node)| == |Values(z, node)|
            && (node in z && z[node] == [] ==> twice - {node} != twice)
            && (node !in z ==> twice - {node} == twice)
  {
    hide Advance;
    AdvanceExact(z);
    AdvanceExact(Advance(z).0);
    var twice := Advance(Advance(z).0).0;
    assert node in z ==> node in twice && node !in twice - {node};
  }

  lemma DeleteLast(lib: Library, z: Zone, made: Zone, twice: Zone, node: string, kind: string, clean: Data, packed: Raw)
    requires HasSoa(made) && Serial(made) + 1 < SERIAL_LIMIT && kind in EDITABLE_TYPES
    requires Advance(made).0 == twice[node := Values(twice, node) + [packed]]
    requires node in made && FirstMatch(lib, made[node], kind, clean) == |Values(twice, node)| < |made[node]|
    ensures Deleted(lib, made, node, kind, clean)
         == (if Values(twice, node) == [] then twice - {node} else twice, Done)
  {
    hide Matches, FirstMatch, FirstSoa, Advance, HasSoa, Serial, Deleted;
    DeleteEditable(lib, made, node, kind, clean);
    var (z', r) := Deleted(lib, made, node, kind, clean);
    assert r == Done by { FoundIsDone(lib, made, node, kind, clean); }
    var after := Values(twice, node);
    assert (after + [packed])[..|after|] + (after + [packed])[|after| + 1..] == after;
    if after != [] {
      assert twice[node := after + [packed]][node := after] == twice;
    } else {
      assert twice[node := after + [packed]] - {node} == twice - {node};
    }
  }

  lemma FoundIsDone(lib: Library, z: Zone, node: string, kind: string, data: Data)
    requires HasSoa(z) && Serial(z) + 1 < SERIAL_LIMIT && kind in EDITABLE_TYPES
    requires node in z && FirstMatch(lib, z[node], kind, data) < |z[node]|
    ensures Deleted(lib, z, node, kind, data).1 == Done
  {
    hide Matches, FirstMatch, FirstSoa, Advance, HasSoa, Serial;
    DeleteEditable(lib, z, node, kind, data);
  }

  lemma NoMatchBefore(lib: Library, z: Zone, node: string, kind: string, clean: Data)
    requires HasSoa(z) && Serial(z) + 1 < SERIAL_LIMIT && kind in EDITABLE_TYPES
    requires FirstMatch(lib, Values(z, node), kind, clean) == |Values(z, node)|
    ensures var values := Values(Advance(z).0, node);
            forall j :: 0 <= j < |values| ==> !Matches(lib, values[j], kind, clean)
  {
    hide Matches;
    AdvanceKeepsMatch(lib, z, node, kind, clean);
  }

  /** Raising the serial and adding a record to a name commute. */
  lemma AdvanceCommutes(z: Zone, node: string, packed: Raw)
    requires HasSoa(z) && Serial(z) + 2 < SERIAL_LIMIT && !IsSoa(packed)
    ensures var once := Advance(z).0;
            var made := once[node := Values(once, node) + [packed]];
            && HasSoa(made) && Serial(made) == Serial(z) + 1
            && Advance(made).0 == Advance(once).0[node := Values(Advance(once).0, node) + [packed]]
  {
    hide Advance, Bumped, IsSoa, FirstSoa;
    AdvanceExact(z);
    var once := Advance(z).0;
    AdvanceExact(once);
    var values := Values(once, node);
    var made := once[node := values + [packed]];
    var i := FirstSoa(once[APEX]);
    if node == APEX {
      AppendKeepsSoa(values, packed);
      AdvanceExact(made);
      assert (values + [packed])[i := Bumped(values[i])] == values[i := Bumped(values[i])] + [packed];
    } else {
      AdvanceExact(made);
    }
  }

  lemma AppendKeepsSoa(values: seq<Raw>, r: Raw)
    requires FirstSoa(values) < |values|
    ensures FirstSoa(values + [r]) == FirstSoa(values)
  {
    FirstSoaIs(values + [r], FirstSoa(values));
  }
}
