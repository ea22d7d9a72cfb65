/** Editing the records of a zone (backend/samadcon/ad/dns.py). */
module DnsZone {
  import opened Text
  import opened DnsRecords

  /** Every name of the zone with its values. */
  type Zone = map<string, seq<Raw>>

  const APEX := "@"

  datatype Outcome =
    | Done
    | Invalid
    | RecordExists
    | NameNotFound
    | RecordNotFound
    | RecordVanished

  function Values(z: Zone, node: string): seq<Raw> {
    if node in z then z[node] else []
  }

  /** The position of the first value that can be bumped, or the number of values. */
  function FirstBumpable(values: seq<Raw>): (i: nat)
    ensures i <= |values|
    ensures forall j :: 0 <= j < i ==> BumpSoaSerial(values[j]) == None
    ensures i < |values| ==> BumpSoaSerial(values[i]).Some?
  {
    if values == [] || BumpSoaSerial(values[0]).Some? then 0 else 1 + FirstBumpable(values[1..])
  }

  /** The zone with its serial raised, and the serial a record written now carries. */
  function Advance(z: Zone): (Zone, int) {
    var values := Values(z, APEX);
    var i := FirstBumpable(values);
    if i == |values| then (z, 1)
    else
      var (replacement, serial) := BumpSoaSerial(values[i]).value;
      (z[APEX := values[i := replacement]], serial)
  }

  /** The position of the first value that matches, or the number of values. */
  function FirstMatch(lib: Library, values: seq<Raw>, kind: string, data: Data): (i: nat)
    ensures i <= |values|
    ensures forall j :: 0 <= j < i ==> !Matches(lib, values[j], kind, data)
    ensures i < |values| ==> Matches(lib, values[i], kind, data)
  {
    if values == [] || Matches(lib, values[0], kind, data) then 0
    else 1 + FirstMatch(lib, values[1..], kind, data)
  }

  function Created(lib: Library, z: Zone, node: string, kind: string, data: Data, ttl: Option<int>): (Zone, Outcome) {
    var clean, seconds := lib.validateData(kind, data), ValidateTtl(ttl);
    if clean == None || seconds == None then (z, Invalid)
    else if FirstMatch(lib, Values(z, node), kind, clean.value) < |Values(z, node)| then (z, RecordExists)
    else
      var (z', serial) := Advance(z);
      (z'[node := Values(z', node) + [Encode(kind, clean.value, seconds.value, serial)]], Done)
  }

  function Updated(
    lib: Library, z: Zone, node: string, kind: string, oldData: Data, data: Data, ttl: Option<int>): (Zone, Outcome)
  {
    var clean, seconds := lib.validateData(kind, data), ValidateTtl(ttl);
    if clean == None || seconds == None then (z, Invalid)
    else if node !in z then (z, NameNotFound)
    else if FirstMatch(lib, z[node], kind, oldData) == |z[node]| then (z, RecordNotFound)
    else
      var (z', serial) := Advance(z);
      var values := Values(z', node);
      var i := FirstMatch(lib, values, kind, oldData);
      if i == |values| then (z', RecordVanished)
      else (z'[node := values[i := Encode(kind, clean.value, seconds.value, serial)]], Done)
  }

  function Deleted(lib: Library, z: Zone, node: string, kind: string, data: Data): (Zone, Outcome) {
    if node !in z then (z, NameNotFound)
    else if FirstMatch(lib, z[node], kind, data) == |z[node]| then (z, RecordNotFound)
    else
      var z' := Advance(z).0;
      var values := Values(z', node);
      var i := FirstMatch(lib, values, kind, data);
      if i == |values| then (z', RecordVanished)
      else
        var kept := values[..i] + values[i + 1..];
        (if kept == [] then z' - {node} else z'[node := kept], Done)
  }

  // --- The source's loops ---------------------------------------------------------------

  class DnsZoneEditor {
    const lib: Library
    var nodes: Zone

    constructor (lib: Library, nodes: Zone)
      ensures this.lib == lib && this.nodes == nodes
    {
      this.lib := lib;
      this.nodes := nodes;
    }

    method AdvanceZoneSerial() returns (serial: int)
      modifies this`nodes
      ensures (nodes, serial) == Advance(old(nodes))
    {
      if APEX !in nodes {
        return 1;
      }
      var existing := nodes[APEX];
      var updated: seq<Raw> := [];
      serial := 1;
      var bumped := false;
      ghost var at := FirstBumpable(existing);
      for i := 0 to |existing|
        invariant |updated| == i
        invariant bumped <==> at < i
        invariant serial == if bumped then BumpSoaSerial(existing[at]).value.1 else 1
        invariant forall j :: 0 <= j < i ==>
                    updated[j] == if j == at then BumpSoaSerial(existing[at]).value.0 else existing[j]
      {
        if !bumped {
          var replacement := BumpSoaSerial(existing[i]);
          if replacement == None {
            updated := updated + [existing[i]];
            continue;
          }
          serial := replacement.value.1;
          updated := updated + [replacement.value.0];
          bumped := true;
        } else {
          updated := updated + [existing[i]];
        }
      }
      if !bumped {
        return 1;
      }
      assert updated == existing[at := BumpSoaSerial(existing[at]).value.0];
      nodes := nodes[APEX := updated];
    }

    method Create(node: string, kind: string, data: Data, ttl: Option<int>) returns (r: Outcome)
      modifies this`nodes
      ensures (nodes, r) == Created(lib, old(nodes), node, kind, data, ttl)
    {
      hide Matches, Advance;
      var clean, seconds := lib.validateData(kind, data), ValidateTtl(ttl);
      if clean == None || seconds == None {
        return Invalid;
      }
      if FirstMatch(lib, Values(nodes, node), kind, clean.value) < |Values(nodes, node)| {
        return RecordExists;
      }
      var serial := AdvanceZoneSerial();
      var packed := Encode(kind, clean.value, seconds.value, serial);
      if node !in nodes {
        nodes := nodes[node := [packed]];
        assert [] + [packed] == [packed];
      } else {
        nodes := nodes[node := nodes[node] + [packed]];
      }
      return Done;
    }

    method Update(node: string, kind: string, oldData: Data, data: Data, ttl: Option<int>) returns (r: Outcome)
      modifies this`nodes
      ensures (nodes, r) == Updated(lib, old(nodes), node, kind, oldData, data, ttl)
    {
      hide Matches, Advance;
      var clean, seconds := lib.validateData(kind, data), ValidateTtl(ttl);
      if clean == None || seconds == None {
        return Invalid;
      }
      if node !in nodes {
        return NameNotFound;
      }
      if FirstMatch(lib, nodes[node], kind, oldData) == |nodes[node]| {
        return RecordNotFound;
      }
      var serial := AdvanceZoneSerial();
      var existing := Values(nodes, node);
      var packed := Encode(kind, clean.value, seconds.value, serial);
      var replaced := false;
      var updated: seq<Raw> := [];
      ghost var at := FirstMatch(lib, existing, kind, oldData);
      for i := 0 to |existing|
        invariant |updated| == i
        invariant replaced <==> at < i
        invariant forall j :: 0 <= j < i ==> updated[j] == if j == at then packed else existing[j]
      {
        if !replaced && Matches(lib, existing[i], kind, oldData) {
          updated := updated + [packed];
          replaced := true;
        } else {
          updated := updated + [existing[i]];
        }
      }
      if !replaced {
        return RecordVanished;
      }
      assert updated == existing[at := packed];
      nodes := nodes[node := updated];
      return Done;
    }

    method Delete(node: string, kind: string, data: Data) returns (r: Outcome)
      modifies this`nodes
      ensures (nodes, r) == Deleted(lib, old(nodes), node, kind, data)
    {
      hide Matches, Advance, FirstMatch, Values;
      if node !in nodes {
        return NameNotFound;
      }
      if FirstMatch(lib, nodes[node], kind, data) == |nodes[node]| {
        return RecordNotFound;
      }
      var serial := AdvanceZoneSerial();
      var existing := Values(nodes, node);
      var kept: seq<Raw> := [];
      var removed := false;
      ghost var at := FirstMatch(lib, existing, kind, data);
      for i := 0 to |existing|
        invariant removed <==> at < i
        invariant kept == if removed then existing[..at] + existing[at + 1..i] else existing[..i]
      {
        if !removed && Matches(lib, existing[i], kind, data) {
          removed := true;
          assert at == i && existing[at + 1..i + 1] == [];
          continue;
        }
        kept := kept + [existing[i]];
        assert existing[..i] + [existing[i]] == existing[..i + 1];
        if removed {
          assert existing[at + 1..i] + [existing[i]] == existing[at + 1..i + 1];
        }
      }
      assert kept == if removed then existing[..at] + existing[at + 1..] else existing;
      if !removed {
        return RecordVanished;
      }
      if kept != [] {
        nodes := nodes[node := kept];
      } else {
        nodes := nodes - {node};
      }
      return Done;
    }
  }

  // --- The SOA of a zone -----------------------------------------------------------------

  /** The position of the first readable SOA, or the number of values. */
  function FirstSoa(values: seq<Raw>): (i: nat)
    ensures i <= |values|
    ensures forall j :: 0 <= j < i ==> !IsSoa(values[j])
    ensures i < |values| ==> IsSoa(values[i])
  {
    if values == [] || IsSoa(values[0]) then 0 else 1 + FirstSoa(values[1..])
  }

  predicate HasSoa(z: Zone) {
    APEX in z && FirstSoa(z[APEX]) < |z[APEX]|
  }

  function Serial(z: Zone): int
    requires HasSoa(z)
  {
    SoaSerial(z[APEX][FirstSoa(z[APEX])])
  }

  lemma FirstSoaIs(values: seq<Raw>, i: nat)
    requires i < |values| && IsSoa(values[i]) && forall j :: 0 <= j < i ==> !IsSoa(values[j])
    ensures FirstSoa(values) == i
  {
  }

  lemma FirstMatchIs(lib: Library, values: seq<Raw>, kind: string, data: Data, i: nat)
    requires i < |values| && Matches(lib, values[i], kind, data)
    requires forall j :: 0 <= j < i ==> !Matches(lib, values[j], kind, data)
    ensures FirstMatch(lib, values, kind, data) == i
  {
  }

  /** Raising the serial changes one value of the apex, and of that value only the serial. */
  lemma AdvanceExact(z: Zone)
    requires HasSoa(z) && Serial(z) + 1 < SERIAL_LIMIT
    ensures var i := FirstSoa(z[APEX]);
            Advance(z) == (z[APEX := z[APEX][i := Bumped(z[APEX][i])]], Serial(z) + 1)
    ensures HasSoa(Advance(z).0) && Serial(Advance(z).0) == Serial(z) + 1
            && FirstSoa(Advance(z).0[APEX]) == FirstSoa(z[APEX])
  {
    var values := z[APEX];
    var i, k := FirstSoa(values), FirstBumpable(values);
    assert i == k;
    FirstSoaIs(values[i := Bumped(values[i])], i);
  }

  /** Raising the serial moves no match of an editable kind. */
  lemma AdvanceKeepsMatch(lib: Library, z: Zone, node: string, kind: string, data: Data)
    requires HasSoa(z) && Serial(z) + 1 < SERIAL_LIMIT && kind in EDITABLE_TYPES
    ensures var z' := Advance(z).0;
            && |Values(z', node)| == |Values(z, node)|
            && FirstMatch(lib, Values(z', node), kind, data) == FirstMatch(lib, Values(z, node), kind, data)
            && (node in z' <==> node in z)
            && forall i :: 0 <= i < |Values(z, node)| && Matches(lib, Values(z, node)[i], kind, data) ==>
                 Values(z', node)[i] == Values(z, node)[i]
  {
    hide Matches, Advance, Bumped, FirstMatch, FirstSoa, IsSoa;
    AdvanceExact(z);
    var old', new' := Values(z, node), Values(Advance(z).0, node);
    if node == APEX {
      var s, i := FirstSoa(z[APEX]), FirstMatch(lib, old', kind, data);
      SoaNeverMatches(lib, old'[s], kind, data);
      SoaNeverMatches(lib, new'[s], kind, data);
      if i < |old'| {
        FirstMatchIs(lib, new', kind, data, i);
      }
    }
  }

  lemma SoaNeverMatches(lib: Library, r: Raw, kind: string, data: Data)
    requires IsSoa(r) && kind in EDITABLE_TYPES
    ensures !Matches(lib, r, kind, data)
  {
  }

  // --- What one operation does --------------------------------------------------------------

  /** A successful update replaces exactly the first matching value; every other value of the
      name stays byte for byte, except the SOA's serial at the apex. */
  lemma UpdateExact(lib: Library, z: Zone, node: string, kind: string, oldData: Data, data: Data, ttl: Option<int>)
    requires Lawful(lib) && HasSoa(z) && Serial(z) + 1 < SERIAL_LIMIT
    ensures var (z', r) := Updated(lib, z, node, kind, oldData, data, ttl);
            && r != RecordVanished
            && (r != Done ==> z' == z)
            && (r == Done ==>
                  var i := FirstMatch(lib, z[node], kind, oldData);
                  var bumped := Advance(z).0;
                  && node in z && i < |z[node]| && lib.validateData(kind, data).Some? && ValidateTtl(ttl).Some?
                  && (node != APEX || i != FirstSoa(z[APEX]))
                  && z' == bumped[node := bumped[node][i := Encode(kind, lib.validateData(kind, data).value,
                                                                   ValidateTtl(ttl).value, Serial(z) + 1)]])
  {
    hide Matches, FirstMatch, FirstSoa, Lawful, Advance, Encode, Bumped;
    if lib.validateData(kind, data).Some? {
      assert kind in EDITABLE_TYPES by { ValidKind(lib, kind, data); }
      AdvanceKeepsMatch(lib, z, node, kind, oldData);
      AdvanceExact(z);
      SoaNeverMatches(lib, z[APEX][FirstSoa(z[APEX])], kind, oldData);
    }
  }

  lemma ValidKind(lib: Library, kind: string, data: Data)
    requires Lawful(lib) && lib.validateData(kind, data).Some?
    ensures kind in EDITABLE_TYPES
  {
  }

  /** A deletion of an editable kind takes out exactly the value that was found first, never the SOA, and the name
      with its last value. */
  lemma DeleteEditable(lib: Library, z: Zone, node: string, kind: string, data: Data)
    requires HasSoa(z) && Serial(z) + 1 < SERIAL_LIMIT && kind in EDITABLE_TYPES
    ensures var (z', r) := Deleted(lib, z, node, kind, data);
            && r != RecordVanished
            && (r != Done ==> z' == z)
            && (r == Done ==>
                  var i := FirstMatch(lib, z[node], kind, data);
                  var bumped := Advance(z).0;
                  && node in z && i < |z[node]| && (node != APEX || i != FirstSoa(z[APEX]))
                  && var kept := bumped[node][..i] + bumped[node][i + 1..];
                     z' == if kept == [] then bumped - {node} else bumped[node := kept])
  {
    hide Matches, FirstMatch, FirstSoa, Advance, Bumped;
    AdvanceKeepsMatch(lib, z, node, kind, data);
    AdvanceExact(z);
    SoaNeverMatches(lib, z[APEX][FirstSoa(z[APEX])], kind, data);
  }

  // --- Deletions of any kind ------------------------------------------------------------------

  /** The SOA as the second read finds it: the other fields match as before, and a serial that is asked for has to be
      the new one. */
  lemma BumpedMatches(lib: Library, r: Raw, kind: string, data: Data)
    requires Lawful(lib) && IsSoa(r)
    ensures Matches(lib, Bumped(r), kind, data)
        <==> Matches(lib, r, kind, data - {"serial"})
             && ("serial" in data ==> ComparableValue(lib, "serial", data["serial"]) == Number(SoaSerial(r) + 1))
    ensures Matches(lib, r, kind, data)
        <==> Matches(lib, r, kind, data - {"serial"})
             && ("serial" in data ==> ComparableValue(lib, "serial", data["serial"]) == Number(SoaSerial(r)))
    ensures "serial" !in data ==> data - {"serial"} == data
  {
    var b := Bumped(r);
    forall key | key != "serial" ensures Get(Comparable(lib, Decode(lib, b)), key) == Get(Comparable(lib, Decode(lib, r)), key) {
    }
    SerialOf(lib, r);
    SerialOf(lib, b);
    forall key | key in data && key != "serial" ensures key in data - {"serial"} {
    }
    if "serial" !in data {
      assert data - {"serial"} == data;
    }
  }

  lemma SerialOf(lib: Library, r: Raw)
    requires Lawful(lib) && IsSoa(r)
    ensures Get(Comparable(lib, Decode(lib, r)), "serial") == Number(SoaSerial(r))
  {
    assert IsNumberField("serial") && !IsNameField("serial");
  }

  /** The data names the SOA by the serial the deletion is about to raise, and no other value. */
  predicate NamesOldSoa(lib: Library, z: Zone, node: string, kind: string, data: Data)
    requires HasSoa(z)
  {
    var a, s := z[APEX], FirstSoa(z[APEX]);
    && node == APEX && "serial" in data && Matches(lib, a[s], kind, data)
    && forall j :: 0 <= j < |a| && j != s ==> !Matches(lib, a[j], kind, data)
  }

  predicate SomeMatch(lib: Library, values: seq<Raw>, kind: string, data: Data) {
    exists j :: 0 <= j < |values| && Matches(lib, values[j], kind, data)
  }

  lemma SomeMatchIs(lib: Library, values: seq<Raw>, kind: string, data: Data)
    ensures SomeMatch(lib, values, kind, data) <==> FirstMatch(lib, values, kind, data) < |values|
  {
    hide Matches;
  }

  /** The second read finds a match exactly when the first did and the data does not name the SOA by its old serial
      alone. */
  lemma StillThere(lib: Library, z: Zone, node: string, kind: string, data: Data)
    requires Lawful(lib) && HasSoa(z) && Serial(z) + 1 < SERIAL_LIMIT && SomeMatch(lib, Values(z, node), kind, data)
    ensures |Values(Advance(z).0, node)| == |Values(z, node)|
    ensures SomeMatch(lib, Values(Advance(z).0, node), kind, data) <==> !NamesOldSoa(lib, z, node, kind, data)
  {
    hide Matches, FirstSoa, Advance, Bumped, Lawful, Comparable, ComparableValue;
    AdvanceExact(z);
    var a, b := Values(z, node), Values(Advance(z).0, node);
    if node != APEX {
      assert b == a;
    } else {
      var s := FirstSoa(a);
      BumpedMatches(lib, a[s], kind, data);
      assert b == a[s := Bumped(a[s])];
      forall j | 0 <= j < |a| && j != s ensures b[j] == a[j] {
      }
      if !NamesOldSoa(lib, z, node, kind, data) {
        var j :| 0 <= j < |a| && Matches(lib, a[j], kind, data) && (j != s || "serial" !in data);
        assert Matches(lib, b[j], kind, data);
      }
    }
  }

  /** What a deletion does, whatever the kind and the data. The serial is raised, and the record then not found,
      exactly when the data names the SOA by its serial and no other value. */
  lemma DeleteExact(lib: Library, z: Zone, node: string, kind: string, data: Data)
    requires Lawful(lib) && HasSoa(z) && Serial(z) + 1 < SERIAL_LIMIT
    ensures var (z', r) := Deleted(lib, z, node, kind, data);
            var bumped := Advance(z).0;
            var b := Values(bumped, node);
            var i := FirstMatch(lib, b, kind, data);
            && (r == NameNotFound <==> node !in z)
            && (r == RecordNotFound <==> node in z && !SomeMatch(lib, z[node], kind, data))
            && (r == RecordVanished <==> NamesOldSoa(lib, z, node, kind, data))
            && (r == Done <==> node in z && SomeMatch(lib, z[node], kind, data) && !NamesOldSoa(lib, z, node, kind, data))
            && (r == NameNotFound || r == RecordNotFound ==> z' == z)
            && (r == RecordVanished ==> z' == bumped)
            && (r == Done ==>
                  && i < |b| == |z[node]|
                  && z' == if |b| == 1 then bumped - {node} else bumped[node := b[..i] + b[i + 1..]])
  {
    hide Matches, FirstMatch, FirstSoa, Advance, Bumped, Lawful;
    SomeMatchIs(lib, Values(z, node), kind, data);
    SomeMatchIs(lib, Values(Advance(z).0, node), kind, data);
    if SomeMatch(lib, Values(z, node), kind, data) {
      StillThere(lib, z, node, kind, data);
    }
  }

  /** The data fits the raised SOA before any other value of the apex. */
  predicate FitsSoa(lib: Library, z: Zone, kind: string, data: Data)
    requires HasSoa(z)
  {
    var a, s := z[APEX], FirstSoa(z[APEX]);
    && Matches(lib, a[s], kind, data - {"serial"})
    && (forall j :: 0 <= j < s ==> !Matches(lib, a[j], kind, data))
    && ("serial" in data ==>
          && ComparableValue(lib, "serial", data["serial"]) == Number(SoaSerial(a[s]) + 1)
          && SomeMatch(lib, a, kind, data))
  }

  lemma FirstMatchAt(lib: Library, values: seq<Raw>, kind: string, data: Data, k: nat)
    requires k < |values|
    ensures FirstMatch(lib, values, kind, data) == k
        <==> Matches(lib, values[k], kind, data) && forall j :: 0 <= j < k ==> !Matches(lib, values[j], kind, data)
  {
    hide Matches;
  }

  /** A deletion takes the SOA out exactly when the data fits it: without a serial, or with the next one while another
      value matches. */
  lemma SoaTaken(lib: Library, z: Zone, node: string, kind: string, data: Data)
    requires Lawful(lib) && HasSoa(z) && Serial(z) + 1 < SERIAL_LIMIT
    ensures Deleted(lib, z, node, kind, data).1 == Done && node == APEX
            && FirstMatch(lib, Values(Advance(z).0, APEX), kind, data) == FirstSoa(z[APEX])
        <==> node == APEX && FitsSoa(lib, z, kind, data)
  {
    hide Matches, FirstMatch, FirstSoa, Advance, Bumped, Lawful, Deleted, ComparableValue;
    if node == APEX {
      AdvanceExact(z);
      DeleteExact(lib, z, node, kind, data);
      var a, s, b := z[APEX], FirstSoa(z[APEX]), Values(Advance(z).0, APEX);
      BumpedMatches(lib, a[s], kind, data);
      if "serial" !in data {
        assert Matches(lib, a[s], kind, data) ==> SomeMatch(lib, a, kind, data);
      }
      assert forall j :: 0 <= j < |a| && j != s ==> b[j] == a[j];
      FirstMatchAt(lib, b, kind, data, s);
    }
  }

  /** It takes the whole apex away exactly when the SOA is its only value and the data fits it without a serial. */
  lemma ApexTaken(lib: Library, z: Zone, node: string, kind: string, data: Data)
    requires Lawful(lib) && HasSoa(z) && Serial(z) + 1 < SERIAL_LIMIT
    ensures APEX !in Deleted(lib, z, node, kind, data).0
        <==> node == APEX && |z[APEX]| == 1 && "serial" !in data && Matches(lib, z[APEX][0], kind, data)
  {
    hide Matches, FirstMatch, FirstSoa, Advance, Bumped, Lawful, Deleted, ComparableValue;
    AdvanceExact(z);
    DeleteExact(lib, z, node, kind, data);
    if node == APEX && |z[APEX]| == 1 {
      BumpedMatches(lib, z[APEX][0], kind, data);
    }
  }
}
