/** Which record of a node some data describes, and which one an edit therefore touches (backend/samadcon/ad/dns.py
    286-472, backend/samadcon/ad/dnsrecords.py 449-507). */
module DnsMatching {
  import opened Text
  import opened DnsRecords
  import opened DnsZone

  // --- When data describes a record -------------------------------------------------------------

  function NoDots(s: string): string {
    TrimRight(Strip(s, WHITESPACE), {'.'})
  }

  /** One DNS name, whatever the case, with or without the trailing dot. */
  predicate SameName(a: string, b: string) {
    EqualIgnoringCase(NoDots(a), NoDots(b))
  }

  /** Whether a field of a record agrees with what is asked for: one address, one name, one number, or the same. */
  predicate Agrees(lib: Library, key: string, stored: Val, asked: Val) {
    if key == "address" then
      stored.Plain? && lib.canonicalAddress(stored.text) == lib.canonicalAddress(lib.str(asked))
    else if key == "target" || key == "exchange" || key == "mname" || key == "rname" then
      stored.Plain? && SameName(stored.text, lib.str(asked))
    else if key == "preference" || key == "priority" || key == "weight" || key == "port" || key == "serial"
         || key == "refresh" || key == "retry" || key == "expire" || key == "minimum" then
      stored.Number? && lib.intOf(asked) == Some(stored.n)
    else stored == asked
  }

  /** The record is of the kind, and every field asked for stands in it and agrees. A field it does not have can only be
      asked for as nothing. */
  predicate Describes(lib: Library, r: Raw, kind: string, asked: Data) {
    && r.Packed? && r.kind == kind
    && forall key :: key in asked ==>
         if key in r.data then Agrees(lib, key, r.data[key], asked[key])
         else asked[key] == Null && key != "address" && key != "target" && key != "exchange" && key != "mname"
              && key != "rname"
  }

  /** A record as it can be packed. */
  predicate Shaped(r: Raw) {
    r.Packed? ==> HasShape(r.data) && (r.kind == "TOMBSTONE" ==> r.data == map[])
  }

  lemma {:induction false} TrimTwice(s: string, cs: set<char>)
    ensures TrimRight(TrimRight(s, cs), cs) == TrimRight(s, cs)
  {
  }

  lemma NoDotsTwice(s: string)
    requires forall c :: c in s ==> !IsSpace(c)
    ensures NoDots(TrimRight(s, {'.'})) == NoDots(s)
  {
    var t := TrimRight(s, {'.'});
    NoSpaceStays(s);
    assert forall c :: c in t ==> c in s;
    NoSpaceStays(t);
    TrimTwice(s, {'.'});
  }

  lemma NoSpaceStays(s: string)
    requires forall c :: c in s ==> !IsSpace(c)
    ensures Strip(s, WHITESPACE) == s
  {
    hide IsSpace, Strip;
    if s != "" {
      assert s[0] in s && s[|s| - 1] in s;
    }
    assert CleanEnds(s, WHITESPACE);
  }

  lemma AgreesIff(lib: Library, key: string, stored: Val, asked: Val)
    requires Lawful(lib) && HasShape(map[key := stored])
    ensures ComparableValue(lib, key, DecodedValue(lib, key, stored)) == ComparableValue(lib, key, asked)
       <==> Agrees(lib, key, stored, asked)
  {
    hide Strip, TrimRight, Lower, EqualIgnoringCase, IsSpace;
    var d: Data := map[key := stored];
    assert key in d && d[key] == stored;
    if IsNameField(key) {
      NameFields(key);
      NoDotsTwice(stored.text);
      LowerIff(NoDots(stored.text), NoDots(lib.str(asked)));
    } else if IsNumberField(key) {
      NumberFields(key);
    }
  }

  lemma NameFields(key: string)
    requires IsNameField(key)
    ensures key == "target" || key == "exchange" || key == "mname" || key == "rname"
    ensures key != "address"
  {
    assert "address"[0] == 'a' && "target"[0] == 't' && "exchange"[0] == 'e' && "mname"[0] == 'm' && "rname"[0] == 'r';
  }

  lemma NumberFields(key: string)
    requires IsNumberField(key)
    ensures key != "address" && !IsNameField(key)
    ensures key == "preference" || key == "priority" || key == "weight" || key == "port" || key == "serial"
         || key == "refresh" || key == "retry" || key == "expire" || key == "minimum"
  {
  }

  lemma AbsentIff(lib: Library, key: string, asked: Val)
    requires Lawful(lib)
    ensures Null == ComparableValue(lib, key, asked)
       <==> asked == Null && key != "address" && key != "target" && key != "exchange" && key != "mname" && key != "rname"
  {
    hide Strip, TrimRight, Lower;
    if IsNumberField(key) {
      NumberFields(key);
    }
  }

  /** A record matches exactly the data that describes it. */
  lemma MatchesIff(lib: Library, r: Raw, kind: string, asked: Data)
    requires Lawful(lib) && Shaped(r)
    ensures Matches(lib, r, kind, asked) <==> Describes(lib, r, kind, asked)
  {
    hide Lawful, ComparableValue, DecodedValue, Agrees, HasShape;
    if r.Packed? {
      forall key | key in asked
        ensures Get(Comparable(lib, Decode(lib, r)), key) == ComparableValue(lib, key, asked[key])
           <==> if key in r.data then Agrees(lib, key, r.data[key], asked[key])
                else asked[key] == Null && key != "address" && key != "target" && key != "exchange" && key != "mname"
                     && key != "rname"
      {
        if key in r.data {
          OneField(r.data, key);
          AgreesIff(lib, key, r.data[key], asked[key]);
        } else {
          AbsentIff(lib, key, asked[key]);
        }
      }
    }
  }

  lemma OneField(data: Data, key: string)
    requires HasShape(data) && key in data
    ensures HasShape(map[key := data[key]])
  {
    hide IsNameField, IsNumberField;
  }

  /** What validation lets through can be packed. */
  lemma EncodedIsShaped(lib: Library, kind: string, given: Data, ttl: int, serial: int)
    requires Lawful(lib) && lib.validateData(kind, given).Some?
    ensures Shaped(Encode(kind, lib.validateData(kind, given).value, ttl, serial))
  {
    hide HasShape;
  }

  // --- Which record is touched --------------------------------------------------------------------

  predicate AllShaped(values: seq<Raw>) {
    forall i :: 0 <= i < |values| ==> Shaped(values[i])
  }

  predicate NoneDescribed(lib: Library, values: seq<Raw>, kind: string, asked: Data) {
    forall i :: 0 <= i < |values| ==> !Describes(lib, values[i], kind, asked)
  }

  /** The first record that the data describes. */
  predicate FirstDescribed(lib: Library, values: seq<Raw>, kind: string, asked: Data, i: nat) {
    i < |values| && Describes(lib, values[i], kind, asked) && NoneDescribed(lib, values[..i], kind, asked)
  }

  lemma FoundIsDescribed(lib: Library, values: seq<Raw>, kind: string, asked: Data)
    requires Lawful(lib) && AllShaped(values)
    ensures var i := FirstMatch(lib, values, kind, asked);
            if i < |values| then FirstDescribed(lib, values, kind, asked, i) else NoneDescribed(lib, values, kind, asked)
  {
    hide Matches, Describes, Shaped, Lawful;
    forall i | 0 <= i < |values| ensures Matches(lib, values[i], kind, asked) <==> Describes(lib, values[i], kind, asked) {
      MatchesIff(lib, values[i], kind, asked);
    }
  }

  lemma AdvanceKeepsShape(z: Zone, node: string)
    requires HasSoa(z) && Serial(z) + 1 < SERIAL_LIMIT && AllShaped(Values(z, node))
    ensures AllShaped(Values(Advance(z).0, node))
  {
    hide Advance, HasShape;
    AdvanceExact(z);
    if node == APEX {
      BumpedIsShaped(z[APEX][FirstSoa(z[APEX])]);
    }
  }

  lemma BumpedIsShaped(r: Raw)
    requires IsSoa(r) && Shaped(r)
    ensures Shaped(Bumped(r))
  {
    assert "serial" != "address" && !IsNameField("serial");
  }

  /** A record is refused as a duplicate exactly when one of the node is described by its data; otherwise it is
      added, behind the others. */
  lemma CreateTouches(lib: Library, z: Zone, node: string, kind: string, data: Data, ttl: Option<int>)
    requires Lawful(lib) && HasSoa(z) && Serial(z) + 1 < SERIAL_LIMIT && AllShaped(Values(z, node))
    ensures var (z', r) := Created(lib, z, node, kind, data, ttl);
            var clean := lib.validateData(kind, data);
            && (r == Invalid <==> clean == None || (ttl.Some? && !(0 <= ttl.value <= 2147483647)))
            && (r != Invalid ==> (r == Done <==> NoneDescribed(lib, Values(z, node), kind, clean.value)))
            && (r == Done || r == Invalid || r == RecordExists)
            && (r == Done ==> z' == Advance(z).0[node := Values(Advance(z).0, node)
                                                 + [Encode(kind, clean.value, if ttl == None then 900 else ttl.value,
                                                           Serial(z) + 1)]])
  {
    hide FirstMatch, Describes, Lawful, AllShaped, Encode, Advance;
    AdvanceExact(z);
    if lib.validateData(kind, data).Some? {
      FoundIsDescribed(lib, Values(z, node), kind, lib.validateData(kind, data).value);
    }
  }

  /** An update replaces the first record that the old data describes, and no other. */
  lemma UpdateTouches(lib: Library, z: Zone, node: string, kind: string, oldData: Data, data: Data, ttl: Option<int>)
    requires Lawful(lib) && HasSoa(z) && Serial(z) + 1 < SERIAL_LIMIT && AllShaped(Values(z, node))
    ensures var (z', r) := Updated(lib, z, node, kind, oldData, data, ttl);
            var bumped, clean := Values(Advance(z).0, node), lib.validateData(kind, data);
            && (r == RecordNotFound <==> clean.Some? && ValidateTtl(ttl).Some? && node in z
                                         && NoneDescribed(lib, Values(z, node), kind, oldData))
            && (r == Done ==>
                  exists i: nat :: FirstDescribed(lib, Values(z, node), kind, oldData, i) && i < |bumped| && clean.Some?
                    && ValidateTtl(ttl).Some?
                    && z' == Advance(z).0[node := bumped[i := Encode(kind, clean.value, ValidateTtl(ttl).value,
                                                                     Serial(z) + 1)]])
  {
    hide FirstMatch, FirstDescribed, Lawful, AllShaped, Encode, Advance, NoneDescribed, FirstSoa;
    AdvanceExact(z);
    UpdateExact(lib, z, node, kind, oldData, data, ttl);
    FoundIsDescribed(lib, Values(z, node), kind, oldData);
    NotBoth(lib, Values(z, node), kind, oldData);
    if Updated(lib, z, node, kind, oldData, data, ttl).1 == Done {
      var i := FirstMatch(lib, z[node], kind, oldData);
      assert FirstDescribed(lib, Values(z, node), kind, oldData, i) && i < |Values(Advance(z).0, node)| by {
        ValidKind(lib, kind, data);
        AdvanceKeepsMatch(lib, z, node, kind, oldData);
      }
    }
  }

  /** A deletion takes out the first record that the data describes, and leaves the others; a record the data does not
      describe is never taken. */
  lemma DeleteTouches(lib: Library, z: Zone, node: string, kind: string, data: Data)
    requires Lawful(lib) && HasSoa(z) && Serial(z) + 1 < SERIAL_LIMIT && AllShaped(Values(z, node))
    ensures var (z', r) := Deleted(lib, z, node, kind, data);
            var bumped := Values(Advance(z).0, node);
            && (r == RecordNotFound <==> node in z && NoneDescribed(lib, z[node], kind, data))
            && (r == Done ==>
                  exists i: nat :: FirstDescribed(lib, bumped, kind, data, i)
                    && z' == if |bumped| == 1 then Advance(z).0 - {node}
                             else Advance(z).0[node := bumped[..i] + bumped[i + 1..]])
  {
    hide FirstMatch, FirstDescribed, Lawful, AllShaped, Advance, NoneDescribed, FirstSoa, Matches, NamesOldSoa;
    DeleteExact(lib, z, node, kind, data);
    SomeMatchIs(lib, Values(z, node), kind, data);
    FoundIsDescribed(lib, Values(z, node), kind, data);
    AdvanceKeepsShape(z, node);
    FoundIsDescribed(lib, Values(Advance(z).0, node), kind, data);
    NotBoth(lib, Values(z, node), kind, data);
  }

  lemma NotBoth(lib: Library, values: seq<Raw>, kind: string, data: Data)
    ensures forall i :: !(FirstDescribed(lib, values, kind, data, i) && NoneDescribed(lib, values, kind, data))
  {
    hide Describes;
  }

  // --- Two addresses of one name --------------------------------------------------------------------

  function AddressRecord(address: string, ttl: int, serial: int): Raw {
    Encode("A", map["address" := Plain(address)], ttl, serial)
  }

  /** Of two addresses exactly the one that is named goes. */
  lemma TheOtherAddress(lib: Library, z: Zone, node: string, x: string, y: string, ttl: int, serial: int)
    requires Lawful(lib) && HasSoa(z) && Serial(z) + 1 < SERIAL_LIMIT && node != APEX
    requires node in z && z[node] == [AddressRecord(x, ttl, serial), AddressRecord(y, ttl, serial)]
    requires lib.canonicalAddress(x) != lib.canonicalAddress(y)
    ensures var (z', r) := Deleted(lib, z, node, "A", map["address" := Plain(y)]);
            r == Done && node in z' && z'[node] == [AddressRecord(x, ttl, serial)]
  {
    hide Advance, FirstMatch, Matches, FirstSoa, Lawful, Describes, Deleted;
    var first, second := AddressRecord(x, ttl, serial), AddressRecord(y, ttl, serial);
    var data: Data := map["address" := Plain(y)];
    AdvanceExact(z);
    AddressDescribed(lib, x, y, ttl, serial);
    AddressDescribed(lib, y, y, ttl, serial);
    assert Values(Advance(z).0, node) == [first, second];
    DeleteTouches(lib, z, node, "A", data);
    DeleteExact(lib, z, node, "A", data);
    assert Describes(lib, z[node][1], "A", data);
    var (z', r) := Deleted(lib, z, node, "A", data);
    if r == Done {
      var i: nat :| FirstDescribed(lib, [first, second], "A", data, i)
        && z' == Advance(z).0[node := [first, second][..i] + [first, second][i + 1..]];
      assert i == 1;
      assert [first, second][..1] + [first, second][2..] == [first];
    }
  }

  /** A second address can be added beside the first. */
  lemma AddBeside(lib: Library, z: Zone, node: string, x: string, y: string, ttl: int, serial: int, given: Data)
    requires Lawful(lib) && HasSoa(z) && Serial(z) + 1 < SERIAL_LIMIT && node != APEX
    requires node in z && z[node] == [AddressRecord(x, ttl, serial)]
    requires lib.canonicalAddress(x) != lib.canonicalAddress(y)
    requires lib.validateData("A", given) == Some(map["address" := Plain(y)]) && 0 <= ttl <= MAX_TTL
    ensures var (z', r) := Created(lib, z, node, "A", given, Some(ttl));
            r == Done && node in z'
            && z'[node] == [AddressRecord(x, ttl, serial), AddressRecord(y, ttl, Serial(z) + 1)]
  {
    hide Advance, FirstMatch, Matches, FirstSoa, Lawful, Describes, Created;
    AdvanceExact(z);
    AddressDescribed(lib, x, y, ttl, serial);
    assert Values(Advance(z).0, node) == z[node];
    CreateTouches(lib, z, node, "A", given, Some(ttl));
  }

  lemma AddressDescribed(lib: Library, stored: string, asked: string, ttl: int, serial: int)
    requires Lawful(lib)
    ensures Shaped(AddressRecord(stored, ttl, serial))
    ensures Describes(lib, AddressRecord(stored, ttl, serial), "A", map["address" := Plain(asked)])
       <==> lib.canonicalAddress(stored) == lib.canonicalAddress(asked)
  {
    var data: Data := map["address" := Plain(stored)];
    assert data["address"] == Plain(stored);
    assert "A" != "TOMBSTONE";
    assert lib.str(Plain(asked)) == asked;
    assert !IsNumberField("address") && !IsNameField("address");
  }
}
