/** Records of a DNS node and how two of them are compared (backend/samadcon/ad/dnsrecords.py). */
module DnsRecords {
  import opened Text

  /** A field of a record as a client or the directory gives it. */
  datatype Val = Null | Plain(text: string) | Number(n: int) | Strings(texts: seq<string>)

  type Data = map<string, Val>

  /** One value of the dnsRecord attribute: a packed record, which unpacking gives back as it
      was packed, or bytes that cannot be unpacked. */
  datatype Raw =
    | Packed(kind: string, ttl: int, serial: int, rank: int, timestamp: int, data: Data)
    | Unreadable(bytes: seq<int>)

  /** Library functions the comparison and the validation rest on. */
  datatype Library = Library(
    canonicalAddress: string -> string,
    str: Val -> string,
    intOf: Val -> Option<int>,
    validateData: (string, Data) -> Option<Data>)

  const EDITABLE_TYPES: set<string> := {"A", "AAAA", "CNAME", "NS", "PTR", "MX", "SRV", "TXT"}

  const RANK_ZONE := 240
  const DEFAULT_TTL := 900
  const MAX_TTL := 2147483647
  const SERIAL_LIMIT := 0x1_0000_0000

  predicate IsNameField(key: string) {
    key == "target" || key == "exchange" || key == "mname" || key == "rname"
  }

  predicate IsNumberField(key: string) {
    || key == "preference" || key == "priority" || key == "weight" || key == "port" || key == "serial"
    || key == "refresh" || key == "retry" || key == "expire" || key == "minimum"
  }

  /** What validation leaves of a name: no white space, no trailing dot. */
  predicate CleanName(s: string) {
    (forall c :: c in s ==> !IsSpace(c)) && (s != "" ==> s[|s| - 1] != '.')
  }

  /** Fields as packing takes and unpacking gives them: texts for addresses and names, numbers for numbers. */
  predicate HasShape(data: Data) {
    forall key :: key in data ==>
      && (key == "address" ==> data[key].Plain?)
      && (IsNameField(key) ==> data[key].Plain? && forall c :: c in data[key].text ==> !IsSpace(c))
      && (IsNumberField(key) ==> data[key].Number?)
  }

  ghost predicate Lawful(lib: Library) {
    && (forall s: string :: lib.canonicalAddress(lib.canonicalAddress(s)) == lib.canonicalAddress(s))
    && (forall s: string :: lib.str(Plain(s)) == s)
    && (forall n: int :: lib.intOf(Number(n)) == Some(n)) && lib.intOf(Null) == None
    && (forall kind: string, data: Data :: lib.validateData(kind, data).Some? ==>
          kind in EDITABLE_TYPES && HasShape(lib.validateData(kind, data).value)
          && forall key :: key in lib.validateData(kind, data).value && IsNameField(key) ==>
               var v := lib.validateData(kind, data).value[key]; v.Plain? && CleanName(v.text))
  }

  function ValidateTtl(ttl: Option<int>): Option<int> {
    match ttl
    case None => Some(DEFAULT_TTL)
    case Some(n) => if n < 0 || n > MAX_TTL then None else Some(n)
  }

  function ComparableValue(lib: Library, key: string, v: Val): Val {
    if key == "address" then Plain(lib.canonicalAddress(lib.str(v)))
    else if IsNameField(key) then Plain(Lower(TrimRight(Strip(lib.str(v), WHITESPACE), {'.'})))
    else if IsNumberField(key) then
      match lib.intOf(v) case Some(n) => Number(n) case None => v
    else v
  }

  /** Data in the form two records are compared in. */
  function Comparable(lib: Library, data: Data): Data {
    map key | key in data :: ComparableValue(lib, key, data[key])
  }

  /** A field as decoding shows it. */
  function DecodedValue(lib: Library, key: string, v: Val): Val {
    if !v.Plain? then v
    else if key == "address" then Plain(lib.canonicalAddress(v.text))
    else if IsNameField(key) then Plain(TrimRight(v.text, {'.'}))
    else v
  }

  function Decode(lib: Library, r: Raw): Data
    requires r.Packed?
  {
    if r.kind == "TOMBSTONE" then map[]
    else map key | key in r.data :: DecodedValue(lib, key, r.data[key])
  }

  function Get(data: Data, key: string): Val {
    if key in data then data[key] else Null
  }

  /** Whether a record is of the kind and has every field of *data*. */
  predicate Matches(lib: Library, r: Raw, kind: string, data: Data) {
    && r.Packed? && r.kind == kind
    && forall key :: key in data ==>
         Get(Comparable(lib, Decode(lib, r)), key) == ComparableValue(lib, key, data[key])
  }

  function Encode(kind: string, data: Data, ttl: int, serial: int): Raw {
    Packed(kind, ttl, serial, RANK_ZONE, 0, data)
  }

  predicate IsSoa(r: Raw) {
    r.Packed? && r.kind == "SOA" && "serial" in r.data && r.data["serial"].Number?
  }

  function SoaSerial(r: Raw): int
    requires IsSoa(r)
  {
    r.data["serial"].n
  }

  /** The SOA record with its serial one higher and nothing else changed. */
  function Bumped(r: Raw): Raw
    requires IsSoa(r)
  {
    var n := SoaSerial(r) + 1;
    r.(serial := n, data := r.data["serial" := Number(n)])
  }

  /** None where the source raises: no readable SOA, or a serial that no longer fits. */
  function BumpSoaSerial(r: Raw): Option<(Raw, int)> {
    if IsSoa(r) && SoaSerial(r) + 1 < SERIAL_LIMIT then Some((Bumped(r), SoaSerial(r) + 1)) else None
  }

  /** A record just written is found by the data it was written from. */
  lemma EncodedMatches(lib: Library, kind: string, given: Data, ttl: int, serial: int)
    requires Lawful(lib) && lib.validateData(kind, given).Some?
    ensures Matches(lib, Encode(kind, lib.validateData(kind, given).value, ttl, serial),
                    kind, lib.validateData(kind, given).value)
  {
    var data := lib.validateData(kind, given).value;
    var r := Encode(kind, data, ttl, serial);
    assert kind != "TOMBSTONE";
    forall key | key in data
      ensures Get(Comparable(lib, Decode(lib, r)), key) == ComparableValue(lib, key, data[key])
    {
      if IsNameField(key) {
        CleanNameStays(data[key].text);
      }
    }
  }

  lemma CleanNameStays(s: string)
    requires CleanName(s)
    ensures TrimRight(s, {'.'}) == s && Strip(s, WHITESPACE) == s
  {
    if s != "" {
      assert s[0] in s && s[|s| - 1] in s;
    }
  }
}
