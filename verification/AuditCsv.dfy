/** Setting audit subcategories in the rows of audit.csv (backend/samadcon/gpo/audit_csv.py). */
module AuditCsv {
  import opened Text
  import opened Numerals

  type Row = seq<string>

  datatype AuditFile = AuditFile(header: Row, rows: seq<Row>)

  datatype Language = German | English

  /** A subcategory: its GUID in lower case and its names. */
  datatype Subcategory = Subcategory(guid: string, german: string, english: string)

  type Catalogue = seq<Subcategory>

  type Wanted = map<string, Option<int>>

  datatype Error = UnknownSubcategory(guid: string) | InvalidValue(value: int)

  function LanguageOf(f: AuditFile): Language {
    if f.header != [] && f.header[0] == "Computername" then German else English
  }

  predicate IsGuid(g: string) {
    |g| == 38 && g[0] == '{' && g[37] == '}' && forall i :: 1 <= i < 37 ==> GuidChar(g[i])
  }

  predicate GuidChar(c: char) {
    '0' <= c <= '9' || 'a' <= c <= 'f' || 'A' <= c <= 'F' || c == '-'
  }

  /** The subcategory a row configures, or None for an option or a SACL row. */
  function RowGuid(row: Row): Option<string> {
    if |row| < 7 then None
    else
      var guid := Strip(row[3], WHITESPACE);
      if IsGuid(guid) then Some(Lower(guid)) else None
  }

  /** The value a row gives to the subcategory *g*, when it is that row and can be read. */
  function RowValue(row: Row, g: string): Option<int> {
    if RowGuid(row) == Some(g) then ParseInt(row[6]) else None
  }

  /** The value a subcategory ends up with: the last row that names it with a number. */
  function LastValue(rows: seq<Row>, g: string): Option<int> {
    if rows == [] then None
    else
      var rest := LastValue(rows[1..], g);
      if rest.Some? then rest else RowValue(rows[0], g)
  }

  /** The map holds each subcategory's last value, and nothing else. */
  ghost predicate Gathered(found: map<string, int>, rows: seq<Row>) {
    forall g :: (g in found <==> LastValue(rows, g).Some?)
             && (g in found ==> found[g] == LastValue(rows, g).value)
  }

  lemma NothingGathered()
    ensures Gathered(map[], [])
  {
  }

  lemma OneMore(found: map<string, int>, rows: seq<Row>, row: Row)
    requires Gathered(found, rows)
    ensures (forall g :: RowValue(row, g) == None) ==> Gathered(found, rows + [row])
    ensures (RowGuid(row).Some? && ParseInt(row[6]).Some?
             ==> Gathered(found[RowGuid(row).value := ParseInt(row[6]).value], rows + [row]))
  {
    hide LastValue, RowGuid, ParseInt;
    forall g ensures LastValue(rows + [row], g)
                  == if RowValue(row, g).Some? then RowValue(row, g) else LastValue(rows, g)
    {
      LastValueAppend(rows, [row], g);
      OneRow(row, g);
    }
  }

  method Settings(f: AuditFile) returns (found: map<string, int>)
    ensures Gathered(found, f.rows)
  {
    hide Gathered, IsGuid, ParseInt;
    found := map[];
    NothingGathered();
    for i := 0 to |f.rows|
      invariant Gathered(found, f.rows[..i])
    {
      var row := f.rows[i];
      assert f.rows[..i + 1] == f.rows[..i] + [row];
      OneMore(found, f.rows[..i], row);
      var guid := RowGuid(row);
      if guid == None {
        continue;
      }
      var value := ParseInt(row[6]);
      if value == None {
        continue;
      }
      found := found[guid.value := value.value];
    }
    assert f.rows[..|f.rows|] == f.rows;
  }

  lemma OneRow(row: Row, g: string)
    ensures LastValue([row], g) == RowValue(row, g)
  {
    assert [row][1..] == [];
  }

  lemma {:induction false} LastValueAppend(a: seq<Row>, b: seq<Row>, g: string)
    ensures LastValue(a + b, g) == if LastValue(b, g).Some? then LastValue(b, g) else LastValue(a, g)
  {
    hide RowValue;
    if a == [] {
      assert a + b == b;
    } else {
      assert (a + b)[1..] == a[1..] + b;
      LastValueAppend(a[1..], b, g);
    }
  }

  // --- Applying changes -----------------------------------------------------------------

  function Find(cat: Catalogue, guid: string): Option<Subcategory> {
    if cat == [] then None else if cat[0].guid == guid then Some(cat[0]) else Find(cat[1..], guid)
  }

  function CheckOne(cat: Catalogue, change: (string, Option<int>)): Option<Error> {
    if Find(cat, Lower(Strip(change.0, WHITESPACE))) == None then Some(UnknownSubcategory(change.0))
    else if change.1.Some? && !(0 <= change.1.value <= 3) then Some(InvalidValue(change.1.value))
    else None
  }

  datatype Checked = Ok(wanted: Wanted) | Bad(error: Error)

  /** Every change checked in turn; of two for one subcategory the later counts. */
  function CheckAll(cat: Catalogue, changes: seq<(string, Option<int>)>, sofar: Wanted): Checked {
    if changes == [] then Ok(sofar)
    else
      match CheckOne(cat, changes[0])
      case Some(e) => Bad(e)
      case None => CheckAll(cat, changes[1..], sofar[Lower(Strip(changes[0].0, WHITESPACE)) := changes[0].1])
  }

  function Label(cat: Catalogue, guid: string, language: Language): string {
    match Find(cat, guid)
    case None => ""
    case Some(s) => if language == German then s.german + " \U{FC}berwachen" else "Audit " + s.english
  }

  function Inclusion(language: Language, value: int): string {
    match language
    case English =>
      if value == 0 then "No Auditing" else if value == 1 then "Success"
      else if value == 2 then "Failure" else "Success and Failure"
    case German =>
      if value == 0 then "Keine \U{DC}berwachung" else if value == 1 then "Erfolgreich"
      else if value == 2 then "Fehler" else "Erfolg und Fehler"
  }

  /** A subcategory row; an existing one keeps its machine, target and exclusion columns. */
  function MakeRow(cat: Catalogue, guid: string, value: int, language: Language, like: Option<Row>): Row
    requires 0 <= value <= 3 && (like.Some? ==> |like.value| >= 7)
  {
    var machine := if like.Some? then like.value[0] else "";
    var target := if like.Some? then like.value[1] else "System";
    var exclusion := if like.Some? then like.value[5] else "";
    [machine, target, Label(cat, guid, language), guid, Inclusion(language, value), exclusion, DigitText(value)]
  }

  /** The table of subcategories: well-formed GUIDs in lower case, none twice. */
  ghost predicate ValidCatalogue(cat: Catalogue) {
    && (forall i :: 0 <= i < |cat| ==> IsGuid(cat[i].guid) && Lower(cat[i].guid) == cat[i].guid)
    && (forall i, j :: 0 <= i < j < |cat| ==> cat[i].guid != cat[j].guid)
  }

  /** A change set that has been checked. */
  ghost predicate Valid(cat: Catalogue, wanted: Wanted) {
    && ValidCatalogue(cat)
    && (forall g :: g in wanted ==> exists i :: 0 <= i < |cat| && cat[i].guid == g)
    && (forall g :: g in wanted && wanted[g].Some? ==> 0 <= wanted[g].value <= 3)
  }

  predicate Mentioned(row: Row, wanted: Wanted) {
    RowGuid(row).Some? && RowGuid(row).value in wanted
  }

  /** What becomes of one row. */
  function Rewrite(cat: Catalogue, row: Row, wanted: Wanted, language: Language): seq<Row>
    requires Valid(cat, wanted)
  {
    if !Mentioned(row, wanted) then [row]
    else
      var guid := RowGuid(row).value;
      match wanted[guid]
      case None => []
      case Some(v) => [MakeRow(cat, guid, v, language, Some(row))]
  }

  function RewriteAll(cat: Catalogue, rows: seq<Row>, wanted: Wanted, language: Language): seq<Row>
    requires Valid(cat, wanted)
  {
    if rows == [] then [] else Rewrite(cat, rows[0], wanted, language) + RewriteAll(cat, rows[1..], wanted, language)
  }

  function Seen(rows: seq<Row>, wanted: Wanted): set<string> {
    if rows == [] then {}
    else (if Mentioned(rows[0], wanted) then {RowGuid(rows[0]).value} else {}) + Seen(rows[1..], wanted)
  }

  /** The changes that found no row, in the order of the catalogue. */
  function Appended(cat: Catalogue, order: Catalogue, wanted: Wanted, seen: set<string>, language: Language): seq<Row>
    requires Valid(cat, wanted)
  {
    if order == [] then []
    else
      var guid := order[0].guid;
      (if guid in wanted && guid !in seen && wanted[guid].Some?
       then [MakeRow(cat, guid, wanted[guid].value, language, None)] else [])
      + Appended(cat, order[1..], wanted, seen, language)
  }

  function Applied(cat: Catalogue, f: AuditFile, wanted: Wanted): AuditFile
    requires Valid(cat, wanted)
  {
    var language := LanguageOf(f);
    AuditFile(f.header, RewriteAll(cat, f.rows, wanted, language)
                        + Appended(cat, cat, wanted, Seen(f.rows, wanted), language))
  }

  lemma RewriteFrom(cat: Catalogue, rows: seq<Row>, i: nat, wanted: Wanted, language: Language)
    requires Valid(cat, wanted) && i < |rows|
    ensures RewriteAll(cat, rows[i..], wanted, language)
         == Rewrite(cat, rows[i], wanted, language) + RewriteAll(cat, rows[i + 1..], wanted, language)
    ensures Seen(rows[i..], wanted)
         == (if Mentioned(rows[i], wanted) then {RowGuid(rows[i]).value} else {}) + Seen(rows[i + 1..], wanted)
  {
    hide Valid, Rewrite, Mentioned, RowGuid;
    assert rows[i..][1..] == rows[i + 1..];
  }

  method RewriteRows(cat: Catalogue, given: seq<Row>, wanted: Wanted, language: Language)
    returns (rows: seq<Row>, seen: set<string>)
    requires Valid(cat, wanted)
    ensures rows == RewriteAll(cat, given, wanted, language) && seen == Seen(given, wanted)
  {
    hide MakeRow, RowGuid, RewriteAll, Seen, Valid;
    rows, seen := [], {};
    assert given[0..] == given;
    for i := 0 to |given|
      invariant rows + RewriteAll(cat, given[i..], wanted, language) == RewriteAll(cat, given, wanted, language)
      invariant seen + Seen(given[i..], wanted) == Seen(given, wanted)
    {
      var row := given[i];
      RewriteFrom(cat, given, i, wanted, language);
      ghost var rest := RewriteAll(cat, given[i + 1..], wanted, language);
      var guid := RowGuid(row);
      if guid == None || guid.value !in wanted {
        assert rows + ([row] + rest) == rows + [row] + rest;
        rows := rows + [row];
        continue;
      }
      seen := seen + {guid.value};
      var value := wanted[guid.value];
      assert [] + rest == rest;
      if value != None {
        RowLength(row);
        WantedValue(cat, wanted, guid.value);
        var made := MakeRow(cat, guid.value, value.value, language, Some(row));
        assert rows + ([made] + rest) == rows + [made] + rest;
        rows := rows + [made];
      }
    }
    NothingLeft(cat, wanted, language);
    assert given[|given|..] == [] && rows + [] == rows && seen + {} == seen;
  }

  lemma NothingLeft(cat: Catalogue, wanted: Wanted, language: Language)
    requires Valid(cat, wanted)
    ensures RewriteAll(cat, [], wanted, language) == [] && Seen([], wanted) == {}
  {
  }

  method AppendRows(cat: Catalogue, given: seq<Row>, seen: set<string>, wanted: Wanted, language: Language)
    returns (rows: seq<Row>)
    requires Valid(cat, wanted)
    ensures rows == given + Appended(cat, cat, wanted, seen, language)
  {
    hide MakeRow, Valid;
    rows := given;
    assert cat[0..] == cat;
    for i := 0 to |cat|
      invariant rows + Appended(cat, cat[i..], wanted, seen, language)
             == given + Appended(cat, cat, wanted, seen, language)
    {
      assert cat[i..][1..] == cat[i + 1..];
      var guid := cat[i].guid;
      ghost var rest := Appended(cat, cat[i + 1..], wanted, seen, language);
      assert [] + rest == rest;
      if guid in wanted && guid !in seen && wanted[guid] != None {
        WantedValue(cat, wanted, guid);
        var made := MakeRow(cat, guid, wanted[guid].value, language, None);
        assert rows + ([made] + rest) == rows + [made] + rest;
        rows := rows + [made];
      }
    }
    assert rows + [] == rows;
  }

  /** The changes are all checked before any row is touched. */
  method Apply(cat: Catalogue, f: AuditFile, changes: seq<(string, Option<int>)>)
    returns (r: AuditFile, error: Option<Error>)
    requires ValidCatalogue(cat)
    ensures var checked := CheckAll(cat, changes, map[]);
            if checked.Bad? then error == Some(checked.error) && r == f
            else error == None && Valid(cat, checked.wanted) && r == Applied(cat, f, checked.wanted)
    ensures error == None <==> AllAcceptable(cat, changes)
    ensures error.Some? ==> r == f && FirstFault(cat, changes, error.value)
    ensures error == None ==> SetAsAsked(f, r, changes)
  {
    CheckedIsValid(cat, changes, map[]);
    ApplySets(cat, f, changes);
    match CheckAll(cat, changes, map[])
    case Bad(e) =>
      return f, Some(e);
    case Ok(wanted) =>
      var language := LanguageOf(f);
      var rows, seen := RewriteRows(cat, f.rows, wanted, language);
      rows := AppendRows(cat, rows, seen, wanted, language);
      return AuditFile(f.header, rows), None;
  }

  // --- What is asked for and what comes of it ----------------------------------------------------

  /** A change of a known subcategory, to nothing or to a value from 0 to 3. */
  predicate Acceptable(cat: Catalogue, change: (string, Option<int>)) {
    && (exists i :: 0 <= i < |cat| && cat[i].guid == Lower(Strip(change.0, WHITESPACE)))
    && (change.1 == None || 0 <= change.1.value <= 3)
  }

  /** The error is about the first change that is not acceptable: its GUID, or when that is known, its value. */
  predicate FirstFault(cat: Catalogue, changes: seq<(string, Option<int>)>, error: Error) {
    exists i :: 0 <= i < |changes| && !Acceptable(cat, changes[i]) && AllAcceptable(cat, changes[..i])
                && match error
                   case UnknownSubcategory(guid) => guid == changes[i].0 && !Acceptable(cat, (guid, None))
                   case InvalidValue(value) => changes[i].1 == Some(value) && Acceptable(cat, (changes[i].0, None))
  }

  predicate AllAcceptable(cat: Catalogue, changes: seq<(string, Option<int>)>) {
    forall i :: 0 <= i < |changes| ==> Acceptable(cat, changes[i])
  }

  /** The last change that names *g*, in any case and with white space around it. */
  function LastChange(changes: seq<(string, Option<int>)>, g: string): Option<Option<int>> {
    if changes == [] then None
    else
      var rest := LastChange(changes[1..], g);
      if rest.Some? then rest
      else if Lower(Strip(changes[0].0, WHITESPACE)) == g then Some(changes[0].1)
      else None
  }

  function AskedFor(changes: seq<(string, Option<int>)>, g: string, before: Option<int>): Option<int> {
    match LastChange(changes, g) case None => before case Some(value) => value
  }

  /** The rows that no change names. */
  function Unnamed(rows: seq<Row>, changes: seq<(string, Option<int>)>): seq<Row> {
    if rows == [] then []
    else
      var guid := RowGuid(rows[0]);
      (if guid.Some? && LastChange(changes, guid.value).Some? then [] else [rows[0]]) + Unnamed(rows[1..], changes)
  }

  /** The settings are the old ones with what was asked for, the rows no change names stay in their order, and so does
      the header. */
  ghost predicate SetAsAsked(f: AuditFile, r: AuditFile, changes: seq<(string, Option<int>)>) {
    && (forall g :: LastValue(r.rows, g) == AskedFor(changes, g, LastValue(f.rows, g)))
    && Unnamed(r.rows, changes) == Unnamed(f.rows, changes)
    && r.header == f.header
  }

  ghost predicate Collected(changes: seq<(string, Option<int>)>, sofar: Wanted, wanted: Wanted) {
    && (forall g :: g in wanted <==> LastChange(changes, g).Some? || g in sofar)
    && (forall g :: g in wanted && LastChange(changes, g).Some? ==> wanted[g] == LastChange(changes, g).value)
    && (forall g :: g in wanted && LastChange(changes, g) == None ==> wanted[g] == sofar[g])
  }

  lemma CheckOneIff(cat: Catalogue, change: (string, Option<int>))
    ensures CheckOne(cat, change) == None <==> Acceptable(cat, change)
    ensures CheckOne(cat, change).Some? ==>
              match CheckOne(cat, change).value
              case UnknownSubcategory(guid) => guid == change.0 && !Acceptable(cat, (guid, None))
              case InvalidValue(value) => change.1 == Some(value) && Acceptable(cat, (change.0, None))
  {
    hide Find, Strip, Lower;
    FindIn(cat, Lower(Strip(change.0, WHITESPACE)));
  }

  /** The checks pass exactly when every change is acceptable, and what they collect is what was asked for. */
  lemma {:induction false} CheckAllIs(cat: Catalogue, changes: seq<(string, Option<int>)>, sofar: Wanted)
    ensures CheckAll(cat, changes, sofar).Ok? <==> AllAcceptable(cat, changes)
    ensures CheckAll(cat, changes, sofar).Bad? ==> FirstFault(cat, changes, CheckAll(cat, changes, sofar).error)
    ensures CheckAll(cat, changes, sofar).Ok? ==> Collected(changes, sofar, CheckAll(cat, changes, sofar).wanted)
    decreases |changes|
  {
    hide CheckOne, Acceptable, Strip, Lower;
    if changes != [] {
      CheckOneIff(cat, changes[0]);
      assert forall i :: 0 <= i < |changes[1..]| ==> changes[1..][i] == changes[i + 1];
      assert forall i :: 1 <= i < |changes| ==> changes[i] == changes[1..][i - 1];
      if CheckOne(cat, changes[0]) == None {
        var next := sofar[Lower(Strip(changes[0].0, WHITESPACE)) := changes[0].1];
        CheckAllIs(cat, changes[1..], next);
        var later := CheckAll(cat, changes[1..], next);
        if later.Bad? {
          FaultBehind(cat, changes, later.error);
        }
      } else {
        FaultHere(cat, changes, CheckOne(cat, changes[0]).value);
      }
    }
  }

  lemma FaultHere(cat: Catalogue, changes: seq<(string, Option<int>)>, e: Error)
    requires changes != [] && CheckOne(cat, changes[0]) == Some(e)
    ensures FirstFault(cat, changes, e)
  {
    hide CheckOne, Acceptable;
    CheckOneIff(cat, changes[0]);
    assert changes[..0] == [];
  }

  lemma FaultBehind(cat: Catalogue, changes: seq<(string, Option<int>)>, e: Error)
    requires changes != [] && Acceptable(cat, changes[0]) && FirstFault(cat, changes[1..], e)
    ensures FirstFault(cat, changes, e)
  {
    hide Acceptable;
    var rest := changes[1..];
    var i :| 0 <= i < |rest| && !Acceptable(cat, rest[i]) && AllAcceptable(cat, rest[..i])
      && match e
         case UnknownSubcategory(guid) => guid == rest[i].0 && !Acceptable(cat, (guid, None))
         case InvalidValue(value) => rest[i].1 == Some(value) && Acceptable(cat, (rest[i].0, None));
    assert changes[i + 1] == rest[i];
    var before := changes[..i + 1];
    forall j | 0 <= j < |before| ensures Acceptable(cat, before[j]) {
      if j > 0 {
        assert rest[..i][j - 1] == before[j];
      }
    }
  }

  lemma {:induction false} UnnamedIsOthers(rows: seq<Row>, changes: seq<(string, Option<int>)>, wanted: Wanted)
    requires forall g :: g in wanted <==> LastChange(changes, g).Some?
    ensures Unnamed(rows, changes) == Others(rows, wanted)
  {
    hide RowGuid, LastChange;
    if rows != [] {
      UnnamedIsOthers(rows[1..], changes, wanted);
    }
  }

  /** From the changes to the file; of two changes for one subcategory the later counts. */
  lemma ApplySets(cat: Catalogue, f: AuditFile, changes: seq<(string, Option<int>)>)
    requires ValidCatalogue(cat)
    ensures var checked := CheckAll(cat, changes, map[]);
            && (checked.Ok? <==> AllAcceptable(cat, changes))
            && (checked.Bad? ==> FirstFault(cat, changes, checked.error))
            && (checked.Ok? ==> Valid(cat, checked.wanted) && SetAsAsked(f, Applied(cat, f, checked.wanted), changes))
  {
    hide CheckAll, Valid, Applied, LastValue, LastChange, AllAcceptable, FirstFault, Others, Unnamed, ValidCatalogue;
    NothingWanted(cat);
    CheckedIsValid(cat, changes, map[]);
    CheckAllIs(cat, changes, map[]);
    var checked := CheckAll(cat, changes, map[]);
    if checked.Ok? {
      var wanted := checked.wanted;
      forall g ensures LastValue(Applied(cat, f, wanted).rows, g) == AskedFor(changes, g, LastValue(f.rows, g)) {
        AppliedSettings(cat, f, wanted, g);
      }
      AppliedKeepsOthers(cat, f, wanted);
      UnnamedIsOthers(f.rows, changes, wanted);
      UnnamedIsOthers(Applied(cat, f, wanted).rows, changes, wanted);
    }
  }

  lemma NothingWanted(cat: Catalogue)
    requires ValidCatalogue(cat)
    ensures Valid(cat, map[])
  {
  }

  lemma {:induction false} FindIn(cat: Catalogue, guid: string)
    ensures Find(cat, guid).Some? <==> exists i :: 0 <= i < |cat| && cat[i].guid == guid
  {
    if cat != [] {
      FindIn(cat[1..], guid);
      assert forall i :: 0 <= i < |cat[1..]| ==> cat[1..][i] == cat[i + 1];
      assert (exists i :: 0 <= i < |cat| && cat[i].guid == guid)
        <==> cat[0].guid == guid || (exists i :: 0 <= i < |cat[1..]| && cat[1..][i].guid == guid);
    }
  }

  lemma OneMoreIsValid(cat: Catalogue, sofar: Wanted, g: string, value: Option<int>)
    requires Valid(cat, sofar) && Find(cat, g).Some? && (value.Some? ==> 0 <= value.value <= 3)
    ensures Valid(cat, sofar[g := value])
  {
    hide ValidCatalogue;
    FindIn(cat, g);
  }

  lemma CheckedChange(cat: Catalogue, change: (string, Option<int>))
    requires CheckOne(cat, change) == None
    ensures Find(cat, Lower(Strip(change.0, WHITESPACE))).Some? && (change.1.Some? ==> 0 <= change.1.value <= 3)
  {
    hide Find, Lower, Strip;
  }

  lemma {:induction false} CheckedIsValid(cat: Catalogue, changes: seq<(string, Option<int>)>, sofar: Wanted)
    requires ValidCatalogue(cat) && Valid(cat, sofar)
    ensures CheckAll(cat, changes, sofar).Ok? ==> Valid(cat, CheckAll(cat, changes, sofar).wanted)
    decreases |changes|
  {
    hide ValidCatalogue, Valid, CheckOne, Lower, Strip;
    if changes != [] && CheckOne(cat, changes[0]) == None {
      var g := Lower(Strip(changes[0].0, WHITESPACE));
      CheckedChange(cat, changes[0]);
      OneMoreIsValid(cat, sofar, g, changes[0].1);
      CheckedIsValid(cat, changes[1..], sofar[g := changes[0].1]);
    }
  }

  lemma RowLength(row: Row)
    ensures RowGuid(row).Some? ==> |row| >= 7
  {
  }

  // --- The settings afterwards ---------------------------------------------------------------

  lemma MadeRow(cat: Catalogue, guid: string, value: int, language: Language, like: Option<Row>, g: string)
    requires 0 <= value <= 3 && (like.Some? ==> |like.value| >= 7) && IsGuid(guid) && Lower(guid) == guid
    ensures var row := MakeRow(cat, guid, value, language, like);
            RowGuid(row) == Some(guid) && RowValue(row, g) == if g == guid then Some(value) else None
  {
    hide Label, Inclusion, ParseInt, DigitText;
    DigitRoundTrip(value);
    assert Strip(guid, WHITESPACE) == guid;
  }

  lemma WantedGuid(cat: Catalogue, wanted: Wanted, g: string)
    requires Valid(cat, wanted) && g in wanted
    ensures IsGuid(g) && Lower(g) == g
  {
  }

  lemma {:induction false} RewriteValue(cat: Catalogue, rows: seq<Row>, wanted: Wanted, language: Language, g: string)
    requires Valid(cat, wanted)
    ensures LastValue(RewriteAll(cat, rows, wanted, language), g)
         == if g !in wanted then LastValue(rows, g)
            else if g in Seen(rows, wanted) then wanted[g]
            else None
  {
    hide MakeRow, IsGuid, RowGuid, Valid;
    if rows != [] {
      RewriteValue(cat, rows[1..], wanted, language, g);
      var first, rest := Rewrite(cat, rows[0], wanted, language), RewriteAll(cat, rows[1..], wanted, language);
      LastValueAppend(first, rest, g);
      if Mentioned(rows[0], wanted) {
        var guid := RowGuid(rows[0]).value;
        WantedGuid(cat, wanted, guid);
        RowLength(rows[0]);
        if wanted[guid].Some? {
          WantedValue(cat, wanted, guid);
          MadeRow(cat, guid, wanted[guid].value, language, Some(rows[0]), g);
          OneRow(first[0], g);
        }
      } else {
        OneRow(rows[0], g);
      }
    }
  }

  lemma WantedValue(cat: Catalogue, wanted: Wanted, g: string)
    requires Valid(cat, wanted) && g in wanted && wanted[g].Some?
    ensures 0 <= wanted[g].value <= 3
  {
  }

  lemma {:induction false} AppendedValue(
    cat: Catalogue, order: Catalogue, wanted: Wanted, seen: set<string>, language: Language, g: string)
    requires Valid(cat, wanted)
    ensures LastValue(Appended(cat, order, wanted, seen, language), g)
         == if g in wanted && g !in seen && (exists i :: 0 <= i < |order| && order[i].guid == g) then wanted[g]
            else None
  {
    hide MakeRow, IsGuid, RowGuid, Valid;
    if order != [] {
      AppendedValue(cat, order[1..], wanted, seen, language, g);
      assert forall i :: 0 <= i < |order[1..]| ==> order[1..][i] == order[i + 1];
      assert (exists i :: 0 <= i < |order| && order[i].guid == g)
        <==> order[0].guid == g || (exists i :: 0 <= i < |order[1..]| && order[1..][i].guid == g);
      var guid := order[0].guid;
      var rest := Appended(cat, order[1..], wanted, seen, language);
      if guid in wanted && guid !in seen && wanted[guid].Some? {
        WantedGuid(cat, wanted, guid);
        WantedValue(cat, wanted, guid);
        MadeRow(cat, guid, wanted[guid].value, language, None, g);
        var row := MakeRow(cat, guid, wanted[guid].value, language, None);
        LastValueAppend([row], rest, g);
        OneRow(row, g);
      } else {
        assert [] + rest == rest;
      }
    }
  }

  /** The settings of the changed file are the old ones overridden by the changes, with None
      taking a setting away, whatever duplicate or unreadable rows the file held. */
  lemma AppliedSettings(cat: Catalogue, f: AuditFile, wanted: Wanted, g: string)
    requires Valid(cat, wanted)
    ensures LastValue(Applied(cat, f, wanted).rows, g) == if g in wanted then wanted[g] else LastValue(f.rows, g)
  {
    var language := LanguageOf(f);
    var a, b := RewriteAll(cat, f.rows, wanted, language), Appended(cat, cat, wanted, Seen(f.rows, wanted), language);
    LastValueAppend(a, b, g);
    RewriteValue(cat, f.rows, wanted, language, g);
    AppendedValue(cat, cat, wanted, Seen(f.rows, wanted), language, g);
  }

  // --- The rows left alone --------------------------------------------------------------------

  /** The rows that no change names, in their order. */
  function Others(rows: seq<Row>, wanted: Wanted): seq<Row> {
    if rows == [] then []
    else (if Mentioned(rows[0], wanted) then [] else [rows[0]]) + Others(rows[1..], wanted)
  }

  lemma {:induction false} OthersAppend(a: seq<Row>, b: seq<Row>, wanted: Wanted)
    ensures Others(a + b, wanted) == Others(a, wanted) + Others(b, wanted)
  {
    hide Mentioned;
    if a == [] {
      assert a + b == b;
    } else {
      assert (a + b)[1..] == a[1..] + b;
      OthersAppend(a[1..], b, wanted);
      Associate(if Mentioned(a[0], wanted) then [] else [a[0]], Others(a[1..], wanted), Others(b, wanted));
    }
  }

  lemma Associate<T>(a: seq<T>, b: seq<T>, c: seq<T>)
    ensures a + (b + c) == a + b + c
  {
  }

  lemma OthersOne(row: Row, wanted: Wanted)
    ensures Others([row], wanted) == if Mentioned(row, wanted) then [] else [row]
  {
    assert [row][1..] == [];
  }

  lemma {:induction false} RewriteOthers(cat: Catalogue, rows: seq<Row>, wanted: Wanted, language: Language)
    requires Valid(cat, wanted)
    ensures Others(RewriteAll(cat, rows, wanted, language), wanted) == Others(rows, wanted)
  {
    hide MakeRow, IsGuid, RowGuid, Valid;
    if rows != [] {
      RewriteOthers(cat, rows[1..], wanted, language);
      var first, rest := Rewrite(cat, rows[0], wanted, language), RewriteAll(cat, rows[1..], wanted, language);
      OthersAppend(first, rest, wanted);
      if Mentioned(rows[0], wanted) {
        var guid := RowGuid(rows[0]).value;
        RowLength(rows[0]);
        WantedGuid(cat, wanted, guid);
        if wanted[guid].Some? {
          WantedValue(cat, wanted, guid);
          MadeRow(cat, guid, wanted[guid].value, language, Some(rows[0]), guid);
          OthersOne(first[0], wanted);
        }
      } else {
        OthersOne(rows[0], wanted);
      }
    }
  }

  lemma {:induction false} AppendedOthers(
    cat: Catalogue, order: Catalogue, wanted: Wanted, seen: set<string>, language: Language)
    requires Valid(cat, wanted)
    ensures Others(Appended(cat, order, wanted, seen, language), wanted) == []
  {
    hide MakeRow, IsGuid, RowGuid, Valid;
    if order != [] {
      AppendedOthers(cat, order[1..], wanted, seen, language);
      var guid := order[0].guid;
      var rest := Appended(cat, order[1..], wanted, seen, language);
      if guid in wanted && guid !in seen && wanted[guid].Some? {
        WantedGuid(cat, wanted, guid);
        WantedValue(cat, wanted, guid);
        MadeRow(cat, guid, wanted[guid].value, language, None, guid);
        var row := MakeRow(cat, guid, wanted[guid].value, language, None);
        OthersAppend([row], rest, wanted);
        OthersOne(row, wanted);
      } else {
        assert [] + rest == rest;
      }
    }
  }

  /** Every row of an unmentioned subcategory, option or SACL is kept as it was, in its order,
      and so is the header. */
  lemma AppliedKeepsOthers(cat: Catalogue, f: AuditFile, wanted: Wanted)
    requires Valid(cat, wanted)
    ensures Others(Applied(cat, f, wanted).rows, wanted) == Others(f.rows, wanted)
    ensures Applied(cat, f, wanted).header == f.header
  {
    var language := LanguageOf(f);
    RewriteOthers(cat, f.rows, wanted, language);
    AppendedOthers(cat, cat, wanted, Seen(f.rows, wanted), language);
    OthersAppend(RewriteAll(cat, f.rows, wanted, language),
                 Appended(cat, cat, wanted, Seen(f.rows, wanted), language), wanted);
  }

  // --- Twice is once -----------------------------------------------------------------------------

  /** A row that rewriting leaves as it is. */
  predicate Settled(cat: Catalogue, row: Row, wanted: Wanted, language: Language)
    requires Valid(cat, wanted)
  {
    Rewrite(cat, row, wanted, language) == [row]
  }

  lemma MadeRowSettled(cat: Catalogue, guid: string, language: Language, wanted: Wanted, like: Option<Row>)
    requires Valid(cat, wanted) && guid in wanted && wanted[guid].Some?
    requires 0 <= wanted[guid].value <= 3 && (like.Some? ==> |like.value| >= 7)
    ensures Settled(cat, MakeRow(cat, guid, wanted[guid].value, language, like), wanted, language)
    ensures Mentioned(MakeRow(cat, guid, wanted[guid].value, language, like), wanted)
  {
    hide Label, Inclusion, DigitText, IsGuid, RowGuid, Valid, RowValue, Lower;
    WantedGuid(cat, wanted, guid);
    var row := MakeRow(cat, guid, wanted[guid].value, language, like);
    MadeRow(cat, guid, wanted[guid].value, language, like, guid);
    assert MakeRow(cat, guid, wanted[guid].value, language, Some(row)) == row;
  }

  lemma {:induction false} SettledSame(cat: Catalogue, rows: seq<Row>, wanted: Wanted, language: Language)
    requires Valid(cat, wanted)
    requires forall r :: r in rows ==> Settled(cat, r, wanted, language)
    ensures RewriteAll(cat, rows, wanted, language) == rows
  {
    hide Rewrite, Valid;
    if rows != [] {
      assert rows[0] in rows;
      SettledSame(cat, rows[1..], wanted, language);
    }
  }

  lemma {:induction false} RewriteSettles(cat: Catalogue, rows: seq<Row>, wanted: Wanted, language: Language)
    requires Valid(cat, wanted)
    ensures forall r :: r in RewriteAll(cat, rows, wanted, language) ==> Settled(cat, r, wanted, language)
  {
    hide MakeRow, RowGuid, Valid;
    if rows != [] {
      RewriteSettles(cat, rows[1..], wanted, language);
      if Mentioned(rows[0], wanted) {
        var guid := RowGuid(rows[0]).value;
        RowLength(rows[0]);
        if wanted[guid].Some? {
          WantedValue(cat, wanted, guid);
          MadeRowSettled(cat, guid, language, wanted, Some(rows[0]));
        }
      }
    }
  }

  lemma {:induction false} AppendedSettles(
    cat: Catalogue, order: Catalogue, wanted: Wanted, seen: set<string>, language: Language)
    requires Valid(cat, wanted)
    ensures forall r :: r in Appended(cat, order, wanted, seen, language) ==> Settled(cat, r, wanted, language)
  {
    hide MakeRow, RowGuid, Valid, Settled;
    if order != [] {
      AppendedSettles(cat, order[1..], wanted, seen, language);
      var guid := order[0].guid;
      if guid in wanted && guid !in seen && wanted[guid].Some? {
        WantedValue(cat, wanted, guid);
        MadeRowSettled(cat, guid, language, wanted, None);
      }
    }
  }

  lemma {:induction false} SeenHas(rows: seq<Row>, wanted: Wanted, row: Row)
    requires row in rows && Mentioned(row, wanted)
    ensures RowGuid(row).value in Seen(rows, wanted)
  {
    hide RowGuid;
    if row != rows[0] {
      SeenHas(rows[1..], wanted, row);
    }
  }

  /** After applying, every wanted value stands in some row. */
  lemma {:induction false} ValueHasRow(rows: seq<Row>, wanted: Wanted, g: string)
    requires LastValue(rows, g).Some? && g in wanted
    ensures g in Seen(rows, wanted)
  {
    hide RowGuid;
    if LastValue(rows[1..], g).Some? {
      ValueHasRow(rows[1..], wanted, g);
    }
  }

  lemma {:induction false} NothingAppended(
    cat: Catalogue, order: Catalogue, wanted: Wanted, seen: set<string>, language: Language)
    requires Valid(cat, wanted)
    requires forall g :: g in wanted && wanted[g].Some? ==> g in seen
    ensures Appended(cat, order, wanted, seen, language) == []
  {
    hide MakeRow, Valid;
    if order != [] {
      NothingAppended(cat, order[1..], wanted, seen, language);
    }
  }

  /** Applying the same changes twice is applying them once, row for row. */
  lemma AppliedTwice(cat: Catalogue, f: AuditFile, wanted: Wanted)
    requires Valid(cat, wanted)
    ensures Applied(cat, Applied(cat, f, wanted), wanted) == Applied(cat, f, wanted)
  {
    hide RewriteAll, Appended, Seen, Valid, Settled, LastValue;
    var language := LanguageOf(f);
    var once := Applied(cat, f, wanted);
    var seen := Seen(f.rows, wanted);
    RewriteSettles(cat, f.rows, wanted, language);
    AppendedSettles(cat, cat, wanted, seen, language);
    forall r | r in once.rows ensures Settled(cat, r, wanted, language) {
      assert r in RewriteAll(cat, f.rows, wanted, language) || r in Appended(cat, cat, wanted, seen, language);
    }
    SettledSame(cat, once.rows, wanted, language);
    forall g | g in wanted && wanted[g].Some? ensures g in Seen(once.rows, wanted) {
      AppliedSettings(cat, f, wanted, g);
      ValueHasRow(once.rows, wanted, g);
    }
    NothingAppended(cat, cat, wanted, Seen(once.rows, wanted), language);
    assert once.rows + [] == once.rows;
  }

  // --- What a written row says ---------------------------------------------------------------------

  predicate Mentions(text: string, word: string) {
    exists k :: 0 <= k <= |text| && word <= text[k..]
  }

  lemma NotMentioned(text: string, word: string)
    requires word != "" && word[0] !in text
    ensures !Mentions(text, word)
  {
    forall k | 0 <= k <= |text| ensures !(word <= text[k..]) {
      if k < |text| {
        assert text[k..][0] == text[k] && text[k] in text;
      }
    }
  }

  lemma StartMentioned(word: string, rest: string)
    ensures Mentions(word + rest, word)
  {
    assert (word + rest)[0..] == word + rest;
  }

  lemma EndMentioned(front: string, word: string)
    ensures Mentions(front + word, word)
  {
    assert (front + word)[|front|..] == word;
  }

  lemma EnglishSays()
    ensures !Mentions("No Auditing", "Success") && !Mentions("No Auditing", "Failure")
    ensures Mentions("Success", "Success") && !Mentions("Success", "Failure")
    ensures !Mentions("Failure", "Success") && Mentions("Failure", "Failure")
    ensures Mentions("Success and Failure", "Success") && Mentions("Success and Failure", "Failure")
  {
    hide Mentions;
    EnglishLetters();
    NotMentioned("No Auditing", "Success");
    NotMentioned("No Auditing", "Failure");
    NotMentioned("Success", "Failure");
    NotMentioned("Failure", "Success");
    assert "Success" + "" == "Success" && "Failure" + "" == "Failure";
    StartMentioned("Success", "");
    StartMentioned("Failure", "");
    EnglishBoth();
  }

  lemma EnglishBoth()
    ensures Mentions("Success and Failure", "Success") && Mentions("Success and Failure", "Failure")
  {
    hide Mentions;
    assert "Success" + " and Failure" == "Success and Failure";
    assert "Success and " + "Failure" == "Success and Failure";
    StartMentioned("Success", " and Failure");
    EndMentioned("Success and ", "Failure");
  }

  lemma GermanSays()
    ensures !Mentions("Keine \U{DC}berwachung", "Erfolg") && !Mentions("Keine \U{DC}berwachung", "Fehler")
    ensures Mentions("Erfolgreich", "Erfolg") && !Mentions("Erfolgreich", "Fehler")
    ensures !Mentions("Fehler", "Erfolg") && Mentions("Fehler", "Fehler")
    ensures Mentions("Erfolg und Fehler", "Erfolg") && Mentions("Erfolg und Fehler", "Fehler")
  {
    hide Mentions;
    GermanLetters();
    NotMentioned("Keine \U{DC}berwachung", "Erfolg");
    NotMentioned("Keine \U{DC}berwachung", "Fehler");
    NotMentioned("Erfolgreich", "Fehler");
    NotMentioned("Fehler", "Erfolg");
    assert "Erfolg" + "reich" == "Erfolgreich" && "Fehler" + "" == "Fehler";
    StartMentioned("Erfolg", "reich");
    StartMentioned("Fehler", "");
    GermanBoth();
  }

  lemma GermanBoth()
    ensures Mentions("Erfolg und Fehler", "Erfolg") && Mentions("Erfolg und Fehler", "Fehler")
  {
    hide Mentions;
    assert "Erfolg" + " und Fehler" == "Erfolg und Fehler";
    assert "Erfolg und " + "Fehler" == "Erfolg und Fehler";
    StartMentioned("Erfolg", " und Fehler");
    EndMentioned("Erfolg und ", "Fehler");
  }

  /** The bit for success and the bit for failure are the ones the text names. */
  lemma InclusionSays(language: Language, value: int)
    requires 0 <= value <= 3
    ensures var text := Inclusion(language, value);
            && (Mentions(text, if language == German then "Erfolg" else "Success") <==> value % 2 == 1)
            && (Mentions(text, if language == German then "Fehler" else "Failure") <==> value / 2 == 1)
  {
    hide Mentions;
    EnglishSays();
    GermanSays();
  }

  lemma EnglishLetters()
    ensures 'S' !in "No Auditing" && 'F' !in "No Auditing" && 'F' !in "Success" && 'S' !in "Failure"
  {
  }

  lemma GermanLetters()
    ensures 'E' !in "Keine \U{DC}berwachung" && 'F' !in "Keine \U{DC}berwachung"
    ensures 'F' !in "Erfolgreich" && 'E' !in "Fehler"
  {
  }

  /** A row that is written names its subcategory, in its column and by its GUID, and says its value as a number and as
      text; machine, target and exclusion are those of the row it replaces. */
  lemma MadeRowSays(cat: Catalogue, guid: string, value: int, language: Language, like: Option<Row>)
    requires 0 <= value <= 3 && (like.Some? ==> |like.value| >= 7) && IsGuid(guid) && Lower(guid) == guid
    ensures var row := MakeRow(cat, guid, value, language, like);
            && RowGuid(row) == Some(guid) && RowValue(row, guid) == Some(value)
            && (Mentions(row[4], if language == German then "Erfolg" else "Success") <==> value % 2 == 1)
            && (Mentions(row[4], if language == German then "Fehler" else "Failure") <==> value / 2 == 1)
            && (like.Some? ==> row[0] == like.value[0] && row[1] == like.value[1] && row[5] == like.value[5])
  {
    hide Mentions, IsGuid, Inclusion, Label, RowGuid, ParseInt;
    MadeRow(cat, guid, value, language, like, guid);
    InclusionSays(language, value);
  }

  // --- Which rows are meant ------------------------------------------------------------------------

  /** A GUID in braces, of digits, the letters from a to f in any case and dashes. */
  predicate GuidInBraces(g: string) {
    && |g| == 38 && g[0] == '{' && g[37] == '}'
    && forall i :: 1 <= i < 37 ==> '0' <= g[i] <= '9' || 'a' <= LowerChar(g[i]) <= 'f' || g[i] == '-'
  }

  /** A row names a subcategory by its GUID in any case, with white space around it, when it has its seven columns. */
  lemma RowGuidIff(row: Row, g: string)
    ensures RowGuid(row) == Some(g)
       <==> |row| >= 7 && Lower(g) == g && GuidInBraces(Strip(row[3], WHITESPACE))
            && EqualIgnoringCase(Strip(row[3], WHITESPACE), g)
  {
    hide Strip, Lower, EqualIgnoringCase, IsGuid, GuidInBraces;
    if |row| >= 7 {
      var guid := Strip(row[3], WHITESPACE);
      LowerIff(guid, g);
      LowerTwice(guid);
      assert IsGuid(guid) <==> GuidInBraces(guid) by { GuidsAlike(guid); }
    }
  }

  lemma GuidsAlike(g: string)
    ensures IsGuid(g) <==> GuidInBraces(g)
  {
    forall i | 0 <= i < |g|
      ensures GuidChar(g[i]) <==> '0' <= g[i] <= '9' || 'a' <= LowerChar(g[i]) <= 'f' || g[i] == '-'
    {
    }
  }

  lemma LowerTwice(s: string)
    ensures Lower(Lower(s)) == Lower(s)
  {
  }

  /** A row of the subcategory *g* that says the value as a number and, in the language of the file, as text. */
  predicate SaysValue(f: AuditFile, row: Row, g: string, value: int) {
    && 0 <= value <= 3 && RowGuid(row) == Some(g) && RowValue(row, g) == Some(value)
    && var german := f.header != [] && f.header[0] == "Computername";
       && (Mentions(row[4], if german then "Erfolg" else "Success") <==> value % 2 == 1)
       && (Mentions(row[4], if german then "Fehler" else "Failure") <==> value / 2 == 1)
  }

  lemma MadeSaysValue(cat: Catalogue, f: AuditFile, wanted: Wanted, g: string, like: Option<Row>)
    requires Valid(cat, wanted) && g in wanted && wanted[g].Some? && (like.Some? ==> |like.value| >= 7)
    requires 0 <= wanted[g].value <= 3
    ensures SaysValue(f, MakeRow(cat, g, wanted[g].value, LanguageOf(f), like), g, wanted[g].value)
    ensures RowGuid(MakeRow(cat, g, wanted[g].value, LanguageOf(f), like)) == Some(g)
  {
    hide Valid, Mentions, IsGuid, MakeRow, RowGuid, RowValue;
    WantedGuid(cat, wanted, g);
    MadeRowSays(cat, g, wanted[g].value, LanguageOf(f), like);
    MadeRowLength(cat, g, wanted[g].value, LanguageOf(f), like);
  }

  lemma MadeRowLength(cat: Catalogue, g: string, value: int, language: Language, like: Option<Row>)
    requires 0 <= value <= 3 && (like.Some? ==> |like.value| >= 7)
    ensures |MakeRow(cat, g, value, language, like)| == 7
  {
  }

  lemma {:induction false} RewrittenSays(cat: Catalogue, f: AuditFile, rows: seq<Row>, wanted: Wanted, row: Row)
    requires Valid(cat, wanted) && row in RewriteAll(cat, rows, wanted, LanguageOf(f)) && Mentioned(row, wanted)
    ensures var g := RowGuid(row).value; wanted[g].Some? && SaysValue(f, row, g, wanted[g].value)
    decreases |rows|
  {
    hide Valid, MakeRow, RowGuid, SaysValue, IsGuid;
    var first, rest := Rewrite(cat, rows[0], wanted, LanguageOf(f)), RewriteAll(cat, rows[1..], wanted, LanguageOf(f));
    if row in first {
      if Mentioned(rows[0], wanted) {
        RowLength(rows[0]);
        WantedValue(cat, wanted, RowGuid(rows[0]).value);
        MadeSaysValue(cat, f, wanted, RowGuid(rows[0]).value, Some(rows[0]));
      }
    } else {
      assert row in rest;
      RewrittenSays(cat, f, rows[1..], wanted, row);
    }
  }

  lemma {:induction false} AppendedSays(
    cat: Catalogue, f: AuditFile, order: Catalogue, wanted: Wanted, seen: set<string>, row: Row)
    requires Valid(cat, wanted) && row in Appended(cat, order, wanted, seen, LanguageOf(f))
    ensures RowGuid(row).Some?
    ensures var g := RowGuid(row).value; g in wanted && wanted[g].Some? && SaysValue(f, row, g, wanted[g].value)
    decreases |order|
  {
    hide Valid, MakeRow, RowGuid, SaysValue, IsGuid;
    var guid := order[0].guid;
    var rest := Appended(cat, order[1..], wanted, seen, LanguageOf(f));
    if row in rest {
      AppendedSays(cat, f, order[1..], wanted, seen, row);
    } else {
      WantedValue(cat, wanted, guid);
      MadeSaysValue(cat, f, wanted, guid, None);
    }
  }

  /** After the changes every row of a subcategory they name says the value asked for, and none is left of one that is
      to be removed. */
  lemma NamedRowsSay(cat: Catalogue, f: AuditFile, changes: seq<(string, Option<int>)>, row: Row)
    requires ValidCatalogue(cat) && CheckAll(cat, changes, map[]).Ok?
    requires Valid(cat, CheckAll(cat, changes, map[]).wanted)
    requires row in Applied(cat, f, CheckAll(cat, changes, map[]).wanted).rows
    ensures RowGuid(row).Some? && LastChange(changes, RowGuid(row).value).Some? ==>
              var asked := LastChange(changes, RowGuid(row).value).value;
              asked.Some? && SaysValue(f, row, RowGuid(row).value, asked.value)
  {
    hide CheckAll, Valid, ValidCatalogue, LastChange, RowGuid, SaysValue, RewriteAll, Appended, FirstFault, AllAcceptable;
    var wanted := CheckAll(cat, changes, map[]).wanted;
    CheckAllIs(cat, changes, map[]);
    if RowGuid(row).Some? && LastChange(changes, RowGuid(row).value).Some? {
      if row in RewriteAll(cat, f.rows, wanted, LanguageOf(f)) {
        RewrittenSays(cat, f, f.rows, wanted, row);
      } else {
        AppendedSays(cat, f, cat, wanted, Seen(f.rows, wanted), row);
      }
    }
  }
}
