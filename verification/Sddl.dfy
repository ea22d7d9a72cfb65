/** Security descriptors as SDDL text: taking the DACL apart and putting it back (backend/samadcon/ad/sacl.py). */
module Sddl {
  import opened Text

  datatype Split = Split(prefix: string, aces: seq<string>, suffix: string)

  const DACL_MARKER := "D:"
  const SACL_MARKER := "S:"

  /** Where the entries of the DACL begin: past the flags that follow "D:". */
  function Cursor(sddl: string, from: nat): (r: nat)
    requires from <= |sddl|
    ensures from <= r <= |sddl|
    ensures forall i :: from <= i < r ==> sddl[i] != '(' && sddl[i] != 'S'
    ensures r < |sddl| ==> sddl[r] == '(' || sddl[r] == 'S'
    decreases |sddl| - from
  {
    if from < |sddl| && sddl[from] != '(' && sddl[from] != 'S' then Cursor(sddl, from + 1) else from
  }

  lemma {:induction false} CursorIs(sddl: string, from: nat, k: nat)
    requires from <= k <= |sddl|
    requires forall i :: from <= i < k ==> sddl[i] != '(' && sddl[i] != 'S'
    requires k < |sddl| ==> sddl[k] == '(' || sddl[k] == 'S'
    ensures Cursor(sddl, from) == k
  {
  }

  /** The first match of "(", anything but ")", ")". */
  function FirstMatch(body: string): (r: Option<(nat, nat)>)
    ensures r.Some? ==> r.value.0 < r.value.1 <= |body|
  {
    var i := IndexOf(body, '(');
    if i == |body| then None
    else
      var j := IndexOf(body[i..], ')');
      if j == |body| - i then None else Some((i, i + j + 1))
  }

  /** The non-overlapping matches, in order. */
  function FindAces(body: string): seq<string>
    decreases |body|
  {
    match FirstMatch(body)
    case None => []
    case Some((i, n)) => [body[i..n]] + FindAces(body[n..])
  }

  function SplitDacl(sddl: string): Option<Split> {
    var marker := Find(sddl, DACL_MARKER);
    if marker < 0 then None
    else
      var cursor := Cursor(sddl, marker + 2);
      var rest := sddl[cursor..];
      var sacl := Find(rest, SACL_MARKER);
      Some(Split(sddl[..cursor],
                 FindAces(if sacl < 0 then rest else rest[..sacl]),
                 if sacl < 0 then "" else rest[sacl..]))
  }

  /** What every edit writes back. */
  function Whole(s: Split): string {
    s.prefix + Concat(s.aces) + s.suffix
  }

  method FindDacl(sddl: string) returns (cursor: Option<nat>)
    ensures cursor == if Find(sddl, DACL_MARKER) < 0 then None else Some(Cursor(sddl, Find(sddl, DACL_MARKER) + 2))
  {
    var marker := Find(sddl, DACL_MARKER);
    if marker < 0 {
      return None;
    }
    var at := marker + 2;
    while at < |sddl| && sddl[at] != '(' && sddl[at] != 'S'
      invariant marker + 2 <= at <= |sddl|
      invariant Cursor(sddl, at) == Cursor(sddl, marker + 2)
    {
      at := at + 1;
    }
    return Some(at);
  }

  /** The source's cursor loop, then the search for the entries. */
  method SplitText(sddl: string) returns (r: Option<Split>)
    ensures r == SplitDacl(sddl)
  {
    var cursor := FindDacl(sddl);
    if cursor == None {
      return None;
    }
    var prefix, rest := sddl[..cursor.value], sddl[cursor.value..];
    var sacl := Find(rest, SACL_MARKER);
    var body := if sacl < 0 then rest else rest[..sacl];
    var suffix := if sacl < 0 then "" else rest[sacl..];
    return Some(Split(prefix, FindAces(body), suffix));
  }

  // --- Markers -----------------------------------------------------------------------------

  /** "D:" or "S:" at a position. */
  predicate MarkerAt(s: string, c: char, k: int) {
    0 <= k < |s| - 1 && s[k] == c && s[k + 1] == ':'
  }

  predicate NoMarker(s: string, c: char) {
    forall k :: 0 <= k < |s| ==> !MarkerAt(s, c, k)
  }

  lemma MarkerIsPrefix(s: string, c: char, k: nat)
    requires k <= |s|
    ensures [c, ':'] <= s[k..] <==> MarkerAt(s, c, k)
  {
    if MarkerAt(s, c, k) {
      assert s[k..][..2] == [c, ':'];
    }
    if [c, ':'] <= s[k..] {
      assert s[k..][0] == c && s[k..][1] == ':';
    }
  }

  /** str.find with a marker. */
  lemma FindMarker(s: string, c: char)
    ensures var m := Find(s, [c, ':']);
            if m < 0 then NoMarker(s, c) else MarkerAt(s, c, m) && forall k :: 0 <= k < m ==> !MarkerAt(s, c, k)
  {
    var m := Find(s, [c, ':']);
    forall k | 0 <= k <= |s| ensures MarkerAt(s, c, k) <==> [c, ':'] <= s[k..] {
      MarkerIsPrefix(s, c, k);
    }
  }

  lemma MarkerFound(s: string, c: char, m: nat)
    requires MarkerAt(s, c, m) && forall k :: 0 <= k < m ==> !MarkerAt(s, c, k)
    ensures Find(s, [c, ':']) == m
  {
    FindMarker(s, c);
  }

  lemma MarkerMissing(s: string, c: char)
    requires NoMarker(s, c)
    ensures Find(s, [c, ':']) < 0
  {
    FindMarker(s, c);
  }

  // --- What comes out can be put back and taken apart again -----------------------------------

  /** The text of one entry: parentheses around text without a closing one, and no start of a SACL in it. */
  predicate Entry(ace: string) {
    |ace| >= 2 && ace[0] == '(' && ace[|ace| - 1] == ')' && ')' !in ace[..|ace| - 1] && NoMarker(ace, 'S')
  }

  predicate Entries(aces: seq<string>) {
    aces == [] || (Entry(aces[0]) && Entries(aces[1..]))
  }

  /** Text up to the first entry: one "D:" and flags after it. */
  predicate DaclPrefix(p: string) {
    var m := Find(p, DACL_MARKER);
    m >= 0 && Cursor(p, m + 2) == |p|
  }

  predicate SaclSuffix(s: string) {
    s == "" || MarkerAt(s, 'S', 0)
  }

  predicate SplitShape(s: Split) {
    DaclPrefix(s.prefix) && Entries(s.aces) && SaclSuffix(s.suffix)
  }

  lemma NoMarkerPart(s: string, c: char, i: nat, j: nat)
    requires NoMarker(s, c) && i <= j <= |s|
    ensures NoMarker(s[i..j], c)
  {
    forall k | 0 <= k < j - i ensures !MarkerAt(s[i..j], c, k) {
      assert !MarkerAt(s, c, i + k);
    }
  }

  lemma CutEntry(body: string)
    requires NoMarker(body, 'S') && FirstMatch(body).Some?
    ensures Entry(body[FirstMatch(body).value.0..FirstMatch(body).value.1])
  {
    var (i, n) := FirstMatch(body).value;
    var ace := body[i..n];
    assert body[i..][..n - i - 1] == ace[..|ace| - 1];
    NoMarkerPart(body, 'S', i, n);
  }

  lemma {:induction false} FoundEntries(body: string)
    requires NoMarker(body, 'S')
    ensures Entries(FindAces(body))
    decreases |body|
  {
    hide NoMarker, Entry, FirstMatch;
    if FirstMatch(body).Some? {
      var (i, n) := FirstMatch(body).value;
      CutEntry(body);
      NoMarkerPart(body, 'S', n, |body|);
      assert body[n..|body|] == body[n..];
      FoundEntries(body[n..]);
    }
  }

  lemma CutPrefix(sddl: string, m: nat)
    requires Find(sddl, DACL_MARKER) == m
    ensures m + 2 <= |sddl| && DaclPrefix(sddl[..Cursor(sddl, m + 2)])
  {
    hide Find;
    FindMarker(sddl, 'D');
    var cursor := Cursor(sddl, m + 2);
    var prefix := sddl[..cursor];
    forall k | 0 <= k < m ensures !MarkerAt(prefix, 'D', k) {
      assert !MarkerAt(sddl, 'D', k);
    }
    MarkerFound(prefix, 'D', m);
    CursorIs(prefix, m + 2, cursor);
  }

  lemma CutSacl(rest: string)
    ensures var sacl := Find(rest, SACL_MARKER);
            if sacl < 0 then NoMarker(rest, 'S') else NoMarker(rest[..sacl], 'S') && SaclSuffix(rest[sacl..])
  {
    hide Find;
    FindMarker(rest, 'S');
    var sacl := Find(rest, SACL_MARKER);
    if sacl >= 0 {
      forall k | 0 <= k < sacl ensures !MarkerAt(rest[..sacl], 'S', k) {
        assert !MarkerAt(rest, 'S', k);
      }
    }
  }

  /** Whatever is split, the parts have the shape of parts. */
  lemma SplitHasShape(sddl: string)
    requires SplitDacl(sddl).Some?
    ensures SplitShape(SplitDacl(sddl).value)
  {
    hide FindAces, Entries, Find, DaclPrefix, SaclSuffix, Cursor, NoMarker;
    var m := Find(sddl, DACL_MARKER);
    CutPrefix(sddl, m);
    var rest := sddl[Cursor(sddl, m + 2)..];
    CutSacl(rest);
    var sacl := Find(rest, SACL_MARKER);
    if sacl < 0 {
      FoundEntries(rest);
      assert SaclSuffix("") by { NoSuffix(); }
    } else {
      FoundEntries(rest[..sacl]);
    }
  }

  lemma NoSuffix()
    ensures SaclSuffix("")
  {
  }

  lemma EntryFirst(ace: string, rest: string)
    requires Entry(ace)
    ensures FirstMatch(ace + rest) == Some((0, |ace|))
  {
    var body := ace + rest;
    IndexOfIs(body, '(', 0);
    assert body[0..] == body;
    assert body[..|ace| - 1] == ace[..|ace| - 1] && body[|ace| - 1] == ')';
    IndexOfIs(body, ')', |ace| - 1);
  }

  lemma {:induction false} EntriesFound(aces: seq<string>)
    requires Entries(aces)
    ensures FindAces(Concat(aces)) == aces
    ensures Concat(aces) != "" ==> Concat(aces)[0] == '('
  {
    hide FirstMatch, NoMarker;
    if aces == [] {
      assert FirstMatch("").None?;
    } else {
      var ace, rest := aces[0], Concat(aces[1..]);
      EntriesFound(aces[1..]);
      EntryFirst(ace, rest);
      assert (ace + rest)[0..|ace|] == ace && (ace + rest)[|ace|..] == rest;
    }
  }

  lemma {:induction false} NoSacl(aces: seq<string>)
    requires Entries(aces)
    ensures NoMarker(Concat(aces), 'S')
    ensures Concat(aces) != "" ==> Concat(aces)[|Concat(aces)| - 1] == ')'
  {
    if aces != [] {
      NoSacl(aces[1..]);
      NoMarkerAcross(aces[0], Concat(aces[1..]));
    }
  }

  lemma NoMarkerAcross(ace: string, rest: string)
    requires Entry(ace) && NoMarker(rest, 'S')
    ensures NoMarker(ace + rest, 'S')
  {
    var s := ace + rest;
    forall k | 0 <= k < |s| ensures !MarkerAt(s, 'S', k) {
      if k < |ace| {
        assert !MarkerAt(ace, 'S', k);
      } else {
        assert !MarkerAt(rest, 'S', k - |ace|);
      }
    }
  }

  /** The SACL starts where the entries end. */
  lemma SaclAfter(body: string, suffix: string)
    requires NoMarker(body, 'S') && MarkerAt(suffix, 'S', 0)
    requires body != "" ==> body[|body| - 1] == ')'
    ensures Find(body + suffix, SACL_MARKER) == |body|
  {
    var s := body + suffix;
    forall j | 0 <= j < |body| ensures !MarkerAt(s, 'S', j) {
      assert !MarkerAt(body, 'S', j);
    }
    MarkerFound(s, 'S', |body|);
  }

  lemma PrefixAgain(prefix: string, tail: string)
    requires DaclPrefix(prefix) && (tail != "" ==> tail[0] == '(' || tail[0] == 'S')
    ensures var m := Find(prefix, DACL_MARKER);
            0 <= m <= |prefix| - 2 && Find(prefix + tail, DACL_MARKER) == m && Cursor(prefix + tail, m + 2) == |prefix|
  {
    hide Find;
    var text := prefix + tail;
    FindMarker(prefix, 'D');
    var m := Find(prefix, DACL_MARKER);
    forall k | 0 <= k < m ensures !MarkerAt(text, 'D', k) {
      assert !MarkerAt(prefix, 'D', k);
    }
    MarkerFound(text, 'D', m);
    assert forall i :: m + 2 <= i < |prefix| ==> text[i] == prefix[i];
    CursorIs(text, m + 2, |prefix|);
  }

  lemma BodyAgain(aces: seq<string>, suffix: string)
    requires Entries(aces) && SaclSuffix(suffix)
    ensures var tail := Concat(aces) + suffix;
            var sacl := Find(tail, SACL_MARKER);
            && (tail != "" ==> tail[0] == '(' || tail[0] == 'S')
            && (if sacl < 0 then tail else tail[..sacl]) == Concat(aces)
            && (if sacl < 0 then "" else tail[sacl..]) == suffix
  {
    hide Find, Entries, FindAces;
    var body := Concat(aces);
    var tail := body + suffix;
    EntriesFound(aces);
    NoSacl(aces);
    if suffix == "" {
      assert tail == body;
      MarkerMissing(body, 'S');
    } else {
      SaclAfter(body, suffix);
      assert tail[..|body|] == body && tail[|body|..] == suffix;
    }
  }

  /** Parts of the right shape come back as they went in: owner, group, flags and SACL verbatim. */
  lemma SplitWhole(s: Split)
    requires SplitShape(s)
    ensures SplitDacl(Whole(s)) == Some(s)
  {
    hide Find, FindAces, Entries, Cursor, DaclPrefix, SaclSuffix, Concat, FirstMatch, IndexOf;
    var tail := Concat(s.aces) + s.suffix;
    BodyAgain(s.aces, s.suffix);
    PrefixAgain(s.prefix, tail);
    WholeParts(s);
    EntriesFound(s.aces);
  }

  lemma WholeParts(s: Split)
    ensures var tail := Concat(s.aces) + s.suffix;
            Whole(s) == s.prefix + tail && Whole(s)[|s.prefix|..] == tail && Whole(s)[..|s.prefix|] == s.prefix
  {
    hide Concat;
  }

  // --- Putting back what was taken apart ---------------------------------------------------------

  /** Nothing but entries. */
  predicate OnlyEntries(body: string)
    decreases |body|
  {
    body == "" || (body[0] == '(' && ')' in body && OnlyEntries(body[IndexOf(body, ')') + 1..]))
  }

  lemma AfterSame(a: string, b: string, c: string)
    ensures a + b == a + c <==> b == c
  {
    if a + b == a + c {
      assert b == (a + b)[|a|..] && c == (a + c)[|a|..];
    }
  }

  lemma ConcatCons(x: string, rest: seq<string>)
    ensures Concat([x] + rest) == x + Concat(rest)
  {
    assert ([x] + rest)[1..] == rest;
  }

  /** An entry at the start, if there is one, is the first match. */
  lemma AtStart(body: string)
    requires body != ""
    ensures body[0] == '(' && ')' in body
        <==> FirstMatch(body).Some? && FirstMatch(body).value.0 == 0
    ensures body[0] == '(' && ')' in body ==> FirstMatch(body) == Some((0, IndexOf(body, ')') + 1))
  {
    if body[0] == '(' {
      IndexOfIs(body, '(', 0);
      assert body[0..] == body;
    }
  }

  lemma {:induction false} EntriesCover(body: string)
    ensures |Concat(FindAces(body))| <= |body|
    ensures Concat(FindAces(body)) == body <==> OnlyEntries(body)
    decreases |body|
  {
    hide FirstMatch, IndexOf, Concat;
    if body == "" {
      assert FindAces("") == [] && Concat([]) == "" by { NoEntries(); }
    } else {
      AtStart(body);
      if FirstMatch(body).Some? {
        var (i, n) := FirstMatch(body).value;
        EntriesCover(body[n..]);
        ConcatCons(body[i..n], FindAces(body[n..]));
        if i == 0 {
          assert body[i..n] + body[n..] == body;
          AfterSame(body[i..n], Concat(FindAces(body[n..])), body[n..]);
        }
      } else {
        NoEntries();
      }
    }
  }

  lemma NoEntries()
    ensures FindAces("") == [] && Concat([]) == ""
  {
  }

  /** The part of the text the entries are looked for in. */
  function Body(sddl: string): string
    requires Find(sddl, DACL_MARKER) >= 0
  {
    var rest := sddl[Cursor(sddl, Find(sddl, DACL_MARKER) + 2)..];
    var sacl := Find(rest, SACL_MARKER);
    if sacl < 0 then rest else rest[..sacl]
  }

  /** Splitting and joining gives the same text exactly when the DACL holds nothing but entries without inner
      closing parentheses; the rest of a conditional entry, say, is lost. */
  lemma WholeSplit(sddl: string)
    requires SplitDacl(sddl).Some?
    ensures Whole(SplitDacl(sddl).value) == sddl <==> OnlyEntries(Body(sddl))
  {
    hide Find, FindAces, OnlyEntries, Concat;
    var s := SplitDacl(sddl).value;
    var body := Body(sddl);
    EntriesCover(body);
    SplitParts(sddl);
    if Whole(s) == sddl {
      SameMiddle(s.prefix, Concat(s.aces), body, s.suffix);
    }
  }

  lemma SplitParts(sddl: string)
    requires SplitDacl(sddl).Some?
    ensures var s := SplitDacl(sddl).value;
            sddl == s.prefix + Body(sddl) + s.suffix && s.aces == FindAces(Body(sddl))
  {
    hide Find, FindAces;
  }

  lemma SameMiddle(a: string, b: string, c: string, d: string)
    requires a + b + d == a + c + d
    ensures b == c
  {
    assert |b| == |c|;
    assert (a + b + d)[|a|..][..|b|] == b && (a + c + d)[|a|..][..|b|] == c;
  }

  /** A conditional entry, such as "(XA;;FX;;;WD;(a==1))", ends in two closing parentheses; only the first belongs
      to the match, and the second is lost. */
  lemma ConditionalLosesItsEnd(inner: string)
    requires ')' !in inner && 'S' !in inner
    ensures var text := "D:(" + inner + "))";
            && SplitDacl(text) == Some(Split("D:", ["(" + inner + ")"], ""))
            && Whole(SplitDacl(text).value) + ")" == text
  {
    hide Find, FindAces, Cursor;
    var body := "(" + inner + "))";
    var text := "D:(" + inner + "))";
    assert text == "D:" + body && text[2..] == body && text[..2] == "D:" && text[0..] == text;
    FindIs(text, DACL_MARKER, 0);
    assert text[2] == '(';
    CursorIs(text, 2, 2);
    forall k | 0 <= k <= |body| ensures !(SACL_MARKER <= body[k..]) {
      assert k < |body| ==> body[k..][0] == body[k] && body[k] != 'S';
    }
    var entry := "(" + inner + ")";
    OneEntry(inner);
    assert Concat([entry]) == entry by { assert [entry][1..] == []; }
  }

  lemma OneEntry(inner: string)
    requires ')' !in inner
    ensures FindAces("(" + inner + "))") == ["(" + inner + ")"]
  {
    var body, entry := "(" + inner + "))", "(" + inner + ")";
    assert body == entry + ")" && body[..|entry|] == entry && body[|entry|..] == ")" && body[0..|entry|] == entry;
    assert body[|entry| - 1] == ')' && body[..|entry| - 1] == "(" + inner;
    IndexOfIs(body, ')', |entry| - 1);
    AtStart(body);
    assert FindAces(")") == [];
  }
}
