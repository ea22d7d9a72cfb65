/** Python's string operations, as far as the modelled code uses them. */
module Text {

  datatype Option<+T> = None | Some(value: T)

  // --- Case ------------------------------------------------------------------

  function LowerChar(c: char): (r: char)
    ensures 'A' <= c <= 'Z' || r == c
    ensures !('A' <= r <= 'Z')
  {
    if 'A' <= c <= 'Z' then (c as int + 32) as char else c
  }

  function UpperChar(c: char): (r: char)
    ensures 'a' <= c <= 'z' || r == c
    ensures !('a' <= r <= 'z')
  {
    if 'a' <= c <= 'z' then (c as int - 32) as char else c
  }

  function Lower(s: string): (r: string)
    ensures |r| == |s|
    ensures forall i :: 0 <= i < |s| ==> r[i] == LowerChar(s[i])
  {
    seq(|s|, i requires 0 <= i < |s| => LowerChar(s[i]))
  }

  function Upper(s: string): (r: string)
    ensures |r| == |s|
    ensures forall i :: 0 <= i < |s| ==> r[i] == UpperChar(s[i])
  {
    seq(|s|, i requires 0 <= i < |s| => UpperChar(s[i]))
  }

  lemma LowerConcat(a: string, b: string)
    ensures Lower(a + b) == Lower(a) + Lower(b)
  {
  }

  lemma UpperIdempotent(s: string)
    ensures Upper(Upper(s)) == Upper(s)
  {
  }

  /** The same letter, or the two cases of one. */
  predicate SameLetter(a: char, b: char) {
    a == b || ('A' <= a <= 'Z' && b as int == a as int + 32) || ('A' <= b <= 'Z' && a as int == b as int + 32)
  }

  predicate EqualIgnoringCase(a: string, b: string) {
    |a| == |b| && forall i :: 0 <= i < |a| ==> SameLetter(a[i], b[i])
  }

  lemma LowerIff(a: string, b: string)
    ensures Lower(a) == Lower(b) <==> EqualIgnoringCase(a, b)
  {
    if Lower(a) == Lower(b) {
      forall i | 0 <= i < |a| ensures SameLetter(a[i], b[i]) {
        assert Lower(a)[i] == Lower(b)[i];
      }
    }
  }

  lemma UpperIff(a: string, b: string)
    ensures Upper(a) == Upper(b) <==> EqualIgnoringCase(a, b)
  {
    if Upper(a) == Upper(b) {
      forall i | 0 <= i < |a| ensures SameLetter(a[i], b[i]) {
        assert Upper(a)[i] == Upper(b)[i];
      }
    }
  }

  // --- Stripping ---------------------------------------------------------------

  /** What str.strip() without an argument takes off. */
  const WHITESPACE: set<char> := set c: char | IsSpace(c)

  predicate IsSpace(c: char) {
    (c <= ' ' && ('\t' <= c <= '\r' || '\U{1C}' <= c)) || (c >= '\U{85}' && IsWideSpace(c))
  }

  predicate IsWideSpace(c: char) {
    c == '\U{85}' || c == '\U{A0}' || c == '\U{1680}' || '\U{2000}' <= c <= '\U{200A}' || c == '\U{2028}'
    || c == '\U{2029}' || c == '\U{202F}' || c == '\U{205F}' || c == '\U{3000}'
  }

  function TrimLeft(s: string, cs: set<char>): (r: string)
    ensures |r| <= |s| && r == s[|s| - |r|..]
    ensures r != [] ==> r[0] !in cs
    ensures s != [] && s[0] !in cs ==> r == s
  {
    if s != [] && s[0] in cs then TrimLeft(s[1..], cs) else s
  }

  function TrimRight(s: string, cs: set<char>): (r: string)
    ensures |r| <= |s| && r == s[..|r|]
    ensures r != [] ==> r[|r| - 1] !in cs
    ensures s != [] && s[|s| - 1] !in cs ==> r == s
    ensures forall i :: |r| <= i < |s| ==> s[i] in cs
  {
    if s != [] && s[|s| - 1] in cs then TrimRight(s[..|s| - 1], cs) else s
  }

  function Strip(s: string, cs: set<char>): (r: string)
    ensures |r| <= |s|
    ensures CleanEnds(r, cs)
    ensures CleanEnds(s, cs) ==> r == s
  {
    TrimRight(TrimLeft(s, cs), cs)
  }

  predicate CleanEnds(s: string, cs: set<char>) {
    s != [] ==> s[0] !in cs && s[|s| - 1] !in cs
  }

  /** Stripping one known end character at a time. */
  lemma {:induction false} TrimRightSnoc(s: string, c: char, cs: set<char>)
    ensures TrimRight(s + [c], cs) == if c in cs then TrimRight(s, cs) else s + [c]
  {
    assert (s + [c])[..|s|] == s;
  }

  /** One character to strip behind a text with clean ends. */
  lemma StripBehind(s: string, c: char, cs: set<char>)
    requires s != "" && CleanEnds(s, cs) && c in cs
    ensures Strip(s + [c], cs) == s
  {
    hide TrimRight, TrimLeft;
    assert (s + [c])[0] == s[0];
    TrimRightSnoc(s, c, cs);
  }

  lemma TrimFirst(s: string, cs: set<char>)
    requires s != "" && s[0] in cs
    ensures TrimLeft(s, cs) == TrimLeft(s[1..], cs)
  {
  }

  /** One character to strip on each side of a text with clean ends. */
  lemma StripAround(o: char, inner: string, c: char, cs: set<char>)
    requires o in cs && c in cs && CleanEnds(inner, cs)
    ensures Strip([o] + inner + [c], cs) == inner
  {
    hide TrimRight, TrimLeft;
    var s := [o] + inner + [c];
    assert s[1..] == inner + [c] && s[0] == o;
    assert TrimLeft(s, cs) == TrimLeft(inner + [c], cs) by { TrimFirst(s, cs); }
    TrimRightSnoc(inner, c, cs);
    if inner == "" {
      assert inner + [c] == [c] && [c][1..] == "";
      assert TrimRight("", cs) == "";
    } else {
      assert (inner + [c])[0] == inner[0];
      assert TrimRight(inner, cs) == inner;
    }
  }

  /** Every character of a stripped text was in the text. */
  lemma StripSubset(s: string, cs: set<char>, c: char)
    requires c in Strip(s, cs)
    ensures c in s
  {
  }

  // --- Finding -----------------------------------------------------------------

  /** The first position of *c* in *s*, or |s|. */
  function IndexOf(s: string, c: char): (r: nat)
    ensures r <= |s|
    ensures c !in s[..r]
    ensures r < |s| ==> s[r] == c
    ensures r == |s| <==> c !in s
  {
    if s == [] || s[0] == c then 0
    else
      var r := 1 + IndexOf(s[1..], c);
      assert s[..r] == [s[0]] + s[1..][..r - 1];
      assert s == [s[0]] + s[1..];
      r
  }

  lemma IndexOfIs(s: string, c: char, k: nat)
    requires k <= |s| && c !in s[..k]
    requires k < |s| ==> s[k] == c
    ensures IndexOf(s, c) == k
  {
  }

  lemma NotBefore(s: string, pat: string, n: nat)
    requires s != "" && n <= |s| && !(pat <= s)
    requires forall k :: 0 <= k < n ==> !(pat <= s[1..][k..])
    ensures forall k :: 0 <= k <= n ==> !(pat <= s[k..])
    ensures n < |s| ==> s[1..][n..] == s[n + 1..]
  {
    forall k | 0 <= k <= n ensures !(pat <= s[k..]) {
      if k == 0 {
        assert s[0..] == s;
      } else {
        assert s[k..] == s[1..][k - 1..];
      }
    }
  }

  /** str.find: the first position of *pat* in *s*, or -1. */
  function Find(s: string, pat: string): (r: int)
    ensures -1 <= r <= |s| - |pat| || r == -1
    ensures r >= 0 ==> pat <= s[r..]
    ensures forall k :: 0 <= k < (if r < 0 then |s| + 1 else r) ==> !(pat <= s[k..])
  {
    if pat <= s then
      assert s[0..] == s;
      0
    else if s == [] then -1
    else
      var r := Find(s[1..], pat);
      NotBefore(s, pat, if r < 0 then |s| else r);
      if r < 0 then -1 else r + 1
  }

  lemma FindIs(s: string, pat: string, k: nat)
    requires k <= |s| && pat <= s[k..]
    requires forall j :: 0 <= j < k ==> !(pat <= s[j..])
    ensures Find(s, pat) == k
  {
  }

  predicate EndsWith(s: string, suffix: string) {
    |suffix| <= |s| && s[|s| - |suffix|..] == suffix
  }

  predicate SuffixOf<T(==)>(a: seq<T>, b: seq<T>) {
    |a| <= |b| && b[|b| - |a|..] == a
  }

  // --- Splitting and joining -----------------------------------------------------

  function Join(parts: seq<string>, sep: string): string {
    if parts == [] then ""
    else if |parts| == 1 then parts[0]
    else parts[0] + sep + Join(parts[1..], sep)
  }

  function Concat(parts: seq<string>): string {
    if parts == [] then "" else parts[0] + Concat(parts[1..])
  }

  lemma {:induction false} ConcatAppend(a: seq<string>, b: seq<string>)
    ensures Concat(a + b) == Concat(a) + Concat(b)
  {
    if a == [] {
      assert a + b == b;
    } else {
      assert (a + b)[1..] == a[1..] + b;
      ConcatAppend(a[1..], b);
    }
  }

  lemma ConcatSnoc(a: seq<string>, x: string)
    ensures Concat(a + [x]) == Concat(a) + x
  {
    ConcatAppend(a, [x]);
    assert Concat([x]) == x + Concat([]) == x;
  }

  /** str.split with a one-character separator. */
  function Split(s: string, c: char): (r: seq<string>)
    ensures |r| >= 1
    decreases |s|
  {
    var k := IndexOf(s, c);
    if k == |s| then [s] else [s[..k]] + Split(s[k + 1..], c)
  }

  lemma {:induction false} SplitJoin(parts: seq<string>, c: char)
    requires parts != [] && forall p :: p in parts ==> c !in p
    ensures Split(Join(parts, [c]), c) == parts
  {
    var s := Join(parts, [c]);
    assert parts[0] in parts;
    if |parts| == 1 {
      IndexOfIs(s, c, |s|);
    } else {
      assert s == parts[0] + [c] + Join(parts[1..], [c]);
      assert s[..|parts[0]|] == parts[0];
      IndexOfIs(s, c, |parts[0]|);
      assert s[|parts[0]| + 1..] == Join(parts[1..], [c]);
      SplitJoin(parts[1..], c);
    }
  }
}
