/** No character of a printed value is left to be misread (backend/samadcon/ad/values.py 283-311, section 2.4 of RFC
    4514). */
module PrintedValues {
  import opened Text
  import opened Values
  import opened DnTs

  /** The characters that mean something in a name. */
  predicate Meaningful(c: char) {
    c == ',' || c == '+' || c == '"' || c == '<' || c == '>' || c == ';' || c == '='
  }

  predicate IsQuoted(s: string, k: nat)
    requires k < |s|
  {
    RunBefore(s, k) % 2 == 1
  }

  /** Every character that means something stands behind a backslash of its own, no backslash is left over, and nothing
      is a control character. */
  predicate WellQuoted(s: string) {
    && RunBefore(s, |s|) % 2 == 0
    && forall k: nat :: k < |s| ==> s[k] >= ' ' && (Meaningful(s[k]) ==> IsQuoted(s, k))
  }

  lemma {:induction false} RunAppend(a: string, b: string, k: nat)
    requires k <= |b| && RunBefore(a, |a|) % 2 == 0
    ensures RunBefore(a + b, |a| + k) % 2 == RunBefore(b, k) % 2
  {
    if k == 0 {
      RunPrefix(a, b, |a|);
    } else if b[k - 1] == '\\' {
      RunAppend(a, b, k - 1);
    }
  }

  lemma {:induction false} RunPrefix(a: string, b: string, k: nat)
    requires k <= |a|
    ensures RunBefore(a + b, k) == RunBefore(a, k)
  {
    if k > 0 && a[k - 1] == '\\' {
      RunPrefix(a, b, k - 1);
    }
  }

  lemma QuotedAppend(a: string, b: string)
    requires WellQuoted(a) && WellQuoted(b)
    ensures WellQuoted(a + b)
  {
    hide Meaningful;
    var s := a + b;
    RunAppend(a, b, |b|);
    forall k: nat | k < |s| ensures s[k] >= ' ' && (Meaningful(s[k]) ==> IsQuoted(s, k)) {
      if k < |a| {
        RunPrefix(a, b, k);
      } else {
        assert s[k] == b[k - |a|];
        RunAppend(a, b, k - |a|);
      }
    }
  }

  lemma QuotedOne(v: string, i: nat)
    requires i < |v|
    ensures WellQuoted(EscapedAt(v, i))
  {
    var a := EscapedAt(v, i);
    assert RunBefore(a, 0) == 0;
    assert RunBefore(a, 1) == if a[0] == '\\' then 1 else 0;
    if |a| >= 2 {
      assert RunBefore(a, 2) == if a[1] == '\\' then 2 else 0;
    }
  }

  lemma {:induction false} QuotedFrom(v: string, i: nat)
    requires i <= |v|
    ensures WellQuoted(EscapeFrom(v, i))
    decreases |v| - i
  {
    hide EscapedAt, WellQuoted;
    if i == |v| {
      NothingQuoted();
    } else {
      QuotedFrom(v, i + 1);
      QuotedOne(v, i);
      QuotedAppend(EscapedAt(v, i), EscapeFrom(v, i + 1));
    }
  }

  lemma NothingQuoted()
    ensures WellQuoted("")
  {
  }

  lemma {:induction false} EndsWithLast(v: string, i: nat) returns (stem: string)
    requires i < |v|
    ensures EscapeFrom(v, i) == stem + EscapedAt(v, |v| - 1) && WellQuoted(stem)
    decreases |v| - i
  {
    hide EscapedAt, WellQuoted;
    NothingQuoted();
    if i + 1 < |v| {
      var rest := EndsWithLast(v, i + 1);
      QuotedOne(v, i);
      QuotedAppend(EscapedAt(v, i), rest);
      stem := EscapedAt(v, i) + rest;
      assert EscapedAt(v, i) + (rest + EscapedAt(v, |v| - 1)) == stem + EscapedAt(v, |v| - 1);
    } else {
      stem := "";
      assert EscapeFrom(v, |v|) == "" && EscapedAt(v, i) + "" == "" + EscapedAt(v, i);
    }
  }

  /** In a printed value no character that means something stands bare, nor a leading space or number sign, nor a
      trailing space; control characters are gone. */
  lemma NothingBare(v: string)
    ensures var s := Escape(v);
            && WellQuoted(s)
            && (s != "" ==> s[0] != ' ' && s[0] != '#' && (s[|s| - 1] == ' ' ==> IsQuoted(s, |s| - 1)))
  {
    QuotedFrom(v, 0);
    if v != "" {
      var a := EscapedAt(v, 0);
      assert Escape(v)[0] == a[0];
      var stem := EndsWithLast(v, 0);
      LastQuoted(v, stem);
    }
  }

  lemma LastQuoted(v: string, stem: string)
    requires v != "" && WellQuoted(stem)
    ensures var s := stem + EscapedAt(v, |v| - 1); s[|s| - 1] == ' ' ==> IsQuoted(s, |s| - 1)
  {
    var a := EscapedAt(v, |v| - 1);
    var s := stem + a;
    assert s[|s| - 1] == a[|a| - 1];
    if a[|a| - 1] == ' ' {
      assert a == "\\ ";
      RunAppend(stem, a, 1);
      assert RunBefore(a, 1) == 1;
    }
  }
}
