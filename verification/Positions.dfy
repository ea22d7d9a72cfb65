/** The console's position after a rename is where the directory has the object
    (frontend/src/dn.ts, relocate, against the rename of the connection). */
module Positions {
  import opened Text
  import opened Values
  import opened WriteGuard
  import opened Directory
  import DnTs

  function Texts(name: seq<Rdn>): (r: seq<string>)
    ensures |r| == |name|
    ensures forall i :: 0 <= i < |name| ==> r[i] == name[i].Print()
  {
    if name == [] then [] else [name[0].Print()] + Texts(name[1..])
  }

  /** The object printed as *d* is in the tree, under its key and spelled as printed. */
  predicate Shows(t: Tree, d: seq<Rdn>) {
    NameKey(d) in t && t[NameKey(d)].name == Texts(d)
  }

  /** A usable name: valid components, at least one, no white space at the very end. */
  predicate Plain(name: seq<Rdn>) {
    name != [] && Valid(name) && KeepsEnd(name) && !SpaceEnd(name[|name| - 1].value)
  }

  lemma NameKeyAppend(a: seq<Rdn>, b: seq<Rdn>)
    ensures NameKey(a + b) == NameKey(a) + NameKey(b)
  {
    hide RdnKey;
  }

  lemma TextsAppend(a: seq<Rdn>, b: seq<Rdn>)
    ensures Texts(a + b) == Texts(a) + Texts(b)
  {
  }

  lemma {:induction false} EndDnIsPrint(name: seq<Rdn>)
    requires Plain(name)
    ensures EndDn(name) == PrintDn(name) && SplitText(EndDn(name)) == Texts(name)
  {
    assert name[0] in name;
    EndDnStart(name);
    if |name| == 1 {
      EndPrintRdn(name[0]);
      assert SplitText(EndDn(name)) == [EndPrint(name[0])] + [];
    } else {
      EndDnIsPrint(name[1..]);
      SplitEndCons(name);
    }
  }

  lemma SpellingOfPrinted(name: seq<Rdn>)
    requires Plain(name)
    ensures Spelling(PrintDn(name)) == Texts(name)
  {
    hide SplitText, PrintDn, EndDn, Strip, SpaceEnd, Texts, IsSpace;
    EndDnIsPrint(name);
    EndOfText(name);
    EndDnStart(name);
    KindIsNoSpace(EndDn(name)[0]);
    StripEnds(PrintDn(name), EndDn(name));
  }

  lemma MovedKey(d: seq<Rdn>, from: seq<Rdn>, to: seq<Rdn>)
    requires Valid(d) && Valid(from) && SuffixOf(LowerName(from), LowerName(d))
    ensures var moved := DnTs.Moved(d, from, to);
            && |from| <= |d|
            && NameKey(moved) == Retarget(NameKey(d), NameKey(from), NameKey(to))
            && Texts(moved) == Retarget(Texts(d), NameKey(from), Texts(to))
            && Within(NameKey(d), NameKey(from))
  {
    hide NameKey, Texts;
    NameKeySuffix(d, from);
    var pre, rest := d[..|d| - |from|], d[|d| - |from|..];
    assert d == pre + rest;
    NameKeyAppend(pre, rest);
    NameKeyAppend(pre, to);
    TextsAppend(pre, rest);
    TextsAppend(pre, to);
    Lengths(pre, rest);
    Lengths(from, d);
  }

  lemma Lengths(a: seq<Rdn>, b: seq<Rdn>)
    ensures |NameKey(a)| == |Texts(a)| == |a| && |NameKey(b)| == |Texts(b)| == |b|
  {
  }

  /** What the server does with two printed names. */
  lemma RenamePrinted(t: Tree, from: seq<Rdn>, to: seq<Rdn>)
    requires Plain(from) && Plain(to) && ServerRename(t, PrintDn(from), PrintDn(to)).Some?
    ensures KeyOf(Texts(to)) == NameKey(to) && CanRename(t, NameKey(from), NameKey(to))
    ensures ServerRename(t, PrintDn(from), PrintDn(to)) == Some(AfterRename(t, NameKey(from), Texts(to)))
  {
    hide DnKey, Spelling, KeyOf, NameKey, Texts, PrintDn, Valid, KeepsEnd, SpaceEnd, AfterRename, Within;
    KeyOfPrinted(from);
    KeyOfPrinted(to);
    SpellingOfPrinted(to);
    SameKey(PrintDn(to));
  }

  lemma AfterAt(t: Tree, old': Key, newName: seq<string>, k: Key)
    requires k in AfterRename(t, old', newName)
    ensures AfterRename(t, old', newName)[k]
         == if IsMoved(t, k, old', KeyOf(newName)) then MovedEntry(t, k, old', newName)
            else if k in t then t[k] else Entry(newName, map[])
  {
    hide KeyOf, MovedEntry, IsMoved;
  }

  lemma ObjectMoved(t: Tree, d: seq<Rdn>, from: seq<Rdn>, to: seq<Rdn>)
    requires Shows(t, d) && Valid(d) && Valid(from) && SuffixOf(LowerName(from), LowerName(d))
    requires KeyOf(Texts(to)) == NameKey(to)
    ensures var after := AfterRename(t, NameKey(from), Texts(to));
            && Shows(after, DnTs.Moved(d, from, to))
            && after[NameKey(DnTs.Moved(d, from, to))].attrs == t[NameKey(d)].attrs
  {
    hide KeyOf, NameKey, Texts, LowerName, Valid, AfterRename, DnTs.Moved;
    var old', new', k := NameKey(from), NameKey(to), NameKey(DnTs.Moved(d, from, to));
    MovedKey(d, from, to);
    Lengths(d, from);
    Lengths(to, to);
    RetargetWithin(NameKey(d), old', new');
    RenamedPlaces(t, old', Texts(to), k);
    AfterAt(t, old', Texts(to), k);
  }

  lemma ObjectStays(t: Tree, d: seq<Rdn>, from: seq<Rdn>, to: seq<Rdn>)
    requires NoGaps(t) && Shows(t, d) && Valid(d) && Valid(from) && !SuffixOf(LowerName(from), LowerName(d))
    requires KeyOf(Texts(to)) == NameKey(to) && CanRename(t, NameKey(from), NameKey(to))
    ensures var after := AfterRename(t, NameKey(from), Texts(to));
            Shows(after, d) && after[NameKey(d)].attrs == t[NameKey(d)].attrs
  {
    hide KeyOf, NameKey, Texts, LowerName, Valid, AfterRename, NoGaps;
    var old', new', k := NameKey(from), NameKey(to), NameKey(d);
    NameKeySuffix(d, from);
    RenamedPlaces(t, old', Texts(to), k);
    AfterAt(t, old', Texts(to), k);
    if new' != old' {
      NothingBelowFree(t, new');
    }
  }

  /** After any rename the server makes, each object stands where the console's text
      operation says: its new text is what relocate() computes from its old one. */
  lemma ConsoleFollowsRename(t: Tree, d: seq<Rdn>, from: seq<Rdn>, to: seq<Rdn>)
    requires WellFormed(t) && Shows(t, d) && Plain(d) && Plain(from) && Plain(to)
    requires ServerRename(t, PrintDn(from), PrintDn(to)).Some?
    ensures var after := ServerRename(t, PrintDn(from), PrintDn(to)).value;
            && Shows(after, DnTs.Moved(d, from, to))
            && after[NameKey(DnTs.Moved(d, from, to))].attrs == t[NameKey(d)].attrs
            && PrintDn(DnTs.Moved(d, from, to)) == DnTs.Relocate(PrintDn(d), PrintDn(from), Some(PrintDn(to)))
  {
    hide KeyOf, NameKey, Texts, PrintDn, LowerName, DnTs.Relocate, Valid, KeepsEnd, SpaceEnd, AfterRename, ServerRename,
      Shows, NoGaps, NamesMatch, CanRename;
    RenamePrinted(t, from, to);
    DnTs.RelocateFollowsRename(d, from, to);
    if SuffixOf(LowerName(from), LowerName(d)) {
      ObjectMoved(t, d, from, to);
    } else {
      ObjectStays(t, d, from, to);
    }
  }

  lemma SameKey(dn: string)
    ensures DnKey(dn) == KeyOf(Spelling(dn))
  {
  }
}
