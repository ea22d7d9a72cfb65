/** The directory behind the connection: a tree of objects, and what the server does to it
    on add, modify, delete and rename (sections 4.6 to 4.9 of RFC 4511). */
module Directory {
  import opened Text
  import opened WriteGuard

  type Attrs = map<string, seq<string>>

  /** An object: its name component by component as it is spelled, and its attributes
      by lower-case name. */
  datatype Entry = Entry(name: seq<string>, attrs: Attrs)

  type Tree = map<Key, Entry>

  datatype Flag = ModAdd | ModReplace | ModDelete

  datatype Element = Element(attr: string, flag: Flag, values: seq<string>)

  datatype Message = Message(dn: string, elements: seq<Element>)

  function ValuesOf(attrs: Attrs, attr: string): seq<string> {
    if attr in attrs then attrs[attr] else []
  }

  function Without(values: seq<string>, gone: seq<string>): seq<string> {
    if values == [] then []
    else (if values[0] in gone then [] else [values[0]]) + Without(values[1..], gone)
  }

  function SetValues(attrs: Attrs, attr: string, values: seq<string>): Attrs {
    if values == [] then attrs - {attr} else attrs[attr := values]
  }

  function ApplyElement(attrs: Attrs, e: Element): Attrs {
    var attr := Lower(e.attr);
    var now := ValuesOf(attrs, attr);
    match e.flag
    case ModAdd => SetValues(attrs, attr, now + e.values)
    case ModReplace => SetValues(attrs, attr, e.values)
    case ModDelete => SetValues(attrs, attr, if e.values == [] then [] else Without(now, e.values))
  }

  function ApplyElements(attrs: Attrs, elements: seq<Element>): Attrs
    decreases |elements|
  {
    if elements == [] then attrs else ApplyElements(ApplyElement(attrs, elements[0]), elements[1..])
  }

  lemma {:induction false} ApplyAppend(attrs: Attrs, a: seq<Element>, b: seq<Element>)
    ensures ApplyElements(attrs, a + b) == ApplyElements(ApplyElements(attrs, a), b)
    decreases |a|
  {
    if a == [] {
      assert a + b == b;
    } else {
      assert (a + b)[1..] == a[1..] + b;
      ApplyAppend(ApplyElement(attrs, a[0]), a[1..], b);
    }
  }

  // --- The four operations; None is a refusal ----------------------------------------

  function ServerAdd(t: Tree, m: Message): Option<Tree> {
    var name := Spelling(m.dn);
    var key := KeyOf(name);
    if key == [] || key in t || key[1..] !in t then None
    else Some(t[key := Entry(name, ApplyElements(map[], m.elements))])
  }

  function ServerModify(t: Tree, m: Message): Option<Tree> {
    var key := DnKey(m.dn);
    if key !in t then None
    else Some(t[key := t[key].(attrs := ApplyElements(t[key].attrs, m.elements))])
  }

  predicate StrictlyBelow(k: Key, a: Key) {
    |k| > |a| && Within(k, a)
  }

  /** Only a leaf can be deleted, unless the whole subtree is asked for. */
  function ServerDelete(t: Tree, dn: string, recursive: bool): Option<Tree> {
    var key := DnKey(dn);
    if key !in t || (!recursive && exists k :: k in t && StrictlyBelow(k, key)) then None
    else Some(map k | k in t && !Within(k, key) :: t[k])
  }

  /** Where the object at *k* goes when the subtree at *old* becomes *new'*. */
  function Retarget<T>(k: seq<T>, old': seq<T>, new': seq<T>): seq<T>
    requires |old'| <= |k|
  {
    k[..|k| - |old'|] + new'
  }

  /** Whether *k* is the place of an object moved from below *old* to below *new'*. */
  predicate IsMoved(t: Tree, k: Key, old': Key, new': Key) {
    Within(k, new') && Retarget(k, new', old') in t
  }

  function MovedEntry(t: Tree, k: Key, old': Key, newName: seq<string>): Entry
    requires IsMoved(t, k, old', KeyOf(newName))
  {
    var e := t[Retarget(k, KeyOf(newName), old')];
    if |old'| <= |e.name| then e.(name := Retarget(e.name, old', newName)) else e
  }

  function AfterRename(t: Tree, old': Key, newName: seq<string>): Tree {
    var new' := KeyOf(newName);
    var stays := set k | k in t && !Within(k, old');
    var places := set k | k in t && Within(k, old') :: Retarget(k, old', new');
    map k | k in stays + places ::
      if IsMoved(t, k, old', new') then MovedEntry(t, k, old', newName)
      else if k in t then t[k] else Entry(newName, map[])
  }

  /** The whole subtree moves; the new name must be free and its parent must exist
      outside the subtree. */
  function ServerRename(t: Tree, oldDn: string, newDn: string): Option<Tree> {
    var old', newName := DnKey(oldDn), Spelling(newDn);
    var new' := KeyOf(newName);
    if old' !in t || new' == [] || (new' != old' && new' in t) || new'[1..] !in t
       || Within(new'[1..], old') then None
    else Some(AfterRename(t, old', newName))
  }

  // --- What the server keeps -----------------------------------------------------------

  function Tail(k: Key, n: nat): Key
    requires n <= |k|
  {
    k[|k| - n..]
  }

  /** Between two objects, one above the other, there is no missing container. */
  ghost predicate NoGaps(t: Tree) {
    forall k, a, n | k in t && a in t && Within(k, a) && |a| <= n <= |k| :: Tail(k, n) in t
  }

  /** Every object is filed under the key of its own name. */
  ghost predicate NamesMatch(t: Tree) {
    forall k :: k in t ==> KeyOf(t[k].name) == k
  }

  ghost predicate WellFormed(t: Tree) {
    NoGaps(t) && NamesMatch(t)
  }

  /** A tree in which every object but the naming contexts has its parent, and no naming
      context hangs below a hole, has no gaps. */
  lemma ParentClosedHasNoGaps(t: Tree, roots: set<Key>)
    requires forall k :: k in t && k !in roots ==> k != [] && k[1..] in t
    requires forall r, a :: r in roots && a in t && StrictlyBelow(r, a) ==> r[1..] in t
    ensures NoGaps(t)
  {
    forall k, a, n | k in t && a in t && Within(k, a) && |a| <= n <= |k| ensures Tail(k, n) in t {
      Climb(t, roots, k, a, n);
    }
  }

  lemma {:induction false} Climb(t: Tree, roots: set<Key>, k: Key, a: Key, n: nat)
    requires forall k :: k in t && k !in roots ==> k != [] && k[1..] in t
    requires forall r, a :: r in roots && a in t && StrictlyBelow(r, a) ==> r[1..] in t
    requires k in t && a in t && Within(k, a) && |a| <= n <= |k|
    ensures Tail(k, n) in t
    decreases |k|
  {
    if n == |k| {
      assert Tail(k, n) == k;
    } else {
      assert StrictlyBelow(k, a);
      assert Within(k[1..], a);
      Climb(t, roots, k[1..], a, n);
      assert Tail(k[1..], n) == Tail(k, n);
    }
  }

  lemma WithinTransitive(a: Key, b: Key, c: Key)
    requires Within(a, b) && Within(b, c)
    ensures Within(a, c)
  {
  }

  /** Two ancestors of one key are comparable. */
  lemma AncestorsOrdered(k: Key, a: Key, b: Key)
    requires Within(k, a) && Within(k, b) && |a| <= |b|
    ensures Within(b, a)
  {
  }

  /** Below a free name whose parent exists there is nothing. */
  lemma NothingBelowFree(t: Tree, key: Key)
    requires NoGaps(t) && key != [] && key !in t && key[1..] in t
    ensures forall k :: k in t ==> !Within(k, key)
  {
    forall k | k in t ensures !Within(k, key) {
      assert Within(k, key) ==> Within(k, key[1..]) && Tail(k, |key|) == key;
    }
  }

  lemma AddKeepsNoGaps(t: Tree, key: Key, e: Entry)
    requires NoGaps(t) && key != [] && key !in t && key[1..] in t
    ensures NoGaps(t[key := e])
  {
    NothingBelowFree(t, key);
    var t' := t[key := e];
    forall k, a, n | k in t' && a in t' && Within(k, a) && |a| <= n <= |k| ensures Tail(k, n) in t' {
      if n == |k| {
        assert Tail(k, n) == k;
      } else if k == key {
        assert Within(k[1..], a) && Tail(k[1..], n) == Tail(k, n);
      }
    }
  }

  lemma AddKeeps(t: Tree, m: Message)
    requires WellFormed(t) && ServerAdd(t, m).Some?
    ensures WellFormed(ServerAdd(t, m).value)
  {
    hide DnKey, Spelling, KeyOf;
    var name := Spelling(m.dn);
    AddKeepsNoGaps(t, KeyOf(name), Entry(name, ApplyElements(map[], m.elements)));
  }

  lemma ModifyKeeps(t: Tree, m: Message)
    requires WellFormed(t) && ServerModify(t, m).Some?
    ensures WellFormed(ServerModify(t, m).value)
  {
  }

  lemma DeleteKeepsNoGaps(t: Tree, t': Tree, key: Key)
    requires NoGaps(t) && forall k :: k in t' <==> k in t && !Within(k, key)
    ensures NoGaps(t')
  {
    hide NoGaps, Tail;
    forall k, a, n | k in t' && a in t' && Within(k, a) && |a| <= n <= |k| ensures Tail(k, n) in t' {
      NoGapAt(t, k, a, n);
      TailAbove(k, n, key);
    }
    GapFree(t');
  }

  lemma TailAbove(k: Key, n: nat, key: Key)
    requires n <= |k|
    ensures Within(Tail(k, n), key) ==> Within(k, key)
  {
  }

  lemma GapFree(t: Tree)
    requires forall k, a, n | k in t && a in t && Within(k, a) && |a| <= n <= |k| :: Tail(k, n) in t
    ensures NoGaps(t)
  {
  }

  lemma DeleteKeeps(t: Tree, dn: string, recursive: bool)
    requires WellFormed(t) && ServerDelete(t, dn, recursive).Some?
    ensures WellFormed(ServerDelete(t, dn, recursive).value)
  {
    hide DnKey, KeyOf, NoGaps, Within;
    DeleteKeepsNoGaps(t, ServerDelete(t, dn, recursive).value, DnKey(dn));
  }

  lemma RetargetWithin<T>(k: seq<T>, old': seq<T>, new': seq<T>)
    requires SuffixOf(old', k)
    ensures SuffixOf(new', Retarget(k, old', new'))
    ensures Retarget(Retarget(k, old', new'), new', old') == k
  {
    assert Retarget(k, old', new')[..|k| - |old'|] == k[..|k| - |old'|];
  }

  /** After a rename an object stands exactly where one that was not moved stood, or where
      the rename puts one that was. */
  lemma RenamedPlaces(t: Tree, old': Key, newName: seq<string>, k: Key)
    ensures var new' := KeyOf(newName);
            k in AfterRename(t, old', newName) <==>
              (k in t && !Within(k, old')) || IsMoved(t, k, old', new')
  {
    hide KeyOf;
    var new' := KeyOf(newName);
    if IsMoved(t, k, old', new') {
      var from := Retarget(k, new', old');
      RetargetWithin(k, new', old');
      assert from in t && Within(from, old') && Retarget(from, old', new') == k;
    }
    if k in AfterRename(t, old', newName) && !(k in t && !Within(k, old')) {
      var from :| from in t && Within(from, old') && Retarget(from, old', new') == k;
      RetargetWithin(from, old', new');
    }
  }

  lemma KeyOfConcat(a: seq<string>, b: seq<string>)
    ensures KeyOf(a + b) == KeyOf(a) + KeyOf(b)
  {
    hide Component;
  }

  lemma MovedNameMatches(name: seq<string>, old': Key, newName: seq<string>)
    requires Within(KeyOf(name), old')
    ensures KeyOf(Retarget(name, old', newName)) == Retarget(KeyOf(name), old', KeyOf(newName))
  {
    hide Component;
    var n := |name| - |old'|;
    KeyOfConcat(name[..n], newName);
    KeyOfConcat(name[..n], name[n..]);
    assert name == name[..n] + name[n..];
  }

  lemma RenameKeepsNames(t: Tree, old': Key, newName: seq<string>)
    requires NamesMatch(t)
    ensures NamesMatch(AfterRename(t, old', newName))
  {
    hide KeyOf;
    var new', t' := KeyOf(newName), AfterRename(t, old', newName);
    forall k | k in t' ensures KeyOf(t'[k].name) == k {
      RenamedPlaces(t, old', newName, k);
      if IsMoved(t, k, old', new') {
        var from := Retarget(k, new', old');
        RetargetWithin(k, new', old');
        KeyLength(t[from].name);
        MovedNameMatches(t[from].name, old', newName);
      }
    }
  }

  lemma KeyLength(name: seq<string>)
    ensures |KeyOf(name)| == |name|
  {
  }

  /** The conditions under which the server renames. */
  predicate CanRename(t: Tree, old': Key, new': Key) {
    old' in t && new' != [] && (new' == old' || new' !in t) && new'[1..] in t
    && !Within(new'[1..], old')
  }

  lemma RenameKeepsNoGaps(t: Tree, old': Key, newName: seq<string>)
    requires NoGaps(t) && CanRename(t, old', KeyOf(newName))
    ensures NoGaps(AfterRename(t, old', newName))
  {
    hide KeyOf, AfterRename, CanRename, Within, Tail;
    var t' := AfterRename(t, old', newName);
    forall k, a, n | k in t' && a in t' && Within(k, a) && |a| <= n <= |k| ensures Tail(k, n) in t' {
      RenameKeepsTail(t, old', newName, k, a, n);
    }
  }

  lemma RenameKeepsTail(t: Tree, old': Key, newName: seq<string>, k: Key, a: Key, n: nat)
    requires NoGaps(t) && CanRename(t, old', KeyOf(newName)) && |a| <= n <= |k|
    requires var t' := AfterRename(t, old', newName); k in t' && a in t' && Within(k, a)
    ensures Tail(k, n) in AfterRename(t, old', newName)
  {
    hide KeyOf, AfterRename;
    var new' := KeyOf(newName);
    RenamedPlaces(t, old', newName, k);
    RenamedPlaces(t, old', newName, a);
    RenamedPlaces(t, old', newName, Tail(k, n));
    assert Within(k, Tail(k, n));
    if k in t && !Within(k, old') {
      StayedTail(t, old', new', k, a, n);
    } else {
      MovedTail(t, old', new', k, a, n);
    }
  }

  lemma StayedTail(t: Tree, old': Key, new': Key, k: Key, a: Key, n: nat)
    requires NoGaps(t) && CanRename(t, old', new')
    requires k in t && !Within(k, old') && Within(k, a) && |a| <= n <= |k|
    requires (a in t && !Within(a, old')) || IsMoved(t, a, old', new')
    ensures Tail(k, n) in t && !Within(Tail(k, n), old')
  {
    assert Within(k, Tail(k, n));
    if Within(Tail(k, n), old') { WithinTransitive(k, Tail(k, n), old'); }
    if new' != old' {
      NothingBelowFree(t, new');
    }
    if !(a in t && !Within(a, old')) {
      WithinTransitive(k, a, new');
    }
  }

  /** Inside what was moved, the containers moved along. */
  lemma MovedTailInside(t: Tree, old': Key, new': Key, k: Key, n: nat)
    requires NoGaps(t) && old' in t && IsMoved(t, k, old', new') && |new'| <= n <= |k|
    ensures IsMoved(t, Tail(k, n), old', new')
  {
    hide NoGaps;
    var from := Retarget(k, new', old');
    RetargetWithin(k, new', old');
    var m := n - |new'| + |old'|;
    assert Tail(from, m) in t by { NoGapAt(t, from, old', m); }
    assert Retarget(Tail(k, n), new', old') == Tail(from, m);
  }

  lemma NoGapAt(t: Tree, k: Key, a: Key, n: nat)
    requires NoGaps(t) && k in t && a in t && Within(k, a) && |a| <= n <= |k|
    ensures Tail(k, n) in t
  {
  }

  /** Above what was moved, the containers are those of the new place. */
  lemma MovedTailAbove(t: Tree, old': Key, new': Key, k: Key, a: Key, n: nat)
    requires NoGaps(t) && CanRename(t, old', new')
    requires IsMoved(t, k, old', new') && Within(k, a) && |a| <= n < |new'|
    requires a in t
    ensures Tail(k, n) in t && !Within(Tail(k, n), old')
  {
    hide NoGaps;
    var parent := new'[1..];
    assert Tail(k, n) == Tail(parent, n);
    assert Within(parent, a) && Within(parent, Tail(parent, n));
    NoGapAt(t, parent, a, n);
    if Within(Tail(parent, n), old') { WithinTransitive(parent, Tail(parent, n), old'); }
  }

  lemma MovedTail(t: Tree, old': Key, new': Key, k: Key, a: Key, n: nat)
    requires NoGaps(t) && CanRename(t, old', new')
    requires IsMoved(t, k, old', new') && Within(k, a) && |a| <= n <= |k|
    requires (a in t && !Within(a, old')) || IsMoved(t, a, old', new')
    ensures (Tail(k, n) in t && !Within(Tail(k, n), old')) || IsMoved(t, Tail(k, n), old', new')
  {
    hide NoGaps;
    if n >= |new'| {
      MovedTailInside(t, old', new', k, n);
    } else {
      MovedTailAbove(t, old', new', k, a, n);
    }
  }

  lemma RenameKeeps(t: Tree, oldDn: string, newDn: string)
    requires WellFormed(t) && ServerRename(t, oldDn, newDn).Some?
    ensures WellFormed(ServerRename(t, oldDn, newDn).value)
  {
    hide DnKey, Spelling, KeyOf, AfterRename;
    RenameKeepsNoGaps(t, DnKey(oldDn), Spelling(newDn));
    RenameKeepsNames(t, DnKey(oldDn), Spelling(newDn));
  }
}
