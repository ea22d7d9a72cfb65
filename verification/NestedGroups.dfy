/** Walking nested groups (backend/samadcon/ad/groups.py, _expand_nested). */
module NestedGroups {
  import opened Text

  datatype Entry = Entry(classes: seq<string>, members: seq<string>)

  /** The directory as a lookup by lower-case name. */
  type Directory = map<string, Entry>

  const MAX_NESTING_DEPTH: nat := 20

  type Items = seq<(string, nat)>

  predicate IsGroup(e: Entry) {
    exists c :: c in e.classes && Lower(c) == "group"
  }

  /** Only an object of the class group, in any case, is opened. */
  lemma GroupIff(e: Entry)
    ensures IsGroup(e) <==> exists c :: c in e.classes && EqualIgnoringCase(c, "group")
  {
    hide Lower, EqualIgnoringCase;
    assert Lower("group") == "group" by { GroupIsLower(); }
    forall c ensures Lower(c) == "group" <==> EqualIgnoringCase(c, "group") {
      LowerIff(c, "group");
    }
  }

  lemma GroupIsLower()
    ensures Lower("group") == "group"
  {
  }

  /** What a name has below it: the members of a group, nothing for anything else. */
  function Members(g: Directory, key: string): seq<string> {
    if key in g && IsGroup(g[key]) then g[key].members else []
  }

  function Keys(dns: seq<string>): set<string> {
    set dn | dn in dns :: Lower(dn)
  }

  /** Every name the directory mentions as a member. */
  function Mentioned(g: Directory): set<string> {
    set key, dn | key in g && dn in g[key].members :: Lower(dn)
  }

  // --- The recursive walk -------------------------------------------------------------

  /** Preorder: each name not seen yet, with the depth it is met at, followed by the walk
      of its members while the depth allows. */
  function Walk(g: Directory, limit: nat, dns: seq<string>, depth: nat, seen: set<string>): (r: (Items, set<string>))
    ensures seen <= r.1
    decreases (Mentioned(g) + Keys(dns)) - seen, |dns|
  {
    if dns == [] then ([], seen)
    else if Lower(dns[0]) in seen then
      assert Keys(dns[1..]) <= Keys(dns);
      Walk(g, limit, dns[1..], depth, seen)
    else
      var key := Lower(dns[0]);
      var below := if depth < limit then Members(g, key) else [];
      assert key in Keys(dns) && Keys(below) <= Mentioned(g) && Keys(dns[1..]) <= Keys(dns);
      var (out, seen') := Walk(g, limit, below, depth + 1, seen + {key});
      var (rest, seen'') := Walk(g, limit, dns[1..], depth, seen');
      ([(dns[0], depth)] + out + rest, seen'')
  }

  function Names(items: Items): seq<string> {
    seq(|items|, i requires 0 <= i < |items| => items[i].0)
  }

  /** What the source returns. */
  function Expand(g: Directory, members: seq<string>): seq<string> {
    Names(Walk(g, MAX_NESTING_DEPTH, members, 0, {}).0)
  }

  // --- The stack walk ---------------------------------------------------------------------

  /** The walks of a list of pending items, one after the other. */
  function WalkItems(g: Directory, limit: nat, items: Items, seen: set<string>): (r: (Items, set<string>))
    ensures seen <= r.1
    decreases |items|
  {
    if items == [] then ([], seen)
    else
      var (out, seen') := Walk(g, limit, [items[0].0], items[0].1, seen);
      var (rest, seen'') := WalkItems(g, limit, items[1..], seen');
      (out + rest, seen'')
  }

  function At(dns: seq<string>, depth: nat): (r: Items)
    ensures |r| == |dns|
    ensures forall i :: 0 <= i < |dns| ==> r[i] == (dns[i], depth)
  {
    if dns == [] then [] else [(dns[0], depth)] + At(dns[1..], depth)
  }

  /** The items whose names have not been seen. */
  function Unseen(items: Items, seen: set<string>): Items {
    if items == [] then []
    else (if Lower(items[0].0) in seen then [] else [items[0]]) + Unseen(items[1..], seen)
  }

  /** A stack in the order it will be popped. */
  function Popped<T>(stack: seq<T>): seq<T> {
    if stack == [] then [] else [stack[|stack| - 1]] + Popped(stack[..|stack| - 1])
  }

  lemma {:induction false} PoppedPush<T>(stack: seq<T>, more: seq<T>)
    ensures Popped(stack + Popped(more)) == more + Popped(stack)
  {
    if more == [] {
      assert stack + [] == stack;
    } else {
      var s := stack + Popped(more);
      PoppedFront(more);
      assert s == (stack + Popped(more[1..])) + [more[0]];
      assert s[..|s| - 1] == stack + Popped(more[1..]);
      PoppedPush(stack, more[1..]);
    }
  }

  lemma {:induction false} PoppedFront<T>(s: seq<T>)
    requires s != []
    ensures Popped(s) == Popped(s[1..]) + [s[0]]
  {
    if |s| > 1 {
      var init := s[..|s| - 1];
      PoppedFront(init);
      assert s[1..][..|s| - 2] == init[1..];
    }
  }

  lemma {:induction false} PoppedTwice<T>(s: seq<T>)
    ensures Popped(Popped(s)) == s
  {
    PoppedPush([], s);
    assert [] + Popped(s) == Popped(s);
  }

  /** One item: nothing when its name was seen, else itself and its members' walk. */
  lemma WalkOne(g: Directory, limit: nat, dn: string, depth: nat, seen: set<string>)
    ensures Walk(g, limit, [dn], depth, seen)
         == if Lower(dn) in seen then ([], seen)
            else
              var below := if depth < limit then Members(g, Lower(dn)) else [];
              var (out, seen') := Walk(g, limit, below, depth + 1, seen + {Lower(dn)});
              ([(dn, depth)] + out, seen')
  {
    assert [dn][1..] == [];
    if Lower(dn) !in seen {
      var below := if depth < limit then Members(g, Lower(dn)) else [];
      var out := Walk(g, limit, below, depth + 1, seen + {Lower(dn)}).0;
      assert [(dn, depth)] + out + [] == [(dn, depth)] + out;
    }
  }

  lemma {:induction false} WalkIsItems(g: Directory, limit: nat, dns: seq<string>, depth: nat, seen: set<string>)
    ensures Walk(g, limit, dns, depth, seen) == WalkItems(g, limit, At(dns, depth), seen)
    decreases |dns|
  {
    if dns != [] {
      WalkOne(g, limit, dns[0], depth, seen);
      var seen' := Walk(g, limit, [dns[0]], depth, seen).1;
      assert At(dns, depth)[1..] == At(dns[1..], depth);
      WalkIsItems(g, limit, dns[1..], depth, seen');
      var rest := Walk(g, limit, dns[1..], depth, seen').0;
      assert At(dns, depth)[0] == (dns[0], depth);
      assert [] + rest == rest;
    }
  }

  lemma {:induction false} ItemsAppend(g: Directory, limit: nat, a: Items, b: Items, seen: set<string>)
    ensures var (out, seen') := WalkItems(g, limit, a, seen);
            var (rest, seen'') := WalkItems(g, limit, b, seen');
            WalkItems(g, limit, a + b, seen) == (out + rest, seen'')
    decreases |a|
  {
    hide Walk;
    if a == [] {
      assert a + b == b;
      var rest := WalkItems(g, limit, b, seen).0;
      assert [] + rest == rest;
    } else {
      assert (a + b)[1..] == a[1..] + b;
      var (one, next) := Walk(g, limit, [a[0].0], a[0].1, seen);
      ItemsAppend(g, limit, a[1..], b, next);
      var (out, seen') := WalkItems(g, limit, a[1..], next);
      var rest := WalkItems(g, limit, b, seen').0;
      assert one + (out + rest) == one + out + rest;
    }
  }

  /** Leaving out names already seen changes nothing: they would be skipped later. */
  lemma {:induction false} UnseenSame(g: Directory, limit: nat, items: Items, seen: set<string>, known: set<string>)
    requires known <= seen
    ensures WalkItems(g, limit, Unseen(items, known), seen) == WalkItems(g, limit, items, seen)
    decreases |items|
  {
    hide Walk;
    if items != [] {
      var next := Walk(g, limit, [items[0].0], items[0].1, seen).1;
      if Lower(items[0].0) in known {
        WalkOne(g, limit, items[0].0, items[0].1, seen);
        UnseenSame(g, limit, items[1..], seen, known);
        assert [] + Unseen(items[1..], known) == Unseen(items[1..], known);
        var out := WalkItems(g, limit, items[1..], seen).0;
        assert [] + out == out;
      } else {
        UnseenSame(g, limit, items[1..], next, known);
        var rest := Unseen(items[1..], known);
        assert ([items[0]] + rest)[1..] == rest;
      }
    }
  }

  /** Popping one item and pushing its members is one step of the pending walks. */
  lemma PopStep(g: Directory, limit: nat, dn: string, depth: nat, rest: Items, seen: set<string>)
    requires Lower(dn) !in seen
    ensures var seen' := seen + {Lower(dn)};
            var below := if depth < limit then Members(g, Lower(dn)) else [];
            var (out, all) := WalkItems(g, limit, Unseen(At(below, depth + 1), seen') + rest, seen');
            WalkItems(g, limit, [(dn, depth)] + rest, seen) == ([(dn, depth)] + out, all)
  {
    hide Walk, WalkItems, Unseen, At;
    var seen' := seen + {Lower(dn)};
    var below := if depth < limit then Members(g, Lower(dn)) else [];
    var pushed := Unseen(At(below, depth + 1), seen');
    WalkOne(g, limit, dn, depth, seen);
    WalkIsItems(g, limit, below, depth + 1, seen');
    UnseenSame(g, limit, At(below, depth + 1), seen', seen');
    ItemsAppend(g, limit, pushed, rest, seen');
    FirstItem(g, limit, (dn, depth), rest, seen);
    var (out, mid) := WalkItems(g, limit, pushed, seen');
    var (more, all) := WalkItems(g, limit, rest, mid);
    assert [(dn, depth)] + out + more == [(dn, depth)] + (out + more);
  }

  lemma FirstItem(g: Directory, limit: nat, item: (string, nat), rest: Items, seen: set<string>)
    ensures var (out, mid) := Walk(g, limit, [item.0], item.1, seen);
            var (more, all) := WalkItems(g, limit, rest, mid);
            WalkItems(g, limit, [item] + rest, seen) == (out + more, all)
  {
    hide Walk;
    assert ([item] + rest)[1..] == rest;
  }

  /** The loop's invariant: what is collected, then the walks of what is pending, is the
      recursive walk. */
  ghost predicate Pending(g: Directory, goal: Items, items: Items, stack: Items, seen: set<string>, all: set<string>) {
    && goal == items + WalkItems(g, MAX_NESTING_DEPTH, Popped(stack), seen).0
    && InAll(stack, all)
    && Mentioned(g) <= all
  }

  lemma PendingStart(g: Directory, dns: seq<string>)
    ensures Pending(g, Walk(g, MAX_NESTING_DEPTH, dns, 0, {}).0, [], Popped(At(dns, 0)), {}, Mentioned(g) + Keys(dns))
  {
    hide Walk, WalkItems, Popped, At, Keys, Mentioned;
    PoppedTwice(At(dns, 0));
    WalkIsItems(g, MAX_NESTING_DEPTH, dns, 0, {});
    var goal := Walk(g, MAX_NESTING_DEPTH, dns, 0, {}).0;
    assert [] + goal == goal;
    AtKeys(dns, 0);
  }

  lemma AtMember(dns: seq<string>, depth: nat, item: (string, nat))
    requires item in At(dns, depth)
    ensures item.0 in dns
  {
    var j :| 0 <= j < |dns| && At(dns, depth)[j] == item;
  }

  lemma AtKeys(dns: seq<string>, depth: nat)
    ensures InAll(Popped(At(dns, depth)), Keys(dns))
  {
    PoppedMembers(At(dns, depth));
    var stack := Popped(At(dns, depth));
    forall i | 0 <= i < |stack| ensures Lower(stack[i].0) in Keys(dns) {
      assert stack[i] in At(dns, depth);
      AtMember(dns, depth, stack[i]);
    }
  }

  lemma PendingEnd(g: Directory, goal: Items, items: Items, seen: set<string>, all: set<string>)
    requires Pending(g, goal, items, [], seen, all)
    ensures goal == items
  {
    assert items + [] == items;
  }

  lemma PendingSkip(g: Directory, goal: Items, items: Items, stack: Items, seen: set<string>, all: set<string>)
    requires Pending(g, goal, items, stack, seen, all) && stack != []
    requires Lower(stack[|stack| - 1].0) in seen
    ensures Pending(g, goal, items, stack[..|stack| - 1], seen, all)
  {
    hide Walk, WalkItems, Mentioned;
    var (dn, depth) := stack[|stack| - 1];
    SkipStep(g, MAX_NESTING_DEPTH, dn, depth, Popped(stack[..|stack| - 1]), seen);
  }

  /** What the loop pushes for a name met at *depth*. */
  function Pushed(g: Directory, key: string, depth: nat, seen: set<string>): Items {
    Unseen(At(if depth < MAX_NESTING_DEPTH then Members(g, key) else [], depth + 1), seen)
  }

  lemma TopFirst<T>(stack: seq<T>)
    requires stack != []
    ensures Popped(stack) == [stack[|stack| - 1]] + Popped(stack[..|stack| - 1])
  {
  }

  lemma InAllParts(stack: Items, all: set<string>)
    requires stack != [] && InAll(stack, all)
    ensures InAll(stack[..|stack| - 1], all) && Lower(stack[|stack| - 1].0) in all
  {
  }

  lemma PendingPush(g: Directory, goal: Items, items: Items, stack: Items, seen: set<string>, all: set<string>)
    requires Pending(g, goal, items, stack, seen, all) && stack != []
    requires Lower(stack[|stack| - 1].0) !in seen
    ensures var top := stack[|stack| - 1];
            var key := Lower(top.0);
            var seen' := seen + {key};
            var stack' := stack[..|stack| - 1] + Popped(Pushed(g, key, top.1, seen'));
            key in all && Pending(g, goal, items + [top], stack', seen', all)
  {
    hide Walk, WalkItems, Mentioned, Unseen, At, Popped, Lower, InAll;
    var (dn, depth) := stack[|stack| - 1];
    var base, seen' := stack[..|stack| - 1], seen + {Lower(dn)};
    var more := Pushed(g, Lower(dn), depth, seen');
    TopFirst(stack);
    InAllParts(stack, all);
    PopStep(g, MAX_NESTING_DEPTH, dn, depth, Popped(base), seen);
    PoppedPush(base, more);
    var rest := WalkItems(g, MAX_NESTING_DEPTH, more + Popped(base), seen').0;
    assert items + ([(dn, depth)] + rest) == items + [(dn, depth)] + rest;
    PushStays(g, Lower(dn), depth, seen', base, all);
  }

  /** The source's walk with an explicit stack. */
  method ExpandNested(g: Directory, memberDns: seq<string>) returns (collected: seq<string>)
    ensures collected == Expand(g, memberDns)
  {
    hide Walk, Pending, Popped, At, Pushed, Names, Mentioned;
    var seen: set<string> := {};
    collected := [];
    ghost var items: Items := [];
    var stack: Items := Popped(At(memberDns, 0));
    ghost var all := Mentioned(g) + Keys(memberDns);
    ghost var goal := Walk(g, MAX_NESTING_DEPTH, memberDns, 0, {}).0;
    PendingStart(g, memberDns);
    NamesSnoc([], ("", 0));
    while stack != []
      invariant collected == Names(items)
      invariant Pending(g, goal, items, stack, seen, all)
      decreases all - seen, |stack|
    {
      var (dn, depth) := stack[|stack| - 1];
      var key := Lower(dn);
      if key in seen {
        PendingSkip(g, goal, items, stack, seen, all);
        stack := stack[..|stack| - 1];
        continue;
      }
      PendingPush(g, goal, items, stack, seen, all);
      NamesSnoc(items, (dn, depth));
      stack := stack[..|stack| - 1];
      seen := seen + {key};
      collected := collected + [dn];
      items := items + [(dn, depth)];
      if depth >= MAX_NESTING_DEPTH || key !in g || !IsGroup(g[key]) {
        NothingPushed(g, key, depth, seen, stack);
        continue;
      }
      stack := Push(g[key].members, depth + 1, seen, stack);
      GroupPushed(g, key, depth, seen);
    }
    PendingEnd(g, goal, items, seen, all);
  }

  lemma NothingPushed(g: Directory, key: string, depth: nat, seen: set<string>, stack: Items)
    requires depth >= MAX_NESTING_DEPTH || key !in g || !IsGroup(g[key])
    ensures stack + Popped(Pushed(g, key, depth, seen)) == stack
  {
  }

  lemma GroupPushed(g: Directory, key: string, depth: nat, seen: set<string>)
    requires depth < MAX_NESTING_DEPTH && key in g && IsGroup(g[key])
    ensures Pushed(g, key, depth, seen) == Unseen(At(g[key].members, depth + 1), seen)
  {
  }

  ghost predicate InAll(items: Items, all: set<string>) {
    forall i :: 0 <= i < |items| ==> Lower(items[i].0) in all
  }

  lemma {:induction false} PoppedMembers(s: Items)
    ensures forall x :: x in Popped(s) <==> x in s
  {
    if s != [] {
      PoppedMembers(s[..|s| - 1]);
      assert s == s[..|s| - 1] + [s[|s| - 1]];
    }
  }

  lemma NamesSnoc(items: Items, item: (string, nat))
    ensures Names([]) == [] && Names(items + [item]) == Names(items) + [item.0]
  {
  }

  lemma SkipStep(g: Directory, limit: nat, dn: string, depth: nat, rest: Items, seen: set<string>)
    requires Lower(dn) in seen
    ensures WalkItems(g, limit, [(dn, depth)] + rest, seen) == WalkItems(g, limit, rest, seen)
  {
    hide Walk, WalkItems;
    WalkOne(g, limit, dn, depth, seen);
    FirstItem(g, limit, (dn, depth), rest, seen);
    assert [] + WalkItems(g, limit, rest, seen).0 == WalkItems(g, limit, rest, seen).0;
  }

  /** The inner loop: the members, last first, that have not been seen. */
  method Push(members: seq<string>, depth: nat, seen: set<string>, base: Items) returns (stack: Items)
    ensures stack == base + Popped(Unseen(At(members, depth), seen))
  {
    stack := base;
    assert members[|members|..] == [];
    for i := |members| downto 0
      invariant stack == base + Popped(Unseen(At(members[i..], depth), seen))
    {
      var nested := members[i];
      assert members[i..][1..] == members[i + 1..];
      ghost var rest := Unseen(At(members[i + 1..], depth), seen);
      assert At(members[i..], depth)[1..] == At(members[i + 1..], depth);
      if Lower(nested) !in seen {
        stack := stack + [(nested, depth)];
        PoppedFront([(nested, depth)] + rest);
        assert ([(nested, depth)] + rest)[1..] == rest;
        assert base + Popped(rest) + [(nested, depth)] == base + (Popped(rest) + [(nested, depth)]);
      } else {
        assert [] + rest == rest;
      }
    }
    assert members[0..] == members;
  }

  lemma PushStays(g: Directory, key: string, depth: nat, seen: set<string>, base: Items, all: set<string>)
    requires Mentioned(g) <= all && InAll(base, all)
    ensures InAll(base + Popped(Pushed(g, key, depth, seen)), all)
  {
    hide Unseen, At, Popped, Mentioned, Members, Lower;
    var below := if depth < MAX_NESTING_DEPTH then Members(g, key) else [];
    var more := Pushed(g, key, depth, seen);
    PoppedMembers(more);
    UnseenMembers(At(below, depth + 1), seen);
    MembersMentioned(g, key);
    forall x | x in Popped(more) ensures Lower(x.0) in all {
      AtMember(below, depth + 1, x);
      assert Lower(x.0) in Keys(below);
    }
  }

  lemma {:induction false} UnseenMembers(items: Items, seen: set<string>)
    ensures forall x :: x in Unseen(items, seen) ==> x in items && Lower(x.0) !in seen
  {
    if items != [] {
      UnseenMembers(items[1..], seen);
    }
  }

  // --- What the walk returns ------------------------------------------------------------

  function KeysOf(items: Items): set<string> {
    set item | item in items :: Lower(item.0)
  }

  ghost predicate AllDifferent(items: Items) {
    forall i, j :: 0 <= i < j < |items| ==> Lower(items[i].0) != Lower(items[j].0)
  }

  lemma KeysOfAppend(a: Items, b: Items)
    ensures KeysOf(a + b) == KeysOf(a) + KeysOf(b)
    ensures AllDifferent(a) && AllDifferent(b) && KeysOf(a) !! KeysOf(b) ==> AllDifferent(a + b)
  {
    forall i, j | AllDifferent(a) && AllDifferent(b) && KeysOf(a) !! KeysOf(b) && 0 <= i < j < |a + b|
      ensures Lower((a + b)[i].0) != Lower((a + b)[j].0)
    {
      if i < |a| <= j {
        assert a[i] in a && b[j - |a|] in b;
        assert Lower(a[i].0) in KeysOf(a) && Lower(b[j - |a|].0) in KeysOf(b);
      }
    }
  }

  lemma KeysCons(dns: seq<string>)
    requires dns != []
    ensures Keys(dns) == {Lower(dns[0])} + Keys(dns[1..])
  {
  }

  /** No object twice: what is collected is exactly what is newly seen, once each. */
  lemma {:induction false} WalkOnce(g: Directory, limit: nat, dns: seq<string>, depth: nat, seen: set<string>)
    ensures var (out, seen') := Walk(g, limit, dns, depth, seen);
            AllDifferent(out) && seen' == seen + KeysOf(out) && KeysOf(out) !! seen
    decreases (Mentioned(g) + Keys(dns)) - seen, |dns|
  {
    hide Mentioned, Keys, Members, Lower, KeysOf, AllDifferent;
    if dns == [] {
      NothingCollected();
    } else {
      var key := Lower(dns[0]);
      KeysCons(dns);
      if key in seen {
        WalkOnce(g, limit, dns[1..], depth, seen);
      } else {
        var below := if depth < limit then Members(g, key) else [];
        MembersMentioned(g, key);
        WalkOnce(g, limit, below, depth + 1, seen + {key});
        var (out, seen') := Walk(g, limit, below, depth + 1, seen + {key});
        WalkOnce(g, limit, dns[1..], depth, seen');
        var rest := Walk(g, limit, dns[1..], depth, seen').0;
        OneCollected(dns[0], depth);
        KeysOfAppend([(dns[0], depth)], out);
        KeysOfAppend([(dns[0], depth)] + out, rest);
      }
    }
  }

  lemma NothingCollected()
    ensures AllDifferent([]) && KeysOf([]) == {}
  {
  }

  lemma OneCollected(dn: string, depth: nat)
    ensures AllDifferent([(dn, depth)]) && KeysOf([(dn, depth)]) == {Lower(dn)}
  {
    assert [(dn, depth)][0] == (dn, depth);
  }

  /** A chain of memberships from one of the roots. */
  ghost predicate Path(g: Directory, roots: set<string>, p: seq<string>) {
    && p != [] && p[0] in roots
    && forall i :: 0 < i < |p| ==> p[i] in Keys(Members(g, p[i - 1]))
  }

  ghost predicate Reachable(g: Directory, roots: set<string>, key: string) {
    exists p :: Path(g, roots, p) && p[|p| - 1] == key
  }

  lemma ReachOn(g: Directory, roots: set<string>, key: string, next: string)
    requires Reachable(g, roots, key) && next in Keys(Members(g, key))
    ensures Reachable(g, roots, next)
  {
    var p :| Path(g, roots, p) && p[|p| - 1] == key;
    var q := p + [next];
    assert Path(g, roots, q) && q[|q| - 1] == next;
  }

  /** Only what the groups reach is collected. */
  lemma {:induction false} WalkReaches(
    g: Directory, limit: nat, dns: seq<string>, depth: nat, seen: set<string>, roots: set<string>)
    requires forall k :: k in Keys(dns) ==> Reachable(g, roots, k)
    ensures forall k :: k in KeysOf(Walk(g, limit, dns, depth, seen).0) ==> Reachable(g, roots, k)
    decreases (Mentioned(g) + Keys(dns)) - seen, |dns|
  {
    hide Reachable, Members;
    if dns != [] {
      var key := Lower(dns[0]);
      assert Keys(dns[1..]) <= Keys(dns) && key in Keys(dns);
      if key in seen {
        WalkReaches(g, limit, dns[1..], depth, seen, roots);
      } else {
        var below := if depth < limit then Members(g, key) else [];
        MembersMentioned(g, key);
        forall k | k in Keys(below) ensures Reachable(g, roots, k) {
          ReachOn(g, roots, key, k);
        }
        WalkReaches(g, limit, below, depth + 1, seen + {key}, roots);
        var (out, seen') := Walk(g, limit, below, depth + 1, seen + {key});
        WalkReaches(g, limit, dns[1..], depth, seen', roots);
        var rest := Walk(g, limit, dns[1..], depth, seen').0;
        assert KeysOf([(dns[0], depth)]) == {key};
        KeysOfAppend([(dns[0], depth)], out);
        KeysOfAppend([(dns[0], depth)] + out, rest);
      }
    }
  }

  lemma MembersMentioned(g: Directory, key: string)
    ensures Keys(Members(g, key)) <= Mentioned(g) && Keys([]) == {}
  {
  }

  /** Everything below an object that was met above the depth limit is seen. */
  lemma {:induction false} WalkCloses(g: Directory, limit: nat, dns: seq<string>, depth: nat, seen: set<string>)
    ensures var (out, seen') := Walk(g, limit, dns, depth, seen);
            && Keys(dns) <= seen'
            && forall item :: item in out && item.1 < limit ==> Keys(Members(g, Lower(item.0))) <= seen'
    decreases (Mentioned(g) + Keys(dns)) - seen, |dns|
  {
    hide Members, Mentioned, Keys, Lower;
    if dns == [] {
      MembersMentioned(g, "");
    } else {
      var key := Lower(dns[0]);
      KeysCons(dns);
      if key in seen {
        WalkCloses(g, limit, dns[1..], depth, seen);
      } else {
        var below := if depth < limit then Members(g, key) else [];
        MembersMentioned(g, key);
        WalkCloses(g, limit, below, depth + 1, seen + {key});
        var (out, seen') := Walk(g, limit, below, depth + 1, seen + {key});
        WalkCloses(g, limit, dns[1..], depth, seen');
      }
    }
  }

  /** Whether the members of every object met at the depth limit were collected anyway. */
  predicate NothingCutOff(g: Directory, limit: nat, out: Items) {
    forall item :: item in out && item.1 >= limit ==> Keys(Members(g, Lower(item.0))) <= KeysOf(out)
  }

  lemma {:induction false} PathCollected(g: Directory, limit: nat, dns: seq<string>, out: Items, p: seq<string>, n: nat)
    requires out == Walk(g, limit, dns, 0, {}).0 && NothingCutOff(g, limit, out)
    requires Path(g, Keys(dns), p) && n < |p|
    ensures p[n] in KeysOf(out)
  {
    WalkOnce(g, limit, dns, 0, {});
    WalkCloses(g, limit, dns, 0, {});
    if n > 0 {
      PathCollected(g, limit, dns, out, p, n - 1);
      var item :| item in out && Lower(item.0) == p[n - 1];
    }
  }

  /** The list returned names objects once each, only objects the input reaches, and all of
      those exactly when nothing below an object met at the depth limit is missing. */
  lemma ExpandExact(g: Directory, dns: seq<string>)
    ensures var out := Walk(g, MAX_NESTING_DEPTH, dns, 0, {}).0;
            && Expand(g, dns) == Names(out) && AllDifferent(out)
            && (forall k :: k in KeysOf(out) ==> Reachable(g, Keys(dns), k))
            && ((forall k :: Reachable(g, Keys(dns), k) ==> k in KeysOf(out))
                <==> NothingCutOff(g, MAX_NESTING_DEPTH, out))
  {
    hide Walk, Names, Keys;
    var out := Walk(g, MAX_NESTING_DEPTH, dns, 0, {}).0;
    WalkOnce(g, MAX_NESTING_DEPTH, dns, 0, {});
    forall k | k in Keys(dns) ensures Reachable(g, Keys(dns), k) {
      assert Path(g, Keys(dns), [k]) && [k][0] == k;
    }
    WalkReaches(g, MAX_NESTING_DEPTH, dns, 0, {}, Keys(dns));
    if NothingCutOff(g, MAX_NESTING_DEPTH, out) {
      forall k | Reachable(g, Keys(dns), k) ensures k in KeysOf(out) {
        var p :| Path(g, Keys(dns), p) && p[|p| - 1] == k;
        PathCollected(g, MAX_NESTING_DEPTH, dns, out, p, |p| - 1);
      }
    }
    if forall k :: Reachable(g, Keys(dns), k) ==> k in KeysOf(out) {
      forall item, k | item in out && k in Keys(Members(g, Lower(item.0))) ensures k in KeysOf(out) {
        assert Lower(item.0) in KeysOf(out);
        ReachOn(g, Keys(dns), Lower(item.0), k);
      }
    }
  }

  // --- When nothing is cut off -----------------------------------------------------------

  ghost predicate Distinct(p: seq<string>) {
    forall i, j :: 0 <= i < j < |p| ==> p[i] != p[j]
  }

  /** No chain of memberships through different names is longer than the depth limit allows. */
  ghost predicate ShortPaths(g: Directory, roots: set<string>, limit: nat) {
    forall p :: Path(g, roots, p) && Distinct(p) ==> |p| <= limit + 1
  }

  ghost predicate ReachableWithin(g: Directory, roots: set<string>, key: string, steps: nat) {
    exists p :: Path(g, roots, p) && p[|p| - 1] == key && |p| <= steps + 1
  }

  /** The names the walk has passed on its way down: the next ones are members of the last. */
  ghost predicate Above(g: Directory, roots: set<string>, chain: seq<string>, next: set<string>) {
    && Distinct(chain)
    && if chain == [] then next <= roots
       else Path(g, roots, chain) && next <= Keys(Members(g, chain[|chain| - 1]))
  }

  lemma AboveOn(g: Directory, roots: set<string>, chain: seq<string>, next: set<string>, key: string)
    requires Above(g, roots, chain, next) && key in next && key !in chain
    ensures var longer := chain + [key];
            && Distinct(longer) && Path(g, roots, longer)
            && ReachableWithin(g, roots, key, |chain|)
            && Above(g, roots, longer, Keys(Members(g, key))) && Above(g, roots, longer, {})
  {
    hide Keys, Members;
    var longer := chain + [key];
    assert longer[|longer| - 1] == key;
    assert Path(g, roots, longer);
  }

  /** A chain as long as allowed comes back to itself. */
  lemma ChainEnds(g: Directory, roots: set<string>, chain: seq<string>, key: string, limit: nat)
    requires Path(g, roots, chain) && Distinct(chain) && |chain| == limit + 1 && chain[limit] == key
    requires ShortPaths(g, roots, limit)
    ensures forall next :: next in Keys(Members(g, key)) ==> next in chain
  {
    hide Keys, Members;
    forall next | next in Keys(Members(g, key)) ensures next in chain {
      var longer := chain + [next];
      assert Path(g, roots, longer);
      assert Distinct(longer) || next in chain;
    }
  }

  /** What is met at a depth is that many memberships away, and where chains are short the
      members of what is met at the limit have been passed already. */
  ghost predicate Met(g: Directory, roots: set<string>, limit: nat, item: (string, nat), seen: set<string>) {
    && item.1 <= limit
    && ReachableWithin(g, roots, Lower(item.0), item.1)
    && (ShortPaths(g, roots, limit) && item.1 == limit ==> Keys(Members(g, Lower(item.0))) <= seen)
  }

  lemma MetHere(g: Directory, roots: set<string>, limit: nat, dn: string, chain: seq<string>, next: set<string>,
                seen: set<string>)
    requires Above(g, roots, chain, next) && Lower(dn) in next && Lower(dn) !in seen
    requires (forall k :: k in chain ==> k in seen) && |chain| <= limit
    ensures Met(g, roots, limit, (dn, |chain|), seen + {Lower(dn)})
    ensures Above(g, roots, chain + [Lower(dn)], Keys(Members(g, Lower(dn))))
         && Above(g, roots, chain + [Lower(dn)], {})
  {
    hide Keys, Members, Path, Distinct, ReachableWithin, Above, ShortPaths, Lower;
    var key := Lower(dn);
    AboveOn(g, roots, chain, next, key);
    if ShortPaths(g, roots, limit) && |chain| == limit {
      ChainEnds(g, roots, chain + [key], key, limit);
    }
  }

  ghost predicate AllMet(g: Directory, roots: set<string>, limit: nat, items: Items, seen: set<string>) {
    forall i :: 0 <= i < |items| ==> Met(g, roots, limit, items[i], seen)
  }

  lemma MetLater(g: Directory, roots: set<string>, limit: nat, items: Items, seen: set<string>,
                 more: Items, seen': set<string>)
    requires seen <= seen' && AllMet(g, roots, limit, items, seen) && AllMet(g, roots, limit, more, seen')
    ensures AllMet(g, roots, limit, items + more, seen')
  {
    hide ReachableWithin, ShortPaths, Keys, Members, Lower;
  }

  lemma {:induction false} WalkMeets(
    g: Directory, limit: nat, dns: seq<string>, depth: nat, seen: set<string>, roots: set<string>, chain: seq<string>)
    requires |chain| == depth <= limit && Above(g, roots, chain, Keys(dns)) && forall k :: k in chain ==> k in seen
    ensures AllMet(g, roots, limit, Walk(g, limit, dns, depth, seen).0, Walk(g, limit, dns, depth, seen).1)
    decreases (Mentioned(g) + Keys(dns)) - seen, |dns|
  {
    hide Members, Mentioned, Keys, Lower, Path, Distinct, ReachableWithin, ShortPaths, Met;
    if dns != [] {
      var key := Lower(dns[0]);
      KeysCons(dns);
      if key in seen {
        WalkMeets(g, limit, dns[1..], depth, seen, roots, chain);
      } else {
        var below := if depth < limit then Members(g, key) else [];
        MembersMentioned(g, key);
        MetHere(g, roots, limit, dns[0], chain, Keys(dns), seen);
        var (out, seen') := Walk(g, limit, below, depth + 1, seen + {key});
        if depth < limit {
          WalkMeets(g, limit, below, depth + 1, seen + {key}, roots, chain + [key]);
        }
        MetLater(g, roots, limit, [(dns[0], depth)], seen + {key}, out, seen');
        WalkMeets(g, limit, dns[1..], depth, seen', roots, chain);
        var (rest, seen'') := Walk(g, limit, dns[1..], depth, seen');
        MetLater(g, roots, limit, [(dns[0], depth)] + out, seen', rest, seen'');
      }
    }
  }

  /** Every object returned is at most the limit's number of memberships below the input. Where
      no chain of memberships through different names is longer than that, the objects returned
      are exactly those the input reaches. */
  lemma ExpandReaches(g: Directory, dns: seq<string>)
    ensures var out := Walk(g, MAX_NESTING_DEPTH, dns, 0, {}).0;
            && (forall k :: k in KeysOf(out) ==> ReachableWithin(g, Keys(dns), k, MAX_NESTING_DEPTH))
            && (ShortPaths(g, Keys(dns), MAX_NESTING_DEPTH)
                ==> forall k :: k in KeysOf(out) <==> Reachable(g, Keys(dns), k))
  {
    hide Walk, Names, Keys, Members, Path, ShortPaths;
    var out := Walk(g, MAX_NESTING_DEPTH, dns, 0, {}).0;
    ExpandExact(g, dns);
    WalkOnce(g, MAX_NESTING_DEPTH, dns, 0, {});
    WalkMeets(g, MAX_NESTING_DEPTH, dns, 0, {}, Keys(dns), []);
    forall k | k in KeysOf(out) ensures ReachableWithin(g, Keys(dns), k, MAX_NESTING_DEPTH) {
      var item :| item in out && Lower(item.0) == k;
      WithinMore(g, Keys(dns), k, item.1, MAX_NESTING_DEPTH);
    }
    if ShortPaths(g, Keys(dns), MAX_NESTING_DEPTH) {
      assert NothingCutOff(g, MAX_NESTING_DEPTH, out);
    }
  }

  lemma WithinMore(g: Directory, roots: set<string>, key: string, steps: nat, more: nat)
    requires ReachableWithin(g, roots, key, steps) && steps <= more
    ensures ReachableWithin(g, roots, key, more)
  {
  }

  // --- The depth limit can hide an object that is near -----------------------------------

  function Name(i: nat): string {
    seq(i + 1, _ => 'a')
  }

  function ChainKeys(n: nat): (keys: set<string>)
    ensures forall i: nat :: i <= n ==> Name(i) in keys
    ensures forall key :: key in keys ==> exists i: nat :: i <= n && key == Name(i)
  {
    if n == 0 then {Name(0)} else ChainKeys(n - 1) + {Name(n)}
  }

  /** Groups in a row, each holding the next; the last one holds an object. */
  function Chain(n: nat): Directory {
    map key | key in ChainKeys(n) :: Entry(["group"], [Name(|key|)])
  }

  lemma ChainMembers(n: nat, i: nat)
    ensures Lower(Name(i)) == Name(i)
    ensures Members(Chain(n), Name(i)) == if i <= n then [Name(i + 1)] else []
  {
    assert Lower("group") == "group";
    assert |Name(i)| == i + 1;
    if i > n {
      NamesDiffer();
      assert Name(i) !in Chain(n);
    }
  }

  /** From the group at its own depth the walk follows the row down to the limit and stops. */
  lemma {:induction false} ChainWalk(n: nat, i: nat, seen: set<string>)
    requires i <= n && forall j: nat :: j >= i ==> Name(j) !in seen
    ensures var (out, seen') := Walk(Chain(n), n, [Name(i)], i, seen);
            Name(n) in seen' && Name(n + 1) !in seen'
    decreases n - i
  {
    hide Chain, Name, Members;
    ChainMembers(n, i);
    WalkOne(Chain(n), n, Name(i), i, seen);
    NamesDiffer();
    if i < n {
      ChainWalk(n, i + 1, seen + {Name(i)});
    }
  }

  lemma NamesDiffer()
    ensures forall i: nat, j: nat :: Name(i) == Name(j) <==> i == j
  {
    assert forall i: nat :: |Name(i)| == i + 1;
  }

  /** A group reached first at the depth limit is not opened, and not opened later either,
      where it is named directly: its member is two steps from the input and not returned. */
  lemma NearObjectMissed()
    ensures var n := MAX_NESTING_DEPTH;
            var g, roots := Chain(n), [Name(0), Name(n)];
            && Reachable(g, Keys(roots), Name(n + 1))
            && Name(n + 1) !in KeysOf(Walk(g, n, roots, 0, {}).0)
  {
    hide Chain, Name, Members;
    var n := MAX_NESTING_DEPTH;
    var g, roots := Chain(n), [Name(0), Name(n)];
    ChainMembers(n, n);
    ChainMembers(n, 0);
    assert roots[1] in roots && Name(n) in Keys(roots);
    assert [Name(n + 1)][0] in [Name(n + 1)];
    ChainMembers(n, n + 1);
    assert Path(g, Keys(roots), [Name(n), Name(n + 1)]);
    var p := [Name(n), Name(n + 1)];
    assert p[|p| - 1] == Name(n + 1);
    ChainWalk(n, 0, {});
    WalkIsItems(g, n, roots, 0, {});
    TwoRoots(g, n, Name(0), Name(n));
    WalkOne(g, n, Name(n), 0, Walk(g, n, [Name(0)], 0, {}).1);
    WalkOnce(g, n, roots, 0, {});
  }

  lemma TwoRoots(g: Directory, limit: nat, a: string, b: string)
    ensures Walk(g, limit, [a, b], 0, {}).1
         == Walk(g, limit, [b], 0, Walk(g, limit, [a], 0, {}).1).1
  {
    WalkIsItems(g, limit, [a, b], 0, {});
    WalkIsItems(g, limit, [a], 0, {});
    var seen := Walk(g, limit, [a], 0, {}).1;
    WalkIsItems(g, limit, [b], 0, seen);
    assert At([a, b], 0) == At([a], 0) + At([b], 0);
    ItemsAppend(g, limit, At([a], 0), At([b], 0), {});
  }
}
