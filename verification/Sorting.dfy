/** Python's sorted(): stable, by a string key compared code point by code point. */
module Sorting {

  predicate StrLe(a: string, b: string) {
    a == [] || (b != [] && (a[0] < b[0] || (a[0] == b[0] && StrLe(a[1..], b[1..]))))
  }

  lemma {:induction false} StrLeTotal(a: string, b: string)
    ensures StrLe(a, b) || StrLe(b, a)
  {
    if a != [] && b != [] && a[0] == b[0] {
      StrLeTotal(a[1..], b[1..]);
    }
  }

  lemma {:induction false} StrLeAntisymmetric(a: string, b: string)
    requires StrLe(a, b) && StrLe(b, a)
    ensures a == b
  {
    if a != [] {
      StrLeAntisymmetric(a[1..], b[1..]);
      assert a == [a[0]] + a[1..] && b == [b[0]] + b[1..];
    }
  }

  lemma {:induction false} StrLeTransitive(a: string, b: string, c: string)
    requires StrLe(a, b) && StrLe(b, c)
    ensures StrLe(a, c)
  {
    if a != [] && a[0] == b[0] == c[0] {
      StrLeTransitive(a[1..], b[1..], c[1..]);
    }
  }

  ghost predicate Sorted<T>(key: T -> string, xs: seq<T>) {
    forall i, j :: 0 <= i < j < |xs| ==> StrLe(key(xs[i]), key(xs[j]))
  }

  function Insert<T>(key: T -> string, x: T, xs: seq<T>): seq<T> {
    if xs == [] || StrLe(key(x), key(xs[0])) then [x] + xs
    else [xs[0]] + Insert(key, x, xs[1..])
  }

  function SortBy<T>(key: T -> string, xs: seq<T>): seq<T> {
    if xs == [] then [] else Insert(key, xs[0], SortBy(key, xs[1..]))
  }

  /** The elements whose key is *h*, in their order. */
  function ClassOf<T>(key: T -> string, xs: seq<T>, h: string): seq<T> {
    if xs == [] then []
    else (if key(xs[0]) == h then [xs[0]] else []) + ClassOf(key, xs[1..], h)
  }

  // --- Sorting sorts, keeps everything, and keeps the order of equal keys -------

  lemma {:induction false} InsertElements<T>(key: T -> string, x: T, xs: seq<T>)
    ensures multiset(Insert(key, x, xs)) == multiset{x} + multiset(xs)
  {
    if !(xs == [] || StrLe(key(x), key(xs[0]))) {
      InsertElements(key, x, xs[1..]);
      assert xs == [xs[0]] + xs[1..];
    }
  }

  lemma {:induction false} SortElements<T>(key: T -> string, xs: seq<T>)
    ensures multiset(SortBy(key, xs)) == multiset(xs)
    ensures |SortBy(key, xs)| == |xs|
    ensures forall x :: x in SortBy(key, xs) <==> x in xs
  {
    if xs != [] {
      SortElements(key, xs[1..]);
      InsertElements(key, xs[0], SortBy(key, xs[1..]));
      assert xs == [xs[0]] + xs[1..];
    }
    assert |multiset(SortBy(key, xs))| == |multiset(xs)|;
    forall x ensures x in SortBy(key, xs) <==> x in xs {
      assert x in multiset(SortBy(key, xs)) <==> x in multiset(xs);
    }
  }

  lemma {:induction false} InsertSorted<T>(key: T -> string, x: T, xs: seq<T>)
    requires Sorted(key, xs)
    ensures Sorted(key, Insert(key, x, xs))
  {
    if xs == [] {
    } else if StrLe(key(x), key(xs[0])) {
      forall j | 0 <= j < |xs| ensures StrLe(key(x), key(xs[j])) {
        if j > 0 { StrLeTransitive(key(x), key(xs[0]), key(xs[j])); }
      }
    } else {
      InsertSorted(key, x, xs[1..]);
      InsertElements(key, x, xs[1..]);
      StrLeTotal(key(x), key(xs[0]));
      var rest := Insert(key, x, xs[1..]);
      forall y | y in rest ensures StrLe(key(xs[0]), key(y)) {
        assert y in multiset(rest);
      }
      assert forall j :: 0 <= j < |rest| ==> rest[j] in rest;
    }
  }

  lemma {:induction false} SortSorted<T>(key: T -> string, xs: seq<T>)
    ensures Sorted(key, SortBy(key, xs))
  {
    if xs != [] {
      SortSorted(key, xs[1..]);
      InsertSorted(key, xs[0], SortBy(key, xs[1..]));
    }
  }

  lemma ClassCons<T>(key: T -> string, x: T, xs: seq<T>, h: string)
    ensures ClassOf(key, [x] + xs, h) == (if key(x) == h then [x] else []) + ClassOf(key, xs, h)
  {
    assert ([x] + xs)[1..] == xs;
  }

  lemma {:induction false} InsertClass<T>(key: T -> string, x: T, xs: seq<T>, h: string)
    ensures ClassOf(key, Insert(key, x, xs), h)
         == (if key(x) == h then [x] else []) + ClassOf(key, xs, h)
  {
    hide StrLe, ClassOf;
    ClassCons(key, x, xs, h);
    if !(xs == [] || StrLe(key(x), key(xs[0]))) {
      var first, rest := xs[0], Insert(key, x, xs[1..]);
      assert key(x) != key(first) by { StrLeTotal(key(x), key(x)); }
      InsertClass(key, x, xs[1..], h);
      ClassCons(key, first, rest, h);
      ClassCons(key, first, xs[1..], h);
      assert xs == [first] + xs[1..];
      var c := ClassOf(key, xs[1..], h);
      assert [] + c == c && [] + ([first] + c) == [first] + c && [] + ([x] + c) == [x] + c;
    }
  }

  lemma {:induction false} SortClass<T>(key: T -> string, xs: seq<T>, h: string)
    ensures ClassOf(key, SortBy(key, xs), h) == ClassOf(key, xs, h)
  {
    if xs != [] {
      SortClass(key, xs[1..], h);
      InsertClass(key, xs[0], SortBy(key, xs[1..]), h);
    }
  }

  lemma {:induction false} ClassMembers<T>(key: T -> string, xs: seq<T>, h: string)
    ensures forall x :: x in ClassOf(key, xs, h) <==> x in xs && key(x) == h
  {
    if xs != [] {
      ClassMembers(key, xs[1..], h);
      assert xs == [xs[0]] + xs[1..];
    }
  }

  lemma {:induction false} ClassAppend<T>(key: T -> string, xs: seq<T>, ys: seq<T>, h: string)
    ensures ClassOf(key, xs + ys, h) == ClassOf(key, xs, h) + ClassOf(key, ys, h)
  {
    hide ClassOf;
    if xs == [] {
      assert xs + ys == ys;
      NoClass(key, h);
      assert [] + ClassOf(key, ys, h) == ClassOf(key, ys, h);
    } else {
      assert xs + ys == [xs[0]] + (xs[1..] + ys) && xs == [xs[0]] + xs[1..];
      ClassAppend(key, xs[1..], ys, h);
      ClassCons(key, xs[0], xs[1..] + ys, h);
      ClassCons(key, xs[0], xs[1..], h);
    }
  }

  lemma NoClass<T>(key: T -> string, h: string)
    ensures ClassOf(key, [], h) == []
  {
  }

  // --- A sorted list is determined by its classes ---------------------------------

  /** Two sorted lists with the same elements per key, in the same order, are equal. */
  lemma {:induction false} SortedUnique<T>(key: T -> string, xs: seq<T>, ys: seq<T>)
    requires Sorted(key, xs) && Sorted(key, ys)
    requires forall h :: ClassOf(key, xs, h) == ClassOf(key, ys, h)
    ensures xs == ys
    decreases |xs| + |ys|
  {
    if xs != [] || ys != [] {
      HeadsMeet(key, xs, ys);
      var h := key(xs[0]);
      assert ClassOf(key, xs, h)[0] == xs[0] && ClassOf(key, ys, h)[0] == ys[0];
      forall g ensures ClassOf(key, xs[1..], g) == ClassOf(key, ys[1..], g) {
        assert ClassOf(key, xs, g) == ClassOf(key, ys, g);
        ClassTail(key, xs, g);
        ClassTail(key, ys, g);
      }
      SortedUnique(key, xs[1..], ys[1..]);
      assert xs == [xs[0]] + xs[1..] && ys == [ys[0]] + ys[1..];
    }
  }

  lemma ClassTail<T>(key: T -> string, xs: seq<T>, h: string)
    requires xs != []
    ensures var c := ClassOf(key, xs, h);
            ClassOf(key, xs[1..], h) == if key(xs[0]) == h then c[1..] else c
  {
    var c := ClassOf(key, xs[1..], h);
    assert ([xs[0]] + c)[1..] == c && [] + c == c;
  }

  lemma HeadsMeet<T>(key: T -> string, xs: seq<T>, ys: seq<T>)
    requires Sorted(key, xs) && Sorted(key, ys) && (xs != [] || ys != [])
    requires forall h :: ClassOf(key, xs, h) == ClassOf(key, ys, h)
    ensures xs != [] && ys != [] && key(xs[0]) == key(ys[0])
  {
    if xs != [] {
      HeadIn(key, xs, ys);
    } else {
      HeadIn(key, ys, xs);
    }
    HeadIn(key, xs, ys);
    HeadIn(key, ys, xs);
    StrLeAntisymmetric(key(xs[0]), key(ys[0]));
  }

  lemma HeadIn<T>(key: T -> string, xs: seq<T>, ys: seq<T>)
    requires xs != [] && Sorted(key, ys)
    requires forall h :: ClassOf(key, xs, h) == ClassOf(key, ys, h)
    ensures ys != [] && StrLe(key(ys[0]), key(xs[0]))
  {
    var h := key(xs[0]);
    ClassMembers(key, xs, h);
    ClassMembers(key, ys, h);
    assert xs[0] in ClassOf(key, xs, h);
    assert xs[0] in ClassOf(key, ys, h);
    var j :| 0 <= j < |ys| && ys[j] == xs[0];
    if j == 0 {
      StrLeTotal(key(ys[0]), key(ys[0]));
    }
  }

  lemma SortIdentity<T>(key: T -> string, xs: seq<T>)
    requires Sorted(key, xs)
    ensures SortBy(key, xs) == xs
  {
    SortSorted(key, xs);
    forall h ensures ClassOf(key, SortBy(key, xs), h) == ClassOf(key, xs, h) {
      SortClass(key, xs, h);
    }
    SortedUnique(key, SortBy(key, xs), xs);
  }

  /** Lists with the same classes sort to the same list. */
  lemma SortByClasses<T>(key: T -> string, xs: seq<T>, ys: seq<T>)
    requires forall h :: ClassOf(key, xs, h) == ClassOf(key, ys, h)
    ensures SortBy(key, xs) == SortBy(key, ys)
  {
    SortSorted(key, xs);
    SortSorted(key, ys);
    forall h ensures ClassOf(key, SortBy(key, xs), h) == ClassOf(key, SortBy(key, ys), h) {
      SortClass(key, xs, h);
      SortClass(key, ys, h);
    }
    SortedUnique(key, SortBy(key, xs), SortBy(key, ys));
  }
}
