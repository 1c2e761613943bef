/** Text order by code point, and the stable sort the source relies on. */
module Ordering {

  predicate Less(a: string, b: string) {
    if b == [] then false
    else if a == [] then true
    else a[0] < b[0] || (a[0] == b[0] && Less(a[1..], b[1..]))
  }

  lemma {:induction false} LessIrreflexive(a: string)
    ensures !Less(a, a)
  {
    if a != [] {
      LessIrreflexive(a[1..]);
    }
  }

  lemma {:induction false} LessTotal(a: string, b: string)
    requires !Less(a, b) && !Less(b, a)
    ensures a == b
  {
    if a != [] && b != [] {
      LessTotal(a[1..], b[1..]);
      assert a == [a[0]] + a[1..] && b == [b[0]] + b[1..];
    }
  }

  lemma {:induction false} LessTransitive(a: string, b: string, c: string)
    requires Less(a, b) && Less(b, c)
    ensures Less(a, c)
  {
    if a != [] && a[0] == b[0] && b[0] == c[0] {
      LessTransitive(a[1..], b[1..], c[1..]);
    }
  }

  /** `b` does not come before `a`. */
  predicate AtMost(a: string, b: string) {
    !Less(b, a)
  }

  lemma AtMostTransitive(a: string, b: string, c: string)
    requires AtMost(a, b) && AtMost(b, c)
    ensures AtMost(a, c)
  {
    if Less(c, a) {
      if Less(a, b) {
        LessTransitive(c, a, b);
      } else {
        LessTotal(a, b);
      }
    }
  }

  ghost predicate Sorted<T>(xs: seq<T>, key: T -> string) {
    forall i, j :: 0 <= i < j < |xs| ==> AtMost(key(xs[i]), key(xs[j]))
  }

  ghost predicate StrictlySorted<T>(xs: seq<T>, key: T -> string) {
    forall i, j :: 0 <= i < j < |xs| ==> Less(key(xs[i]), key(xs[j]))
  }

  /** After everything that does not come after it, as a stable sort does. */
  function Insert<T>(x: T, xs: seq<T>, key: T -> string): (r: seq<T>)
    ensures multiset(r) == multiset(xs) + multiset{x}
  {
    if xs == [] then [x]
    else if Less(key(x), key(xs[0])) then [x] + xs
    else
      assert xs == [xs[0]] + xs[1..];
      [xs[0]] + Insert(x, xs[1..], key)
  }

  function Sort<T>(xs: seq<T>, key: T -> string): (r: seq<T>)
    ensures multiset(r) == multiset(xs)
  {
    if xs == [] then []
    else
      assert xs == xs[..|xs| - 1] + [xs[|xs| - 1]];
      Insert(xs[|xs| - 1], Sort(xs[..|xs| - 1], key), key)
  }

  lemma {:induction false} InsertSorted<T>(x: T, xs: seq<T>, key: T -> string)
    requires Sorted(xs, key)
    ensures Sorted(Insert(x, xs, key), key)
  {
    if xs != [] {
      if Less(key(x), key(xs[0])) {
        forall j | 0 <= j < |xs| ensures AtMost(key(x), key(xs[j])) {
          NotBefore(key(x), key(xs[0]));
          if j > 0 {
            AtMostTransitive(key(x), key(xs[0]), key(xs[j]));
          }
        }
      } else {
        InsertSorted(x, xs[1..], key);
        var rest := Insert(x, xs[1..], key);
        forall j | 0 <= j < |rest| ensures AtMost(key(xs[0]), key(rest[j])) {
          assert rest[j] in multiset(rest);
          if rest[j] != x {
            assert rest[j] in xs[1..];
          }
        }
      }
    }
  }

  lemma NotBefore(a: string, b: string)
    requires Less(a, b)
    ensures AtMost(a, b)
  {
    if Less(b, a) {
      LessTransitive(a, b, a);
      LessIrreflexive(a);
    }
  }

  lemma {:induction false} SortSorted<T>(xs: seq<T>, key: T -> string)
    ensures Sorted(Sort(xs, key), key)
  {
    if xs != [] {
      SortSorted(xs[..|xs| - 1], key);
      InsertSorted(xs[|xs| - 1], Sort(xs[..|xs| - 1], key), key);
    }
  }

  /** No two elements share a key. */
  ghost predicate KeyIdentifies<T(!new)>(xs: seq<T>, key: T -> string) {
    forall x, y :: x in xs && y in xs && key(x) == key(y) ==> x == y
  }

  lemma SameMembers<T>(xs: seq<T>, ys: seq<T>, x: T)
    requires multiset(xs) == multiset(ys)
    ensures x in xs <==> x in ys
  {
    assert x in multiset(xs) <==> x in multiset(ys);
  }

  lemma RemoveHead<T>(xs: seq<T>)
    requires xs != []
    ensures multiset(xs[1..]) == multiset(xs) - multiset{xs[0]}
  {
    assert xs == [xs[0]] + xs[1..];
  }

  lemma HeadIsLeast<T>(xs: seq<T>, key: T -> string, x: T)
    requires Sorted(xs, key) && x in xs
    ensures AtMost(key(xs[0]), key(x))
  {
    LessIrreflexive(key(x));
  }

  lemma SameHead<T(!new)>(xs: seq<T>, ys: seq<T>, key: T -> string)
    requires xs != [] && Sorted(xs, key) && Sorted(ys, key)
    requires multiset(xs) == multiset(ys) && KeyIdentifies(xs, key)
    ensures ys != [] && xs[0] == ys[0]
  {
    assert xs[0] in multiset(ys);
    assert ys[0] in multiset(xs);
    HeadIsLeast(xs, key, ys[0]);
    HeadIsLeast(ys, key, xs[0]);
    LessTotal(key(xs[0]), key(ys[0]));
  }

  /** There is one sorted arrangement of a multiset whose elements are told
      apart by their keys. */
  lemma {:induction false} SortedUnique<T(!new)>(xs: seq<T>, ys: seq<T>, key: T -> string)
    requires Sorted(xs, key) && Sorted(ys, key)
    requires multiset(xs) == multiset(ys) && KeyIdentifies(xs, key)
    ensures xs == ys
  {
    if xs == [] {
      assert |multiset(ys)| == |ys|;
    } else {
      SameHead(xs, ys, key);
      RemoveHead(xs);
      RemoveHead(ys);
      SortedUnique(xs[1..], ys[1..], key);
      assert xs == [xs[0]] + xs[1..] && ys == [ys[0]] + ys[1..];
    }
  }

  /** Sorting ignores the order its input came in. */
  lemma SortPermuted<T(!new)>(xs: seq<T>, ys: seq<T>, key: T -> string)
    requires multiset(xs) == multiset(ys) && KeyIdentifies(xs, key)
    ensures Sort(xs, key) == Sort(ys, key)
  {
    SortSorted(xs, key);
    SortSorted(ys, key);
    forall x ensures x in Sort(xs, key) <==> x in xs {
      SameMembers(Sort(xs, key), xs, x);
    }
    SortedUnique(Sort(xs, key), Sort(ys, key), key);
  }

  ghost predicate DistinctKeys<T>(xs: seq<T>, key: T -> string) {
    forall i, j :: 0 <= i < j < |xs| ==> key(xs[i]) != key(xs[j])
  }

  lemma {:induction false} InsertDistinct<T>(x: T, xs: seq<T>, key: T -> string)
    requires DistinctKeys(xs, key) && forall y :: y in xs ==> key(y) != key(x)
    ensures DistinctKeys(Insert(x, xs, key), key)
  {
    if xs != [] && !Less(key(x), key(xs[0])) {
      InsertDistinct(x, xs[1..], key);
      var rest := Insert(x, xs[1..], key);
      forall j | 0 <= j < |rest| ensures key(rest[j]) != key(xs[0]) {
        assert rest[j] in multiset(rest);
        if rest[j] != x {
          assert rest[j] in xs[1..];
        }
      }
    }
  }

  lemma {:induction false} SortDistinct<T>(xs: seq<T>, key: T -> string)
    requires DistinctKeys(xs, key)
    ensures DistinctKeys(Sort(xs, key), key) && StrictlySorted(Sort(xs, key), key)
  {
    SortSorted(xs, key);
    if xs != [] {
      var init, last := xs[..|xs| - 1], xs[|xs| - 1];
      SortDistinct(init, key);
      forall y | y in Sort(init, key) ensures key(y) != key(last) {
        SameMembers(Sort(init, key), init, y);
        var i :| 0 <= i < |init| && init[i] == y;
        assert key(xs[i]) != key(xs[|xs| - 1]);
      }
      InsertDistinct(last, Sort(init, key), key);
    }
    var r := Sort(xs, key);
    forall i, j | 0 <= i < j < |r| ensures Less(key(r[i]), key(r[j])) {
      if !Less(key(r[i]), key(r[j])) {
        LessTotal(key(r[i]), key(r[j]));
      }
    }
  }
}
