/**
 The order in which `Vec<String>::sort` arranges strings, and the stable sort
 itself. Rust compares strings by their UTF-8 bytes, which is the same order as
 comparing them code point by code point.
 */
module Ordering {
  import opened Prelude

  predicate Leq(a: string, b: string)
    decreases |a|
  {
    a == "" || (b != "" && (a[0] < b[0] || (a[0] == b[0] && Leq(a[1..], b[1..]))))
  }

  lemma {:induction false} LeqReflexive(a: string)
    ensures Leq(a, a)
    decreases |a|
  {
    if a != "" { LeqReflexive(a[1..]); }
  }

  lemma {:induction false} LeqTotal(a: string, b: string)
    ensures Leq(a, b) || Leq(b, a)
    decreases |a|
  {
    if a != "" && b != "" && a[0] == b[0] { LeqTotal(a[1..], b[1..]); }
  }

  lemma {:induction false} LeqTransitive(a: string, b: string, c: string)
    requires Leq(a, b) && Leq(b, c)
    ensures Leq(a, c)
    decreases |a|
  {
    if a != "" && a[0] == b[0] == c[0] { LeqTransitive(a[1..], b[1..], c[1..]); }
  }

  lemma {:induction false} LeqAntisymmetric(a: string, b: string)
    requires Leq(a, b) && Leq(b, a)
    ensures a == b
    decreases |a|
  {
    if a != "" {
      LeqAntisymmetric(a[1..], b[1..]);
      assert a == [a[0]] + a[1..] && b == [b[0]] + b[1..];
    }
  }

  /** A strict difference between equally long strings decides the order whatever follows. */
  lemma {:induction false} LeqExtend(a: string, b: string, s: string, t: string)
    requires |a| == |b| && a != b && Leq(a, b)
    ensures Leq(a + s, b + t) && a + s != b + t
    decreases |a|
  {
    assert (a + s)[0] == a[0] && (b + t)[0] == b[0];
    if a[0] == b[0] {
      assert a == [a[0]] + a[1..] && b == [b[0]] + b[1..];
      LeqExtend(a[1..], b[1..], s, t);
      assert (a + s)[1..] == a[1..] + s && (b + t)[1..] == b[1..] + t;
    }
  }

  lemma LeqCons(c: char, a: string, b: string)
    requires Leq(a, b)
    ensures Leq([c] + a, [c] + b)
  {
  }

  lemma {:induction false} LeqCommonPrefix(p: string, a: string, b: string)
    requires Leq(a, b)
    ensures Leq(p + a, p + b)
    decreases |p|
  {
    hide Leq;
    if p == "" {
      assert p + a == a && p + b == b;
    } else {
      LeqCommonPrefix(p[1..], a, b);
      LeqCons(p[0], p[1..] + a, p[1..] + b);
      assert p + a == [p[0]] + (p[1..] + a) && p + b == [p[0]] + (p[1..] + b);
    }
  }

  // ── Stable sorting ──────────────────────────────────────────────────────

  ghost predicate TotalPreorder<T(!new)>(le: (T, T) -> bool) {
    && (forall a, b :: le(a, b) || le(b, a))
    && (forall a, b, c :: le(a, b) && le(b, c) ==> le(a, c))
  }

  ghost predicate SortedBy<T>(xs: seq<T>, le: (T, T) -> bool) {
    forall i, j | 0 <= i < j < |xs| :: le(xs[i], xs[j])
  }

  function Insert<T>(x: T, xs: seq<T>, le: (T, T) -> bool): seq<T> {
    if xs == [] || le(x, xs[0]) then [x] + xs else [xs[0]] + Insert(x, xs[1..], le)
  }

  /** Stable insertion sort: what `sort_by` returns for a total preorder. */
  function Sort<T>(xs: seq<T>, le: (T, T) -> bool): seq<T> {
    if xs == [] then [] else Insert(xs[0], Sort(xs[1..], le), le)
  }

  lemma {:induction false} InsertElements<T>(x: T, xs: seq<T>, le: (T, T) -> bool)
    ensures multiset(Insert(x, xs, le)) == multiset{x} + multiset(xs)
  {
    if xs != [] && !le(x, xs[0]) {
      InsertElements(x, xs[1..], le);
      assert xs == [xs[0]] + xs[1..];
    }
  }

  lemma {:induction false} SortElements<T>(xs: seq<T>, le: (T, T) -> bool)
    ensures multiset(Sort(xs, le)) == multiset(xs)
    ensures |Sort(xs, le)| == |xs|
    ensures forall x :: x in Sort(xs, le) <==> x in xs
  {
    if xs != [] {
      SortElements(xs[1..], le);
      InsertElements(xs[0], Sort(xs[1..], le), le);
      assert xs == [xs[0]] + xs[1..];
    }
    assert |Sort(xs, le)| == |multiset(Sort(xs, le))|;
    assert |xs| == |multiset(xs)|;
    forall x ensures x in Sort(xs, le) <==> x in xs {
      assert x in multiset(Sort(xs, le)) <==> x in multiset(xs);
    }
  }

  lemma {:induction false} InsertSorted<T(!new)>(x: T, xs: seq<T>, le: (T, T) -> bool)
    requires TotalPreorder(le) && SortedBy(xs, le)
    ensures SortedBy(Insert(x, xs, le), le)
  {
    if xs != [] && !le(x, xs[0]) {
      InsertSorted(x, xs[1..], le);
      InsertElements(x, xs[1..], le);
      var r := Insert(x, xs[1..], le);
      forall k | 0 <= k < |r| ensures le(xs[0], r[k]) {
        assert r[k] in multiset(r);
        assert r[k] == x || r[k] in xs[1..];
      }
    }
  }

  lemma {:induction false} SortSorts<T(!new)>(xs: seq<T>, le: (T, T) -> bool)
    requires TotalPreorder(le)
    ensures SortedBy(Sort(xs, le), le)
  {
    if xs != [] {
      SortSorts(xs[1..], le);
      InsertSorted(xs[0], Sort(xs[1..], le), le);
    }
  }

  lemma LeqIsTotalPreorder()
    ensures TotalPreorder(Leq)
  {
    forall a: string, b: string ensures Leq(a, b) || Leq(b, a) { LeqTotal(a, b); }
    forall a: string, b: string, c: string | Leq(a, b) && Leq(b, c) ensures Leq(a, c) {
      LeqTransitive(a, b, c);
    }
  }

  // ── Strictly sorted lists are canonical ─────────────────────────────────

  ghost predicate StrictlySorted(xs: seq<string>) {
    forall i, j | 0 <= i < j < |xs| :: Leq(xs[i], xs[j]) && xs[i] != xs[j]
  }

  lemma {:induction false} StrictlySortedUnique(xs: seq<string>, ys: seq<string>)
    requires StrictlySorted(xs) && StrictlySorted(ys)
    requires forall x :: x in xs <==> x in ys
    ensures xs == ys
  {
    assert ys != [] ==> ys[0] in xs;
    if xs != [] {
      assert xs[0] in ys;
      if xs[0] != ys[0] {
        LeqAntisymmetric(xs[0], ys[0]);
      }
      assert xs == [xs[0]] + xs[1..] && ys == [ys[0]] + ys[1..];
      forall x ensures x in xs[1..] <==> x in ys[1..] {
        assert x in xs <==> x == xs[0] || x in xs[1..];
        assert x in ys <==> x == ys[0] || x in ys[1..];
      }
      StrictlySortedUnique(xs[1..], ys[1..]);
    }
  }

  /** Sorting an enumeration of distinct strings yields a strictly sorted list of them. */
  lemma SortIsStrict(xs: seq<string>)
    requires NoDuplicates(xs)
    ensures StrictlySorted(Sort(xs, Leq))
    ensures forall x :: x in Sort(xs, Leq) <==> x in xs
  {
    LeqIsTotalPreorder();
    SortSorts(xs, Leq);
    SortElements(xs, Leq);
    var r := Sort(xs, Leq);
    forall i, j | 0 <= i < j < |r| ensures r[i] != r[j] {
      if r[i] == r[j] {
        RepeatedCount(r, i, j);
        DistinctCount(xs, r[i]);
      }
    }
  }

  lemma {:induction false} DistinctCount<T>(xs: seq<T>, x: T)
    requires NoDuplicates(xs)
    ensures multiset(xs)[x] <= 1
  {
    if xs != [] {
      assert xs == [xs[0]] + xs[1..];
      assert xs[0] !in xs[1..];
      DistinctCount(xs[1..], x);
    }
  }

  lemma RepeatedCount<T>(xs: seq<T>, i: nat, j: nat)
    requires i < j < |xs| && xs[i] == xs[j]
    ensures multiset(xs)[xs[i]] >= 2
  {
    assert xs == xs[..j] + xs[j..];
    assert xs[..j][i] in multiset(xs[..j]);
    assert xs[j..][0] in multiset(xs[j..]);
  }

  /** The strictly sorted list of the elements of a finite set. */
  ghost function Sorted(s: set<string>): (r: seq<string>)
    ensures StrictlySorted(r)
    ensures forall x :: x in r <==> x in s
  {
    SortedExists(s);
    var r :| StrictlySorted(r) && forall x :: x in r <==> x in s;
    r
  }

  lemma SortedEmpty(s: set<string>)
    ensures Sorted(s) == [] <==> s == {}
  {
    var r := Sorted(s);
    assert r != [] ==> r[0] in s;
  }

  lemma {:induction false} SortedExists(s: set<string>)
    ensures exists r :: StrictlySorted(r) && forall x :: x in r <==> x in s
  {
    EnumerationExists(s);
    var e :| NoDuplicates(e) && forall x :: x in e <==> x in s;
    SortIsStrict(e);
    assert StrictlySorted(Sort(e, Leq)) && forall x :: x in Sort(e, Leq) <==> x in s;
  }

  lemma {:induction false} EnumerationExists(s: set<string>)
    ensures exists e: seq<string> :: NoDuplicates(e) && forall x :: x in e <==> x in s
  {
    if s == {} {
      assert NoDuplicates<string>([]) && forall x: string :: x in [] <==> x in s;
    } else {
      var y :| y in s;
      EnumerationExists(s - {y});
      var e :| NoDuplicates(e) && forall x :: x in e <==> x in s - {y};
      assert NoDuplicates(e + [y]) && forall x :: x in e + [y] <==> x in s;
    }
  }

  /** Collects a set into a vector and sorts it. */
  method SortedElements(s: set<string>) returns (xs: seq<string>)
    ensures xs == Sorted(s)
  {
    hide Leq, Sort;
    var listed := Elements(s);
    xs := Sort(listed, Leq);
    SortIsStrict(listed);
    StrictlySortedUnique(xs, Sorted(s));
  }
}
