/** `sorted(..., key=...)`: a stable sort by a total preorder, the order of strings, and
    sums that no order can change. */
module Sorting {

  ghost predicate TotalPreorder<T(!new)>(leq: (T, T) -> bool)
  {
    && (forall x, y :: leq(x, y) || leq(y, x))
    && (forall x, y, z :: leq(x, y) && leq(y, z) ==> leq(x, z))
  }

  /** Distinct elements are never tied. */
  ghost predicate Untied<T(!new)>(leq: (T, T) -> bool, s: seq<T>)
  {
    forall x, y :: x in s && y in s && leq(x, y) && leq(y, x) ==> x == y
  }

  ghost predicate Sorted<T>(leq: (T, T) -> bool, s: seq<T>)
  {
    forall i, j :: 0 <= i < j < |s| ==> leq(s[i], s[j])
  }

  ghost predicate NoDuplicates<T>(s: seq<T>) { forall i, j :: 0 <= i < j < |s| ==> s[i] != s[j] }

  function Insert<T>(leq: (T, T) -> bool, x: T, s: seq<T>): seq<T>
  {
    if s == [] || leq(x, s[0]) then [x] + s else [s[0]] + Insert(leq, x, s[1..])
  }

  function Sort<T>(leq: (T, T) -> bool, s: seq<T>): seq<T>
  {
    if s == [] then [] else Insert(leq, s[0], Sort(leq, s[1..]))
  }

  function Sum<T>(f: T -> int, s: seq<T>): int
  {
    if s == [] then 0 else f(s[0]) + Sum(f, s[1..])
  }

  lemma {:induction false} InsertKeeps<T>(leq: (T, T) -> bool, x: T, s: seq<T>, f: T -> int)
    ensures multiset(Insert(leq, x, s)) == multiset{x} + multiset(s)
    ensures Sum(f, Insert(leq, x, s)) == f(x) + Sum(f, s)
    ensures |Insert(leq, x, s)| == 1 + |s|
  {
    if s == [] || leq(x, s[0]) {
      assert ([x] + s)[1..] == s;
    } else {
      InsertKeeps(leq, x, s[1..], f);
      assert s == [s[0]] + s[1..];
      var t := Insert(leq, x, s[1..]);
      assert ([s[0]] + t)[1..] == t;
    }
  }

  /** A sort keeps the elements, with their multiplicities, and every sum over them. */
  lemma {:induction false} SortKeeps<T>(leq: (T, T) -> bool, s: seq<T>, f: T -> int)
    ensures multiset(Sort(leq, s)) == multiset(s)
    ensures Sum(f, Sort(leq, s)) == Sum(f, s)
    ensures |Sort(leq, s)| == |s|
  {
    if s != [] {
      SortKeeps(leq, s[1..], f);
      InsertKeeps(leq, s[0], Sort(leq, s[1..]), f);
      assert s == [s[0]] + s[1..];
    }
  }

  lemma SortElements<T>(leq: (T, T) -> bool, s: seq<T>)
    ensures |Sort(leq, s)| == |s|
    ensures forall x :: x in Sort(leq, s) <==> x in s
    ensures NoDuplicates(s) ==> NoDuplicates(Sort(leq, s))
  {
    var t := Sort(leq, s);
    SortKeeps(leq, s, x => 0);
    forall x
      ensures x in t <==> x in s
    {
      assert x in multiset(t) <==> x in multiset(s);
    }
    if NoDuplicates(s) { SameMultiset(s, t); }
  }

  lemma SameMultiset<T>(s: seq<T>, t: seq<T>)
    requires multiset(s) == multiset(t) && NoDuplicates(s)
    ensures NoDuplicates(t)
  {
    forall i, j | 0 <= i < j < |t|
      ensures t[i] != t[j]
    {
      if t[i] == t[j] {
        Twice(t, i, j);
        Once(s, t[i]);
      }
    }
  }

  lemma Twice<T>(t: seq<T>, i: nat, j: nat)
    requires i < j < |t| && t[i] == t[j]
    ensures multiset(t)[t[i]] >= 2
  {
    assert t == t[..i] + [t[i]] + t[i + 1..j] + [t[j]] + t[j + 1..];
  }

  lemma {:induction false} Once<T>(s: seq<T>, x: T)
    requires NoDuplicates(s)
    ensures multiset(s)[x] <= 1
  {
    if s != [] {
      assert s == [s[0]] + s[1..];
      Once(s[1..], x);
      if s[0] == x { assert x !in s[1..]; }
    }
  }

  lemma {:induction false} InsertSorted<T(!new)>(leq: (T, T) -> bool, x: T, s: seq<T>)
    requires TotalPreorder(leq) && Sorted(leq, s)
    ensures Sorted(leq, Insert(leq, x, s))
  {
    if s != [] && !leq(x, s[0]) {
      InsertSorted(leq, x, s[1..]);
      var t := Insert(leq, x, s[1..]);
      InsertKeeps(leq, x, s[1..], y => 0);
      forall j | 0 <= j < |t|
        ensures leq(s[0], t[j])
      {
        assert t[j] in multiset(t);
        assert t[j] == x || t[j] in s[1..];
      }
    }
  }

  lemma {:induction false} SortSorts<T(!new)>(leq: (T, T) -> bool, s: seq<T>)
    requires TotalPreorder(leq)
    ensures Sorted(leq, Sort(leq, s))
  {
    if s != [] {
      SortSorts(leq, s[1..]);
      InsertSorted(leq, s[0], Sort(leq, s[1..]));
    }
  }

  /** There is only one sorted arrangement of elements none of which are tied. */
  lemma {:induction false} SortedUnique<T(!new)>(leq: (T, T) -> bool, s: seq<T>, t: seq<T>)
    requires Sorted(leq, s) && Sorted(leq, t) && multiset(s) == multiset(t) && Untied(leq, s)
    ensures s == t
  {
    assert |s| == |multiset(s)| == |multiset(t)| == |t|;
    if s != [] {
      SameFirst(leq, s, t);
      SameRest(s, t);
      SortedUnique(leq, s[1..], t[1..]);
      assert s == [s[0]] + s[1..] && t == [t[0]] + t[1..];
    }
  }

  lemma SameFirst<T(!new)>(leq: (T, T) -> bool, s: seq<T>, t: seq<T>)
    requires Sorted(leq, s) && Sorted(leq, t) && multiset(s) == multiset(t) && Untied(leq, s)
    requires s != [] && t != []
    ensures s[0] == t[0]
  {
    assert s[0] in multiset(t) && t[0] in multiset(s);
    FirstIsLeast(leq, s, t[0]);
    FirstIsLeast(leq, t, s[0]);
  }

  lemma SameRest<T>(s: seq<T>, t: seq<T>)
    requires s != [] && t != [] && s[0] == t[0] && multiset(s) == multiset(t)
    ensures multiset(s[1..]) == multiset(t[1..])
  {
    assert s == [s[0]] + s[1..] && t == [t[0]] + t[1..];
    assert multiset(s[1..]) == multiset(s) - multiset{s[0]};
    assert multiset(t[1..]) == multiset(t) - multiset{t[0]};
  }

  lemma FirstIsLeast<T>(leq: (T, T) -> bool, s: seq<T>, x: T)
    requires Sorted(leq, s) && x in s
    ensures x == s[0] || leq(s[0], x)
  {
  }

  /** So sorting forgets the order it was given. */
  lemma SortForgetsOrder<T(!new)>(leq: (T, T) -> bool, s: seq<T>, t: seq<T>)
    requires TotalPreorder(leq) && multiset(s) == multiset(t) && Untied(leq, s)
    ensures Sort(leq, s) == Sort(leq, t)
  {
    SortKeeps(leq, s, x => 0);
    SortKeeps(leq, t, x => 0);
    SortSorts(leq, s);
    SortSorts(leq, t);
    SortElements(leq, s);
    SortedUnique(leq, Sort(leq, s), Sort(leq, t));
  }

  lemma {:induction false} DistinctCount<T>(s: seq<T>, all: set<T>)
    requires NoDuplicates(s) && forall x :: x in s <==> x in all
    ensures |all| == |s|
  {
    if s == [] {
      forall x ensures x !in all { assert x in s <==> x in all; }
      assert all == {};
    } else {
      var rest := all - {s[0]};
      assert s == [s[0]] + s[1..];
      assert all == rest + {s[0]};
      forall x ensures x in s[1..] <==> x in rest {
        assert x in s <==> x in s[1..] || x == s[0];
      }
      DistinctCount(s[1..], rest);
    }
  }

  lemma SameElementsSameMultiset<T>(s: seq<T>, t: seq<T>)
    requires NoDuplicates(s) && NoDuplicates(t) && forall x :: x in s <==> x in t
    ensures multiset(s) == multiset(t)
  {
    forall x
      ensures multiset(s)[x] == multiset(t)[x]
    {
      Once(s, x);
      Once(t, x);
      assert x in multiset(s) <==> x in s;
      assert x in multiset(t) <==> x in t;
    }
  }

  // ---- The order of strings ----

  predicate Leq(a: string, b: string)
  {
    a == "" || (b != "" && if a[0] == b[0] then Leq(a[1..], b[1..]) else a[0] < b[0])
  }

  lemma {:induction false} LeqTotal(a: string, b: string)
    ensures Leq(a, b) || Leq(b, a)
    ensures Leq(a, b) && Leq(b, a) ==> a == b
  {
    if a != "" && b != "" && a[0] == b[0] {
      LeqTotal(a[1..], b[1..]);
      assert a == [a[0]] + a[1..] && b == [b[0]] + b[1..];
    }
  }

  lemma {:induction false} LeqTransitive(a: string, b: string, c: string)
    requires Leq(a, b) && Leq(b, c)
    ensures Leq(a, c)
  {
    if a != "" && a[0] == b[0] && b[0] == c[0] { LeqTransitive(a[1..], b[1..], c[1..]); }
  }

  /** The first difference decides; a prefix comes first. */
  ghost predicate DiffersAt(a: string, b: string, i: int)
  {
    0 <= i < |a| && i < |b| && a[..i] == b[..i] && a[i] < b[i]
  }

  lemma {:induction false} LeqExactly(a: string, b: string)
    ensures Leq(a, b) <==> a <= b || exists i :: DiffersAt(a, b, i)
  {
    if a != "" && b != "" {
      if a[0] == b[0] {
        LeqExactly(a[1..], b[1..]);
        if i :| DiffersAt(a, b, i) { assert DiffersAt(a[1..], b[1..], i - 1); }
        if i :| DiffersAt(a[1..], b[1..], i) {
          assert a[..i + 1] == [a[0]] + a[1..][..i] && b[..i + 1] == [b[0]] + b[1..][..i];
          assert DiffersAt(a, b, i + 1);
        }
        assert a == [a[0]] + a[1..] && b == [b[0]] + b[1..];
      } else {
        if a[0] < b[0] { assert DiffersAt(a, b, 0); }
        if i :| DiffersAt(a, b, i) { assert i > 0 ==> a[..i][0] == b[..i][0]; }
      }
    }
  }
}
