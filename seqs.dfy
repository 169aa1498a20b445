/** Sequence helpers shared by the keyword bookkeeping: Python's `list.index`,
    insertion-ordered de-duplication (the key order of a `dict` or a `Counter`),
    relative order of two elements, and slicing `s[:n]`. */
module Seqs {

  predicate NoDuplicates<T(==)>(s: seq<T>) {
    forall i, j :: 0 <= i < j < |s| ==> s[i] != s[j]
  }

  /** The index of the first occurrence of `x` in `s`, as `list.index` returns it;
      `|s|` when `x` does not occur (where `list.index` raises ValueError). */
  function IndexOf<T(==)>(s: seq<T>, x: T): (r: nat)
    ensures r <= |s|
    ensures r < |s| <==> x in s
    ensures r < |s| ==> s[r] == x
    ensures forall i :: 0 <= i < r ==> s[i] != x
  {
    if s == [] then 0
    else if s[0] == x then 0
    else 1 + IndexOf(s[1..], x)
  }

  /** Appending after the first occurrence does not move it. */
  lemma {:induction false} IndexOfAppend<T>(s: seq<T>, x: T, y: T)
    requires y in s
    ensures IndexOf(s + [x], y) == IndexOf(s, y)
  {
    var r := IndexOf(s, y);
    assert (s + [x])[r] == y;
    forall i | 0 <= i < r ensures (s + [x])[i] != y {
      assert (s + [x])[i] == s[i];
    }
    IndexOfUnique(s + [x], y, r);
  }

  /** The first occurrence in `[a] + s` is at the front or one past its first
      occurrence in `s`. */
  lemma IndexOfCons<T>(a: T, s: seq<T>, x: T)
    ensures IndexOf([a] + s, x) == if a == x then 0 else 1 + IndexOf(s, x)
  {
    assert ([a] + s)[1..] == s;
  }

  /** Dropping the first element of a joined sequence drops it from the first part. */
  lemma TailOfAppend<T>(a: seq<T>, b: seq<T>)
    requires a != []
    ensures (a + b)[0] == a[0] && (a + b)[1..] == a[1..] + b
  {
  }

  /** Joining sequences is associative. */
  lemma SeqAssoc<T>(a: seq<T>, b: seq<T>, c: seq<T>)
    ensures a + (b + c) == (a + b) + c
  {
  }

  /** `IndexOf` is determined by its contract. */
  lemma {:induction false} IndexOfUnique<T>(s: seq<T>, x: T, r: nat)
    requires r < |s| && s[r] == x
    requires forall i :: 0 <= i < r ==> s[i] != x
    ensures IndexOf(s, x) == r
  {
  }

  /** The distinct elements of `s` in order of first occurrence: the keys of a
      dict or Counter filled from `s` in order. */
  function Dedup<T(==)>(s: seq<T>): (r: seq<T>)
    ensures NoDuplicates(r)
    ensures forall i :: 0 <= i < |r| ==> r[i] in s
    ensures forall i :: 0 <= i < |s| ==> s[i] in r
  {
    if s == [] then []
    else
      var d := Dedup(s[..|s| - 1]);
      assert s == s[..|s| - 1] + [s[|s| - 1]];
      if s[|s| - 1] in d then d else d + [s[|s| - 1]]
  }

  /** Dedup keeps elements in the order of their first occurrence in `s`. */
  lemma {:induction false} DedupFirstOccurrence<T>(s: seq<T>, i: nat, j: nat)
    requires i < j < |Dedup(s)|
    ensures IndexOf(s, Dedup(s)[i]) < IndexOf(s, Dedup(s)[j])
  {
    var p, x := s[..|s| - 1], s[|s| - 1];
    assert s == p + [x];
    var d := Dedup(p);
    var a, b := Dedup(s)[i], Dedup(s)[j];
    assert a in p by {
      if x !in d {
        assert Dedup(s) == d + [x];
        assert a == d[i];
      }
    }
    IndexOfAppend(p, x, a);
    if x in d {
      assert Dedup(s) == d;
      DedupFirstOccurrence(p, i, j);
      IndexOfAppend(p, x, b);
    } else if j < |d| {
      assert Dedup(s) == d + [x];
      assert a == d[i] && b == d[j];
      DedupFirstOccurrence(p, i, j);
      IndexOfAppend(p, x, b);
    } else {
      assert Dedup(s) == d + [x];
      assert b == x && x !in p;
      IndexOfUnique(s, x, |p|);
    }
  }

  /** `x` occurs at some position before some occurrence of `y`. */
  ghost predicate Precedes<T>(s: seq<T>, x: T, y: T) {
    exists i, j :: 0 <= i < j < |s| && s[i] == x && s[j] == y
  }

  /** In a sequence without duplicates, order is the order of first occurrences
      in any sequence whose de-duplication it is. */
  lemma PrecedesInDedup<T>(s: seq<T>, x: T, y: T)
    requires Precedes(Dedup(s), x, y)
    ensures IndexOf(s, x) < IndexOf(s, y)
  {
    var i, j :| 0 <= i < j < |Dedup(s)| && Dedup(s)[i] == x && Dedup(s)[j] == y;
    DedupFirstOccurrence(s, i, j);
  }

  /** Without duplicates, every element occurs at most once. */
  lemma {:induction false} NoDuplicatesCount<T>(s: seq<T>, x: T)
    requires NoDuplicates(s)
    ensures multiset(s)[x] <= 1
  {
    if s != [] {
      assert s == [s[0]] + s[1..];
      NoDuplicatesCount(s[1..], x);
      if x == s[0] {
        assert x !in s[1..];
      }
    }
  }

  /** Two equal elements count twice. */
  lemma DuplicateCount<T>(s: seq<T>, i: nat, j: nat)
    requires i < j < |s| && s[i] == s[j]
    ensures multiset(s)[s[i]] >= 2
  {
    assert s == s[..i] + [s[i]] + s[i + 1..j] + [s[j]] + s[j + 1..];
  }

  /** A rearrangement of a sequence without duplicates has none. */
  lemma PermutationNoDuplicates<T>(a: seq<T>, b: seq<T>)
    requires multiset(a) == multiset(b) && NoDuplicates(b)
    ensures NoDuplicates(a)
  {
    forall i, j | 0 <= i < j < |a| ensures a[i] != a[j] {
      NoDuplicatesCount(b, a[i]);
      if a[i] == a[j] {
        DuplicateCount(a, i, j);
        assert false;
      }
    }
  }

  /** Dedup keeps exactly the elements of `s`. */
  lemma DedupElements<T>(s: seq<T>)
    ensures forall x :: x in Dedup(s) <==> x in s
  {
    forall x | x in s ensures x in Dedup(s) {
      var i :| 0 <= i < |s| && s[i] == x;
    }
  }

  /** Two rearrangements of each other have the same elements. */
  lemma SameElements<T>(a: seq<T>, b: seq<T>)
    requires multiset(a) == multiset(b)
    ensures forall x :: x in a <==> x in b
  {
    forall x ensures x in a <==> x in b {
      assert x in a <==> x in multiset(a);
      assert x in b <==> x in multiset(b);
    }
  }

  /** A prefix one longer is the prefix and the next element. */
  lemma PrefixExtend<T>(s: seq<T>, i: nat)
    requires i < |s|
    ensures s[..i + 1] == s[..i] + [s[i]]
  {
  }

  /** Python's slice `s[:n]`. */
  function Take<T>(s: seq<T>, n: nat): (r: seq<T>)
    ensures |r| <= n && |r| <= |s|
    ensures |r| == n || |r| == |s|
    ensures forall i :: 0 <= i < |r| ==> r[i] == s[i]
  {
    if |s| <= n then s else s[..n]
  }
}
