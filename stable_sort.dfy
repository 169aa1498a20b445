/** Python's stable sort by a key in descending order (`list.sort(key=…,
    reverse=True)`, `sorted(…, key=…, reverse=True)`): highest key first, and
    elements with equal keys keep their input order. Modelled as an insertion
    sort; any stable descending sort yields the same sequence (`SortDescUnique`). */
module StableSort {
  import opened Seqs

  predicate NonIncreasing<T>(s: seq<T>, key: T -> int) {
    forall i, j :: 0 <= i < j < |s| ==> key(s[i]) >= key(s[j])
  }

  /** The elements of `s` whose key is `k`, in their order in `s`. */
  function KeyFilter<T>(s: seq<T>, key: T -> int, k: int): (r: seq<T>)
    ensures |r| <= |s|
    ensures forall i :: 0 <= i < |r| ==> key(r[i]) == k
  {
    if s == [] then []
    else (if key(s[0]) == k then [s[0]] else []) + KeyFilter(s[1..], key, k)
  }

  /** Number of leading elements of `t` whose key exceeds that of `x`. */
  function InsertionPoint<T>(x: T, t: seq<T>, key: T -> int): (p: nat)
    ensures p <= |t|
    ensures forall q :: 0 <= q < p ==> key(t[q]) > key(x)
    ensures p < |t| ==> key(t[p]) <= key(x)
  {
    if t == [] || key(t[0]) <= key(x) then 0
    else 1 + InsertionPoint(x, t[1..], key)
  }

  /** Inserts `x` in front of every element whose key is not larger. */
  function Insert<T(==)>(x: T, t: seq<T>, key: T -> int): (r: seq<T>)
    ensures multiset(r) == multiset(t) + multiset{x}
  {
    var p := InsertionPoint(x, t, key);
    assert t == t[..p] + t[p..];
    t[..p] + [x] + t[p..]
  }

  lemma InsertSorted<T>(x: T, t: seq<T>, key: T -> int)
    requires NonIncreasing(t, key)
    ensures NonIncreasing(Insert(x, t, key), key)
  {
    var p := InsertionPoint(x, t, key);
    var r := Insert(x, t, key);
    forall i, j | 0 <= i < j < |r| ensures key(r[i]) >= key(r[j]) {
      if j < p {
      } else if j == p {
        assert r[j] == x;
      } else if i < p {
        assert r[j] == t[j - 1] && r[i] == t[i];
        assert key(t[i]) > key(x) >= key(t[p]) >= key(t[j - 1]);
      } else if i == p {
        assert r[j] == t[j - 1] && r[i] == x;
        assert key(x) >= key(t[p]) >= key(t[j - 1]);
      } else {
        assert r[j] == t[j - 1] && r[i] == t[i - 1];
      }
    }
  }

  /** The stable descending sort of `s` by `key`. */
  function SortDesc<T(==)>(s: seq<T>, key: T -> int): (r: seq<T>)
    ensures multiset(r) == multiset(s)
    ensures NonIncreasing(r, key)
  {
    if s == [] then []
    else
      var t := SortDesc(s[1..], key);
      InsertSorted(s[0], t, key);
      assert s == [s[0]] + s[1..];
      Insert(s[0], t, key)
  }

  lemma {:induction false} KeyFilterAppend<T>(a: seq<T>, b: seq<T>, key: T -> int, k: int)
    ensures KeyFilter(a + b, key, k) == KeyFilter(a, key, k) + KeyFilter(b, key, k)
  {
    if a == [] {
      assert a + b == b;
    } else {
      assert (a + b)[1..] == a[1..] + b;
      KeyFilterAppend(a[1..], b, key, k);
    }
  }

  /** Filtering a sequence none of whose keys is `k` gives nothing. */
  lemma {:induction false} KeyFilterNone<T>(s: seq<T>, key: T -> int, k: int)
    requires forall i :: 0 <= i < |s| ==> key(s[i]) != k
    ensures KeyFilter(s, key, k) == []
  {
    if s != [] {
      KeyFilterNone(s[1..], key, k);
    }
  }

  /** Inserting `x` adds it at the front of its key's filter. */
  lemma InsertKeyFilter<T>(x: T, t: seq<T>, key: T -> int, k: int)
    ensures KeyFilter(Insert(x, t, key), key, k) == (if key(x) == k then [x] else []) + KeyFilter(t, key, k)
  {
    var p := InsertionPoint(x, t, key);
    var lo, hi := t[..p], t[p..];
    if key(x) == k {
      KeyFilterNone(lo, key, k);
    }
    KeyFilterBetween(lo, x, hi, key, k);
    assert lo + hi == t;
  }

  /** Filtering with `x` placed after a part without key `k`. */
  lemma KeyFilterBetween<T>(lo: seq<T>, x: T, hi: seq<T>, key: T -> int, k: int)
    requires key(x) == k ==> KeyFilter(lo, key, k) == []
    ensures KeyFilter(lo + [x] + hi, key, k) == (if key(x) == k then [x] else []) + KeyFilter(lo + hi, key, k)
  {
    var fx := if key(x) == k then [x] else [];
    var flo, fhi := KeyFilter(lo, key, k), KeyFilter(hi, key, k);
    assert KeyFilter([x], key, k) == fx by {
      assert [x][1..] == [];
    }
    assert KeyFilter(lo + [x] + hi, key, k) == flo + fx + fhi by {
      KeyFilterAppend(lo + [x], hi, key, k);
      KeyFilterAppend(lo, [x], key, k);
    }
    assert KeyFilter(lo + hi, key, k) == flo + fhi by {
      KeyFilterAppend(lo, hi, key, k);
    }
    if key(x) == k {
      assert flo + fx + fhi == fx + (flo + fhi);
    } else {
      assert flo + fx + fhi == fx + (flo + fhi);
    }
  }

  /** Stability: among elements with equal keys, the sort keeps the input order. */
  lemma {:induction false} SortDescStable<T>(s: seq<T>, key: T -> int, k: int)
    ensures KeyFilter(SortDesc(s, key), key, k) == KeyFilter(s, key, k)
  {
    if s != [] {
      InsertKeyFilter(s[0], SortDesc(s[1..], key), key, k);
      SortDescStable(s[1..], key, k);
    }
  }

  /** An element of `s` with key `k` is in the `k`-filter of `s`. */
  lemma {:induction false} InKeyFilter<T>(s: seq<T>, key: T -> int, y: T)
    requires y in s
    ensures y in KeyFilter(s, key, key(y))
  {
    if s[0] != y {
      InKeyFilter(s[1..], key, y);
    }
  }

  /** Whatever is in a filter is in the filtered sequence. */
  lemma {:induction false} KeyFilterSubset<T>(s: seq<T>, key: T -> int, k: int, y: T)
    requires y in KeyFilter(s, key, k)
    ensures y in s
  {
    if s[0] != y {
      KeyFilterSubset(s[1..], key, k, y);
    }
  }

  /** Relative order of two elements with key `k` survives filtering by `k`. */
  lemma {:induction false} PrecedesKeyFilter<T>(s: seq<T>, key: T -> int, x: T, y: T)
    requires key(x) == key(y)
    requires Precedes(s, x, y)
    ensures Precedes(KeyFilter(s, key, key(x)), x, y)
  {
    var k := key(x);
    var i, j :| 0 <= i < j < |s| && s[i] == x && s[j] == y;
    var f := KeyFilter(s[1..], key, k);
    if i == 0 {
      assert y == s[1..][j - 1];
      InKeyFilter(s[1..], key, y);
      var q :| 0 <= q < |f| && f[q] == y;
      assert KeyFilter(s, key, k) == [x] + f;
      assert KeyFilter(s, key, k)[0] == x && KeyFilter(s, key, k)[q + 1] == y;
    } else {
      assert s[1..][i - 1] == x && s[1..][j - 1] == y;
      PrecedesKeyFilter(s[1..], key, x, y);
      var h := if key(s[0]) == k then [s[0]] else [];
      var a, b :| 0 <= a < b < |f| && f[a] == x && f[b] == y;
      assert KeyFilter(s, key, k) == h + f;
      assert KeyFilter(s, key, k)[|h| + a] == x && KeyFilter(s, key, k)[|h| + b] == y;
    }
  }

  /** Order inside a filter is order inside the filtered sequence. */
  lemma {:induction false} PrecedesFromKeyFilter<T>(s: seq<T>, key: T -> int, k: int, x: T, y: T)
    requires Precedes(KeyFilter(s, key, k), x, y)
    ensures Precedes(s, x, y)
  {
    var F := KeyFilter(s, key, k);
    var f := KeyFilter(s[1..], key, k);
    var h := if key(s[0]) == k then [s[0]] else [];
    assert F == h + f;
    var i, j :| 0 <= i < j < |F| && F[i] == x && F[j] == y;
    if i < |h| {
      assert x == s[0] && y == f[j - 1];
      KeyFilterSubset(s[1..], key, k, y);
      var q :| 0 <= q < |s[1..]| && s[1..][q] == y;
      assert s[0] == x && s[q + 1] == y;
    } else {
      assert f[i - |h|] == x && f[j - |h|] == y;
      PrecedesFromKeyFilter(s[1..], key, k, x, y);
      var a, b :| 0 <= a < b < |s[1..]| && s[1..][a] == x && s[1..][b] == y;
      assert s[a + 1] == x && s[b + 1] == y;
    }
  }

  /** Two elements of the sorted output with equal keys appear in that order in
      the input. */
  lemma SortDescKeepsTies<T>(s: seq<T>, key: T -> int, i: nat, j: nat)
    requires i < j < |SortDesc(s, key)|
    requires key(SortDesc(s, key)[i]) == key(SortDesc(s, key)[j])
    ensures Precedes(s, SortDesc(s, key)[i], SortDesc(s, key)[j])
  {
    var r := SortDesc(s, key);
    var x, y := r[i], r[j];
    PrecedesKeyFilter(r, key, x, y);
    SortDescStable(s, key, key(x));
    PrecedesFromKeyFilter(s, key, key(x), x, y);
  }

  /** Sortedness and stability determine the result: two non-increasing
      sequences with the same elements per key, in the same order, are equal. */
  lemma {:induction false} SortedFiltersDetermine<T>(a: seq<T>, b: seq<T>, key: T -> int)
    requires NonIncreasing(a, key) && NonIncreasing(b, key)
    requires forall k :: KeyFilter(a, key, k) == KeyFilter(b, key, k)
    ensures a == b
  {
    if a != [] {
      assert KeyFilter(b, key, key(a[0])) == KeyFilter(a, key, key(a[0])) != [];
    }
    if b != [] {
      assert KeyFilter(a, key, key(b[0])) == KeyFilter(b, key, key(b[0])) != [];
    }
    if a != [] && b != [] {
      var ka, kb := key(a[0]), key(b[0]);
      assert a[0] in KeyFilter(a, key, ka);
      KeyFilterSubset(b, key, ka, a[0]);
      assert b[0] in KeyFilter(b, key, kb);
      KeyFilterSubset(a, key, kb, b[0]);
      assert ka == kb;
      assert KeyFilter(a, key, ka)[0] == a[0] && KeyFilter(b, key, ka)[0] == b[0];
      assert a[0] == b[0];
      forall k ensures KeyFilter(a[1..], key, k) == KeyFilter(b[1..], key, k) {
        var h := if ka == k then [a[0]] else [];
        assert KeyFilter(a, key, k) == h + KeyFilter(a[1..], key, k);
        assert KeyFilter(b, key, k) == h + KeyFilter(b[1..], key, k);
        assert (h + KeyFilter(a[1..], key, k))[|h|..] == KeyFilter(a[1..], key, k);
        assert (h + KeyFilter(b[1..], key, k))[|h|..] == KeyFilter(b[1..], key, k);
      }
      SortedFiltersDetermine(a[1..], b[1..], key);
      assert a == [a[0]] + a[1..] && b == [b[0]] + b[1..];
    }
  }

  /** Any stable descending sort of `s` by `key` is `SortDesc(s, key)`. */
  lemma SortDescUnique<T>(s: seq<T>, key: T -> int, r: seq<T>)
    requires NonIncreasing(r, key)
    requires forall k :: KeyFilter(r, key, k) == KeyFilter(s, key, k)
    ensures r == SortDesc(s, key)
  {
    forall k ensures KeyFilter(r, key, k) == KeyFilter(SortDesc(s, key), key, k) {
      SortDescStable(s, key, k);
    }
    SortedFiltersDetermine(r, SortDesc(s, key), key);
  }

  /** Sorting an already sorted sequence changes nothing. */
  lemma SortDescOfSorted<T>(s: seq<T>, key: T -> int)
    requires NonIncreasing(s, key)
    ensures SortDesc(s, key) == s
  {
    SortDescUnique(s, key, s);
  }

  /** An element left out of a prefix of a sorted sequence ranks no higher than
      anything in the prefix, which is then full. */
  lemma TakeSortedTop<T>(s: seq<T>, key: T -> int, n: nat, w: T)
    requires NonIncreasing(s, key)
    requires w in s && w !in Take(s, n)
    ensures |Take(s, n)| == n
    ensures forall k :: 0 <= k < n ==> key(s[k]) >= key(w)
  {
    var q :| 0 <= q < |s| && s[q] == w;
    assert q >= |Take(s, n)|;
  }

  /** Two elements, the second with the larger key, swap places. */
  lemma SortDescSwapsTwo<T>(x: T, y: T, key: T -> int)
    requires key(x) < key(y)
    ensures SortDesc([x, y], key) == [y, x]
  {
    assert [x, y][1..] == [y] && [y][1..] == [];
    assert SortDesc([y], key) == [y];
    assert InsertionPoint(x, [y], key) == 1;
  }
}
