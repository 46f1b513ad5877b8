/** Go's string ordering on raw bytes, `slices.Sort` on a string slice and
    `sort.SearchStrings`, the three pieces the resolver's blocklist rests on. */
module ByteOrder {
  import opened Bytes

  // ---------------------------------------------------------------------
  // The order
  // ---------------------------------------------------------------------

  /** Go's `a < b` on strings: byte-wise lexicographic, a proper prefix first. */
  predicate Below(a: Bytes, b: Bytes)
    decreases |a|
  {
    if |a| == 0 then |b| > 0
    else if |b| == 0 then false
    else if a[0] != b[0] then a[0] < b[0]
    else Below(a[1..], b[1..])
  }

  lemma {:induction false} BelowIrreflexive(a: Bytes)
    ensures !Below(a, a)
    decreases |a|
  {
    if |a| > 0 {
      BelowIrreflexive(a[1..]);
    }
  }

  lemma {:induction false} BelowTransitive(a: Bytes, b: Bytes, c: Bytes)
    requires Below(a, b) && Below(b, c)
    ensures Below(a, c)
    decreases |a|
  {
    if |a| > 0 && a[0] == b[0] && b[0] == c[0] {
      BelowTransitive(a[1..], b[1..], c[1..]);
    }
  }

  /** Any two strings are equal or ordered one way round. */
  lemma {:induction false} BelowTotal(a: Bytes, b: Bytes)
    ensures a == b || Below(a, b) || Below(b, a)
    decreases |a|
  {
    if |a| > 0 && |b| > 0 && a[0] == b[0] {
      BelowTotal(a[1..], b[1..]);
      if a[1..] == b[1..] {
        assert a == [a[0]] + a[1..] && b == [b[0]] + b[1..];
      }
    }
  }

  lemma {:induction false} BelowAsymmetric(a: Bytes, b: Bytes)
    requires Below(a, b)
    ensures !Below(b, a)
  {
    if Below(b, a) {
      BelowTransitive(a, b, a);
      BelowIrreflexive(a);
    }
  }

  /** Neither string is below the other exactly when they are equal. */
  lemma NotBelowEither(a: Bytes, b: Bytes)
    ensures !Below(a, b) && !Below(b, a) <==> a == b
  {
    BelowTotal(a, b);
    BelowIrreflexive(a);
  }

  /** `a <= b < c` gives `a < c`. */
  lemma AtMostThenBelow(a: Bytes, b: Bytes, c: Bytes)
    requires !Below(b, a) && Below(b, c)
    ensures Below(a, c)
  {
    BelowTotal(a, b);
    if a != b {
      BelowTransitive(a, b, c);
    }
  }

  /** `a < b <= c` gives `a < c`. */
  lemma BelowThenAtMost(a: Bytes, b: Bytes, c: Bytes)
    requires Below(a, b) && !Below(c, b)
    ensures Below(a, c)
  {
    BelowTotal(b, c);
    if b != c {
      BelowTransitive(a, b, c);
    }
  }

  // ---------------------------------------------------------------------
  // Sorted slices
  // ---------------------------------------------------------------------

  /** Ascending: no later element is below an earlier one. */
  predicate Sorted(s: seq<Bytes>) {
    forall i, j | 0 <= i < j < |s| :: !Below(s[j], s[i])
  }

  /** An element no one in `s` is below, placed in front, keeps `s` sorted. */
  lemma ConsSorted(x: Bytes, s: seq<Bytes>)
    requires Sorted(s)
    requires forall k | 0 <= k < |s| :: !Below(s[k], x)
    ensures Sorted([x] + s)
  {
  }

  /** Insert `x` before the first element that is not below it. */
  function Insert(x: Bytes, s: seq<Bytes>): (r: seq<Bytes>)
    ensures multiset(r) == multiset(s) + multiset{x}
    decreases |s|
  {
    if |s| == 0 then [x]
    else if !Below(s[0], x) then [x] + s
    else
      assert s == [s[0]] + s[1..];
      [s[0]] + Insert(x, s[1..])
  }

  lemma {:induction false} InsertSorted(x: Bytes, s: seq<Bytes>)
    requires Sorted(s)
    ensures Sorted(Insert(x, s))
    decreases |s|
  {
    if |s| == 0 {
    } else if !Below(s[0], x) {
      forall k | 0 <= k < |s| ensures !Below(s[k], x) {
        if k > 0 && Below(s[k], x) {
          AtMostThenBelow(s[0], s[k], x);
        }
      }
      ConsSorted(x, s);
    } else {
      var rest := s[1..];
      InsertSorted(x, rest);
      var r := Insert(x, rest);
      forall k | 0 <= k < |r| ensures !Below(r[k], s[0]) {
        assert r[k] in multiset(r);
        assert r[k] in multiset(rest) + multiset{x};
        if r[k] == x {
          BelowAsymmetric(s[0], x);
        } else {
          assert r[k] in rest;
          var m :| 0 <= m < |rest| && rest[m] == r[k];
          assert rest[m] == s[m + 1];
        }
      }
      ConsSorted(s[0], r);
    }
  }

  /** `slices.Sort` on a string slice. The ascending order of a multiset is
      unique (SortedUnique), so any correct sorting algorithm gives this. */
  function SortAll(s: seq<Bytes>): (r: seq<Bytes>)
    ensures multiset(r) == multiset(s)
    decreases |s|
  {
    if |s| == 0 then []
    else
      assert s == [s[0]] + s[1..];
      Insert(s[0], SortAll(s[1..]))
  }

  lemma {:induction false} SortAllSorted(s: seq<Bytes>)
    ensures Sorted(SortAll(s))
    decreases |s|
  {
    if |s| > 0 {
      SortAllSorted(s[1..]);
      InsertSorted(s[0], SortAll(s[1..]));
    }
  }

  /** The first element of a sorted sequence is at most every element of it. */
  lemma FirstIsLeast(s: seq<Bytes>, x: Bytes)
    requires Sorted(s) && x in s
    ensures !Below(x, s[0])
  {
    var k :| 0 <= k < |s| && s[k] == x;
    if k > 0 {
      assert !Below(s[k], s[0]);
    } else {
      BelowIrreflexive(x);
    }
  }

  /** Two sorted sequences with the same elements are equal. */
  lemma {:induction false} SortedUnique(a: seq<Bytes>, b: seq<Bytes>)
    requires Sorted(a) && Sorted(b) && multiset(a) == multiset(b)
    ensures a == b
    decreases |a|
  {
    assert |a| == |multiset(a)| == |multiset(b)| == |b|;
    if |a| > 0 {
      assert a[0] in multiset(b);
      assert b[0] in multiset(a);
      FirstIsLeast(b, a[0]);
      FirstIsLeast(a, b[0]);
      NotBelowEither(a[0], b[0]);
      SameTails(a, b);
      SortedUnique(a[1..], b[1..]);
    }
  }

  lemma SameTails(a: seq<Bytes>, b: seq<Bytes>)
    requires |a| > 0 && |b| > 0 && a[0] == b[0] && multiset(a) == multiset(b)
    ensures multiset(a[1..]) == multiset(b[1..])
  {
    assert a == [a[0]] + a[1..] && b == [b[0]] + b[1..];
    assert multiset(a[1..]) == multiset(a) - multiset{a[0]};
    assert multiset(b[1..]) == multiset(b) - multiset{b[0]};
  }

  // ---------------------------------------------------------------------
  // sort.SearchStrings
  // ---------------------------------------------------------------------

  /** The loop of `sort.Search` over `[i, j)` with the predicate
      `s[h] >= x`: the midpoint `(i + j) / 2` is compared on every pass. */
  function SearchRange(s: seq<Bytes>, x: Bytes, i: nat, j: nat): (r: nat)
    requires i <= j <= |s|
    ensures i <= r <= j
    decreases j - i
  {
    if i < j then
      var h := (i + j) / 2;
      if Below(s[h], x) then SearchRange(s, x, h + 1, j) else SearchRange(s, x, i, h)
    else i
  }

  /** sort.SearchStrings: the index at which `x` would be inserted. */
  function Search(s: seq<Bytes>, x: Bytes): (r: nat)
    ensures r <= |s|
  {
    SearchRange(s, x, 0, |s|)
  }

  /** Everything before the search result is below `x`, nothing after it is. */
  predicate SplitsAt(s: seq<Bytes>, x: Bytes, r: nat)
    requires r <= |s|
  {
    (forall k | 0 <= k < r :: Below(s[k], x)) && (forall k | r <= k < |s| :: !Below(s[k], x))
  }

  lemma {:induction false} SearchRangeSplits(s: seq<Bytes>, x: Bytes, i: nat, j: nat)
    requires Sorted(s) && i <= j <= |s|
    requires forall k | 0 <= k < i :: Below(s[k], x)
    requires forall k | j <= k < |s| :: !Below(s[k], x)
    ensures SplitsAt(s, x, SearchRange(s, x, i, j))
    decreases j - i
  {
    if i < j {
      var h := (i + j) / 2;
      if Below(s[h], x) {
        forall k | 0 <= k < h + 1 ensures Below(s[k], x) {
          if i <= k < h {
            AtMostThenBelow(s[k], s[h], x);
          }
        }
        SearchRangeSplits(s, x, h + 1, j);
      } else {
        forall k | h <= k < |s| ensures !Below(s[k], x) {
          if h < k < j && Below(s[k], x) {
            AtMostThenBelow(s[h], s[k], x);
          }
        }
        SearchRangeSplits(s, x, i, h);
      }
    }
  }

  /** On a sorted slice the search result splits it into the elements below
      `x` and the rest. */
  lemma SearchSplits(s: seq<Bytes>, x: Bytes)
    requires Sorted(s)
    ensures SplitsAt(s, x, Search(s, x))
  {
    SearchRangeSplits(s, x, 0, |s|);
  }

  /** The membership test of the resolver: the search lands on `x`. */
  predicate Found(s: seq<Bytes>, x: Bytes) {
    var i := Search(s, x);
    i < |s| && s[i] == x
  }

  /** On a sorted slice the binary search finds exactly the members. */
  lemma FoundIffMember(s: seq<Bytes>, x: Bytes)
    requires Sorted(s)
    ensures Found(s, x) <==> x in s
  {
    var i := Search(s, x);
    SearchSplits(s, x);
    if x in s {
      var k :| 0 <= k < |s| && s[k] == x;
      BelowIrreflexive(x);
      assert i <= k;
      if i < k {
        assert !Below(s[k], s[i]);
      }
      NotBelowEither(s[i], x);
    }
  }
}
