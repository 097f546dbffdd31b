/**
 * Listing: the catalog sorted by year and then by title, as `qsort` with
 * the year-then-`strcmp` comparator leaves it. The sort works on the live
 * catalog, so the sorted order becomes the stored order.
 */
module Listing {
  import opened Strings
  import opened Store

  /** `a` may be listed before `b`: the comparator does not return a positive value. */
  predicate InOrder(a: Movie, b: Movie) {
    a.year < b.year || (a.year == b.year && !Below(b.title, a.title))
  }

  /** `a` must be listed before `b`: the comparator returns a negative value. */
  predicate StrictlyBefore(a: Movie, b: Movie) {
    a.year < b.year || (a.year == b.year && Below(a.title, b.title))
  }

  predicate Sorted(s: Catalog) {
    forall i, j :: 0 <= i < j < |s| ==> InOrder(s[i], s[j])
  }

  lemma InOrderTotal(a: Movie, b: Movie)
    ensures InOrder(a, b) || InOrder(b, a)
  {
    if a.title != b.title {
      BelowTotal(a.title, b.title);
      BelowAsymmetric(a.title, b.title);
    } else {
      BelowIrreflexive(a.title);
    }
  }

  lemma InOrderTransitive(a: Movie, b: Movie, c: Movie)
    requires InOrder(a, b) && InOrder(b, c)
    ensures InOrder(a, c)
  {
    if a.year == b.year == c.year && a.title != b.title {
      BelowTotal(a.title, b.title);
      if Below(c.title, a.title) {
        BelowTransitive(c.title, a.title, b.title);
      }
    }
  }

  /** The two comparator readings agree: `a` strictly precedes `b` exactly when `b` may not precede `a`. */
  lemma StrictlyBeforeIff(a: Movie, b: Movie)
    ensures StrictlyBefore(a, b) <==> !InOrder(b, a)
  {
    if a.title != b.title {
      BelowTotal(a.title, b.title);
    }
    BelowAsymmetric(a.title, b.title);
    BelowIrreflexive(a.title);
  }

  /** A record that may precede every record of a sorted catalog keeps it sorted at the front. */
  lemma ConsSorted(a: Movie, s: Catalog)
    requires Sorted(s)
    requires forall j :: 0 <= j < |s| ==> InOrder(a, s[j])
    ensures Sorted([a] + s)
  {
    var r := [a] + s;
    forall i, j | 0 <= i < j < |r|
      ensures InOrder(r[i], r[j])
    {
      if i > 0 {
        assert r[i] == s[i - 1] && r[j] == s[j - 1];
      } else {
        assert r[j] == s[j - 1];
      }
    }
  }

  /** A record that may precede the head of a sorted catalog may precede all of it. */
  lemma BeforeHead(m: Movie, s: Catalog)
    requires Sorted(s) && |s| > 0 && InOrder(m, s[0])
    ensures forall j :: 0 <= j < |s| ==> InOrder(m, s[j])
  {
    forall j | 0 <= j < |s|
      ensures InOrder(m, s[j])
    {
      if j > 0 {
        InOrderTransitive(m, s[0], s[j]);
      }
    }
  }

  /** The head of a sorted catalog may precede whatever is inserted after it. */
  lemma HeadBeforeInserted(m: Movie, s: Catalog, rest: Catalog)
    requires Sorted(s) && |s| > 0 && !InOrder(m, s[0])
    requires multiset(rest) == multiset(s[1..]) + multiset{m}
    ensures forall j :: 0 <= j < |rest| ==> InOrder(s[0], rest[j])
  {
    forall j | 0 <= j < |rest|
      ensures InOrder(s[0], rest[j])
    {
      var x := rest[j];
      assert x in multiset(rest);
      if x == m {
        InOrderTotal(m, s[0]);
      } else {
        assert x in multiset(s[1..]);
        var k :| 0 <= k < |s[1..]| && s[1..][k] == x;
        assert s[k + 1] == x;
      }
    }
  }

  /** One step of insertion: `m` placed into a sorted catalog. */
  function Insert(m: Movie, s: Catalog): (r: Catalog)
    requires Sorted(s)
    ensures Sorted(r)
    ensures |r| == |s| + 1
    ensures multiset(r) == multiset(s) + multiset{m}
  {
    if |s| == 0 then [m]
    else if InOrder(m, s[0]) then
      BeforeHead(m, s);
      ConsSorted(m, s);
      [m] + s
    else
      assert s == [s[0]] + s[1..];
      var rest := Insert(m, s[1..]);
      HeadBeforeInserted(m, s, rest);
      ConsSorted(s[0], rest);
      [s[0]] + rest
  }

  /** The catalog in listing order. */
  function Sort(s: Catalog): (r: Catalog)
    ensures Sorted(r)
    ensures |r| == |s|
    ensures multiset(r) == multiset(s)
  {
    if |s| == 0 then []
    else
      assert s == [s[0]] + s[1..];
      Insert(s[0], Sort(s[1..]))
  }

  /**
   * The catalog after a listing: every record still there, as often as
   * before, now ordered by year and then title.
   */
  function ListMovies(c: Catalog): (r: Catalog)
    ensures |r| == |c|
    ensures multiset(r) == multiset(c)
    ensures Sorted(r)
  {
    Sort(c)
  }

  /**
   * In a listing, a record whose key (year, then title) is strictly
   * smaller always appears earlier.
   */
  lemma SortedKeyOrder(s: Catalog, i: nat, j: nat)
    requires Sorted(s)
    requires i < |s| && j < |s|
    requires StrictlyBefore(s[i], s[j])
    ensures i < j
  {
    StrictlyBeforeIff(s[i], s[j]);
    if i == j {
      BelowIrreflexive(s[i].title);
    }
  }

  /** A catalog without repeated ids holds each record at most once. */
  lemma {:induction false} UniqueIdsOccurOnce(c: Catalog, x: Movie)
    requires UniqueIds(c)
    ensures multiset(c)[x] <= 1
  {
    if |c| > 0 {
      assert c == [c[0]] + c[1..];
      assert UniqueIds(c[1..]) by {
        forall i, j | 0 <= i < |c| - 1 && 0 <= j < |c| - 1 && c[1..][i].id == c[1..][j].id
          ensures i == j
        {
          assert c[i + 1].id == c[j + 1].id;
        }
      }
      UniqueIdsOccurOnce(c[1..], x);
    }
  }

  /** A record found at two different positions occurs at least twice. */
  lemma TwoPositions(c: Catalog, i: nat, j: nat)
    requires i < j < |c| && c[i] == c[j]
    ensures multiset(c)[c[i]] >= 2
  {
    assert c == c[..j] + c[j..];
    assert c[i] in c[..j];
    assert c[j] in c[j..];
    assert multiset(c) == multiset(c[..j]) + multiset(c[j..]);
  }

  /** Reordering a catalog keeps it healthy. */
  lemma PermutationKeepsHealthy(a: Catalog, b: Catalog)
    requires Healthy(a)
    requires multiset(a) == multiset(b)
    ensures Healthy(b)
  {
    assert |a| == |multiset(a)| == |b|;
    forall i | 0 <= i < |b|
      ensures b[i] in a
    {
      assert b[i] in multiset(b);
    }
    forall i, j | 0 <= i < |b| && 0 <= j < |b| && b[i].id == b[j].id
      ensures i == j
    {
      var p :| 0 <= p < |a| && a[p] == b[i];
      var q :| 0 <= q < |a| && a[q] == b[j];
      assert p == q;
      UniqueIdsOccurOnce(a, b[i]);
      if i < j {
        TwoPositions(b, i, j);
      } else if j < i {
        TwoPositions(b, j, i);
      }
    }
  }

  /** Listing keeps the catalog healthy. */
  lemma ListingKeepsHealthy(c: Catalog)
    requires Healthy(c)
    ensures Healthy(ListMovies(c))
  {
    PermutationKeepsHealthy(c, ListMovies(c));
  }

  /** Same position under the comparator: same year and same title. */
  predicate SameKey(a: Movie, b: Movie) {
    a.year == b.year && a.title == b.title
  }

  /** Records that may precede each other both ways have the same key. */
  lemma InOrderBothWays(a: Movie, b: Movie)
    requires InOrder(a, b) && InOrder(b, a)
    ensures SameKey(a, b)
  {
    if a.title != b.title {
      BelowTotal(a.title, b.title);
    }
  }

  /** A record listed between two records of one key has that key too. */
  lemma KeySandwich(x: Movie, y: Movie, z: Movie)
    requires InOrder(x, y) && InOrder(y, z) && SameKey(x, z)
    ensures SameKey(x, y)
  {
    InOrderBothWays(x, y);
  }

  lemma InOrderReflexive(a: Movie)
    ensures InOrder(a, a)
  {
    BelowIrreflexive(a.title);
  }

  /** Dropping one position from a sorted catalog leaves it sorted. */
  lemma SortedWithout(b: Catalog, j: nat)
    requires Sorted(b) && j < |b|
    ensures Sorted(b[..j] + b[j + 1..])
  {
    var b' := b[..j] + b[j + 1..];
    forall p, q | 0 <= p < q < |b'|
      ensures InOrder(b'[p], b'[q])
    {
      var p' := if p < j then p else p + 1;
      var q' := if q < j then q else q + 1;
      assert b'[p] == b[p'] && b'[q] == b[q'];
    }
  }

  /** Two sorted rearrangements of one catalog start with the same key. */
  lemma HeadsSameKey(a: Catalog, b: Catalog)
    requires Sorted(a) && Sorted(b) && |a| > 0
    requires multiset(a) == multiset(b)
    ensures |b| > 0 && SameKey(a[0], b[0])
  {
    assert a[0] in multiset(b);
    assert |b| > 0;
    assert b[0] in multiset(a);
    var j :| 0 <= j < |b| && b[j] == a[0];
    var k :| 0 <= k < |a| && a[k] == b[0];
    if k > 0 { assert InOrder(a[0], a[k]); } else { InOrderReflexive(a[0]); }
    if j > 0 { assert InOrder(b[0], b[j]); } else { InOrderReflexive(b[0]); }
    InOrderBothWays(a[0], b[0]);
  }

  /** In a sorted catalog, everything up to a record with the first record's key shares that key. */
  lemma PrefixSameKey(b: Catalog, j: nat)
    requires Sorted(b) && j < |b| && SameKey(b[0], b[j])
    ensures forall i :: 0 <= i <= j ==> SameKey(b[0], b[i])
  {
    forall i | 0 < i < j
      ensures SameKey(b[0], b[i])
    {
      KeySandwich(b[0], b[i], b[j]);
    }
  }

  lemma MultisetWithout(b: Catalog, j: nat)
    requires j < |b|
    ensures multiset(b[..j] + b[j + 1..]) == multiset(b) - multiset{b[j]}
  {
    assert b == b[..j] + [b[j]] + b[j + 1..];
  }

  /**
   * `qsort` may order records with the same year and title either way;
   * any two sorted rearrangements of one catalog agree on the year and
   * title at every position, so the listing is determined up to such ties.
   */
  lemma {:induction false} SortedPermutationsAgreeOnKeys(a: Catalog, b: Catalog)
    requires Sorted(a) && Sorted(b)
    requires multiset(a) == multiset(b)
    ensures |a| == |b|
    ensures forall i :: 0 <= i < |a| ==> SameKey(a[i], b[i])
    decreases |a|
  {
    assert |a| == |multiset(a)| == |b|;
    if |a| > 0 {
      HeadsSameKey(a, b);
      assert a[0] in multiset(b);
      var j :| 0 <= j < |b| && b[j] == a[0];
      PrefixSameKey(b, j);
      var b' := b[..j] + b[j + 1..];
      SortedWithout(b, j);
      MultisetWithout(b, j);
      assert a == [a[0]] + a[1..];
      assert multiset(a[1..]) == multiset(b');
      SortedPermutationsAgreeOnKeys(a[1..], b');
      KeysAfterRemoval(a, b, j);
    }
  }

  /**
   * If the rest of `a` agrees on keys with `b` minus position `j`, and the
   * first `j + 1` records of `b` all share `a[0]`'s key, then `a` and `b`
   * agree on keys everywhere.
   */
  lemma KeysAfterRemoval(a: Catalog, b: Catalog, j: nat)
    requires |a| == |b| && j < |b| && |a| > 0
    requires SameKey(a[0], b[0])
    requires forall i :: 0 <= i <= j ==> SameKey(b[0], b[i])
    requires forall i :: 0 <= i < |a| - 1 ==> SameKey(a[1..][i], (b[..j] + b[j + 1..])[i])
    ensures forall i :: 0 <= i < |a| ==> SameKey(a[i], b[i])
  {
    var b' := b[..j] + b[j + 1..];
    forall i | 1 <= i < |a|
      ensures SameKey(a[i], b[i])
    {
      assert SameKey(a[1..][i - 1], b'[i - 1]);
      assert a[1..][i - 1] == a[i];
      if i - 1 < j {
        assert b'[i - 1] == b[i - 1];
        assert SameKey(b[0], b[i - 1]) && SameKey(b[0], b[i]);
      } else {
        assert b'[i - 1] == b[i];
      }
    }
  }

  /** Whatever order `qsort` leaves equal keys in, it agrees with `ListMovies` on every key. */
  lemma ListingDeterminedUpToTies(c: Catalog, shown: Catalog)
    requires multiset(shown) == multiset(c) && Sorted(shown)
    ensures |shown| == |ListMovies(c)|
    ensures forall i :: 0 <= i < |shown| ==> SameKey(shown[i], ListMovies(c)[i])
  {
    SortedPermutationsAgreeOnKeys(shown, ListMovies(c));
  }
}
