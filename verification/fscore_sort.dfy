/** `sortNodesByFScore`: the working list is sorted in place with the
    comparator `a.fScore - b.fScore`. The array sort is stable, and `Lt` is a
    strict total order on scores, so the result is the unique stable ordering;
    an insertion sort on sequences produces exactly that ordering. */
module FScoreSort {
  import opened Scores
  import opened Grid

  function Key(g: Grid, c: Coord): Ext
    requires InBounds(g, c)
  {
    At(g, c).fScore
  }

  ghost predicate Sorted(g: Grid, s: seq<Coord>)
    requires AllIn(g, s)
  {
    forall i, j :: 0 <= i < j < |s| ==> Le(Key(g, s[i]), Key(g, s[j]))
  }

  /** Inserts `x` in front of the first element whose key is not below its
      own: `x` stays ahead of every element with an equal key. */
  function Insert(g: Grid, x: Coord, s: seq<Coord>): (r: seq<Coord>)
    requires InBounds(g, x) && AllIn(g, s)
    ensures multiset(r) == multiset(s) + multiset{x}
    ensures AllIn(g, r)
  {
    if |s| == 0 then [x]
    else if Lt(Key(g, s[0]), Key(g, x)) then
      assert s == [s[0]] + s[1..];
      [s[0]] + Insert(g, x, s[1..])
    else
      [x] + s
  }

  lemma {:induction false} InsertSorted(g: Grid, x: Coord, s: seq<Coord>)
    requires InBounds(g, x) && AllIn(g, s) && Sorted(g, s)
    ensures Sorted(g, Insert(g, x, s))
  {
    if |s| > 0 && Lt(Key(g, s[0]), Key(g, x)) {
      var rest := Insert(g, x, s[1..]);
      InsertSorted(g, x, s[1..]);
      assert s == [s[0]] + s[1..];
      forall j | 0 <= j < |rest|
        ensures Le(Key(g, s[0]), Key(g, rest[j]))
      {
        assert rest[j] in multiset(rest);
        if rest[j] != x {
          assert rest[j] in s[1..];
        }
      }
    }
  }

  function SortByFScore(g: Grid, s: seq<Coord>): (r: seq<Coord>)
    requires AllIn(g, s)
    ensures multiset(r) == multiset(s)
    ensures |r| == |s|
    ensures AllIn(g, r)
    ensures Sorted(g, r)
  {
    if |s| == 0 then []
    else
      assert s == [s[0]] + s[1..];
      var tail := SortByFScore(g, s[1..]);
      InsertSorted(g, s[0], tail);
      Insert(g, s[0], tail)
  }

  /** The elements of `s` whose key is `k`, in their order in `s`. */
  function WithKey(g: Grid, s: seq<Coord>, k: Ext): seq<Coord>
    requires AllIn(g, s)
  {
    if |s| == 0 then []
    else (if Key(g, s[0]) == k then [s[0]] else []) + WithKey(g, s[1..], k)
  }

  lemma WithKeyCons(g: Grid, x: Coord, s: seq<Coord>, k: Ext)
    requires InBounds(g, x) && AllIn(g, s)
    ensures WithKey(g, [x] + s, k) == (if Key(g, x) == k then [x] else []) + WithKey(g, s, k)
  {
    assert ([x] + s)[0] == x && ([x] + s)[1..] == s;
  }

  lemma {:induction false} InsertStable(g: Grid, x: Coord, s: seq<Coord>, k: Ext)
    requires InBounds(g, x) && AllIn(g, s)
    ensures WithKey(g, Insert(g, x, s), k) == (if Key(g, x) == k then [x] else []) + WithKey(g, s, k)
  {
    if |s| == 0 {
      WithKeyCons(g, x, s, k);
    } else if Lt(Key(g, s[0]), Key(g, x)) {
      var rest := Insert(g, x, s[1..]);
      assert Insert(g, x, s) == [s[0]] + rest;
      assert [s[0]] + s[1..] == s;
      InsertStable(g, x, s[1..], k);
      WithKeyCons(g, s[0], rest, k);
      WithKeyCons(g, s[0], s[1..], k);
      if Key(g, x) == k {
        assert Key(g, s[0]) != k;
        assert WithKey(g, Insert(g, x, s), k) == [x] + WithKey(g, s[1..], k);
        assert WithKey(g, s, k) == WithKey(g, s[1..], k);
      } else if Key(g, s[0]) == k {
        assert WithKey(g, Insert(g, x, s), k) == [s[0]] + WithKey(g, s[1..], k);
        assert WithKey(g, s, k) == [s[0]] + WithKey(g, s[1..], k);
      } else {
        assert WithKey(g, Insert(g, x, s), k) == WithKey(g, s[1..], k);
        assert WithKey(g, s, k) == WithKey(g, s[1..], k);
      }
    } else {
      WithKeyCons(g, x, s, k);
    }
  }

  /** Stability: among elements with equal keys the sort keeps the order they
      had before, which pins down how ties are broken. */
  lemma {:induction false} SortStable(g: Grid, s: seq<Coord>, k: Ext)
    requires AllIn(g, s)
    ensures WithKey(g, SortByFScore(g, s), k) == WithKey(g, s, k)
  {
    if |s| > 0 {
      SortStable(g, s[1..], k);
      InsertStable(g, s[0], SortByFScore(g, s[1..]), k);
    }
  }

  lemma {:induction false} WithKeyMembers(g: Grid, s: seq<Coord>, k: Ext, x: Coord)
    requires AllIn(g, s)
    ensures x in WithKey(g, s, k) <==> x in s && InBounds(g, x) && Key(g, x) == k
  {
    if |s| > 0 {
      WithKeyMembers(g, s[1..], k, x);
      assert s == [s[0]] + s[1..];
    }
  }

  /** A non-empty sequence has at least one element of its first key. */
  lemma NonEmptyHasKey(g: Grid, s: seq<Coord>)
    requires AllIn(g, s)
    ensures |s| > 0 ==> WithKey(g, s, Key(g, s[0])) != []
  {
  }

  /** The first element of a key-sorted sequence has the least key. */
  lemma {:induction false} SortedHeadLeast(g: Grid, s: seq<Coord>, x: Coord)
    requires AllIn(g, s) && Sorted(g, s) && x in s
    ensures Le(Key(g, s[0]), Key(g, x))
  {
    var i :| 0 <= i < |s| && s[i] == x;
    if i > 0 {
      assert Le(Key(g, s[0]), Key(g, s[i]));
    }
  }

  lemma {:induction false} HeadsAgree(g: Grid, a: seq<Coord>, b: seq<Coord>)
    requires AllIn(g, a) && AllIn(g, b) && Sorted(g, a) && Sorted(g, b)
    requires forall k :: WithKey(g, a, k) == WithKey(g, b, k)
    requires |a| > 0 && |b| > 0
    ensures a[0] == b[0]
  {
    var k0, kb := Key(g, a[0]), Key(g, b[0]);
    WithKeyMembers(g, a, k0, a[0]);
    WithKeyMembers(g, b, k0, a[0]);
    WithKeyMembers(g, b, kb, b[0]);
    WithKeyMembers(g, a, kb, b[0]);
    SortedHeadLeast(g, b, a[0]);
    SortedHeadLeast(g, a, b[0]);
    LtStrictTotalOrder(k0, kb, k0);
    assert WithKey(g, a, k0) == [a[0]] + WithKey(g, a[1..], k0);
    assert WithKey(g, b, k0) == [b[0]] + WithKey(g, b[1..], k0);
    assert a[0] == WithKey(g, a, k0)[0] == b[0];
  }

  /** A stable sort is determined by its input: two key-sorted sequences that
      list the elements of every key in the same order are equal. So any
      stable sort by f-score, the one the source calls included, returns what
      `SortByFScore` returns. */
  lemma {:induction false} StableSortUnique(g: Grid, a: seq<Coord>, b: seq<Coord>)
    requires AllIn(g, a) && AllIn(g, b) && Sorted(g, a) && Sorted(g, b)
    requires forall k :: WithKey(g, a, k) == WithKey(g, b, k)
    ensures a == b
  {
    NonEmptyHasKey(g, a);
    NonEmptyHasKey(g, b);
    if |a| > 0 && |b| > 0 {
      HeadsAgree(g, a, b);
      forall k
        ensures WithKey(g, a[1..], k) == WithKey(g, b[1..], k)
      {
        TailsAgree(g, a, b, k);
      }
      StableSortUnique(g, a[1..], b[1..]);
      assert a == [a[0]] + a[1..] && b == [b[0]] + b[1..];
    }
  }

  lemma {:induction false} TailsAgree(g: Grid, a: seq<Coord>, b: seq<Coord>, k: Ext)
    requires AllIn(g, a) && AllIn(g, b) && |a| > 0 && |b| > 0 && a[0] == b[0]
    requires WithKey(g, a, k) == WithKey(g, b, k)
    ensures WithKey(g, a[1..], k) == WithKey(g, b[1..], k)
  {
    var head := if Key(g, a[0]) == k then [a[0]] else [];
    var ta, tb := WithKey(g, a[1..], k), WithKey(g, b[1..], k);
    assert WithKey(g, a, k) == head + ta;
    assert WithKey(g, b, k) == head + tb;
    assert ta == (head + ta)[|head|..];
    assert tb == (head + tb)[|head|..];
  }

  /** Any result that is sorted and stable is the insertion sort's result. */
  lemma StableSortIsSortByFScore(g: Grid, s: seq<Coord>, r: seq<Coord>)
    requires AllIn(g, s) && AllIn(g, r) && Sorted(g, r)
    requires forall k :: WithKey(g, r, k) == WithKey(g, s, k)
    ensures r == SortByFScore(g, s)
  {
    forall k
      ensures WithKey(g, r, k) == WithKey(g, SortByFScore(g, s), k)
    {
      SortStable(g, s, k);
    }
    StableSortUnique(g, r, SortByFScore(g, s));
  }
}
