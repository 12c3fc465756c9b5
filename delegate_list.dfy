/** The ordered delegate list of a multi-delegate, as a value.

    A registry holds each delegate at most once, in dispatch order. The
    functions here say what every editing operation does to that order; the
    lemmas prove the "move, don't duplicate" rules about them. Delegates are
    plain identities: the only thing asked of their type is equality. */
module DelegateList {

  /** No delegate is held twice. */
  predicate Distinct<D(==)>(s: seq<D>)
  {
    forall i, j :: 0 <= i < j < |s| ==> s[i] != s[j]
  }

  /** The position of the first entry that is `x`. */
  function IndexOf<D(==)>(s: seq<D>, x: D): (k: nat)
    requires x in s
    ensures k < |s| && s[k] == x && x !in s[..k]
  {
    if s[0] == x then 0
    else
      var k' := IndexOf(s[1..], x);
      assert s[..k' + 1] == [s[0]] + s[1..][..k'];
      1 + k'
  }

  /** `x` and `y` are both held and `x` is dispatched to first. */
  predicate Before<D(==)>(s: seq<D>, x: D, y: D)
  {
    x in s && y in s && IndexOf(s, x) < IndexOf(s, y)
  }

  /** `s` with every entry that is `d` taken out, the rest in their order. */
  function Without<D(==)>(s: seq<D>, d: D): (r: seq<D>)
    ensures forall x :: x in r ==> x in s && x != d
    ensures forall x :: x in s && x != d ==> x in r
    ensures |r| <= |s|
  {
    if s == [] then []
    else if s[0] == d then Without(s[1..], d)
    else [s[0]] + Without(s[1..], d)
  }

  /** `s` with `d` placed at position `i`, the entries from `i` on shifted up by one. */
  function InsertAt<D>(s: seq<D>, i: nat, d: D): (r: seq<D>)
    requires i <= |s|
    ensures |r| == |s| + 1 && r[i] == d
    ensures forall j :: 0 <= j < i ==> r[j] == s[j]
    ensures forall j :: i < j < |r| ==> r[j] == s[j - 1]
  {
    s[..i] + [d] + s[i..]
  }

  /** The list after `d` is taken out wherever it is held and then placed at
      position `i` of what is left. Every insert is this move. */
  function MovedTo<D(==)>(s: seq<D>, d: D, i: nat): (r: seq<D>)
    requires i <= |Without(s, d)|
    ensures |r| == |Without(s, d)| + 1 && r[i] == d
    ensures Without(r, d) == Without(s, d)
  {
    WithoutInsertAt(Without(s, d), i, d);
    InsertAt(Without(s, d), i, d)
  }

  /** addDelegate: `d` goes to the end. */
  function Appended<D(==)>(s: seq<D>, d: D): (r: seq<D>)
    ensures |r| > 0 && r[|r| - 1] == d
    ensures Without(r, d) == Without(s, d)
  {
    MovedTo(s, d, |Without(s, d)|)
  }

  /** insertDelegate:beforeDelegate: `d` goes just in front of `anchor`. */
  function InsertedBefore<D(==)>(s: seq<D>, d: D, anchor: D): (r: seq<D>)
    requires anchor in s && anchor != d
    ensures d in r && anchor in r
    ensures Without(r, d) == Without(s, d)
  {
    MovedTo(s, d, IndexOf(Without(s, d), anchor))
  }

  /** insertDelegate:afterDelegate: `d` goes just behind `anchor`. */
  function InsertedAfter<D(==)>(s: seq<D>, d: D, anchor: D): (r: seq<D>)
    requires anchor in s && anchor != d
    ensures d in r && anchor in r
    ensures Without(r, d) == Without(s, d)
  {
    MovedTo(s, d, IndexOf(Without(s, d), anchor) + 1)
  }

  // ---------------------------------------------------------------------
  // Taking a delegate out
  // ---------------------------------------------------------------------

  /** Taking out a delegate that is not held changes nothing. */
  lemma {:induction false} WithoutAbsent<D>(s: seq<D>, d: D)
    requires d !in s
    ensures Without(s, d) == s
  {
    if s != [] {
      WithoutAbsent(s[1..], d);
      assert s == [s[0]] + s[1..];
    }
  }

  /** Taking out distributes over concatenation. */
  lemma {:induction false} WithoutConcat<D>(a: seq<D>, b: seq<D>, d: D)
    ensures Without(a + b, d) == Without(a, d) + Without(b, d)
  {
    if a == [] {
      assert a + b == b;
    } else {
      assert (a + b)[0] == a[0];
      assert (a + b)[1..] == a[1..] + b;
      WithoutConcat(a[1..], b, d);
    }
  }

  /** In a list without duplicates, taking out the entry at `k` is cutting
      position `k` out of the list. */
  lemma WithoutAt<D>(s: seq<D>, k: nat)
    requires Distinct(s) && k < |s|
    ensures Without(s, s[k]) == s[..k] + s[k + 1..]
  {
    DistinctAround(s, k);
    WithoutAtSingle(s, k);
  }

  /** Taking out the entry at `k`, when it occurs nowhere else, is cutting
      position `k` out of the list. */
  lemma WithoutAtSingle<D>(s: seq<D>, k: nat)
    requires k < |s| && s[k] !in s[..k] && s[k] !in s[k + 1..]
    ensures Without(s, s[k]) == s[..k] + s[k + 1..]
  {
    SplitAt(s, k);
    WithoutSplit(s[..k], s[k + 1..], s[k]);
  }

  /** A list is what comes before `k`, the entry at `k`, and what comes after. */
  lemma SplitAt<D>(s: seq<D>, k: nat)
    requires k < |s|
    ensures s == s[..k] + ([s[k]] + s[k + 1..])
  {
  }

  /** In a list without duplicates the entry at `k` occurs neither before nor after `k`. */
  lemma DistinctAround<D>(s: seq<D>, k: nat)
    requires Distinct(s) && k < |s|
    ensures s[k] !in s[..k] && s[k] !in s[k + 1..]
  {
    var front, back := s[..k], s[k + 1..];
    forall j | 0 <= j < |front| ensures front[j] != s[k] {
      assert front[j] == s[j];
    }
    forall j | 0 <= j < |back| ensures back[j] != s[k] {
      assert back[j] == s[k + 1 + j];
    }
  }

  /** Taking out `d` from a list that holds it once, between `front` and
      `back`, joins `front` and `back`. */
  lemma WithoutSplit<D>(front: seq<D>, back: seq<D>, d: D)
    requires d !in front && d !in back
    ensures Without(front + ([d] + back), d) == front + back
  {
    WithoutAbsent(front, d);
    WithoutAbsent(back, d);
    assert ([d] + back)[1..] == back;
    WithoutConcat(front, [d] + back, d);
  }

  /** In a list without duplicates, taking out a held delegate shortens the
      list by exactly one, and taking out one that is not held by nothing. */
  lemma WithoutLength<D>(s: seq<D>, d: D)
    requires Distinct(s)
    ensures |Without(s, d)| == if d in s then |s| - 1 else |s|
  {
    if d in s {
      WithoutAt(s, IndexOf(s, d));
    } else {
      WithoutAbsent(s, d);
    }
  }

  /** Taking out keeps a list free of duplicates. */
  lemma {:induction false} WithoutDistinct<D>(s: seq<D>, d: D)
    requires Distinct(s)
    ensures Distinct(Without(s, d))
  {
    if s != [] {
      assert Distinct(s[1..]) by {
        forall i, j | 0 <= i < j < |s[1..]| ensures s[1..][i] != s[1..][j] {
          assert s[1..][i] == s[i + 1] && s[1..][j] == s[j + 1];
        }
      }
      WithoutDistinct(s[1..], d);
      if s[0] != d {
        var t := Without(s[1..], d);
        assert s[0] !in s[1..];
        assert s[0] !in t;
        var r := [s[0]] + t;
        forall i, j | 0 <= i < j < |r| ensures r[i] != r[j] {
          if i == 0 {
            assert r[j] == t[j - 1];
          } else {
            assert r[i] == t[i - 1] && r[j] == t[j - 1];
          }
        }
      }
    }
  }

  /** Taking out `d` keeps the relative order of every other pair of delegates. */
  lemma {:induction false} WithoutKeepsOrder<D>(s: seq<D>, d: D, x: D, y: D)
    requires x != d && y != d
    ensures Before(Without(s, d), x, y) <==> Before(s, x, y)
  {
    if s != [] {
      var t := Without(s[1..], d);
      WithoutKeepsOrder(s[1..], d, x, y);
      if s[0] == d {
        assert Without(s, d) == t;
        if x in s && y in s {
          assert IndexOf(s, x) == 1 + IndexOf(s[1..], x);
          assert IndexOf(s, y) == 1 + IndexOf(s[1..], y);
        }
      } else {
        var w := [s[0]] + t;
        assert Without(s, d) == w;
        assert w[0] == s[0] && w[1..] == t;
        if x == s[0] || y == s[0] {
          // The head is dispatched to before everything else in both lists.
        } else if x in s && y in s {
          assert IndexOf(s, x) == 1 + IndexOf(s[1..], x);
          assert IndexOf(s, y) == 1 + IndexOf(s[1..], y);
          assert IndexOf(w, x) == 1 + IndexOf(t, x);
          assert IndexOf(w, y) == 1 + IndexOf(t, y);
        }
      }
    }
  }

  // ---------------------------------------------------------------------
  // Placing a delegate
  // ---------------------------------------------------------------------

  /** Placing a delegate that is not held keeps a list free of duplicates. */
  lemma InsertDistinct<D>(t: seq<D>, i: nat, d: D)
    requires Distinct(t) && d !in t && i <= |t|
    ensures Distinct(InsertAt(t, i, d))
  {
    var r := InsertAt(t, i, d);
    forall p, q | 0 <= p < q < |r| ensures r[p] != r[q] {
      if p < i && q < i {
        assert r[p] == t[p] && r[q] == t[q];
      } else if p < i && q == i {
        assert r[p] == t[p];
      } else if p < i {
        assert r[p] == t[p] && r[q] == t[q - 1];
      } else if p == i {
        assert r[q] == t[q - 1];
      } else {
        assert r[p] == t[p - 1] && r[q] == t[q - 1];
      }
    }
  }

  /** Taking out a delegate right after placing it gives back the list it was placed in. */
  lemma WithoutInsertAt<D>(t: seq<D>, i: nat, d: D)
    requires d !in t && i <= |t|
    ensures Without(InsertAt(t, i, d), d) == t
  {
    assert d !in t[..i] && d !in t[i..];
    assert InsertAt(t, i, d) == t[..i] + ([d] + t[i..]);
    WithoutSplit(t[..i], t[i..], d);
    assert t[..i] + t[i..] == t;
  }

  /** In a list without duplicates a held delegate occurs exactly once. */
  lemma OccursOnce<D>(s: seq<D>, x: D)
    requires Distinct(s) && x in s
    ensures multiset(s)[x] == 1
  {
    var k := IndexOf(s, x);
    assert s == s[..k] + [x] + s[k + 1..];
    assert x !in s[k + 1..] by {
      forall j | k + 1 <= j < |s| ensures s[j] != x { }
    }
    assert multiset(s) == multiset(s[..k]) + multiset{x} + multiset(s[k + 1..]);
  }

  /** A position that holds `x` with no earlier occurrence is `x`'s first position. */
  lemma IndexOfFirst<D>(s: seq<D>, x: D, i: nat)
    requires i < |s| && s[i] == x && x !in s[..i]
    ensures IndexOf(s, x) == i
  {
  }

  /** In a list without duplicates every held delegate occurs exactly once. */
  lemma DistinctAllOnce<D>(s: seq<D>)
    requires Distinct(s)
    ensures forall x :: x in s ==> multiset(s)[x] == 1
  {
    forall x | x in s ensures multiset(s)[x] == 1 {
      OccursOnce(s, x);
    }
  }

  /** In a list without duplicates the first occurrence of the entry at `j` is `j`. */
  lemma IndexOfDistinct<D>(s: seq<D>, j: nat)
    requires Distinct(s) && j < |s|
    ensures IndexOf(s, s[j]) == j
  {
  }

  // ---------------------------------------------------------------------
  // Moving a delegate: what every insert promises
  // ---------------------------------------------------------------------

  /** After a move the list is still free of duplicates, `d` sits at the
      requested position and occurs there only, and the list has grown by one
      only if `d` was not held before. */
  lemma MovedToPlacesOnce<D>(s: seq<D>, d: D, i: nat)
    requires Distinct(s) && i <= |Without(s, d)|
    ensures Distinct(MovedTo(s, d, i))
    ensures MovedTo(s, d, i)[i] == d
    ensures multiset(MovedTo(s, d, i))[d] == 1
    ensures |MovedTo(s, d, i)| == if d in s then |s| else |s| + 1
  {
    var t := Without(s, d);
    WithoutDistinct(s, d);
    InsertDistinct(t, i, d);
    OccursOnce(MovedTo(s, d, i), d);
    WithoutLength(s, d);
  }

  /** A move changes nothing but the place of `d`: the same delegates are
      held, and with `d` left aside the list is the same, so every other pair
      keeps its relative order. */
  lemma MovedToKeepsOthers<D>(s: seq<D>, d: D, i: nat)
    requires i <= |Without(s, d)|
    ensures forall x :: x in MovedTo(s, d, i) <==> x in s || x == d
    ensures Without(MovedTo(s, d, i), d) == Without(s, d)
    ensures forall x, y :: x != d && y != d ==>
              (Before(MovedTo(s, d, i), x, y) <==> Before(s, x, y))
  {
    var t := Without(s, d);
    var r := MovedTo(s, d, i);
    WithoutInsertAt(t, i, d);
    forall x, y | x != d && y != d
      ensures Before(r, x, y) <==> Before(s, x, y)
    {
      WithoutKeepsOrder(r, d, x, y);
      WithoutKeepsOrder(s, d, x, y);
    }
    forall x ensures x in r <==> x in s || x == d {
      if x != d && x in r {
        assert x in Without(r, d);
      }
    }
  }

  /** addDelegate puts `d` last, keeps every delegate that was held, and, when
      `d` was not held, simply appends it. */
  lemma AppendedAtEnd<D>(s: seq<D>, d: D)
    ensures |Appended(s, d)| > 0 && Appended(s, d)[|Appended(s, d)| - 1] == d
    ensures forall x :: x in s ==> x in Appended(s, d)
    ensures d !in s ==> Appended(s, d) == s + [d]
  {
    MovedToKeepsOthers(s, d, |Without(s, d)|);
    if d !in s {
      WithoutAbsent(s, d);
      assert s[..|s|] == s && s[|s|..] == [];
    }
  }

  /** insertDelegate:beforeDelegate: leaves `d` immediately in front of the anchor. */
  lemma InsertedBeforeAdjacent<D>(s: seq<D>, d: D, anchor: D)
    requires Distinct(s) && anchor in s && anchor != d
    ensures anchor in InsertedBefore(s, d, anchor)
    ensures IndexOf(InsertedBefore(s, d, anchor), d) + 1
            == IndexOf(InsertedBefore(s, d, anchor), anchor)
  {
    var t := Without(s, d);
    var k := IndexOf(t, anchor);
    var r := InsertedBefore(s, d, anchor);
    MovedToPlacesOnce(s, d, k);
    assert r[k] == d && r[k + 1] == t[k] == anchor;
    IndexOfDistinct(r, k);
    IndexOfDistinct(r, k + 1);
  }

  /** insertDelegate:afterDelegate: leaves `d` immediately behind the anchor. */
  lemma InsertedAfterAdjacent<D>(s: seq<D>, d: D, anchor: D)
    requires Distinct(s) && anchor in s && anchor != d
    ensures anchor in InsertedAfter(s, d, anchor)
    ensures IndexOf(InsertedAfter(s, d, anchor), anchor) + 1
            == IndexOf(InsertedAfter(s, d, anchor), d)
  {
    var t := Without(s, d);
    var k := IndexOf(t, anchor) + 1;
    var r := InsertedAfter(s, d, anchor);
    MovedToPlacesOnce(s, d, k);
    assert r[k] == d && r[k - 1] == t[k - 1] == anchor;
    IndexOfDistinct(r, k);
    IndexOfDistinct(r, k - 1);
  }
}
