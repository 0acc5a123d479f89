/** Ranking of retrieval candidates for the prompt builder.

    The candidates are the entries of `zip(scores, pairs)`; this module works on
    their positions `0 .. |scores| - 1`, so that two equal pairs with equal scores
    stay distinguishable and the stability of the sort can be stated. A ranking
    lists the positions best first: higher score first, and on equal scores the
    earlier position first (a stable sort in descending order keeps the input
    order of equal keys). The kept candidates are the ranked positions whose
    score is positive, cut to at most `k`.
 */
module Ranking {

  /** Position `i` comes before position `j` in the ranked list. */
  predicate Outranks(scores: seq<real>, i: nat, j: nat)
    requires i < |scores| && j < |scores|
  {
    scores[i] > scores[j] || (scores[i] == scores[j] && i < j)
  }

  /** Every entry of `r` is a position of `scores`. */
  predicate InRange(scores: seq<real>, r: seq<nat>)
  {
    forall a :: 0 <= a < |r| ==> r[a] < |scores|
  }

  /** `r` is strictly ordered by `Outranks` (so it also has no duplicates). */
  predicate Ordered(scores: seq<real>, r: seq<nat>)
    requires InRange(scores, r)
  {
    forall a, b :: 0 <= a < b < |r| ==> Outranks(scores, r[a], r[b])
  }

  /** `r` is the stable descending order of all positions of `scores`:
      a permutation of `0 .. |scores| - 1`, best first, ties in input order. */
  predicate IsRanking(scores: seq<real>, r: seq<nat>)
  {
    && |r| == |scores|
    && InRange(scores, r)
    && (forall i :: 0 <= i < |scores| ==> i in r)
    && Ordered(scores, r)
  }

  /** The positions listed in `r`. */
  function Elements(r: seq<nat>): set<nat>
  {
    set x | x in r
  }

  /** The positions with a positive score (the candidates `score > 0` keeps). */
  function PositiveSet(scores: seq<real>): set<nat>
  {
    set i: nat | i < |scores| && scores[i] > 0.0
  }

  /** Inserts position `i` into the ordered list `r` in front of the first
      entry it outranks. */
  function Insert(scores: seq<real>, i: nat, r: seq<nat>): (r': seq<nat>)
    requires i < |scores| && InRange(scores, r)
    ensures |r'| == |r| + 1 && InRange(scores, r')
    ensures forall x :: x in r' <==> x == i || x in r
  {
    if r == [] then [i]
    else if Outranks(scores, i, r[0]) then [i] + r
    else [r[0]] + Insert(scores, i, r[1..])
  }

  /** Stable insertion sort of the first `n` positions. */
  function RankPrefix(scores: seq<real>, n: nat): (r: seq<nat>)
    requires n <= |scores|
    ensures |r| == n && InRange(scores, r)
    ensures forall x: int :: x in r <==> 0 <= x < n
  {
    if n == 0 then [] else Insert(scores, n - 1, RankPrefix(scores, n - 1))
  }

  /** `sorted(zip(scores, pairs), key=score, reverse=True)`, as positions. */
  function Rank(scores: seq<real>): (r: seq<nat>)
    ensures IsRanking(scores, r)
  {
    RankPrefixOrdered(scores, |scores|);
    RankPrefix(scores, |scores|)
  }

  /** `[p for score, p in ranked if score > 0]`, as positions. */
  function Positive(scores: seq<real>, r: seq<nat>): (f: seq<nat>)
    requires InRange(scores, r)
    ensures InRange(scores, f) && |f| <= |r|
    ensures forall x :: x in f <==> x in r && x < |scores| && scores[x] > 0.0
  {
    if r == [] then []
    else (if scores[r[0]] > 0.0 then [r[0]] else []) + Positive(scores, r[1..])
  }

  /** Python's slice `s[:k]` for `k >= 0`. */
  function Take(s: seq<nat>, k: nat): (t: seq<nat>)
    ensures |t| == if k < |s| then k else |s|
    ensures t == s[..|t|]
  {
    if k < |s| then s[..k] else s
  }

  /** The positions of `top_pairs`: ranked, positive-score, at most `k`. */
  function Kept(scores: seq<real>, k: nat): (kept: seq<nat>)
    ensures InRange(scores, kept)
  {
    Take(Positive(scores, Rank(scores)), k)
  }

  // ---------------------------------------------------------------------------
  // Ordering facts

  lemma OutranksStrict(scores: seq<real>, i: nat, j: nat)
    requires i < |scores| && j < |scores|
    ensures Outranks(scores, i, j) ==> !Outranks(scores, j, i)
    ensures i != j ==> Outranks(scores, i, j) || Outranks(scores, j, i)
  {
  }

  lemma {:induction false} InsertOrdered(scores: seq<real>, i: nat, r: seq<nat>)
    requires i < |scores| && InRange(scores, r) && Ordered(scores, r) && i !in r
    ensures Ordered(scores, Insert(scores, i, r))
  {
    if r != [] && !Outranks(scores, i, r[0]) {
      var tail := r[1..];
      assert Ordered(scores, tail) by {
        forall a, b | 0 <= a < b < |tail| ensures Outranks(scores, tail[a], tail[b]) {
          assert tail[a] == r[a + 1] && tail[b] == r[b + 1];
        }
      }
      InsertOrdered(scores, i, tail);
      var ins := Insert(scores, i, tail);
      var res := [r[0]] + ins;
      assert Outranks(scores, r[0], i) by { OutranksStrict(scores, i, r[0]); }
      forall b | 0 < b < |res| ensures Outranks(scores, r[0], res[b]) {
        assert res[b] in ins;
        if res[b] != i {
          assert res[b] in tail;
          var c :| 0 <= c < |tail| && tail[c] == res[b];
          assert r[c + 1] == res[b];
        }
      }
    }
  }

  lemma {:induction false} RankPrefixOrdered(scores: seq<real>, n: nat)
    requires n <= |scores|
    ensures Ordered(scores, RankPrefix(scores, n))
  {
    if n > 0 {
      RankPrefixOrdered(scores, n - 1);
      InsertOrdered(scores, n - 1, RankPrefix(scores, n - 1));
    }
  }

  lemma {:induction false} PositiveOrdered(scores: seq<real>, r: seq<nat>)
    requires InRange(scores, r) && Ordered(scores, r)
    ensures Ordered(scores, Positive(scores, r))
  {
    if r != [] {
      var tail := r[1..];
      assert Ordered(scores, tail) by {
        forall a, b | 0 <= a < b < |tail| ensures Outranks(scores, tail[a], tail[b]) {
          assert tail[a] == r[a + 1] && tail[b] == r[b + 1];
        }
      }
      PositiveOrdered(scores, tail);
      var rest := Positive(scores, tail);
      if scores[r[0]] > 0.0 {
        var res := [r[0]] + rest;
        forall b | 0 < b < |res| ensures Outranks(scores, r[0], res[b]) {
          assert res[b] in tail;
          var c :| 0 <= c < |tail| && tail[c] == res[b];
          assert r[c + 1] == res[b];
        }
      }
    }
  }

  /** An ordered list has no duplicates, so it has as many elements as entries. */
  lemma {:induction false} OrderedCard(scores: seq<real>, r: seq<nat>)
    requires InRange(scores, r) && Ordered(scores, r)
    ensures |Elements(r)| == |r|
  {
    if r != [] {
      var tail := r[1..];
      assert Ordered(scores, tail) by {
        forall a, b | 0 <= a < b < |tail| ensures Outranks(scores, tail[a], tail[b]) {
          assert tail[a] == r[a + 1] && tail[b] == r[b + 1];
        }
      }
      OrderedCard(scores, tail);
      forall c | 0 <= c < |tail| ensures tail[c] != r[0] {
        assert Outranks(scores, r[0], r[c + 1]);
      }
      assert r[0] !in Elements(tail);
      assert Elements(r) == Elements(tail) + {r[0]};
    } else {
      assert Elements(r) == {};
    }
  }

  // ---------------------------------------------------------------------------
  // Properties of the ranking and of the kept candidates

  /** Any two stable descending orders of the same positions are equal: the
      ranking does not depend on which stable sorting algorithm produced it. */
  lemma {:induction false} OrderedUnique(scores: seq<real>, r1: seq<nat>, r2: seq<nat>)
    requires InRange(scores, r1) && Ordered(scores, r1)
    requires InRange(scores, r2) && Ordered(scores, r2)
    requires forall x :: x in r1 <==> x in r2
    ensures r1 == r2
    decreases |r1|
  {
    OrderedCard(scores, r1);
    OrderedCard(scores, r2);
    assert Elements(r1) == Elements(r2);
    if r1 != [] {
      var x, y := r1[0], r2[0];
      assert y in r1;
      var a :| 0 <= a < |r1| && r1[a] == y;
      assert x in r2;
      var b :| 0 <= b < |r2| && r2[b] == x;
      assert a == 0 || Outranks(scores, x, y);
      assert b == 0 || Outranks(scores, y, x);
      OutranksStrict(scores, x, y);
      assert x == y;
      var t1, t2 := r1[1..], r2[1..];
      assert Ordered(scores, t1) by {
        forall a, b | 0 <= a < b < |t1| ensures Outranks(scores, t1[a], t1[b]) {
          assert t1[a] == r1[a + 1] && t1[b] == r1[b + 1];
        }
      }
      assert Ordered(scores, t2) by {
        forall a, b | 0 <= a < b < |t2| ensures Outranks(scores, t2[a], t2[b]) {
          assert t2[a] == r2[a + 1] && t2[b] == r2[b + 1];
        }
      }
      forall z ensures z in t1 <==> z in t2 {
        if z in t1 {
          var c :| 0 <= c < |t1| && t1[c] == z;
          assert Outranks(scores, x, r1[c + 1]);
          assert z in r2 && z != y;
          var d :| 0 <= d < |r2| && r2[d] == z;
          assert t2[d - 1] == z;
        }
        if z in t2 {
          var c :| 0 <= c < |t2| && t2[c] == z;
          assert Outranks(scores, y, r2[c + 1]);
          assert z in r1 && z != x;
          var d :| 0 <= d < |r1| && r1[d] == z;
          assert t1[d - 1] == z;
        }
      }
      OrderedUnique(scores, t1, t2);
      assert r1 == [x] + t1 && r2 == [y] + t2;
    }
  }

  /** The ranking is the only stable descending order of the candidates. */
  lemma RankUnique(scores: seq<real>, r: seq<nat>)
    requires IsRanking(scores, r)
    ensures r == Rank(scores)
  {
    var q := Rank(scores);
    forall x ensures x in r <==> x in q {
      if x in r {
        var a :| 0 <= a < |r| && r[a] == x;
      }
      if x in q {
        var a :| 0 <= a < |q| && q[a] == x;
      }
    }
    OrderedUnique(scores, r, q);
  }

  /** Every kept candidate has a positive score, and the kept list is itself
      in ranked order. */
  lemma KeptPositiveOrdered(scores: seq<real>, k: nat)
    ensures forall a :: 0 <= a < |Kept(scores, k)| ==> scores[Kept(scores, k)[a]] > 0.0
    ensures Ordered(scores, Kept(scores, k))
  {
    var p := Positive(scores, Rank(scores));
    PositiveOrdered(scores, Rank(scores));
    var kept := Kept(scores, k);
    forall a | 0 <= a < |kept| ensures scores[kept[a]] > 0.0 {
      assert kept[a] == p[a];
      assert p[a] in p;
    }
  }

  /** The number of kept candidates is `min(k, number of positive scores)`. */
  lemma KeptCount(scores: seq<real>, k: nat)
    ensures |Kept(scores, k)| == if k < |PositiveSet(scores)| then k else |PositiveSet(scores)|
  {
    var r := Rank(scores);
    var p := Positive(scores, r);
    PositiveOrdered(scores, r);
    OrderedCard(scores, p);
    assert Elements(p) == PositiveSet(scores) by {
      forall x | x in PositiveSet(scores) ensures x in p {
        assert x in r;
      }
    }
  }

  /** No positive-score candidate that was dropped by the cap outranks a kept one. */
  lemma KeptOutranksDropped(scores: seq<real>, k: nat, i: nat, j: nat)
    requires i in Kept(scores, k)
    requires j in PositiveSet(scores) && j !in Kept(scores, k)
    ensures Outranks(scores, i, j)
  {
    var r := Rank(scores);
    var p := Positive(scores, r);
    var kept := Kept(scores, k);
    PositiveOrdered(scores, r);
    assert j in r;
    assert j in p;
    var b :| 0 <= b < |p| && p[b] == j;
    var a :| 0 <= a < |kept| && kept[a] == i;
    assert p[a] == i;
    assert forall c :: 0 <= c < |kept| ==> kept[c] == p[c] && kept[c] != j;
    assert b >= |kept|;
  }

  /** Nothing is kept exactly when the cap is zero or no score is positive. */
  lemma KeptEmpty(scores: seq<real>, k: nat)
    ensures Kept(scores, k) == [] <==> k == 0 || forall i :: 0 <= i < |scores| ==> scores[i] <= 0.0
  {
    KeptCount(scores, k);
    if forall i :: 0 <= i < |scores| ==> scores[i] <= 0.0 {
      assert PositiveSet(scores) == {};
    } else {
      var i :| 0 <= i < |scores| && scores[i] > 0.0;
      assert i in PositiveSet(scores);
    }
  }

  // ---------------------------------------------------------------------------
  // Worked example: scores 0.5, 0.9, 0.0, 0.5

  /** The two equal scores keep their input order behind the best one. */
  lemma TieRank()
    ensures Rank([0.5, 0.9, 0.0, 0.5]) == [1, 0, 3, 2]
  {
    var s := [0.5, 0.9, 0.0, 0.5];
    var r: seq<nat> := [1, 0, 3, 2];
    assert InRange(s, r);
    assert forall i :: 0 <= i < |s| ==> i in r by {
      assert r[1] == 0 && r[0] == 1 && r[3] == 2 && r[2] == 3;
    }
    assert Ordered(s, r);
    RankUnique(s, r);
  }

  /** The zero score is dropped. */
  lemma TiePositive()
    ensures Positive([0.5, 0.9, 0.0, 0.5], [1, 0, 3, 2]) == [1, 0, 3]
  {
  }

  /** A cap of two keeps the best two. */
  lemma TieKept()
    ensures Kept([0.5, 0.9, 0.0, 0.5], 2) == [1, 0]
  {
    TieRank();
    TiePositive();
  }
}
