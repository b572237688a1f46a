/**
 * The ordering `general_search` puts its scored sentences in:
 * `list.sort(key=score, reverse=True)`, which is stable, so the highest
 * score comes first and sentences with equal scores keep their order.
 */
module Ranking {

  /** A kept sentence, stripped, with its keyword score. */
  datatype Scored = Scored(sentence: string, score: nat)

  /** Puts x in front of the first entry whose score is not higher than its own. */
  function Insert(x: Scored, ys: seq<Scored>): (r: seq<Scored>)
    ensures |r| == |ys| + 1
    decreases |ys|
  {
    if ys == [] || ys[0].score <= x.score then [x] + ys
    else [ys[0]] + Insert(x, ys[1..])
  }

  /** The sort: every entry, from the last one back, inserted in front of the entries with a score not higher than its own. */
  function SortByScore(xs: seq<Scored>): (r: seq<Scored>)
    ensures |r| == |xs|
    decreases |xs|
  {
    if xs == [] then [] else Insert(xs[0], SortByScore(xs[1..]))
  }

  /** No entry has a higher score than one before it. */
  ghost predicate Descending(xs: seq<Scored>) {
    forall i, j | 0 <= i < j < |xs| :: xs[i].score >= xs[j].score
  }

  /** The entries with score v, in their order. */
  function WithScore(xs: seq<Scored>, v: nat): (r: seq<Scored>)
    ensures |r| <= |xs|
    decreases |xs|
  {
    if xs == [] then []
    else (if xs[0].score == v then [xs[0]] else []) + WithScore(xs[1..], v)
  }

  // ------------------------------------------------------------------ insert

  /** Inserting adds exactly the one entry. */
  lemma {:induction false} InsertPermutation(x: Scored, ys: seq<Scored>)
    ensures multiset(Insert(x, ys)) == multiset(ys) + multiset{x}
    decreases |ys|
  {
    if ys != [] && ys[0].score > x.score {
      InsertPermutation(x, ys[1..]);
      assert ys == [ys[0]] + ys[1..];
    }
  }

  /** Inserting into a descending sequence keeps it descending. */
  lemma {:induction false} InsertDescending(x: Scored, ys: seq<Scored>)
    requires Descending(ys)
    ensures Descending(Insert(x, ys))
    decreases |ys|
  {
    if ys != [] && ys[0].score > x.score {
      var rest := Insert(x, ys[1..]);
      InsertDescending(x, ys[1..]);
      InsertPermutation(x, ys[1..]);
      forall k | 0 <= k < |rest| ensures ys[0].score >= rest[k].score {
        assert rest[k] in multiset(rest);
        if rest[k] != x {
          assert rest[k] in multiset(ys[1..]);
          var m :| 0 <= m < |ys[1..]| && ys[1..][m] == rest[k];
          assert ys[m + 1] == rest[k];
        }
      }
      DescendingCons(ys[0], rest);
    }
  }

  lemma DescendingCons(y: Scored, rest: seq<Scored>)
    requires Descending(rest)
    requires forall k | 0 <= k < |rest| :: y.score >= rest[k].score
    ensures Descending([y] + rest)
  {
    forall i, j | 0 <= i < j < |rest| + 1 ensures ([y] + rest)[i].score >= ([y] + rest)[j].score {
      if i > 0 {
        assert ([y] + rest)[i] == rest[i - 1];
      }
      assert ([y] + rest)[j] == rest[j - 1];
    }
  }

  /** Inserting x adds it in front of the entries of its own score and leaves every other score's entries alone. */
  lemma {:induction false} InsertWithScore(x: Scored, ys: seq<Scored>, v: nat)
    ensures WithScore(Insert(x, ys), v) == (if x.score == v then [x] else []) + WithScore(ys, v)
    decreases |ys|
  {
    if ys == [] || ys[0].score <= x.score {
      WithScoreCons(x, ys, v);
    } else {
      var rest := Insert(x, ys[1..]);
      InsertWithScore(x, ys[1..], v);
      WithScoreCons(ys[0], rest, v);
      WithScoreCons(ys[0], ys[1..], v);
      assert [ys[0]] + ys[1..] == ys;
    }
  }

  lemma WithScoreCons(y: Scored, rest: seq<Scored>, v: nat)
    ensures WithScore([y] + rest, v) == (if y.score == v then [y] else []) + WithScore(rest, v)
  {
    assert ([y] + rest)[1..] == rest;
  }

  // -------------------------------------------------------------------- sort

  /** The sort only reorders: the same entries, as many times each. */
  lemma {:induction false} SortPermutation(xs: seq<Scored>)
    ensures multiset(SortByScore(xs)) == multiset(xs)
    decreases |xs|
  {
    if xs != [] {
      SortPermutation(xs[1..]);
      InsertPermutation(xs[0], SortByScore(xs[1..]));
      assert xs == [xs[0]] + xs[1..];
    }
  }

  /** The highest score comes first. */
  lemma {:induction false} SortDescending(xs: seq<Scored>)
    ensures Descending(SortByScore(xs))
    decreases |xs|
  {
    if xs != [] {
      SortDescending(xs[1..]);
      InsertDescending(xs[0], SortByScore(xs[1..]));
    }
  }

  /** The sort is stable: the entries of any one score keep their order. */
  lemma {:induction false} SortStable(xs: seq<Scored>, v: nat)
    ensures WithScore(SortByScore(xs), v) == WithScore(xs, v)
    decreases |xs|
  {
    if xs != [] {
      SortStable(xs[1..], v);
      InsertWithScore(xs[0], SortByScore(xs[1..]), v);
    }
  }

  // -------------------------------------------------------------- uniqueness

  /** Every entry with score v is an entry of xs with score v. */
  lemma {:induction false} WithScoreIn(xs: seq<Scored>, v: nat, k: nat)
    requires k < |WithScore(xs, v)|
    ensures WithScore(xs, v)[k].score == v
    ensures exists m | 0 <= m < |xs| :: xs[m] == WithScore(xs, v)[k]
    decreases |xs|
  {
    var head := if xs[0].score == v then [xs[0]] else [];
    var rest := WithScore(xs[1..], v);
    if k < |head| {
      assert WithScore(xs, v)[k] == xs[0];
    } else {
      WithScoreIn(xs[1..], v, k - |head|);
      assert WithScore(xs, v)[k] == rest[k - |head|];
      var m :| 0 <= m < |xs[1..]| && xs[1..][m] == rest[k - |head|];
      assert xs[m + 1] == xs[1..][m];
    }
  }

  /**
   * Two descending sequences holding the same entries of every score in the
   * same order are equal.
   */
  lemma {:induction false} DescendingUnique(ys: seq<Scored>, zs: seq<Scored>)
    requires Descending(ys) && Descending(zs)
    requires forall v: nat :: WithScore(ys, v) == WithScore(zs, v)
    ensures ys == zs
    decreases |ys|
  {
    if ys != [] {
      NonEmptyAlike(ys, zs);
    }
    if zs != [] {
      NonEmptyAlike(zs, ys);
    }
    if ys != [] {
      LeadScore(ys, zs);
      LeadScore(zs, ys);
      var v := ys[0].score;
      assert WithScore(ys, v)[0] == ys[0] && WithScore(zs, v)[0] == zs[0];
      assert ys == [ys[0]] + ys[1..] && zs == [ys[0]] + zs[1..];
      forall w: nat ensures WithScore(ys[1..], w) == WithScore(zs[1..], w) {
        var h := if ys[0].score == w then [ys[0]] else [];
        WithScoreCons(ys[0], ys[1..], w);
        WithScoreCons(ys[0], zs[1..], w);
        assert WithScore(ys[1..], w) == WithScore(ys, w)[|h|..];
        assert WithScore(zs[1..], w) == WithScore(zs, w)[|h|..];
      }
      DescendingTail(ys);
      DescendingTail(zs);
      DescendingUnique(ys[1..], zs[1..]);
    }
  }

  /** A sequence that agrees with a non-empty one on the first one's leading score is not empty either. */
  lemma NonEmptyAlike(ys: seq<Scored>, zs: seq<Scored>)
    requires ys != [] && WithScore(ys, ys[0].score) == WithScore(zs, ys[0].score)
    ensures zs != []
  {
    assert WithScore(ys, ys[0].score) != [];
  }

  /** The first entries of two such sequences have the same score. */
  lemma LeadScore(ys: seq<Scored>, zs: seq<Scored>)
    requires ys != [] && zs != [] && Descending(zs)
    requires WithScore(ys, ys[0].score) == WithScore(zs, ys[0].score)
    ensures ys[0].score <= zs[0].score
  {
    var v := ys[0].score;
    assert WithScore(ys, v) != [];
    WithScoreIn(zs, v, 0);
    var m :| 0 <= m < |zs| && zs[m] == WithScore(zs, v)[0];
  }

  lemma DescendingTail(xs: seq<Scored>)
    requires xs != [] && Descending(xs)
    ensures Descending(xs[1..])
  {
    forall i, j | 0 <= i < j < |xs| - 1 ensures xs[1..][i].score >= xs[1..][j].score {
      assert xs[1..][i] == xs[i + 1] && xs[1..][j] == xs[j + 1];
    }
  }

  /**
   * The sort is the only order that is descending and keeps the order of the
   * entries of every score: whatever stable descending sort is used gives
   * this result.
   */
  lemma SortUnique(xs: seq<Scored>, ys: seq<Scored>)
    requires Descending(ys)
    requires forall v: nat :: WithScore(ys, v) == WithScore(xs, v)
    ensures ys == SortByScore(xs)
  {
    SortDescending(xs);
    forall v: nat ensures WithScore(ys, v) == WithScore(SortByScore(xs), v) {
      SortStable(xs, v);
    }
    DescendingUnique(ys, SortByScore(xs));
  }
}
