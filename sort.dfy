/**
 * `allMatches.sort((a, b) => b.score - a.score)`: the built-in sort, which is
 * stable, ordering matches by descending score. It is given here as a value
 * (an insertion sort) together with the three facts the crawler relies on.
 */
module ScoreSort {

  /** One candidate of the section scan: the element, its path, score and trimmed text. */
  datatype Match = Match(element: nat, xpath: string, score: int, text: string)

  ghost predicate SortedDesc(ms: seq<Match>)
  {
    forall p, q :: 0 <= p < q < |ms| ==> ms[p].score >= ms[q].score
  }

  /** The matches with score `s`, in their original order. */
  function WithScore(ms: seq<Match>, s: int): seq<Match>
  {
    if ms == [] then []
    else WithScore(ms[..|ms| - 1], s) + (if ms[|ms| - 1].score == s then [ms[|ms| - 1]] else [])
  }

  /** Exactly the matches of score `s` are kept. */
  lemma {:induction false} WithScoreMembers(ms: seq<Match>, s: int)
    ensures forall m :: m in WithScore(ms, s) <==> m in ms && m.score == s
  {
    if ms != [] {
      var init := ms[..|ms| - 1];
      assert ms == init + [ms[|ms| - 1]];
      WithScoreMembers(init, s);
    }
  }

  lemma {:induction false} WithScoreAppend(a: seq<Match>, b: seq<Match>, s: int)
    ensures WithScore(a + b, s) == WithScore(a, s) + WithScore(b, s)
  {
    if b == [] {
      assert a + b == a;
    } else {
      assert (a + b)[..|a + b| - 1] == a + b[..|b| - 1];
      WithScoreAppend(a, b[..|b| - 1], s);
    }
  }

  /** Places `x` after every element whose score is at least its own. */
  function Insert(ys: seq<Match>, x: Match): (r: seq<Match>)
    ensures |r| == |ys| + 1
  {
    if ys == [] then [x]
    else if ys[|ys| - 1].score >= x.score then ys + [x]
    else Insert(ys[..|ys| - 1], x) + [ys[|ys| - 1]]
  }

  lemma {:induction false} InsertMultiset(ys: seq<Match>, x: Match)
    ensures multiset(Insert(ys, x)) == multiset(ys) + multiset{x}
  {
    if ys != [] && ys[|ys| - 1].score < x.score {
      var init := ys[..|ys| - 1];
      assert ys == init + [ys[|ys| - 1]];
      InsertMultiset(init, x);
    }
  }

  lemma {:induction false} InsertSorted(ys: seq<Match>, x: Match)
    requires SortedDesc(ys)
    ensures SortedDesc(Insert(ys, x))
  {
    if ys != [] && ys[|ys| - 1].score < x.score {
      var init, last := ys[..|ys| - 1], ys[|ys| - 1];
      InsertSorted(init, x);
      InsertMultiset(init, x);
      var front := Insert(init, x);
      forall p | 0 <= p < |front| ensures front[p].score >= last.score {
        assert front[p] in multiset(init) + multiset{x};
      }
    }
  }

  lemma WithScoreSingleton(x: Match, s: int)
    ensures WithScore([x], s) == (if x.score == s then [x] else [])
  {
    assert WithScore([x], s) == WithScore([], s) + (if x.score == s then [x] else []);
  }

  lemma {:induction false} InsertWithScore(ys: seq<Match>, x: Match, s: int)
    ensures WithScore(Insert(ys, x), s) == WithScore(ys, s) + WithScore([x], s)
  {
    if ys == [] {
      assert Insert(ys, x) == [x];
    } else if ys[|ys| - 1].score >= x.score {
      assert Insert(ys, x) == ys + [x];
      WithScoreAppend(ys, [x], s);
    } else {
      var init, last := ys[..|ys| - 1], ys[|ys| - 1];
      assert Insert(ys, x) == Insert(init, x) + [last];
      assert ys == init + [last];
      InsertWithScore(init, x, s);
      WithScoreAppend(Insert(init, x), [last], s);
      WithScoreAppend(init, [last], s);
      var a, xs, ls := WithScore(init, s), WithScore([x], s), WithScore([last], s);
      WithScoreSingleton(x, s);
      WithScoreSingleton(last, s);
      // `last` outscores `x`, so at most one of them has score `s`.
      assert xs == [] || ls == [];
      assert (a + xs) + ls == (a + ls) + xs;
    }
  }

  /** The built-in sort on scores, as a stable insertion sort. */
  function SortByScore(ms: seq<Match>): (r: seq<Match>)
    ensures |r| == |ms|
  {
    if ms == [] then [] else Insert(SortByScore(ms[..|ms| - 1]), ms[|ms| - 1])
  }

  /**
   * The sort orders by descending score, is a permutation of its input, and
   * keeps matches of equal score in input order.
   */
  lemma {:induction false} SortByScoreCorrect(ms: seq<Match>)
    ensures SortedDesc(SortByScore(ms))
    ensures multiset(SortByScore(ms)) == multiset(ms)
    ensures forall s :: WithScore(SortByScore(ms), s) == WithScore(ms, s)
  {
    if ms != [] {
      var init, last := ms[..|ms| - 1], ms[|ms| - 1];
      assert ms == init + [last];
      SortByScoreCorrect(init);
      InsertSorted(SortByScore(init), last);
      InsertMultiset(SortByScore(init), last);
      forall s ensures WithScore(SortByScore(ms), s) == WithScore(ms, s) {
        InsertWithScore(SortByScore(init), last, s);
        WithScoreAppend(init, [last], s);
      }
    }
  }

  /** The first match with score `s` is the earliest position holding that score. */
  lemma {:induction false} FirstWithScore(ms: seq<Match>, s: int) returns (p: nat)
    requires WithScore(ms, s) != []
    ensures p < |ms| && ms[p] == WithScore(ms, s)[0] && ms[p].score == s
    ensures forall q :: 0 <= q < p ==> ms[q].score != s
  {
    var init, last := ms[..|ms| - 1], ms[|ms| - 1];
    if WithScore(init, s) != [] {
      p := FirstWithScore(init, s);
      assert ms[p] == init[p];
    } else {
      WithScoreMembers(init, s);
      assert forall q :: 0 <= q < |init| ==> init[q] in init;
      p := |ms| - 1;
    }
  }

  /** In a descending list, the head scores at least as much as every member. */
  lemma HeadDominates(sorted: seq<Match>, x: Match)
    requires SortedDesc(sorted) && x in sorted
    ensures x.score <= sorted[0].score
  {
    var r :| 0 <= r < |sorted| && sorted[r] == x;
    assert r == 0 || sorted[0].score >= sorted[r].score;
  }

  /** The head of a list is the first of the members sharing its score. */
  lemma HeadLeadsItsScore(sorted: seq<Match>)
    requires sorted != []
    ensures WithScore(sorted, sorted[0].score) != []
    ensures WithScore(sorted, sorted[0].score)[0] == sorted[0]
  {
    var b, s := sorted[0], sorted[0].score;
    assert sorted == [b] + sorted[1..];
    WithScoreAppend([b], sorted[1..], s);
    assert WithScore([b], s) == WithScore([], s) + [b];
  }

  /**
   * The head of the sorted list has the highest score, and it is the earliest
   * match holding that score: ties stay in scan order.
   */
  lemma SortedHeadIsEarliestBest(ms: seq<Match>)
    requires ms != []
    ensures SortByScore(ms) != []
    ensures forall q :: 0 <= q < |ms| ==> ms[q].score <= SortByScore(ms)[0].score
    ensures exists p :: 0 <= p < |ms| && ms[p] == SortByScore(ms)[0]
              && forall q :: 0 <= q < p ==> ms[q].score < ms[p].score
  {
    var sorted := SortByScore(ms);
    SortByScoreCorrect(ms);
    assert ms[0] in multiset(sorted);
    forall q | 0 <= q < |ms| ensures ms[q].score <= sorted[0].score {
      assert ms[q] in multiset(sorted);
      HeadDominates(sorted, ms[q]);
    }
    HeadLeadsItsScore(sorted);
    var s := sorted[0].score;
    assert WithScore(ms, s) == WithScore(sorted, s);
    var p := FirstWithScore(ms, s);
    assert ms[p] == sorted[0];
  }
}
