/**
 * Search results and their order: `matchingResults.sort((r1, r2) =>
 * r2.score - r1.score)`. `Array.prototype.sort` is stable, so results with
 * equal scores keep the order in which they were found. The model is the
 * stable insertion sort that produces exactly that order.
 */
module Ranking {

  /** A search hit as handed to the results panel. */
  datatype SearchResult = SearchResult(title: string, content: string, url: string, score: int)

  /** Scores never increase along the sequence. */
  predicate Descending(rs: seq<SearchResult>) {
    forall i, j :: 0 <= i < j < |rs| ==> rs[i].score >= rs[j].score
  }

  /** The results of score `v`, in their order. */
  function WithScore(v: int, rs: seq<SearchResult>): (r: seq<SearchResult>)
    ensures |r| <= |rs|
    decreases |rs|
  {
    if rs == [] then []
    else (if rs[0].score == v then [rs[0]] else []) + WithScore(v, rs[1..])
  }

  /** Puts `x` after every entry scoring at least as much, before the first that scores less. */
  function Insert(x: SearchResult, rs: seq<SearchResult>): (r: seq<SearchResult>)
    ensures |r| == |rs| + 1
    decreases |rs|
  {
    if rs == [] then [x]
    else if rs[0].score < x.score then [x] + rs
    else [rs[0]] + Insert(x, rs[1..])
  }

  /** The sorted results: each later result is inserted into the sorted earlier ones. */
  function SortByScore(rs: seq<SearchResult>): (r: seq<SearchResult>)
    ensures |r| == |rs|
    decreases |rs|
  {
    if rs == [] then [] else Insert(rs[|rs| - 1], SortByScore(rs[..|rs| - 1]))
  }

  lemma {:induction false} InsertMultiset(x: SearchResult, rs: seq<SearchResult>)
    ensures multiset(Insert(x, rs)) == multiset(rs) + multiset{x}
    ensures |Insert(x, rs)| == |rs| + 1
    decreases |rs|
  {
    if rs != [] && rs[0].score >= x.score {
      InsertMultiset(x, rs[1..]);
      assert rs == [rs[0]] + rs[1..];
    }
  }

  lemma {:induction false} InsertDescending(x: SearchResult, rs: seq<SearchResult>)
    requires Descending(rs)
    ensures Descending(Insert(x, rs))
    ensures Insert(x, rs)[0] == x || (rs != [] && Insert(x, rs)[0] == rs[0])
    decreases |rs|
  {
    if rs != [] && rs[0].score >= x.score {
      InsertDescending(x, rs[1..]);
      InsertBounded(x, rs[1..], rs[0].score);
    }
  }

  /** Inserting keeps every score at or below a bound that `x` and `rs` respect. */
  lemma {:induction false} InsertBounded(x: SearchResult, rs: seq<SearchResult>, v: int)
    requires x.score <= v && forall k :: 0 <= k < |rs| ==> rs[k].score <= v
    ensures forall k :: 0 <= k < |Insert(x, rs)| ==> Insert(x, rs)[k].score <= v
    decreases |rs|
  {
    if rs != [] && rs[0].score >= x.score {
      InsertBounded(x, rs[1..], v);
    }
  }

  lemma {:induction false} WithScoreAppend(v: int, a: seq<SearchResult>, b: seq<SearchResult>)
    ensures WithScore(v, a + b) == WithScore(v, a) + WithScore(v, b)
    decreases |a|
  {
    if a == [] {
      assert a + b == b;
    } else {
      var head := if a[0].score == v then [a[0]] else [];
      assert (a + b)[0] == a[0];
      assert (a + b)[1..] == a[1..] + b;
      assert WithScore(v, a + b) == head + WithScore(v, a[1..] + b);
      WithScoreAppend(v, a[1..], b);
      assert head + (WithScore(v, a[1..]) + WithScore(v, b)) == (head + WithScore(v, a[1..])) + WithScore(v, b);
    }
  }

  lemma {:induction false} WithScoreBelow(v: int, rs: seq<SearchResult>)
    requires forall k :: 0 <= k < |rs| ==> rs[k].score < v
    ensures WithScore(v, rs) == []
    decreases |rs|
  {
    if rs != [] {
      WithScoreBelow(v, rs[1..]);
    }
  }

  /** Inserting `x` into a sorted sequence puts it after every other result of its score. */
  lemma {:induction false} InsertWithScore(v: int, x: SearchResult, rs: seq<SearchResult>)
    requires Descending(rs)
    ensures WithScore(v, Insert(x, rs)) == WithScore(v, rs) + WithScore(v, [x])
    decreases |rs|
  {
    if rs == [] {
    } else if rs[0].score < x.score {
      WithScoreAppend(v, [x], rs);
      if x.score == v {
        WithScoreBelow(v, rs);
      }
    } else {
      var head, tail := WithScore(v, [rs[0]]), rs[1..];
      assert WithScore(v, Insert(x, rs)) == head + WithScore(v, Insert(x, tail)) by {
        WithScoreAppend(v, [rs[0]], Insert(x, tail));
      }
      assert WithScore(v, Insert(x, tail)) == WithScore(v, tail) + WithScore(v, [x]) by {
        InsertWithScore(v, x, tail);
      }
      assert WithScore(v, rs) == head + WithScore(v, tail) by {
        assert [rs[0]] + tail == rs;
        WithScoreAppend(v, [rs[0]], tail);
      }
      SeqAssoc(head, WithScore(v, tail), WithScore(v, [x]));
    }
  }

  lemma SeqAssoc(a: seq<SearchResult>, b: seq<SearchResult>, c: seq<SearchResult>)
    ensures a + (b + c) == (a + b) + c
  {}

  /** The sorted results run from the highest score down. */
  lemma {:induction false} SortDescending(rs: seq<SearchResult>)
    ensures Descending(SortByScore(rs))
    decreases |rs|
  {
    if rs != [] {
      SortDescending(rs[..|rs| - 1]);
      InsertDescending(rs[|rs| - 1], SortByScore(rs[..|rs| - 1]));
    }
  }

  /** Sorting loses and invents no result. */
  lemma {:induction false} SortPermutes(rs: seq<SearchResult>)
    ensures multiset(SortByScore(rs)) == multiset(rs)
    ensures |SortByScore(rs)| == |rs|
    decreases |rs|
  {
    if rs != [] {
      var init, x := rs[..|rs| - 1], rs[|rs| - 1];
      assert multiset(SortByScore(init)) == multiset(init) && |SortByScore(init)| == |init| by {
        SortPermutes(init);
      }
      InsertMultiset(x, SortByScore(init));
      assert multiset(rs) == multiset(init) + multiset{x} by {
        assert rs == init + [x];
      }
    }
  }

  /** Results of equal score keep the order in which they were found. */
  lemma {:induction false} SortStable(v: int, rs: seq<SearchResult>)
    ensures WithScore(v, SortByScore(rs)) == WithScore(v, rs)
    decreases |rs|
  {
    if rs != [] {
      var init := rs[..|rs| - 1];
      var x := rs[|rs| - 1];
      SortStable(v, init);
      SortDescending(init);
      InsertWithScore(v, x, SortByScore(init));
      assert rs == init + [x];
      WithScoreAppend(v, init, [x]);
    }
  }

  /** Results that already run from the highest score down are left as they are. */
  lemma {:induction false} SortSortedIdle(rs: seq<SearchResult>)
    requires Descending(rs)
    ensures SortByScore(rs) == rs
    decreases |rs|
  {
    if rs != [] {
      var init := rs[..|rs| - 1];
      var x := rs[|rs| - 1];
      SortSortedIdle(init);
      InsertLast(x, init);
      assert init + [x] == rs;
    }
  }

  /** A result scoring no more than everything before it goes to the end. */
  lemma {:induction false} InsertLast(x: SearchResult, rs: seq<SearchResult>)
    requires forall k :: 0 <= k < |rs| ==> rs[k].score >= x.score
    ensures Insert(x, rs) == rs + [x]
    decreases |rs|
  {
    if rs != [] {
      InsertLast(x, rs[1..]);
      assert [rs[0]] + (rs[1..] + [x]) == rs + [x];
    }
  }
}
