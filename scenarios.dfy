/**
 Concrete catalogues run through the recommender. Scores are integers; a
 similarity of 0.9 is written 9, and so on.

 Evaluating the whole four-title lookup in one proof exceeds the solver's
 resource limit, so it is split into small step lemmas (`SortedThree`,
 `InsertFront`, `SortedFour`, `RankedFour`, `SliceFour`, `KeptFour`,
 `TableFour`), each taking one step; `RankedTie` and `FindSecond` do the
 same for the two-title catalogue.
 */
module Scenarios {
  import opened Ranking
  import opened Recommender

  lemma SortedThree()
    ensures SortDesc([Scored(1, 2), Scored(2, 9), Scored(3, 5)]) == [Scored(2, 9), Scored(3, 5), Scored(1, 2)]
  {
  }

  lemma InsertFront()
    ensures Insert(Scored(0, 10), [Scored(2, 9), Scored(3, 5), Scored(1, 2)])
         == [Scored(0, 10), Scored(2, 9), Scored(3, 5), Scored(1, 2)]
  {
  }

  lemma SortedFour()
    ensures SortDesc([Scored(0, 10), Scored(1, 2), Scored(2, 9), Scored(3, 5)])
         == [Scored(0, 10), Scored(2, 9), Scored(3, 5), Scored(1, 2)]
  {
    var s := [Scored(0, 10), Scored(1, 2), Scored(2, 9), Scored(3, 5)];
    assert s[1..] == [Scored(1, 2), Scored(2, 9), Scored(3, 5)];
    SortedThree();
    InsertFront();
  }

  lemma RankedFour()
    ensures Ranked([10, 2, 9, 5]) == [Scored(0, 10), Scored(2, 9), Scored(3, 5), Scored(1, 2)]
  {
    assert Enumerate([10, 2, 9, 5]) == [Scored(0, 10), Scored(1, 2), Scored(2, 9), Scored(3, 5)];
    SortedFour();
  }

  lemma SliceFour()
    ensures Slice([Scored(0, 10), Scored(2, 9), Scored(3, 5), Scored(1, 2)], 1, 3) == [Scored(2, 9), Scored(3, 5)]
  {
    var ranked := [Scored(0, 10), Scored(2, 9), Scored(3, 5), Scored(1, 2)];
    assert Slice(ranked, 1, 3) == ranked[1..3];
  }

  lemma KeptFour()
    ensures TopK([10, 2, 9, 5], 2) == [Scored(2, 9), Scored(3, 5)]
  {
    RankedFour();
    SliceFour();
  }

  lemma TableFour()
    ensures Table([Scored(2, 9), Scored(3, 5)], ["A", "B", "C", "D"], ["g1", "g2", "g1", "g3"])
         == [Recommendation("C", "g1"), Recommendation("D", "g3")]
  {
    var t := Table([Scored(2, 9), Scored(3, 5)], ["A", "B", "C", "D"], ["g1", "g2", "g1", "g3"]);
    assert t[0] == Recommendation("C", "g1") && t[1] == Recommendation("D", "g3");
  }

  /**
   Four titles, query "A" with row [10, 2, 9, 5] and k = 2: "C" then "D",
   with "A" itself dropped and "B" cut off as the lowest.
   */
  lemma FourTitles()
    ensures Recommend("A", [[10, 2, 9, 5], [2, 10, 3, 4], [9, 3, 10, 6], [5, 4, 6, 10]],
                      ["A", "B", "C", "D"], ["g1", "g2", "g1", "g3"], 2)
         == Ok([Recommendation("C", "g1"), Recommendation("D", "g3")])
  {
    KeptFour();
    TableFour();
  }

  /** A catalogue of one title recommends nothing, whatever `k` is. */
  lemma SingleTitle(k: nat)
    ensures Recommend("A", [[7]], ["A"], ["g"], k) == Ok([])
  {
  }

  /** With `k` above N - 1 the table holds N - 1 rows and no padding. */
  lemma FewerThanK()
    ensures |Recommend("A", [[3, 2, 1], [2, 3, 1], [1, 1, 3]], ["A", "B", "C"], ["g", "g", "h"], 10).value| == 2
  {
  }

  lemma RankedTie()
    ensures Ranked([5, 5]) == [Scored(0, 5), Scored(1, 5)]
  {
  }

  lemma FindSecond()
    ensures FirstIndex(["A", "B"], "B") == Some(1)
  {
  }

  /**
   Two titles with the same genre score the same against each other as
   against themselves. Ranked position 0 holds "A" (the lower index), so
   the query "B" is recommended for itself and "A" is lost.
   */
  lemma SelfTieCounterexample()
    ensures Recommend("B", [[5, 5], [5, 5]], ["A", "B"], ["g", "g"], DefaultCount)
         == Ok([Recommendation("B", "g")])
  {
    RankedTie();
    FindSecond();
    assert TopK([5, 5], DefaultCount) == [Scored(1, 5)];
    var t := Table([Scored(1, 5)], ["A", "B"], ["g", "g"]);
    assert t[0] == Recommendation("B", "g");
    assert t == [Recommendation("B", "g")];
  }

  /** Excluding the query by its index recommends "A" for "B" instead. */
  lemma SelfTieCorrected()
    ensures RecommendExcludingSelf("B", [[5, 5], [5, 5]], ["A", "B"], ["g", "g"], DefaultCount)
         == Ok([Recommendation("A", "g")])
  {
    FindSecond();
    RankedTie();
    assert Without([Scored(0, 5), Scored(1, 5)], 1) == [Scored(0, 5)];
    var t := Table([Scored(0, 5)], ["A", "B"], ["g", "g"]);
    assert t[0] == Recommendation("A", "g");
    assert t == [Recommendation("A", "g")];
  }
}
