/**
 The recommendation lookup of the anime recommender: the selected title is
 resolved to its position in the catalogue, that row of the precomputed
 similarity matrix is ranked, the first ranked entry is dropped as "the
 title itself", the next `k` are kept, and each kept column is mapped back
 to its (title, genre) pair of the parallel catalogue arrays.
 */
module Recommender {
  import opened Ranking

  datatype Option<T> = None | Some(value: T)

  /** The lookup's one failure: the title is not in the catalogue. */
  datatype Error = NotFound(title: string)

  datatype Outcome<T> = Ok(value: T) | Err(error: Error)

  /** One row of the result table. */
  datatype Recommendation = Recommendation(title: string, genre: string)

  /** How many recommendations the application asks for. */
  const DefaultCount: nat := 10

  function Min(a: int, b: int): int {
    if a <= b then a else b
  }

  /**
   The loader's guarantee: `titles` and `genres` are parallel arrays of
   length N and `similarity` is an N x N matrix.
   */
  ghost predicate WellFormed(similarity: seq<seq<int>>, titles: seq<string>, genres: seq<string>) {
    && |genres| == |titles|
    && |similarity| == |titles|
    && forall i :: 0 <= i < |similarity| ==> |similarity[i]| == |titles|
  }

  ghost predicate UniqueTitles(titles: seq<string>) {
    forall i, j :: 0 <= i < j < |titles| ==> titles[i] != titles[j]
  }

  /** The position of the first occurrence of `title`, if there is one. */
  function FirstIndex(titles: seq<string>, title: string): (r: Option<nat>)
    ensures r.None? <==> title !in titles
    ensures r.Some? ==> r.value < |titles| && titles[r.value] == title
    ensures r.Some? ==> forall j :: 0 <= j < r.value ==> titles[j] != title
  {
    if titles == [] then None
    else if titles[0] == title then Some(0)
    else
      match FirstIndex(titles[1..], title)
      case None => None
      case Some(i) => Some(i + 1)
  }

  /** The slice `s[lo:hi]` for non-negative bounds: both bounds are clamped to the length. */
  function Slice<T>(s: seq<T>, lo: nat, hi: nat): (r: seq<T>)
    ensures |r| == if lo <= Min(hi, |s|) then Min(hi, |s|) - lo else 0
    ensures forall p :: 0 <= p < |r| ==> r[p] == s[lo + p]
  {
    var h := Min(hi, |s|);
    if lo <= h then s[lo..h] else []
  }

  /**
   The kept entries of a ranked row: ranked positions 1 to k, that is,
   everything but ranked position 0, cut to at most `k` entries.
   */
  function TopK(row: seq<int>, k: nat): (r: seq<Scored>)
    ensures |r| == if row == [] then 0 else Min(k, |row| - 1)
    ensures forall p :: 0 <= p < |r| ==> r[p] == Ranked(row)[p + 1]
    ensures forall p :: 0 <= p < |r| ==> r[p].index < |row| && r[p].score == row[r[p].index]
  {
    Slice(Ranked(row), 1, k + 1)
  }

  /**
   The kept entries are in ranked order: scores never increase, equal
   scores come in ascending column order, no column is kept twice, and the
   column at ranked position 0 is never kept.
   */
  lemma TopKOrdered(row: seq<int>, k: nat)
    ensures SortedDesc(TopK(row, k)) && TiesAscending(TopK(row, k)) && DistinctIndices(TopK(row, k))
    ensures row != [] ==> forall p :: 0 <= p < |TopK(row, k)| ==> TopK(row, k)[p].index != Ranked(row)[0].index
  {
    var ranked := Ranked(row);
    var r := TopK(row, k);
    RankedOrdered(row);
    forall p, q | 0 <= p < q < |r| ensures r[p] == ranked[p + 1] && r[q] == ranked[q + 1] {}
    if row != [] {
      forall p | 0 <= p < |r| ensures r[p].index != ranked[0].index {
        assert r[p] == ranked[p + 1];
      }
    }
  }

  /**
   Top-k: a column that is neither kept nor at ranked position 0 scores no
   higher than any kept entry.
   */
  lemma TopKIsBest(row: seq<int>, k: nat, j: nat)
    requires j < |row| && j != Ranked(row)[0].index
    requires forall p :: 0 <= p < |TopK(row, k)| ==> TopK(row, k)[p].index != j
    ensures forall p :: 0 <= p < |TopK(row, k)| ==> row[j] <= TopK(row, k)[p].score
  {
    var ranked := Ranked(row);
    var r := TopK(row, k);
    RankedOrdered(row);
    var pos := RankedPosition(row, j);
    if pos <= |r| {
      assert false;
    }
    forall p | 0 <= p < |r| ensures row[j] <= r[p].score {
      assert r[p] == ranked[p + 1];
    }
  }

  /** Each kept entry mapped back to the title and genre at its index. */
  function Table(kept: seq<Scored>, titles: seq<string>, genres: seq<string>): (r: seq<Recommendation>)
    requires |genres| == |titles|
    requires forall p :: 0 <= p < |kept| ==> kept[p].index < |titles|
    ensures |r| == |kept|
    ensures forall p :: 0 <= p < |r| ==>
      r[p].title == titles[kept[p].index] && r[p].genre == genres[kept[p].index]
  {
    seq(|kept|, p requires 0 <= p < |kept| => Recommendation(titles[kept[p].index], genres[kept[p].index]))
  }

  /**
   The recommendations for `title`: an error when the title is not in the
   catalogue, otherwise the table of the `k` entries ranked after the first.
   */
  function Recommend(title: string, similarity: seq<seq<int>>, titles: seq<string>, genres: seq<string>, k: nat)
    : (r: Outcome<seq<Recommendation>>)
    requires WellFormed(similarity, titles, genres)
    ensures r.Err? <==> title !in titles
    ensures r.Err? ==> r.error == NotFound(title)
    ensures r.Ok? ==> |r.value| == Min(k, |titles| - 1)
  {
    match FirstIndex(titles, title)
    case None => Err(NotFound(title))
    case Some(idx) => Ok(Table(TopK(similarity[idx], k), titles, genres))
  }

  /** The application's call: ten recommendations. */
  function GetRecommendations(title: string, similarity: seq<seq<int>>, titles: seq<string>, genres: seq<string>)
    : (r: Outcome<seq<Recommendation>>)
    requires WellFormed(similarity, titles, genres)
    ensures r.Err? <==> title !in titles
    ensures r.Ok? ==> |r.value| == Min(10, |titles| - 1)
  {
    Recommend(title, similarity, titles, genres, DefaultCount)
  }

  /**
   What a successful lookup returns, stated in terms of the inputs alone:
   `idx` is the first occurrence of `title`, and there are pairwise
   distinct catalogue indices `ids` such that row p of the table is the
   title and the genre found at `ids[p]`, the scores of `ids` in row `idx`
   never increase, and equal scores appear in ascending index order.
   */
  lemma RecommendationsFromRow(title: string, similarity: seq<seq<int>>, titles: seq<string>, genres: seq<string>, k: nat)
    returns (idx: nat, ids: seq<nat>)
    requires WellFormed(similarity, titles, genres)
    requires title in titles
    ensures idx < |titles| && titles[idx] == title
    ensures forall j :: 0 <= j < idx ==> titles[j] != title
    ensures Recommend(title, similarity, titles, genres, k).Ok?
    ensures |ids| == |Recommend(title, similarity, titles, genres, k).value| == Min(k, |titles| - 1)
    ensures forall p :: 0 <= p < |ids| ==> ids[p] < |titles|
    ensures forall p :: 0 <= p < |ids| ==>
      Recommend(title, similarity, titles, genres, k).value[p] == Recommendation(titles[ids[p]], genres[ids[p]])
    ensures forall p, q :: 0 <= p < q < |ids| ==> ids[p] != ids[q]
    ensures forall p, q :: 0 <= p < q < |ids| ==> similarity[idx][ids[p]] >= similarity[idx][ids[q]]
    ensures forall p, q :: 0 <= p < q < |ids| && similarity[idx][ids[p]] == similarity[idx][ids[q]] ==> ids[p] < ids[q]
  {
    idx := FirstIndex(titles, title).value;
    var kept := TopK(similarity[idx], k);
    TopKOrdered(similarity[idx], k);
    ids := seq(|kept|, p requires 0 <= p < |kept| => kept[p].index);
  }

  /**
   The entry that ranked position 0 drops is the lowest index holding the
   row's maximum score, whichever index the query has.
   */
  lemma DroppedIsFirstMaximum(row: seq<int>)
    requires row != []
    ensures Ranked(row)[0].index < |row|
    ensures forall j :: 0 <= j < |row| ==> row[j] <= row[Ranked(row)[0].index]
    ensures forall j :: 0 <= j < Ranked(row)[0].index ==> row[j] < row[Ranked(row)[0].index]
  {
    var ranked := Ranked(row);
    var m := ranked[0].index;
    RankedOrdered(row);
    forall j | 0 <= j < |row| ensures row[j] <= row[m] && (j < m ==> row[j] < row[m]) {
      var p := RankedPosition(row, j);
      if p != 0 {
        assert ranked[0].score >= ranked[p].score;
        assert ranked[0].index != ranked[p].index;
      }
    }
  }

  /**
   When the query's self-score is strictly above every other score in its
   row, the query's own index is never among the kept entries.
   */
  lemma SelfExcludedOnStrictMax(row: seq<int>, idx: nat, k: nat)
    requires idx < |row|
    requires forall j :: 0 <= j < |row| && j != idx ==> row[j] < row[idx]
    ensures Ranked(row)[0].index == idx
    ensures forall p :: 0 <= p < |TopK(row, k)| ==> TopK(row, k)[p].index != idx
  {
    DroppedIsFirstMaximum(row);
    TopKOrdered(row, k);
  }

  /**
   With unique titles and a strictly maximal self-score, the query's title
   does not appear in its own recommendations.
   */
  lemma RecommendOmitsQuery(title: string, similarity: seq<seq<int>>, titles: seq<string>, genres: seq<string>, k: nat, idx: nat)
    requires WellFormed(similarity, titles, genres) && UniqueTitles(titles)
    requires idx < |titles| && titles[idx] == title
    requires forall j :: 0 <= j < |titles| && j != idx ==> similarity[idx][j] < similarity[idx][idx]
    ensures Recommend(title, similarity, titles, genres, k).Ok?
    ensures forall p :: 0 <= p < |Recommend(title, similarity, titles, genres, k).value| ==>
      Recommend(title, similarity, titles, genres, k).value[p].title != title
  {
    assert FirstIndex(titles, title) == Some(idx);
    SelfExcludedOnStrictMax(similarity[idx], idx, k);
  }

  /**
   A column is kept exactly when its ranked position lies between 1 and `k`:
   position 0 is dropped whatever column holds it.
   */
  lemma KeptIffRankedWithin(row: seq<int>, k: nat, c: nat) returns (pos: nat)
    requires c < |row|
    ensures pos < |row| && Ranked(row)[pos].index == c
    ensures (exists p :: 0 <= p < |TopK(row, k)| && TopK(row, k)[p].index == c) <==> 1 <= pos <= k
  {
    pos := RankedPosition(row, c);
    RankedOrdered(row);
    var r := TopK(row, k);
    if 1 <= pos <= k {
      assert r[pos - 1].index == c;
    }
    forall p | 0 <= p < |r| && r[p].index == c ensures 1 <= pos <= k {
      assert Ranked(row)[p + 1].index == Ranked(row)[pos].index;
    }
  }

  /**
   Exclusion is by ranked position, not by index: when a lower index ties
   with (or beats) the query's self-score, the query is not at ranked
   position 0, so it is kept exactly when its ranked position is at most `k`.
   */
  lemma QueryKeptOnTie(row: seq<int>, idx: nat, j: nat, k: nat) returns (pos: nat)
    requires idx < |row| && j < idx && row[j] >= row[idx]
    ensures 1 <= pos < |row| && Ranked(row)[pos].index == idx
    ensures (exists p :: 0 <= p < |TopK(row, k)| && TopK(row, k)[p].index == idx) <==> pos <= k
  {
    DroppedIsFirstMaximum(row);
    pos := KeptIffRankedWithin(row, k, idx);
  }

  /**
   The commonest such tie, two titles with identical genres: one lower
   column scores exactly the self-score and every other column scores
   less. The query is then the first entry kept, for every `k` >= 1 and
   every catalogue size.
   */
  lemma QueryFirstOnSingleTie(row: seq<int>, idx: nat, j: nat, k: nat)
    requires idx < |row| && j < idx && row[j] == row[idx]
    requires forall m :: 0 <= m < |row| && m != j && m != idx ==> row[m] < row[idx]
    requires k >= 1
    ensures |TopK(row, k)| >= 1 && TopK(row, k)[0].index == idx
  {
    var ranked := Ranked(row);
    DroppedIsFirstMaximum(row);
    RankedOrdered(row);
    var pos := QueryKeptOnTie(row, idx, j, k);
    assert ranked[0].index == j by {
      assert row[j] <= row[ranked[0].index];
    }
    assert ranked[1].score >= ranked[pos].score;
    assert ranked[1].index != ranked[0].index;
  }

  /**
   The same situation seen from the table: the query's own title and genre
   are recommended for it whenever its ranked position is at most `k`, and,
   with unique titles, its title appears exactly then.
   */
  lemma RecommendKeepsQueryOnTie(title: string, similarity: seq<seq<int>>, titles: seq<string>, genres: seq<string>, k: nat, idx: nat, j: nat)
    returns (pos: nat)
    requires WellFormed(similarity, titles, genres)
    requires FirstIndex(titles, title) == Some(idx)
    requires j < idx && similarity[idx][j] >= similarity[idx][idx]
    ensures 1 <= pos < |titles| && Ranked(similarity[idx])[pos].index == idx
    ensures Recommend(title, similarity, titles, genres, k).Ok?
    ensures pos <= k ==> Recommendation(title, genres[idx]) in Recommend(title, similarity, titles, genres, k).value
    ensures UniqueTitles(titles) ==>
      ((exists p :: 0 <= p < |Recommend(title, similarity, titles, genres, k).value| &&
          Recommend(title, similarity, titles, genres, k).value[p].title == title) <==> pos <= k)
  {
    pos := QueryKeptOnTie(similarity[idx], idx, j, k);
    var r := Recommend(title, similarity, titles, genres, k).value;
    var kept := TopK(similarity[idx], k);
    assert r == Table(kept, titles, genres);
    if pos <= k {
      var p :| 0 <= p < |kept| && kept[p].index == idx;
      assert r[p] == Recommendation(title, genres[idx]);
    }
    if UniqueTitles(titles) {
      forall p | 0 <= p < |r| && r[p].title == title ensures pos <= k {
        assert titles[kept[p].index] == titles[idx];
        assert kept[p].index == idx;
      }
    }
  }

  /**
   At table level: for the single tie above, the query's own row heads its
   recommendations whenever at least one is asked for, as with the
   application's `k` = 10 on a catalogue of any size.
   */
  lemma RecommendLeadsWithQueryOnSingleTie(title: string, similarity: seq<seq<int>>, titles: seq<string>, genres: seq<string>, k: nat, idx: nat, j: nat)
    requires WellFormed(similarity, titles, genres)
    requires FirstIndex(titles, title) == Some(idx)
    requires j < idx && similarity[idx][j] == similarity[idx][idx]
    requires forall m :: 0 <= m < |titles| && m != j && m != idx ==> similarity[idx][m] < similarity[idx][idx]
    requires k >= 1
    ensures Recommend(title, similarity, titles, genres, k).Ok?
    ensures |Recommend(title, similarity, titles, genres, k).value| >= 1
    ensures Recommend(title, similarity, titles, genres, k).value[0] == Recommendation(title, genres[idx])
  {
    QueryFirstOnSingleTie(similarity[idx], idx, j, k);
  }

  /** The entries of `s` whose index is not `idx`, in their order. */
  function Without(s: seq<Scored>, idx: nat): seq<Scored> {
    if s == [] then []
    else if s[0].index == idx then Without(s[1..], idx)
    else [s[0]] + Without(s[1..], idx)
  }

  lemma {:induction false} WithoutAbsent(s: seq<Scored>, idx: nat)
    requires forall p :: 0 <= p < |s| ==> s[p].index != idx
    ensures Without(s, idx) == s
  {
    if s != [] {
      WithoutAbsent(s[1..], idx);
      assert s == [s[0]] + s[1..];
    }
  }

  /** In a sequence without repeated indices, removing an index removes one position. */
  lemma {:induction false} WithoutAt(s: seq<Scored>, idx: nat, pos: nat)
    requires DistinctIndices(s)
    requires pos < |s| && s[pos].index == idx
    ensures Without(s, idx) == s[..pos] + s[pos + 1..]
  {
    if pos == 0 {
      WithoutAbsent(s[1..], idx);
    } else {
      assert DistinctIndices(s[1..]) by {
        forall p, q | 0 <= p < q < |s[1..]| ensures s[1..][p] == s[p + 1] && s[1..][q] == s[q + 1] {}
      }
      assert s[1..][pos - 1] == s[pos];
      WithoutAt(s[1..], idx, pos - 1);
      assert s[0].index != idx;
      assert s[1..][..pos - 1] == s[1..pos];
      assert s[1..][pos..] == s[pos + 1..];
      assert s[..pos] == [s[0]] + s[1..pos];
    }
  }

  /** Removing one position keeps the ranked order and drops that position's index. */
  lemma RemoveAtOrdered(s: seq<Scored>, pos: nat, u: seq<Scored>)
    requires pos < |s| && u == s[..pos] + s[pos + 1..]
    requires SortedDesc(s) && TiesAscending(s) && DistinctIndices(s)
    ensures SortedDesc(u) && TiesAscending(u) && DistinctIndices(u)
    ensures forall p :: 0 <= p < |u| ==> u[p].index != s[pos].index
  {
    assert forall p :: 0 <= p < |u| ==> u[p] == s[if p < pos then p else p + 1];
  }

  /** A prefix of an ordered sequence is ordered. */
  lemma PrefixOrdered(u: seq<Scored>, k: nat)
    requires SortedDesc(u) && TiesAscending(u) && DistinctIndices(u)
    ensures SortedDesc(Slice(u, 0, k)) && TiesAscending(Slice(u, 0, k)) && DistinctIndices(Slice(u, 0, k))
  {
    var r := Slice(u, 0, k);
    assert forall p :: 0 <= p < |r| ==> r[p] == u[p];
  }

  /** The kept entries when the query is removed by its index before cutting to `k`. */
  function TopKExcludingSelf(row: seq<int>, idx: nat, k: nat): seq<Scored> {
    Slice(Without(Ranked(row), idx), 0, k)
  }

  /**
   Removing the query by its index keeps min(k, N - 1) entries, none of
   them the query, each a column of the row with its score, in ranked order.
   */
  lemma ExcludingSelfKept(row: seq<int>, idx: nat, k: nat)
    requires idx < |row|
    ensures |TopKExcludingSelf(row, idx, k)| == Min(k, |row| - 1)
    ensures forall p :: 0 <= p < |TopKExcludingSelf(row, idx, k)| ==>
      && TopKExcludingSelf(row, idx, k)[p].index != idx
      && TopKExcludingSelf(row, idx, k)[p].index < |row|
      && TopKExcludingSelf(row, idx, k)[p].score == row[TopKExcludingSelf(row, idx, k)[p].index]
    ensures SortedDesc(TopKExcludingSelf(row, idx, k))
    ensures TiesAscending(TopKExcludingSelf(row, idx, k))
    ensures DistinctIndices(TopKExcludingSelf(row, idx, k))
  {
    var ranked := Ranked(row);
    RankedOrdered(row);
    var pos := RankedPosition(row, idx);
    WithoutAt(ranked, idx, pos);
    var u := ranked[..pos] + ranked[pos + 1..];
    RemoveAtOrdered(ranked, pos, u);
    PrefixOrdered(u, k);
    var r := Slice(u, 0, k);
    assert forall p :: 0 <= p < |r| ==> r[p] == u[p] && u[p] in ranked;
  }

  lemma SliceAfterHead<T>(s: seq<T>, k: nat)
    requires s != []
    ensures Slice(s[1..], 0, k) == Slice(s, 1, k + 1)
  {
    var a, b := Slice(s[1..], 0, k), Slice(s, 1, k + 1);
    assert |a| == |b|;
    assert forall p :: 0 <= p < |a| ==> a[p] == b[p];
  }

  /** With the query at ranked position 0, removing it by index is dropping position 0. */
  lemma ExcludingSelfAtFront(row: seq<int>, idx: nat, k: nat)
    requires row != [] && Ranked(row)[0].index == idx
    ensures TopKExcludingSelf(row, idx, k) == TopK(row, k)
  {
    var ranked := Ranked(row);
    RankedOrdered(row);
    WithoutAt(ranked, idx, 0);
    assert Without(ranked, idx) == ranked[1..];
    SliceAfterHead(ranked, k);
  }

  /**
   The recommendations as intended: the query is excluded by its index,
   so it is never recommended whatever the scores are.
   */
  function RecommendExcludingSelf(title: string, similarity: seq<seq<int>>, titles: seq<string>, genres: seq<string>, k: nat)
    : (r: Outcome<seq<Recommendation>>)
    requires WellFormed(similarity, titles, genres)
    ensures r.Err? <==> title !in titles
    ensures r.Err? ==> r.error == NotFound(title)
    ensures r.Ok? ==> |r.value| == Min(k, |titles| - 1)
    ensures r.Ok? && UniqueTitles(titles) ==> forall p :: 0 <= p < |r.value| ==> r.value[p].title != title
  {
    match FirstIndex(titles, title)
    case None => Err(NotFound(title))
    case Some(idx) =>
      ExcludingSelfKept(similarity[idx], idx, k);
      Ok(Table(TopKExcludingSelf(similarity[idx], idx, k), titles, genres))
  }

  /**
   Where the self-score is strictly maximal, the intended definition and
   the one the application runs give the same table.
   */
  lemma CorrectedAgreesOnStrictMax(title: string, similarity: seq<seq<int>>, titles: seq<string>, genres: seq<string>, k: nat, idx: nat)
    requires WellFormed(similarity, titles, genres)
    requires FirstIndex(titles, title) == Some(idx)
    requires forall j :: 0 <= j < |titles| && j != idx ==> similarity[idx][j] < similarity[idx][idx]
    ensures RecommendExcludingSelf(title, similarity, titles, genres, k) == Recommend(title, similarity, titles, genres, k)
  {
    SelfExcludedOnStrictMax(similarity[idx], idx, k);
    ExcludingSelfAtFront(similarity[idx], idx, k);
  }
}
