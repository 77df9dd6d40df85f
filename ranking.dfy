/**
 Ranking of one row of the similarity matrix: the row is paired with its
 column indices (`enumerate`) and the pairs are ordered by score, highest
 first, with a stable sort, so that pairs of equal score keep the order
 in which they were enumerated (ascending column index).
 */
module Ranking {

  /** One (index, score) pair of a similarity row. */
  datatype Scored = Scored(index: nat, score: int)

  /** Every column index of `row` paired with its score, in column order. */
  function Enumerate(row: seq<int>): (r: seq<Scored>)
    ensures |r| == |row|
    ensures forall i :: 0 <= i < |r| ==> r[i].index == i && r[i].score == row[i]
  {
    seq(|row|, i requires 0 <= i < |row| => Scored(i, row[i]))
  }

  /** Scores never increase along `s`. */
  ghost predicate SortedDesc(s: seq<Scored>) {
    forall i, j :: 0 <= i < j < |s| ==> s[i].score >= s[j].score
  }

  /** Among pairs of equal score, the lower index comes first. */
  ghost predicate TiesAscending(s: seq<Scored>) {
    forall i, j :: 0 <= i < j < |s| && s[i].score == s[j].score ==> s[i].index < s[j].index
  }

  /** Indices strictly increase along `s`, as they do along an enumeration. */
  ghost predicate IndicesAscending(s: seq<Scored>) {
    forall i, j :: 0 <= i < j < |s| ==> s[i].index < s[j].index
  }

  /** No two positions of `s` carry the same index. */
  ghost predicate DistinctIndices(s: seq<Scored>) {
    forall i, j :: 0 <= i < j < |s| ==> s[i].index != s[j].index
  }

  /** The pairs of `s` whose score is `v`, in the order they have in `s`. */
  function WithScore(s: seq<Scored>, v: int): seq<Scored> {
    if s == [] then []
    else (if s[0].score == v then [s[0]] else []) + WithScore(s[1..], v)
  }

  /**
   Inserts `x` into `t`, after every pair that scores strictly higher and
   before every pair that scores the same or lower.
   */
  function Insert(x: Scored, t: seq<Scored>): (r: seq<Scored>)
    ensures |r| == |t| + 1
    ensures multiset(r) == multiset(t) + multiset{x}
  {
    if t == [] then [x]
    else if x.score >= t[0].score then [x] + t
    else
      assert t == [t[0]] + t[1..];
      [t[0]] + Insert(x, t[1..])
  }

  /**
   Stable sort by score, highest first: the head of `s` goes in front of
   every pair of the sorted tail that does not score strictly higher.
   */
  function SortDesc(s: seq<Scored>): (r: seq<Scored>)
    ensures |r| == |s|
    ensures multiset(r) == multiset(s)
  {
    if s == [] then []
    else
      assert s == [s[0]] + s[1..];
      Insert(s[0], SortDesc(s[1..]))
  }

  /** Every pair of the sorted sequence is a pair of the input and vice versa. */
  lemma SortDescSameElements(s: seq<Scored>, e: Scored)
    ensures e in SortDesc(s) <==> e in s
  {
    assert e in SortDesc(s) <==> e in multiset(SortDesc(s));
    assert e in s <==> e in multiset(s);
  }

  /** An element of `Insert(x, t)` other than `x` sits somewhere in `t`. */
  lemma InsertedFrom(x: Scored, t: seq<Scored>, e: Scored) returns (j: nat)
    requires e in Insert(x, t) && e != x
    ensures j < |t| && t[j] == e
  {
    assert e in multiset(Insert(x, t));
    assert e in multiset(t);
    j :| 0 <= j < |t| && t[j] == e;
  }

  lemma {:induction false} InsertSorted(x: Scored, t: seq<Scored>)
    requires SortedDesc(t)
    ensures SortedDesc(Insert(x, t))
  {
    if t != [] && x.score < t[0].score {
      var rest := Insert(x, t[1..]);
      InsertSorted(x, t[1..]);
      forall q | 0 <= q < |rest| ensures t[0].score >= rest[q].score {
        if rest[q] != x {
          var j := InsertedFrom(x, t[1..], rest[q]);
          assert t[j + 1] == rest[q];
        }
      }
      var u := [t[0]] + rest;
      forall p, q | 0 <= p < q < |u| ensures u[p].score >= u[q].score {
        if p > 0 {
          assert u[p] == rest[p - 1] && u[q] == rest[q - 1];
        } else {
          assert u[q] == rest[q - 1];
        }
      }
    }
  }

  /** The sort orders by score, highest first. */
  lemma {:induction false} SortDescSorted(s: seq<Scored>)
    ensures SortedDesc(SortDesc(s))
  {
    if s != [] {
      SortDescSorted(s[1..]);
      InsertSorted(s[0], SortDesc(s[1..]));
    }
  }

  lemma WithScoreCons(e: Scored, s: seq<Scored>, v: int)
    ensures WithScore([e] + s, v) == (if e.score == v then [e] else []) + WithScore(s, v)
  {
    assert ([e] + s)[0] == e;
    assert ([e] + s)[1..] == s;
  }

  lemma SortedTail(t: seq<Scored>)
    requires t != [] && SortedDesc(t)
    ensures SortedDesc(t[1..])
  {
    forall p, q | 0 <= p < q < |t[1..]| ensures t[1..][p].score >= t[1..][q].score {
      assert t[1..][p] == t[p + 1] && t[1..][q] == t[q + 1];
    }
  }

  /** The recursive step of `InsertWithScore`, with the inserted tail `rest` left abstract. */
  lemma InsertWithScoreStep(x: Scored, t: seq<Scored>, v: int, rest: seq<Scored>)
    requires t != [] && x.score < t[0].score
    requires WithScore(rest, v) == (if x.score == v then [x] else []) + WithScore(t[1..], v)
    ensures WithScore([t[0]] + rest, v) == (if x.score == v then [x] else []) + WithScore(t, v)
  {
    var hx := if x.score == v then [x] else [];
    var ht := if t[0].score == v then [t[0]] else [];
    WithScoreCons(t[0], rest, v);
    assert t == [t[0]] + t[1..];
    WithScoreCons(t[0], t[1..], v);
    assert hx == [] || ht == [];
  }

  /** Inserting `x` adds it to the pairs of its score just in front of them. */
  lemma {:induction false} InsertWithScore(x: Scored, t: seq<Scored>, v: int)
    requires SortedDesc(t)
    ensures WithScore(Insert(x, t), v) == (if x.score == v then [x] else []) + WithScore(t, v)
  {
    if t == [] {
      WithScoreCons(x, [], v);
    } else if x.score >= t[0].score {
      WithScoreCons(x, t, v);
    } else {
      SortedTail(t);
      InsertWithScore(x, t[1..], v);
      InsertWithScoreStep(x, t, v, Insert(x, t[1..]));
    }
  }

  /**
   Stability: for every score, the pairs with that score appear in the
   sorted sequence in exactly the order they have in the input.
   */
  lemma {:induction false} SortDescStable(s: seq<Scored>, v: int)
    ensures WithScore(SortDesc(s), v) == WithScore(s, v)
  {
    if s != [] {
      SortDescStable(s[1..], v);
      SortDescSorted(s[1..]);
      InsertWithScore(s[0], SortDesc(s[1..]), v);
    }
  }

  /** No pair of a sorted sequence scores above its head. */
  lemma {:induction false} WithScoreAboveHead(s: seq<Scored>, v: int)
    requires s != [] && SortedDesc(s) && s[0].score < v
    ensures WithScore(s, v) == []
  {
    if |s| > 1 {
      SortedTail(s);
      WithScoreAboveHead(s[1..], v);
    }
  }

  /** The pairs with the head's score start with the head. */
  lemma WithScoreHead(s: seq<Scored>)
    requires s != []
    ensures WithScore(s, s[0].score) == [s[0]] + WithScore(s[1..], s[0].score)
  {
  }

  /**
   A stable descending sort has one possible result: two sequences ordered
   by score that agree, score by score, on the order of their pairs are
   equal. So any stable sort, whatever its algorithm, agrees with `SortDesc`.
   */
  lemma {:induction false} StableSortUnique(a: seq<Scored>, b: seq<Scored>)
    requires SortedDesc(a) && SortedDesc(b)
    requires forall v :: WithScore(a, v) == WithScore(b, v)
    ensures a == b
  {
    if a != [] {
      WithScoreHead(a);
    }
    if b != [] {
      WithScoreHead(b);
    }
    if a != [] && b != [] {
      forall v | a[0].score < v ensures WithScore(a, v) == [] {
        WithScoreAboveHead(a, v);
      }
      forall v | b[0].score < v ensures WithScore(b, v) == [] {
        WithScoreAboveHead(b, v);
      }
      assert WithScore(b, a[0].score) != [];
      assert WithScore(a, b[0].score) != [];
      assert a[0].score == b[0].score;
      assert WithScore(a, a[0].score)[0] == WithScore(b, a[0].score)[0];
      assert a[0] == b[0];
      forall v ensures WithScore(a[1..], v) == WithScore(b[1..], v) {
        WithScoreCons(a[0], a[1..], v);
        WithScoreCons(b[0], b[1..], v);
        assert a == [a[0]] + a[1..] && b == [b[0]] + b[1..];
        var h := if a[0].score == v then [a[0]] else [];
        assert h + WithScore(a[1..], v) == h + WithScore(b[1..], v);
        assert (h + WithScore(a[1..], v))[|h|..] == WithScore(a[1..], v);
        assert (h + WithScore(b[1..], v))[|h|..] == WithScore(b[1..], v);
      }
      SortedTail(a);
      SortedTail(b);
      StableSortUnique(a[1..], b[1..]);
      assert a == [a[0]] + a[1..] && b == [b[0]] + b[1..];
    }
  }

  /**
   `SortDesc` is the stable sort: a sequence that is ordered by score and
   keeps, score by score, the input's order is exactly `SortDesc(s)`.
   */
  lemma SortDescIsTheStableSort(s: seq<Scored>, r: seq<Scored>)
    requires SortedDesc(r)
    requires forall v :: WithScore(r, v) == WithScore(s, v)
    ensures r == SortDesc(s)
  {
    SortDescSorted(s);
    forall v ensures WithScore(r, v) == WithScore(SortDesc(s), v) {
      SortDescStable(s, v);
    }
    StableSortUnique(r, SortDesc(s));
  }

  lemma {:induction false} InsertTiesAscending(x: Scored, t: seq<Scored>)
    requires SortedDesc(t) && TiesAscending(t)
    requires forall e :: e in t ==> x.index < e.index
    ensures TiesAscending(Insert(x, t))
  {
    if t != [] && x.score < t[0].score {
      var rest := Insert(x, t[1..]);
      SortedTail(t);
      assert TiesAscending(t[1..]) by {
        forall p, q | 0 <= p < q < |t[1..]| ensures t[1..][p] == t[p + 1] && t[1..][q] == t[q + 1] {}
      }
      InsertTiesAscending(x, t[1..]);
      forall q | 0 <= q < |rest| && rest[q].score == t[0].score ensures t[0].index < rest[q].index {
        if rest[q] != x {
          var j := InsertedFrom(x, t[1..], rest[q]);
          assert t[j + 1] == rest[q];
        }
      }
      var u := [t[0]] + rest;
      forall p, q | 0 <= p < q < |u| && u[p].score == u[q].score ensures u[p].index < u[q].index {
        if p > 0 {
          assert u[p] == rest[p - 1] && u[q] == rest[q - 1];
        } else {
          assert u[q] == rest[q - 1];
        }
      }
    }
  }

  /** A sort of an enumeration puts equal scores in ascending index order. */
  lemma {:induction false} SortDescTiesAscending(s: seq<Scored>)
    requires IndicesAscending(s)
    ensures TiesAscending(SortDesc(s))
  {
    if s != [] {
      SortDescTiesAscending(s[1..]);
      SortDescSorted(s[1..]);
      forall e | e in SortDesc(s[1..]) ensures s[0].index < e.index {
        SortDescSameElements(s[1..], e);
      }
      InsertTiesAscending(s[0], SortDesc(s[1..]));
    }
  }

  lemma {:induction false} InsertDistinctIndices(x: Scored, t: seq<Scored>)
    requires DistinctIndices(t)
    requires forall e :: e in t ==> x.index != e.index
    ensures DistinctIndices(Insert(x, t))
  {
    if t != [] && x.score < t[0].score {
      var rest := Insert(x, t[1..]);
      assert DistinctIndices(t[1..]);
      InsertDistinctIndices(x, t[1..]);
      forall q | 0 <= q < |rest| ensures t[0].index != rest[q].index {
        if rest[q] != x {
          var j := InsertedFrom(x, t[1..], rest[q]);
          assert t[j + 1] == rest[q];
        }
      }
      var u := [t[0]] + rest;
      forall p, q | 0 <= p < q < |u| ensures u[p].index != u[q].index {
        if p > 0 {
          assert u[p] == rest[p - 1] && u[q] == rest[q - 1];
        } else {
          assert u[q] == rest[q - 1];
        }
      }
    }
  }

  /** Sorting never puts one index at two positions. */
  lemma {:induction false} SortDescDistinctIndices(s: seq<Scored>)
    requires DistinctIndices(s)
    ensures DistinctIndices(SortDesc(s))
  {
    if s != [] {
      SortDescDistinctIndices(s[1..]);
      forall e | e in SortDesc(s[1..]) ensures s[0].index != e.index {
        SortDescSameElements(s[1..], e);
      }
      InsertDistinctIndices(s[0], SortDesc(s[1..]));
    }
  }

  /**
   The row ranked as the recommender ranks it: enumerated, then stably
   sorted by score, highest first. Each ranked pair is a column of the row
   with that column's score.
   */
  function Ranked(row: seq<int>): (r: seq<Scored>)
    ensures |r| == |row|
    ensures multiset(r) == multiset(Enumerate(row))
    ensures forall p :: 0 <= p < |r| ==> r[p].index < |row| && r[p].score == row[r[p].index]
  {
    var e := Enumerate(row);
    var r := SortDesc(e);
    assert forall p :: 0 <= p < |r| ==> r[p].index < |row| && r[p].score == row[r[p].index] by {
      forall p | 0 <= p < |r| ensures r[p].index < |row| && r[p].score == row[r[p].index] {
        SortDescSameElements(e, r[p]);
      }
    }
    r
  }

  /**
   The ranking orders the row by score, highest first, puts equal scores in
   ascending column order and never lists a column twice.
   */
  lemma RankedOrdered(row: seq<int>)
    ensures SortedDesc(Ranked(row)) && TiesAscending(Ranked(row)) && DistinctIndices(Ranked(row))
  {
    var e := Enumerate(row);
    SortDescSorted(e);
    SortDescTiesAscending(e);
    SortDescDistinctIndices(e);
  }

  /** Every column of the row is ranked somewhere. */
  lemma RankedPosition(row: seq<int>, j: nat) returns (p: nat)
    requires j < |row|
    ensures p < |row| && Ranked(row)[p].index == j
  {
    var e := Enumerate(row);
    assert e[j] in multiset(Ranked(row));
    p :| 0 <= p < |Ranked(row)| && Ranked(row)[p] == e[j];
  }
}
