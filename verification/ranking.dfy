/** The deterministic stage of recommend-by-movie: rank every row by its
    similarity to the chosen movie and cut out the candidate pool. */
module Ranking {
  import opened Orders

  /** One pair of `list(enumerate(cosine_sim[idx]))`: a row id and its
      similarity to the chosen movie. */
  datatype Scored = Scored(idx: nat, score: real)

  /** `list(enumerate(row))`: every row id once, paired with its score. */
  function Enumerate(row: seq<real>): (e: seq<Scored>)
    ensures |e| == |row|
    ensures forall k :: 0 <= k < |e| ==> e[k].idx == k && e[k].score == row[k]
    ensures forall i, j :: 0 <= i < j < |e| ==> e[i].idx != e[j].idx
  {
    seq(|row|, i requires 0 <= i < |row| => Scored(i, row[i]))
  }

  /** The order `sorted(..., key=lambda x: x[1], reverse=True)` produces from
      an enumeration: Python's sort is stable also when reversed, so a higher
      score comes first and equal scores keep the earlier row first. */
  predicate RanksBefore(a: Scored, b: Scored) {
    a.score > b.score || (a.score == b.score && a.idx < b.idx)
  }

  ghost predicate Ranked(s: seq<Scored>) {
    StrictlySortedBy(RanksBefore, s)
  }

  predicate DistinctIds(s: seq<Scored>) {
    forall i, j :: 0 <= i < j < |s| ==> s[i].idx != s[j].idx
  }

  lemma RankedCons(h: Scored, s: seq<Scored>)
    requires Ranked(s)
    requires forall y :: y in s ==> RanksBefore(h, y)
    ensures Ranked([h] + s)
  {
    var r := [h] + s;
    forall i, j | 0 <= i < j < |r|
      ensures RanksBefore(r[i], r[j])
    {
      assert r[j] == s[j - 1];
      if i > 0 {
        assert r[i] == s[i - 1];
      }
    }
  }

  /** Inserts `x` into a ranked list that does not hold its row yet. */
  function Insert(x: Scored, s: seq<Scored>): (r: seq<Scored>)
    requires Ranked(s)
    requires forall k :: 0 <= k < |s| ==> s[k].idx != x.idx
    ensures Ranked(r)
    ensures multiset(r) == multiset(s) + multiset{x}
    decreases |s|
  {
    if |s| == 0 then [x]
    else if RanksBefore(x, s[0]) then
      assert forall y :: y in s ==> RanksBefore(x, y);
      RankedCons(x, s);
      [x] + s
    else
      var rest := Insert(x, s[1..]);
      assert s == [s[0]] + s[1..];
      assert RanksBefore(s[0], x);
      forall y | y in rest
        ensures RanksBefore(s[0], y)
      {
        assert y in multiset(rest);
      }
      RankedCons(s[0], rest);
      [s[0]] + rest
  }

  /** Insertion sort into ranked order. */
  function SortByScore(s: seq<Scored>): (r: seq<Scored>)
    requires DistinctIds(s)
    ensures Ranked(r)
    ensures multiset(r) == multiset(s)
    decreases |s|
  {
    if |s| == 0 then []
    else
      var rest := SortByScore(s[1..]);
      HeadRowNotInRest(s, rest);
      assert s == [s[0]] + s[1..];
      Insert(s[0], rest)
  }

  /** A rearrangement of the tail does not hold the head's row. */
  lemma HeadRowNotInRest(s: seq<Scored>, rest: seq<Scored>)
    requires |s| > 0 && DistinctIds(s)
    requires multiset(rest) == multiset(s[1..])
    ensures forall k :: 0 <= k < |rest| ==> rest[k].idx != s[0].idx
  {
    forall k | 0 <= k < |rest|
      ensures rest[k].idx != s[0].idx
    {
      assert rest[k] in multiset(s[1..]);
      var m :| 0 <= m < |s[1..]| && s[1..][m] == rest[k];
      assert s[1..][m] == s[m + 1];
    }
  }

  /** The ranking of movie_recommender.py:39-40: every row with its score,
      in the stable descending order of scores. */
  function Rank(row: seq<real>): (r: seq<Scored>)
    ensures Ranked(r)
    ensures multiset(r) == multiset(Enumerate(row))
    ensures |r| == |row|
    ensures forall k :: 0 <= k < |r| ==> r[k].idx < |row| && r[k].score == row[r[k].idx]
    ensures forall i :: 0 <= i < |row| ==> Scored(i, row[i]) in r
    ensures DistinctIds(r)
  {
    var e := Enumerate(row);
    var r := SortByScore(e);
    assert |r| == |multiset(r)| == |multiset(e)| == |e|;
    forall k | 0 <= k < |r|
      ensures r[k].idx < |row| && r[k].score == row[r[k].idx]
    {
      assert r[k] in multiset(e);
    }
    forall i | 0 <= i < |row|
      ensures Scored(i, row[i]) in r
    {
      assert e[i] in multiset(r);
    }
    r
  }

  /** The ranking is THE stable descending sort: any ranked rearrangement of
      the enumeration is this one. */
  lemma RankIsStableSort(row: seq<real>, other: seq<Scored>)
    requires Ranked(other)
    requires multiset(other) == multiset(Enumerate(row))
    ensures other == Rank(row)
  {
    var less := (a: Scored, b: Scored) => RanksBefore(a, b);
    var r := Rank(row);
    forall x
      ensures x in other <==> x in r
    {
      assert x in other <==> x in multiset(other);
      assert x in r <==> x in multiset(r);
    }
    StrictlySortedUnique(less, other, r);
  }

  /** The head of the ranking has the highest score of the row. */
  lemma RankHeadIsMaximal(row: seq<real>, j: nat)
    requires j < |row|
    ensures Rank(row)[0].score >= row[j]
  {
    var r := Rank(row);
    assert Scored(j, row[j]) in r;
  }

  /** End of the pool slice `[1:20]`. */
  const PoolEnd: nat := 20

  /** `sorted(...)[1:20]`: the ranking without its head, at most 19 rows. */
  function Pool(row: seq<real>): (p: seq<Scored>)
    ensures |row| >= 1 ==> |p| == Min(PoolEnd - 1, |row| - 1)
    ensures |row| == 0 ==> p == []
    ensures Ranked(p)
    ensures DistinctIds(p)
    ensures forall k :: 0 <= k < |p| ==> p[k].idx < |row| && p[k].score == row[p[k].idx]
    ensures |row| >= 1 ==> forall k :: 0 <= k < |p| ==> RanksBefore(Rank(row)[0], p[k])
  {
    var r := Rank(row);
    var p := r[Min(1, |r|)..Min(PoolEnd, |r|)];
    SliceRanked(r, Min(1, |r|), Min(PoolEnd, |r|));
    if |r| == 0 then p
    else
      HeadRanksFirst(r, p);
      p
  }

  lemma SliceRanked(s: seq<Scored>, a: nat, b: nat)
    requires Ranked(s) && DistinctIds(s) && a <= b <= |s|
    ensures Ranked(s[a..b]) && DistinctIds(s[a..b])
  {
  }

  /** The head of a ranked list ranks before everything after it. */
  lemma HeadRanksFirst(s: seq<Scored>, t: seq<Scored>)
    requires Ranked(s) && |s| >= 1
    requires |t| <= |s| - 1 && t == s[1..1 + |t|]
    ensures forall k :: 0 <= k < |t| ==> RanksBefore(s[0], t[k])
  {
    forall k | 0 <= k < |t|
      ensures RanksBefore(s[0], t[k])
    {
      assert t[k] == s[k + 1];
      RankedAt(s, 0, k + 1);
    }
  }

  /** The pool holds the best-ranked rows after the head: a row that is
      neither the head nor in the pool ranks behind every pool row. */
  lemma PoolIsTop(row: seq<real>, j: nat)
    requires j < |row|
    requires j != Rank(row)[0].idx
    requires forall k :: 0 <= k < |Pool(row)| ==> Pool(row)[k].idx != j
    ensures forall k :: 0 <= k < |Pool(row)| ==> RanksBefore(Pool(row)[k], Scored(j, row[j]))
  {
    var r := Rank(row);
    var p := Pool(row);
    var m :| 0 <= m < |r| && r[m] == Scored(j, row[j]);
    assert m != 0;
    assert forall k :: 1 <= k < Min(PoolEnd, |r|) ==> r[k] == p[k - 1];
    forall k | 0 <= k < |p|
      ensures RanksBefore(p[k], Scored(j, row[j]))
    {
      assert p[k] == r[k + 1];
    }
  }

  /** The head is the earliest row with the top score: a later row tying
      with it is never the head, and in a row of at most 20 entries it
      stays in the pool. */
  lemma TiedRowStaysInPool(row: seq<real>, j: nat, self: nat)
    requires j < self < |row|
    requires row[j] == row[self]
    requires forall k :: 0 <= k < |row| ==> row[k] <= row[self]
    ensures Rank(row)[0].idx != self
    ensures |row| <= PoolEnd ==> Scored(self, row[self]) in Pool(row)
  {
    var r := Rank(row);
    var at := PositionOf(row, j);
    var m := PositionOf(row, self);
    if m < at {
      RankedAt(r, m, at);
    }
    assert 0 < m;
    if |row| <= PoolEnd {
      PoolIsTail(row);
      assert Pool(row)[m - 1] == r[m];
    }
  }

  lemma RankedAt(s: seq<Scored>, a: nat, b: nat)
    requires Ranked(s) && a < b < |s|
    ensures RanksBefore(s[a], s[b])
  {
  }

  /** Where row `i` sits in the ranking. */
  lemma PositionOf(row: seq<real>, i: nat) returns (m: nat)
    requires i < |row|
    ensures m < |row| && Rank(row)[m] == Scored(i, row[i])
  {
    var r := Rank(row);
    assert Scored(i, row[i]) in r;
    m :| 0 <= m < |r| && r[m] == Scored(i, row[i]);
  }

  /** A row of at most 20 entries has the whole ranking after the head as
      its pool. */
  lemma PoolIsTail(row: seq<real>)
    requires 1 <= |row| <= PoolEnd
    ensures Pool(row) == Rank(row)[1..]
  {
  }
}
