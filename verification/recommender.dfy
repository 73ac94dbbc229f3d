/** The three queries of the recommender: by genre, by movie, and title
    autocomplete. Randomness enters only through the draws handed to
    `random.shuffle`. */
module Recommender {
  import opened Cells
  import opened Orders
  import opened Strings
  import opened Catalog
  import opened Ranking
  import opened Shuffling

  /** Both recommenders keep the first five entries after shuffling. */
  const SampleSize: nat := 5

  /** The sentinel title recommend-by-movie answers for an unknown title. */
  const NotFoundMessage: string := "Movie not found!"

  /** `get_movie_suggestions`' default `max_suggestions`. */
  const DefaultMaxSuggestions: int := 10

  /** `s[:n]` for `n >= 0`. */
  function Take<T>(s: seq<T>, n: nat): (r: seq<T>)
    ensures |r| == Min(n, |s|)
    ensures forall k :: 0 <= k < |r| ==> r[k] == s[k]
  {
    s[..Min(n, |s|)]
  }

  predicate IsPrefix<T(==)>(a: seq<T>, b: seq<T>) {
    |a| <= |b| && b[..|a|] == a
  }

  /** `s[:stop]` for any integer `stop`: a negative stop counts from the end. */
  function SliceTo<T(==)>(s: seq<T>, stop: int): (r: seq<T>)
    ensures IsPrefix(r, s)
    ensures stop >= 0 ==> |r| == Min(stop, |s|)
    ensures stop < 0 ==> |r| == Max(0, |s| + stop)
  {
    if stop >= 0 then Take(s, stop) else s[..Max(0, |s| + stop)]
  }

  lemma TakeIsSubMultiset<T>(s: seq<T>, n: nat)
    ensures multiset(Take(s, n)) <= multiset(s)
    ensures n >= |s| ==> multiset(Take(s, n)) == multiset(s)
  {
    var k := Min(n, |s|);
    assert s == s[..k] + s[k..];
  }

  // ---------------------------------------------------------------------
  // Row selection: df[mask]

  /** Ids of the rows satisfying `p`, in catalog order. */
  function SelectRows(cat: seq<Movie>, p: Movie -> bool): (ids: seq<nat>)
    ensures forall k :: 0 <= k < |ids| ==> ids[k] < |cat| && p(cat[ids[k]])
    ensures forall a, b :: 0 <= a < b < |ids| ==> ids[a] < ids[b]
    ensures forall i :: 0 <= i < |cat| && p(cat[i]) ==> i in ids
    decreases |cat|
  {
    if |cat| == 0 then []
    else
      var last := |cat| - 1;
      var ids := SelectRows(cat[..last], p);
      assert forall i :: 0 <= i < last ==> cat[..last][i] == cat[i];
      if p(cat[last]) then ids + [last] else ids
  }

  /** The titles of selected rows whose title is present. */
  function TitlesOf(cat: seq<Movie>, ids: seq<nat>): (titles: seq<string>)
    requires forall k :: 0 <= k < |ids| ==> ids[k] < |cat| && cat[ids[k]].title.Present?
    ensures |titles| == |ids|
    ensures forall k :: 0 <= k < |ids| ==> Present(titles[k]) == cat[ids[k]].title
  {
    seq(|ids|, k requires 0 <= k < |ids| => cat[ids[k]].title.value)
  }

  // ---------------------------------------------------------------------
  // recommend_by_genre

  /** A row whose normalised genres contain `genre`, ignoring case, and whose
      title survives `dropna()`. */
  predicate GenreMatch(genre: string, m: Movie) {
    m.title.Present? && ContainsIgnoreCase(m.genres, genre)
  }

  /** Ids of the rows matching `genre` with a present title, in catalog order. */
  function GenreMatchRows(cat: seq<Movie>, genre: string): (ids: seq<nat>)
    ensures forall k :: 0 <= k < |ids| ==> ids[k] < |cat| && GenreMatch(genre, cat[ids[k]])
    ensures forall i :: 0 <= i < |cat| && GenreMatch(genre, cat[i]) ==> i in ids
    ensures forall a, b :: 0 <= a < b < |ids| ==> ids[a] < ids[b]
  {
    SelectRows(cat, (m: Movie) => GenreMatch(genre, m))
  }

  /** The genre filter of movie_recommender.py:30-31: the present titles of
      the rows whose genres contain `genre`, ignoring case, one per matching
      row, in catalog order. */
  function GenreMatches(cat: seq<Movie>, genre: string): (titles: seq<string>)
    ensures |titles| == |GenreMatchRows(cat, genre)|
    ensures forall k :: 0 <= k < |titles| ==> Present(titles[k]) == cat[GenreMatchRows(cat, genre)[k]].title
    ensures forall t :: t in titles <==>
      exists i :: 0 <= i < |cat| && cat[i].title == Present(t) && ContainsIgnoreCase(cat[i].genres, genre)
  {
    var ids := GenreMatchRows(cat, genre);
    var titles := TitlesOf(cat, ids);
    forall t | t in titles
      ensures exists i :: 0 <= i < |cat| && cat[i].title == Present(t) && ContainsIgnoreCase(cat[i].genres, genre)
    {
      var k :| 0 <= k < |titles| && titles[k] == t;
      assert cat[ids[k]].title == Present(t);
    }
    forall i | 0 <= i < |cat| && cat[i].title.Present? && ContainsIgnoreCase(cat[i].genres, genre)
      ensures cat[i].title.value in titles
    {
      assert GenreMatch(genre, cat[i]);
      var k :| 0 <= k < |ids| && ids[k] == i;
      assert titles[k] == cat[i].title.value;
    }
    titles
  }

  /** `recommend_by_genre(genre)`: shuffle the matching titles, keep five. */
  function RecommendByGenre(cat: seq<Movie>, genre: string, draws: seq<nat>): (r: seq<string>)
    requires IsPlainPattern(genre)
    ensures |r| == Min(SampleSize, |GenreMatches(cat, genre)|)
    ensures multiset(r) <= multiset(GenreMatches(cat, genre))
    ensures |GenreMatches(cat, genre)| <= SampleSize ==> multiset(r) == multiset(GenreMatches(cat, genre))
    ensures forall t :: t in r ==>
      exists i :: 0 <= i < |cat| && cat[i].title == Present(t) && ContainsIgnoreCase(cat[i].genres, genre)
  {
    var matches := GenreMatches(cat, genre);
    var shuffled := Shuffle(matches, draws);
    var r := Take(shuffled, SampleSize);
    TakeIsSubMultiset(shuffled, SampleSize);
    forall t | t in r
      ensures t in matches
    {
      assert t in multiset(r);
    }
    r
  }

  /** Every ordered sample of five matches is some outcome of the shuffle. */
  lemma RecommendByGenreReachesEverySample(cat: seq<Movie>, genre: string, ys: seq<string>)
    requires IsPlainPattern(genre)
    requires multiset(ys) == multiset(GenreMatches(cat, genre))
    ensures exists draws :: RecommendByGenre(cat, genre, draws) == Take(ys, SampleSize)
  {
    ShuffleReachesEveryPermutation(GenreMatches(cat, genre), ys);
    var draws :| Shuffle(GenreMatches(cat, genre), draws) == ys;
    assert RecommendByGenre(cat, genre, draws) == Take(ys, SampleSize);
  }

  /** A genre label offered in the selector is a plain pattern, so passing
      it to recommend-by-genre is a substring search. */
  lemma GenreLabelIsPlainPattern(cat: seq<Movie>, l: string)
    requires l in GenreLabels(cat)
    ensures IsPlainPattern(l)
  {
    forall c | c in l
      ensures c !in ".^$*+?{}[]\\|()"
    {
      var k :| 0 <= k < |l| && l[k] == c;
      assert IsLetter(l[k]);
    }
  }

  /** A row carrying an alphabetic genre token is found again by a genre
      search for that token's label, whenever its title is present. */
  lemma GenreLabelFindsItsRows(cat: seq<Movie>, i: nat, t: string)
    requires IsLoaded(cat)
    requires i < |cat| && t in cat[i].genresList && IsAlphaWord(t)
    requires cat[i].title.Present?
    ensures TitleCase(t) in GenreLabels(cat)
    ensures cat[i].title.value in GenreMatches(cat, TitleCase(t))
  {
    var g := cat[i].genres;
    assert IsGenreLabel(cat, TitleCase(t));
    var k :| 0 <= k < |Split(g)| && Split(g)[k] == t;
    TokenOccurs(g, k);
    var at :| OccursAt(g, t, at);
    LowerOccurs(g, t, at);
    LowerOfTitleCase(t);
    OccursAtContains(Lower(g), Lower(TitleCase(t)), at);
  }

  // ---------------------------------------------------------------------
  // recommend_by_movie

  /** `cosine_sim` as built from the catalog: square, one row per movie. */
  predicate IsSimilarityMatrix(sims: seq<seq<real>>, n: nat) {
    |sims| == n && forall i :: 0 <= i < n ==> |sims[i]| == n
  }

  /** The rows `indices[title]` addresses: every row with that exact title. */
  function TitleRows(cat: seq<Movie>, title: string): (ids: seq<nat>)
    ensures forall k :: 0 <= k < |ids| ==> ids[k] < |cat| && cat[ids[k]].title == Present(title)
    ensures forall i :: 0 <= i < |cat| && cat[i].title == Present(title) ==> i in ids
    ensures forall a, b :: 0 <= a < b < |ids| ==> ids[a] < ids[b]
  {
    SelectRows(cat, (m: Movie) => m.title == Present(title))
  }

  /** `movie_indices`: shuffle the pool and keep the ids of its first five. */
  function PickRows(row: seq<real>, draws: seq<nat>): (ids: seq<nat>)
    ensures |row| >= 1 ==> |ids| == Min(SampleSize, Min(PoolEnd - 1, |row| - 1))
    ensures forall k :: 0 <= k < |ids| ==> ids[k] < |row|
    ensures forall k :: 0 <= k < |ids| ==> exists p: Scored :: p in Pool(row) && p.idx == ids[k]
    ensures forall a, b :: 0 <= a < b < |ids| ==> ids[a] != ids[b]
  {
    var chosen := Take(Shuffle(Pool(row), draws), SampleSize);
    PickedIds(row, draws);
    Ids(chosen)
  }

  lemma PickedIds(row: seq<real>, draws: seq<nat>)
    ensures var ids := Ids(Take(Shuffle(Pool(row), draws), SampleSize));
      && (|row| >= 1 ==> |ids| == Min(SampleSize, Min(PoolEnd - 1, |row| - 1)))
      && (forall k :: 0 <= k < |ids| ==> ids[k] < |row|)
      && (forall k :: 0 <= k < |ids| ==> exists p: Scored :: p in Pool(row) && p.idx == ids[k])
      && (forall a, b :: 0 <= a < b < |ids| ==> ids[a] != ids[b])
  {
    var pool := Pool(row);
    var shuffled := Shuffle(pool, draws);
    var chosen := Take(shuffled, SampleSize);
    PickFromPool(row, pool, chosen, shuffled);
    var ids := Ids(chosen);
    forall k | 0 <= k < |ids|
      ensures exists p: Scored :: p in pool && p.idx == ids[k]
    {
      assert chosen[k] in pool && chosen[k].idx == ids[k];
    }
  }

  /** Every ordered choice of five pool rows is some outcome of the shuffle. */
  lemma PickRowsReachesEverySample(row: seq<real>, ys: seq<Scored>)
    requires multiset(ys) == multiset(Pool(row))
    ensures exists draws :: PickRows(row, draws) == Ids(Take(ys, SampleSize))
  {
    ShuffleReachesEveryPermutation(Pool(row), ys);
    var draws :| Shuffle(Pool(row), draws) == ys;
    assert PickRows(row, draws) == Ids(Take(ys, SampleSize));
  }

  /** The row ids of ranked entries, `[i[0] for i in ...]`. */
  function Ids(s: seq<Scored>): (ids: seq<nat>)
    ensures |ids| == |s|
    ensures forall k :: 0 <= k < |s| ==> ids[k] == s[k].idx
  {
    seq(|s|, k requires 0 <= k < |s| => s[k].idx)
  }

  /** Entries taken from a shuffled pool are pool rows, each at most once. */
  lemma PickFromPool(row: seq<real>, pool: seq<Scored>, chosen: seq<Scored>, shuffled: seq<Scored>)
    requires DistinctIds(pool)
    requires forall k :: 0 <= k < |pool| ==> pool[k].idx < |row| && pool[k].score == row[pool[k].idx]
    requires multiset(shuffled) == multiset(pool)
    requires chosen == Take(shuffled, SampleSize)
    ensures forall k :: 0 <= k < |chosen| ==> chosen[k] in pool && chosen[k].idx < |row|
    ensures forall a, b :: 0 <= a < b < |chosen| ==> chosen[a].idx != chosen[b].idx
  {
    TakeIsSubMultiset(shuffled, SampleSize);
    forall k | 0 <= k < |chosen|
      ensures chosen[k] in pool
    {
      assert chosen[k] in multiset(chosen);
    }
    DistinctIdsDistinct(pool);
    SubMultisetDistinct(pool, chosen);
  }

  lemma DistinctIdsDistinct(s: seq<Scored>)
    requires DistinctIds(s)
    ensures Distinct(s)
  {
  }

  /** The title lookup of movie_recommender.py:43: the title cells of the
      rows, in the order of `ids`, NaN included. */
  function TitlesAt(cat: seq<Movie>, ids: seq<nat>): (titles: seq<Cell<string>>)
    requires forall k :: 0 <= k < |ids| ==> ids[k] < |cat|
    ensures |titles| == |ids|
    ensures forall k :: 0 <= k < |ids| ==> titles[k] == cat[ids[k]].title
  {
    seq(|ids|, k requires 0 <= k < |ids| => cat[ids[k]].title)
  }

  /** The titles of the first five of a shuffled pool are pool titles taken
      without replacement, and all of them, in some order, when the pool
      has at most five rows. */
  lemma SampledTitles(cat: seq<Movie>, row: seq<real>, pool: seq<Scored>, draws: seq<nat>)
    requires |row| == |cat|
    requires DistinctIds(pool)
    requires forall k :: 0 <= k < |pool| ==> pool[k].idx < |row| && pool[k].score == row[pool[k].idx]
    ensures var picked := Ids(Take(Shuffle(pool, draws), SampleSize));
      && (forall k :: 0 <= k < |picked| ==> picked[k] < |cat|)
      && multiset(TitlesAt(cat, picked)) <= multiset(TitlesAt(cat, Ids(pool)))
      && (|pool| <= SampleSize ==> multiset(TitlesAt(cat, picked)) == multiset(TitlesAt(cat, Ids(pool))))
  {
    var title := (x: Scored) => if x.idx < |cat| then cat[x.idx].title else Missing;
    var shuffled := Shuffle(pool, draws);
    var chosen := Take(shuffled, SampleSize);
    PickFromPool(row, pool, chosen, shuffled);
    assert TitlesAt(cat, Ids(chosen)) == Map(title, chosen);
    assert TitlesAt(cat, Ids(pool)) == Map(title, pool);
    TakeIsSubMultiset(shuffled, SampleSize);
    MapSubMultiset(title, chosen, pool);
    if |pool| <= SampleSize {
      MapSubMultiset(title, pool, chosen);
    }
  }

  /** The picked titles are pool titles taken without replacement, and all
      of them, in some order, when the pool has at most five rows. */
  lemma PickedTitles(cat: seq<Movie>, row: seq<real>, draws: seq<nat>)
    requires |row| == |cat|
    ensures multiset(TitlesAt(cat, PickRows(row, draws))) <= multiset(TitlesAt(cat, Ids(Pool(row))))
    ensures |Pool(row)| <= SampleSize ==>
      multiset(TitlesAt(cat, PickRows(row, draws))) == multiset(TitlesAt(cat, Ids(Pool(row))))
  {
    SampledTitles(cat, row, Pool(row), draws);
    assert PickRows(row, draws) == Ids(Take(Shuffle(Pool(row), draws), SampleSize));
  }

  /** Rows other than the only row titled `title` carry other titles. */
  lemma OtherRowsOtherTitles(cat: seq<Movie>, title: string, picked: seq<nat>)
    requires |TitleRows(cat, title)| == 1
    requires forall k :: 0 <= k < |picked| ==> picked[k] < |cat| && picked[k] != TitleRows(cat, title)[0]
    ensures Present(title) !in TitlesAt(cat, picked)
  {
    var ids := TitleRows(cat, title);
    assert ids == [ids[0]];
    var titles := TitlesAt(cat, picked);
    forall k | 0 <= k < |titles|
      ensures titles[k] != Present(title)
    {
      assert picked[k] !in ids;
    }
  }

  /** `recommend_by_movie(title)` as written. An unknown title answers the
      sentinel list; a title held by several rows makes `sorted` compare
      numpy rows and raise ValueError. */
  function RecommendByMovie(cat: seq<Movie>, sims: seq<seq<real>>, title: string, draws: seq<nat>)
    : (r: Call<seq<Cell<string>>>)
    requires IsSimilarityMatrix(sims, |cat|)
    ensures |TitleRows(cat, title)| == 0 ==> r == Returns([Present(NotFoundMessage)])
    ensures r.RaisesValueError? <==> |TitleRows(cat, title)| > 1
    ensures |TitleRows(cat, title)| == 1 ==>
      var idx := TitleRows(cat, title)[0];
      && r.Returns?
      && |r.value| == Min(SampleSize, Min(PoolEnd - 1, |cat| - 1))
      && (forall k :: 0 <= k < |r.value| ==>
           exists p: Scored :: p in Pool(sims[idx]) && r.value[k] == cat[p.idx].title)
      && multiset(r.value) <= multiset(TitlesAt(cat, Ids(Pool(sims[idx]))))
      && (|Pool(sims[idx])| <= SampleSize ==> multiset(r.value) == multiset(TitlesAt(cat, Ids(Pool(sims[idx])))))
  {
    var ids := TitleRows(cat, title);
    if |ids| == 0 then Returns([Present(NotFoundMessage)])
    else if |ids| > 1 then RaisesValueError
    else
      PickedAnswer(cat, sims, title, draws);
      Returns(TitlesAt(cat, PickRows(sims[ids[0]], draws)))
  }

  /** The answer of `recommend_by_movie` for a title held by one row. */
  lemma PickedAnswer(cat: seq<Movie>, sims: seq<seq<real>>, title: string, draws: seq<nat>)
    requires IsSimilarityMatrix(sims, |cat|)
    requires |TitleRows(cat, title)| == 1
    ensures
      var idx := TitleRows(cat, title)[0];
      var pool := Pool(sims[idx]);
      var titles := TitlesAt(cat, PickRows(sims[idx], draws));
      && |titles| == Min(SampleSize, Min(PoolEnd - 1, |cat| - 1))
      && (forall k :: 0 <= k < |titles| ==> exists p: Scored :: p in pool && titles[k] == cat[p.idx].title)
      && multiset(titles) <= multiset(TitlesAt(cat, Ids(pool)))
      && (|pool| <= SampleSize ==> multiset(titles) == multiset(TitlesAt(cat, Ids(pool))))
  {
    var idx := TitleRows(cat, title)[0];
    var pool := Pool(sims[idx]);
    var picked := PickRows(sims[idx], draws);
    var titles := TitlesAt(cat, picked);
    PickedTitles(cat, sims[idx], draws);
    forall k | 0 <= k < |titles|
      ensures exists p: Scored :: p in pool && titles[k] == cat[p.idx].title
    {
      var p: Scored :| p in pool && p.idx == picked[k];
      assert titles[k] == cat[p.idx].title;
    }
  }

  /** As written, a movie can be recommended to itself: when another row
      ties with it at the top score, the stable sort puts the earlier row at
      the head, the `[1:20]` cut drops that row instead, and the chosen movie
      stays in the pool. Two rows with the same genres have similarity 1.0
      with each other and with themselves. */
  lemma SelfRecommendedOnTie()
    ensures
      var cat := [Movie(Present("A"), "Drama", ["Drama"]), Movie(Present("B"), "Drama", ["Drama"])];
      RecommendByMovie(cat, [[1.0, 1.0], [1.0, 1.0]], "B", []) == Returns([Present("B")])
  {
    var cat := [Movie(Present("A"), "Drama", ["Drama"]), Movie(Present("B"), "Drama", ["Drama"])];
    var sims := [[1.0, 1.0], [1.0, 1.0]];
    TieTitleRows(cat);
    TieAnswer(cat);
    RecommendByMovieOfUniqueTitle(cat, sims, "B", []);
  }

  /** The tie in general: in a catalog of at most six movies every pool row
      is recommended, so a movie tied at the top score with an earlier row
      is always recommended to itself. */
  lemma SelfRecommendedWhenTied(cat: seq<Movie>, sims: seq<seq<real>>, title: string, draws: seq<nat>, j: nat)
    requires IsSimilarityMatrix(sims, |cat|) && |cat| <= SampleSize + 1
    requires |TitleRows(cat, title)| == 1
    requires j < TitleRows(cat, title)[0]
    requires sims[TitleRows(cat, title)[0]][j] == sims[TitleRows(cat, title)[0]][TitleRows(cat, title)[0]]
    requires forall k :: 0 <= k < |cat| ==>
      sims[TitleRows(cat, title)[0]][k] <= sims[TitleRows(cat, title)[0]][TitleRows(cat, title)[0]]
    ensures RecommendByMovie(cat, sims, title, draws).Returns?
    ensures Present(title) in RecommendByMovie(cat, sims, title, draws).value
  {
    var self := TitleRows(cat, title)[0];
    var row := sims[self];
    TiedRowStaysInPool(row, j, self);
    SmallPoolPicksAll(row, draws, Scored(self, row[self]));
    var picked := PickRows(row, draws);
    var m :| 0 <= m < |picked| && picked[m] == self;
    RecommendByMovieOfUniqueTitle(cat, sims, title, draws);
    assert TitlesAt(cat, picked)[m] == Present(title);
  }

  /** A pool of at most five rows is picked whole. */
  lemma SmallPoolPicksAll(row: seq<real>, draws: seq<nat>, x: Scored)
    requires 1 <= |row| <= SampleSize + 1
    requires x in Pool(row)
    ensures x.idx in PickRows(row, draws)
  {
    var pool := Pool(row);
    var shuffled := Shuffle(pool, draws);
    assert x in multiset(shuffled);
    var m :| 0 <= m < |shuffled| && shuffled[m] == x;
    var chosen := Take(shuffled, SampleSize);
    assert chosen[m] == x;
    assert PickRows(row, draws) == Ids(chosen);
    assert Ids(chosen)[m] == x.idx;
  }

  lemma TieAnswer(cat: seq<Movie>)
    requires cat == [Movie(Present("A"), "Drama", ["Drama"]), Movie(Present("B"), "Drama", ["Drama"])]
    ensures TitlesAt(cat, PickRows([1.0, 1.0], [])) == [Present("B")]
  {
    TiePick();
    assert TitlesAt(cat, [1]) == [Present("B")];
  }

  /** For a title held by exactly one row, the answer is the titles of the
      rows picked from that row's similarities. */
  lemma RecommendByMovieOfUniqueTitle(cat: seq<Movie>, sims: seq<seq<real>>, title: string, draws: seq<nat>)
    requires IsSimilarityMatrix(sims, |cat|)
    requires |TitleRows(cat, title)| == 1
    ensures RecommendByMovie(cat, sims, title, draws)
      == Returns(TitlesAt(cat, PickRows(sims[TitleRows(cat, title)[0]], draws)))
  {
  }

  lemma TiePick()
    ensures PickRows([1.0, 1.0], []) == [1]
  {
    var row := [1.0, 1.0];
    var ranked := [Scored(0, 1.0), Scored(1, 1.0)];
    assert Enumerate(row) == ranked;
    RankIsStableSort(row, ranked);
    assert Pool(row) == [Scored(1, 1.0)];
  }

  lemma TieTitleRows(cat: seq<Movie>)
    requires cat == [Movie(Present("A"), "Drama", ["Drama"]), Movie(Present("B"), "Drama", ["Drama"])]
    ensures TitleRows(cat, "B") == [1]
  {
    var p := (m: Movie) => m.title == Present("B");
    assert cat[..1][..0] == [];
    assert SelectRows(cat[..1], p) == [];
    assert SelectRows(cat, p) == SelectRows(cat[..1], p) + [1];
  }

  // ---------------------------------------------------------------------
  // Corrected recommend_by_movie: the pool leaves out the chosen movie itself

  /** The ranking without the entry of row `self`. */
  function WithoutRow(s: seq<Scored>, self: nat): (r: seq<Scored>)
    ensures forall x :: x in r <==> x in s && x.idx != self
    decreases |s|
  {
    if |s| == 0 then []
    else
      var rest := WithoutRow(s[1..], self);
      assert forall x :: x in s <==> x == s[0] || x in s[1..];
      if s[0].idx == self then rest else [s[0]] + rest
  }

  lemma {:induction false} WithoutRowRanked(s: seq<Scored>, self: nat)
    requires Ranked(s)
    ensures Ranked(WithoutRow(s, self))
    decreases |s|
  {
    if |s| > 0 {
      WithoutRowRanked(s[1..], self);
      var rest := WithoutRow(s[1..], self);
      if s[0].idx != self {
        forall y | y in rest
          ensures RanksBefore(s[0], y)
        {
          var k :| 0 <= k < |s[1..]| && s[1..][k] == y;
          assert s[k + 1] == y;
        }
        RankedCons(s[0], rest);
      }
    }
  }

  lemma {:induction false} WithoutRowDistinct(s: seq<Scored>, self: nat)
    requires DistinctIds(s)
    ensures DistinctIds(WithoutRow(s, self))
    decreases |s|
  {
    if |s| > 0 {
      WithoutRowDistinct(s[1..], self);
      var rest := WithoutRow(s[1..], self);
      if s[0].idx != self {
        var r := [s[0]] + rest;
        forall a, b | 0 <= a < b < |r|
          ensures r[a].idx != r[b].idx
        {
          if a == 0 {
            assert r[b] in s[1..];
            var k :| 0 <= k < |s[1..]| && s[1..][k] == r[b];
            assert s[k + 1] == r[b];
          } else {
            assert r[a] == rest[a - 1] && r[b] == rest[b - 1];
          }
        }
      }
    }
  }

  /** Removing a row that appears exactly once shortens the ranking by one. */
  lemma {:induction false} WithoutRowLength(s: seq<Scored>, self: nat, at: nat)
    requires DistinctIds(s)
    requires at < |s| && s[at].idx == self
    ensures |WithoutRow(s, self)| == |s| - 1
    decreases |s|
  {
    if at == 0 {
      WithoutAbsentRow(s[1..], self);
    } else {
      WithoutRowLength(s[1..], self, at - 1);
    }
  }

  lemma {:induction false} WithoutAbsentRow(s: seq<Scored>, self: nat)
    requires forall k :: 0 <= k < |s| ==> s[k].idx != self
    ensures WithoutRow(s, self) == s
    decreases |s|
  {
    if |s| > 0 {
      WithoutAbsentRow(s[1..], self);
      assert s == [s[0]] + s[1..];
    }
  }

  lemma RankMember(row: seq<real>, x: Scored)
    requires x in Rank(row)
    ensures x.idx < |row| && x.score == row[x.idx]
  {
  }

  lemma TakeRanked(s: seq<Scored>, n: nat)
    requires Ranked(s) && DistinctIds(s)
    ensures Ranked(Take(s, n)) && DistinctIds(Take(s, n))
  {
  }

  /** The first 19 rows of the ranking other than `self`. */
  function PoolExcluding(row: seq<real>, self: nat): (p: seq<Scored>)
    requires self < |row|
    ensures |p| == Min(PoolEnd - 1, |row| - 1)
    ensures Ranked(p)
    ensures DistinctIds(p)
    ensures forall k :: 0 <= k < |p| ==> p[k].idx != self && p[k].idx < |row| && p[k].score == row[p[k].idx]
  {
    var p := Take(WithoutRow(Rank(row), self), PoolEnd - 1);
    TakeWithoutRow(row, self);
    p
  }

  lemma TakeWithoutRow(row: seq<real>, self: nat)
    requires self < |row|
    ensures var p := Take(WithoutRow(Rank(row), self), PoolEnd - 1);
      && |p| == Min(PoolEnd - 1, |row| - 1)
      && Ranked(p)
      && DistinctIds(p)
      && forall k :: 0 <= k < |p| ==> p[k].idx != self && p[k].idx < |row| && p[k].score == row[p[k].idx]
  {
    var r := Rank(row);
    var at := PositionOf(row, self);
    var others := WithoutRow(r, self);
    WithoutRowRanked(r, self);
    WithoutRowDistinct(r, self);
    WithoutRowLength(r, self, at);
    var p := Take(others, PoolEnd - 1);
    forall k | 0 <= k < |p|
      ensures p[k].idx != self && p[k].idx < |row| && p[k].score == row[p[k].idx]
    {
      assert p[k] in others;
      RankMember(row, p[k]);
    }
    TakeRanked(others, PoolEnd - 1);
  }

  /** The corrected pool holds the best rows other than the chosen one: a
      row that is neither the chosen one nor in the pool ranks behind every
      pool row. */
  lemma PoolExcludingIsTop(row: seq<real>, self: nat, j: nat)
    requires self < |row| && j < |row| && j != self
    requires forall k :: 0 <= k < |PoolExcluding(row, self)| ==> PoolExcluding(row, self)[k].idx != j
    ensures forall k :: 0 <= k < |PoolExcluding(row, self)| ==>
      RanksBefore(PoolExcluding(row, self)[k], Scored(j, row[j]))
  {
    var r := Rank(row);
    var others := WithoutRow(r, self);
    var p := PoolExcluding(row, self);
    assert p == Take(others, PoolEnd - 1);
    WithoutRowRanked(r, self);
    assert Scored(j, row[j]) in r;
    assert Scored(j, row[j]) in others;
    var m :| 0 <= m < |others| && others[m] == Scored(j, row[j]);
    assert forall k :: 0 <= k < |p| ==> p[k] == others[k];
    assert m >= |p|;
    forall k | 0 <= k < |p|
      ensures RanksBefore(p[k], Scored(j, row[j]))
    {
      RankedAt(others, k, m);
    }
  }

  /** `movie_indices` drawn from the corrected pool. */
  function PickRowsExcluding(row: seq<real>, self: nat, draws: seq<nat>): (ids: seq<nat>)
    requires self < |row|
    ensures |ids| == Min(SampleSize, Min(PoolEnd - 1, |row| - 1))
    ensures forall k :: 0 <= k < |ids| ==> ids[k] < |row| && ids[k] != self
    ensures forall k :: 0 <= k < |ids| ==> exists p: Scored :: p in PoolExcluding(row, self) && p.idx == ids[k]
    ensures forall a, b :: 0 <= a < b < |ids| ==> ids[a] != ids[b]
  {
    var pool := PoolExcluding(row, self);
    var shuffled := Shuffle(pool, draws);
    var chosen := Take(shuffled, SampleSize);
    PickFromPool(row, pool, chosen, shuffled);
    var ids := Ids(chosen);
    assert forall k :: 0 <= k < |ids| ==> chosen[k] in pool && chosen[k].idx == ids[k];
    ids
  }

  /** The corrected recommendations are titles of the corrected pool, taken
      without replacement, and all of them when that pool has at most five
      rows. */
  lemma PickedTitlesExcluding(cat: seq<Movie>, row: seq<real>, self: nat, draws: seq<nat>)
    requires |row| == |cat| && self < |row|
    ensures multiset(TitlesAt(cat, PickRowsExcluding(row, self, draws)))
      <= multiset(TitlesAt(cat, Ids(PoolExcluding(row, self))))
    ensures |PoolExcluding(row, self)| <= SampleSize ==>
      multiset(TitlesAt(cat, PickRowsExcluding(row, self, draws)))
      == multiset(TitlesAt(cat, Ids(PoolExcluding(row, self))))
  {
    var pool := PoolExcluding(row, self);
    SampledTitles(cat, row, pool, draws);
    assert PickRowsExcluding(row, self, draws) == Ids(Take(Shuffle(pool, draws), SampleSize));
  }

  /** recommend-by-movie with the chosen movie kept out of its own pool. */
  function RecommendByMovieExcludingSelf(cat: seq<Movie>, sims: seq<seq<real>>, title: string, draws: seq<nat>)
    : (r: Call<seq<Cell<string>>>)
    requires IsSimilarityMatrix(sims, |cat|)
    ensures |TitleRows(cat, title)| == 0 ==> r == Returns([Present(NotFoundMessage)])
    ensures r.RaisesValueError? <==> |TitleRows(cat, title)| > 1
    ensures |TitleRows(cat, title)| == 1 ==>
      var idx := TitleRows(cat, title)[0];
      && r.Returns?
      && |r.value| == Min(SampleSize, Min(PoolEnd - 1, |cat| - 1))
      && Present(title) !in r.value
      && (forall k :: 0 <= k < |r.value| ==>
           exists p: Scored :: p in PoolExcluding(sims[idx], idx) && r.value[k] == cat[p.idx].title)
      && multiset(r.value) <= multiset(TitlesAt(cat, Ids(PoolExcluding(sims[idx], idx))))
      && (|PoolExcluding(sims[idx], idx)| <= SampleSize ==>
           multiset(r.value) == multiset(TitlesAt(cat, Ids(PoolExcluding(sims[idx], idx)))))
  {
    var ids := TitleRows(cat, title);
    if |ids| == 0 then Returns([Present(NotFoundMessage)])
    else if |ids| > 1 then RaisesValueError
    else
      CorrectedTitles(cat, sims, title, draws);
      Returns(TitlesAt(cat, PickRowsExcluding(sims[ids[0]], ids[0], draws)))
  }

  /** The answer of the corrected recommender for a title held by one row. */
  lemma CorrectedTitles(cat: seq<Movie>, sims: seq<seq<real>>, title: string, draws: seq<nat>)
    requires IsSimilarityMatrix(sims, |cat|)
    requires |TitleRows(cat, title)| == 1
    ensures
      var idx := TitleRows(cat, title)[0];
      var pool := PoolExcluding(sims[idx], idx);
      var titles := TitlesAt(cat, PickRowsExcluding(sims[idx], idx, draws));
      && |titles| == Min(SampleSize, Min(PoolEnd - 1, |cat| - 1))
      && Present(title) !in titles
      && (forall k :: 0 <= k < |titles| ==> exists p: Scored :: p in pool && titles[k] == cat[p.idx].title)
      && multiset(titles) <= multiset(TitlesAt(cat, Ids(pool)))
      && (|pool| <= SampleSize ==> multiset(titles) == multiset(TitlesAt(cat, Ids(pool))))
  {
    var idx := TitleRows(cat, title)[0];
    var pool := PoolExcluding(sims[idx], idx);
    var picked := PickRowsExcluding(sims[idx], idx, draws);
    var titles := TitlesAt(cat, picked);
    OtherRowsOtherTitles(cat, title, picked);
    PickedTitlesExcluding(cat, sims[idx], idx, draws);
    forall k | 0 <= k < |titles|
      ensures exists p: Scored :: p in pool && titles[k] == cat[p.idx].title
    {
      var p: Scored :| p in pool && p.idx == picked[k];
      assert titles[k] == cat[p.idx].title;
    }
  }

  // ---------------------------------------------------------------------
  // get_movie_suggestions

  /** A row with a present title containing `query`, ignoring case
      (`na=False` drops rows without a title). */
  predicate TitleMatch(query: string, m: Movie) {
    m.title.Present? && ContainsIgnoreCase(m.title.value, query)
  }

  /** Ids of every row whose title matches, in catalog order. */
  function SuggestionRows(cat: seq<Movie>, query: string): (ids: seq<nat>)
    ensures forall k :: 0 <= k < |ids| ==> ids[k] < |cat| && TitleMatch(query, cat[ids[k]])
    ensures forall i :: 0 <= i < |cat| && TitleMatch(query, cat[i]) ==> i in ids
    ensures forall a, b :: 0 <= a < b < |ids| ==> ids[a] < ids[b]
  {
    SelectRows(cat, (m: Movie) => TitleMatch(query, m))
  }

  /** Every matching title, in catalog order. */
  function SuggestionTitles(cat: seq<Movie>, query: string): seq<string> {
    TitlesOf(cat, SuggestionRows(cat, query))
  }

  /** `get_movie_suggestions(query, max_suggestions)` */
  function SuggestTitles(cat: seq<Movie>, query: string, maxSuggestions: int): (r: seq<string>)
    requires IsPlainPattern(query)
    ensures query == "" ==> r == []
    ensures query != "" ==> IsPrefix(r, SuggestionTitles(cat, query))
    ensures maxSuggestions >= 0 ==> |r| <= maxSuggestions
    ensures query != "" && maxSuggestions >= 0 ==>
      |r| == Min(maxSuggestions, |SuggestionTitles(cat, query)|)
    ensures query != "" && maxSuggestions < 0 ==>
      |r| == Max(0, |SuggestionTitles(cat, query)| + maxSuggestions)
    ensures forall t :: t in r ==>
      exists i :: 0 <= i < |cat| && cat[i].title == Present(t) && ContainsIgnoreCase(t, query)
  {
    if query == "" then []
    else
      var all := SuggestionTitles(cat, query);
      var r := SliceTo(all, maxSuggestions);
      forall t | t in r
        ensures exists i :: 0 <= i < |cat| && cat[i].title == Present(t) && ContainsIgnoreCase(t, query)
      {
        var k :| 0 <= k < |r| && r[k] == t;
        var i := SuggestionRows(cat, query)[k];
        assert cat[i].title == Present(t);
      }
      r
  }

  /** Called without a limit, autocomplete offers the first ten matches, or
      every match when there are fewer. */
  lemma DefaultSuggestionCount(cat: seq<Movie>, query: string)
    requires IsPlainPattern(query) && query != ""
    ensures var r := SuggestTitles(cat, query, DefaultMaxSuggestions);
      && |r| == Min(10, |SuggestionTitles(cat, query)|)
      && r == SuggestionTitles(cat, query)[..|r|]
  {
  }
}
