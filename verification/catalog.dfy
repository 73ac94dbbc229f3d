/** The movie table as `load_data` leaves it, and the genre labels the
    genre selector offers. */
module Catalog {
  import opened Cells
  import opened Strings
  import opened Orders

  /** One row of the CSV as read: the title or the genres cell may be NaN. */
  datatype RawMovie = RawMovie(title: Cell<string>, genres: Cell<string>)

  /** One row after loading. `genres` is the normalised genre string that
      similarity and genre search work on; `genresList` is its token list.
      The row's position in the catalog is its id. */
  datatype Movie = Movie(title: Cell<string>, genres: string, genresList: seq<string>)

  /** `fillna('')` followed by `str.replace('|', ' ')`. */
  function NormaliseGenres(raw: Cell<string>): (g: string)
    ensures raw.Missing? ==> g == ""
    ensures '|' !in g
    ensures |g| == |raw.FillNa("")|
    ensures forall k :: 0 <= k < |g| && raw.FillNa("")[k] != '|' ==> g[k] == raw.FillNa("")[k]
    ensures forall k :: 0 <= k < |g| && raw.FillNa("")[k] == '|' ==> g[k] == ' '
  {
    ReplaceChar(raw.FillNa(""), '|', ' ')
  }

  /** A missing genres cell yields no tokens. */
  lemma MissingGenresHaveNoTokens()
    ensures Split(NormaliseGenres(Missing)) == []
  {
  }

  /** Normalising again changes nothing. */
  lemma NormaliseIdempotent(raw: Cell<string>)
    ensures NormaliseGenres(Present(NormaliseGenres(raw))) == NormaliseGenres(raw)
  {
  }

  /** A genre token contains neither whitespace nor `|`. */
  predicate IsGenreToken(t: string) {
    IsWord(t) && '|' !in t
  }

  lemma {:induction false} ReplacePipesInJoin(ts: seq<string>)
    ensures ReplaceChar(Join(ts, '|'), '|', ' ') == ReplaceChar(Join(ts, ' '), '|', ' ')
    decreases |ts|
  {
    if |ts| > 1 {
      ReplacePipesInJoin(ts[1..]);
      ReplaceCharConcat(ts[0] + ['|'], Join(ts[1..], '|'), '|', ' ');
      ReplaceCharConcat(ts[0] + [' '], Join(ts[1..], ' '), '|', ' ');
      ReplaceCharConcat(ts[0], ['|'], '|', ' ');
      ReplaceCharConcat(ts[0], [' '], '|', ' ');
    }
  }

  lemma {:induction false} JoinWithoutPipes(ts: seq<string>)
    requires forall k :: 0 <= k < |ts| ==> '|' !in ts[k]
    ensures ReplaceChar(Join(ts, ' '), '|', ' ') == Join(ts, ' ')
    decreases |ts|
  {
    if |ts| == 1 {
      assert forall k :: 0 <= k < |ts[0]| ==> ts[0][k] != '|';
    } else if |ts| > 1 {
      JoinWithoutPipes(ts[1..]);
      ReplaceCharConcat(ts[0] + [' '], Join(ts[1..], ' '), '|', ' ');
      ReplaceCharConcat(ts[0], [' '], '|', ' ');
      assert forall k :: 0 <= k < |ts[0]| ==> ts[0][k] != '|';
    }
  }

  /** Pipe-separated genres read as the same genres separated by spaces. */
  lemma PipesBecomeSpaces(ts: seq<string>)
    requires forall k :: 0 <= k < |ts| ==> '|' !in ts[k]
    ensures NormaliseGenres(Present(Join(ts, '|'))) == Join(ts, ' ')
  {
    ReplacePipesInJoin(ts);
    JoinWithoutPipes(ts);
  }

  /** The dataset's pipe-separated genre format: the token list of
      `"Action|Comedy"` is `["Action", "Comedy"]`. */
  lemma PipeSeparatedGenresRoundTrip(ts: seq<string>)
    requires forall k :: 0 <= k < |ts| ==> IsGenreToken(ts[k])
    ensures Split(NormaliseGenres(Present(Join(ts, '|')))) == ts
  {
    PipesBecomeSpaces(ts);
    SplitJoin(ts);
  }

  /** One row of `load_data`. */
  function LoadRow(raw: RawMovie): (m: Movie)
    ensures m.title == raw.title
    ensures m.genres == NormaliseGenres(raw.genres)
    ensures forall k :: 0 <= k < |m.genresList| ==> IsGenreToken(m.genresList[k])
    ensures Concat(m.genresList) == NonSpace(m.genres)
  {
    var g := NormaliseGenres(raw.genres);
    var tokens := Split(g);
    SplitKeepsNonSpace(g);
    forall k | 0 <= k < |tokens|
      ensures '|' !in tokens[k]
    {
      TokenInSplit(g, k);
    }
    Movie(raw.title, g, tokens)
  }

  /** Every character of a token is a character of the split string. */
  lemma {:induction false} TokenInSplit(s: string, k: nat)
    requires k < |Split(s)|
    ensures forall c :: c in Split(s)[k] ==> c in s
    decreases |s|
  {
    if IsSpace(s[0]) {
      TokenInSplit(s[1..], k);
      assert forall c :: c in s[1..] ==> c in s;
    } else {
      var n := WordLength(s);
      if k > 0 {
        TokenInSplit(s[n..], k - 1);
        assert forall c :: c in s[n..] ==> c in s;
      } else {
        assert forall c :: c in s[..n] ==> c in s;
      }
    }
  }

  /** `load_data`: every row normalised, row order (and so every id) kept. */
  function LoadCatalog(raws: seq<RawMovie>): (cat: seq<Movie>)
    ensures |cat| == |raws|
    ensures forall i :: 0 <= i < |raws| ==> cat[i] == LoadRow(raws[i])
  {
    seq(|raws|, i requires 0 <= i < |raws| => LoadRow(raws[i]))
  }

  /** The catalog is what `load_data` produces from some CSV. */
  predicate IsLoaded(cat: seq<Movie>) {
    forall i :: 0 <= i < |cat| ==> cat[i].genresList == Split(cat[i].genres) && '|' !in cat[i].genres
  }

  lemma LoadCatalogIsLoaded(raws: seq<RawMovie>)
    ensures IsLoaded(LoadCatalog(raws))
  {
  }

  // ---------------------------------------------------------------------
  // Genre labels (movie_recommender.py:408): every alphabetic token of every
  // row, title-cased, without repeats, in increasing string order.

  ghost predicate StrictlySorted(s: seq<string>) {
    StrictlySortedBy(Less, s)
  }

  /** Inserts `x` into a strictly sorted list unless it is already there. */
  function InsertSorted(x: string, s: seq<string>): (r: seq<string>)
    requires StrictlySorted(s)
    ensures StrictlySorted(r)
    ensures forall y :: y in r <==> y == x || y in s
  {
    if |s| == 0 then [x]
    else if x == s[0] then s
    else if Less(x, s[0]) then
      assert forall j :: 0 < j < |s| ==> Less(x, s[j]) by {
        forall j | 0 < j < |s| { LessTransitive(x, s[0], s[j]); }
      }
      [x] + s
    else
      LessTotal(x, s[0]);
      var rest := InsertSorted(x, s[1..]);
      assert forall y :: y in rest ==> Less(s[0], y);
      [s[0]] + rest
  }

  /** The labels of a token list, sorted and without duplicates. */
  function SortedLabels(tokens: seq<string>): (r: seq<string>)
    ensures StrictlySorted(r)
    ensures forall l :: l in r <==> exists t :: t in tokens && IsAlphaWord(t) && TitleCase(t) == l
    decreases |tokens|
  {
    if |tokens| == 0 then []
    else
      var rest := SortedLabels(tokens[1..]);
      assert forall t :: t in tokens <==> t == tokens[0] || t in tokens[1..];
      if IsAlphaWord(tokens[0]) then InsertSorted(TitleCase(tokens[0]), rest) else rest
  }

  /** Every token of every row, in row order. */
  function AllTokens(cat: seq<Movie>): (r: seq<string>)
    ensures forall t :: t in r <==> exists i :: 0 <= i < |cat| && t in cat[i].genresList
    decreases |cat|
  {
    if |cat| == 0 then []
    else
      var rest := AllTokens(cat[1..]);
      assert forall i :: 1 <= i < |cat| ==> cat[i] == cat[1..][i - 1];
      cat[0].genresList + rest
  }

  /** `l` is the title-cased form of an alphabetic token of some row. */
  ghost predicate IsGenreLabel(cat: seq<Movie>, l: string) {
    exists i, t :: 0 <= i < |cat| && t in cat[i].genresList && IsAlphaWord(t) && TitleCase(t) == l
  }

  /** The genre choices offered in the genre mode. */
  function GenreLabels(cat: seq<Movie>): (labels: seq<string>)
    ensures StrictlySorted(labels)
    ensures forall l :: l in labels <==> IsGenreLabel(cat, l)
    ensures forall l :: l in labels ==> IsTitleCased(l) && IsAlphaWord(l)
  {
    var r := SortedLabels(AllTokens(cat));
    forall l | l in r
      ensures IsTitleCased(l) && IsAlphaWord(l)
    {
      var t :| t in AllTokens(cat) && IsAlphaWord(t) && TitleCase(t) == l;
      TitleCaseOfAlphaWord(t);
    }
    r
  }

  /** The labels are exactly `sorted(set(...))`: any strictly increasing list
      of the same labels is this one. */
  lemma GenreLabelsCanonical(cat: seq<Movie>, other: seq<string>)
    requires StrictlySorted(other)
    requires forall l :: l in other <==> IsGenreLabel(cat, l)
    ensures other == GenreLabels(cat)
  {
    var less := (a: string, b: string) => Less(a, b);
    forall x, y
      ensures less(x, y) ==> !less(y, x)
    {
      LessAsymmetric(x, y);
    }
    StrictlySortedUnique(less, other, GenreLabels(cat));
  }
}
