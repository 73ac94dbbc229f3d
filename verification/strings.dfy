/** The Python `str` methods the recommender relies on, restricted to ASCII:
    `split()`, `replace`, `isalpha`, `title`, `lower`, comparison `<`, and the
    case-insensitive substring test behind `Series.str.contains(..., case=False)`. */
module Strings {

  /** Whitespace as `str.split()` sees it among ASCII characters:
      \t \n \v \f \r (9-13), the separators \x1c-\x1f (28-31) and space (32). */
  predicate IsSpace(c: char) {
    (9 <= c as int <= 13) || (28 <= c as int <= 32)
  }

  predicate IsUpper(c: char) { 'A' <= c <= 'Z' }

  predicate IsLower(c: char) { 'a' <= c <= 'z' }

  predicate IsLetter(c: char) { IsUpper(c) || IsLower(c) }

  function ToLower(c: char): char {
    if IsUpper(c) then (c as int + 32) as char else c
  }

  function ToUpper(c: char): char {
    if IsLower(c) then (c as int - 32) as char else c
  }

  /** `s.lower()` */
  function Lower(s: string): string {
    seq(|s|, i requires 0 <= i < |s| => ToLower(s[i]))
  }

  // ---------------------------------------------------------------------
  // Substring search

  /** `p` occurs in `s` starting at position `k`. */
  predicate OccursAt(s: string, p: string, k: int) {
    0 <= k && k + |p| <= |s| && s[k..k + |p|] == p
  }

  /** `p in s`, scanning from the left. */
  predicate Contains(s: string, p: string)
    decreases |s|
  {
    (|p| <= |s| && s[..|p|] == p) || (|s| > 0 && Contains(s[1..], p))
  }

  lemma {:induction false} ContainsAtSome(s: string, p: string)
    requires Contains(s, p)
    ensures exists k :: OccursAt(s, p, k)
    decreases |s|
  {
    if |p| <= |s| && s[..|p|] == p {
      assert OccursAt(s, p, 0);
    } else {
      ContainsAtSome(s[1..], p);
      var k :| OccursAt(s[1..], p, k);
      assert s[1..][k..k + |p|] == s[k + 1..k + 1 + |p|];
      assert OccursAt(s, p, k + 1);
    }
  }

  lemma {:induction false} OccursAtContains(s: string, p: string, k: int)
    requires OccursAt(s, p, k)
    ensures Contains(s, p)
    decreases k
  {
    if k > 0 {
      assert s[1..][k - 1..k - 1 + |p|] == s[k..k + |p|];
      OccursAtContains(s[1..], p, k - 1);
    }
  }

  /** The scan agrees with the positional definition of a substring. */
  lemma ContainsIffOccurs(s: string, p: string)
    ensures Contains(s, p) <==> exists k :: OccursAt(s, p, k)
  {
    if Contains(s, p) {
      ContainsAtSome(s, p);
    }
    if k :| OccursAt(s, p, k) {
      OccursAtContains(s, p, k);
    }
  }

  /** Python's `re` patterns whose characters all stand for themselves. */
  predicate IsPlainPattern(p: string) {
    forall c :: c in p ==> c !in ".^$*+?{}[]\\|()"
  }

  /** `re.search(p, s, re.IGNORECASE)` for a plain ASCII pattern. */
  predicate ContainsIgnoreCase(s: string, p: string) {
    Contains(Lower(s), Lower(p))
  }

  lemma LowerIdempotent(s: string)
    ensures Lower(Lower(s)) == Lower(s)
  {
  }

  /** Matching ignores the case of both the text and the pattern. */
  lemma ContainsIgnoreCaseOfLower(s: string, p: string)
    ensures ContainsIgnoreCase(Lower(s), p) == ContainsIgnoreCase(s, p)
    ensures ContainsIgnoreCase(s, Lower(p)) == ContainsIgnoreCase(s, p)
  {
    LowerIdempotent(s);
    LowerIdempotent(p);
  }

  // ---------------------------------------------------------------------
  // str.replace and str.split

  /** `s.replace(a, b)` for single characters. */
  function ReplaceChar(s: string, a: char, b: char): string {
    seq(|s|, i requires 0 <= i < |s| => if s[i] == a then b else s[i])
  }

  lemma ReplaceCharConcat(x: string, y: string, a: char, b: char)
    ensures ReplaceChar(x + y, a, b) == ReplaceChar(x, a, b) + ReplaceChar(y, a, b)
  {
  }

  /** A token `split()` can return: non-empty, without whitespace. */
  predicate IsWord(t: string) {
    |t| > 0 && forall k :: 0 <= k < |t| ==> !IsSpace(t[k])
  }

  /** Length of the longest whitespace-free prefix of `s`. */
  function WordLength(s: string): (n: nat)
    ensures n <= |s|
    ensures forall k :: 0 <= k < n ==> !IsSpace(s[k])
    ensures n < |s| ==> IsSpace(s[n])
  {
    if |s| == 0 || IsSpace(s[0]) then 0 else 1 + WordLength(s[1..])
  }

  /** `s.split()`: runs of whitespace separate tokens, and leading or
      trailing whitespace yields no empty token. */
  function Split(s: string): (tokens: seq<string>)
    ensures forall k :: 0 <= k < |tokens| ==> IsWord(tokens[k])
    decreases |s|
  {
    if |s| == 0 then []
    else if IsSpace(s[0]) then Split(s[1..])
    else
      var n := WordLength(s);
      [s[..n]] + Split(s[n..])
  }

  /** `sep.join(ts)` for a one-character separator. */
  function Join(ts: seq<string>, sep: char): string {
    if |ts| == 0 then ""
    else if |ts| == 1 then ts[0]
    else ts[0] + [sep] + Join(ts[1..], sep)
  }

  /** All characters of `s` except whitespace, in order. */
  function NonSpace(s: string): string {
    if |s| == 0 then ""
    else if IsSpace(s[0]) then NonSpace(s[1..])
    else [s[0]] + NonSpace(s[1..])
  }

  /** Concatenation of a list of strings, in order. */
  function Concat(ts: seq<string>): string {
    if |ts| == 0 then "" else ts[0] + Concat(ts[1..])
  }

  lemma {:induction false} NonSpaceOfWordPrefix(s: string, n: nat)
    requires n <= |s|
    requires forall k :: 0 <= k < n ==> !IsSpace(s[k])
    ensures NonSpace(s) == s[..n] + NonSpace(s[n..])
    decreases n
  {
    if n > 0 {
      NonSpaceOfWordPrefix(s[1..], n - 1);
      assert s[1..][n - 1..] == s[n..];
      assert s[..n] == [s[0]] + s[1..][..n - 1];
    }
  }

  /** `split()` loses nothing but whitespace. */
  lemma {:induction false} SplitKeepsNonSpace(s: string)
    ensures Concat(Split(s)) == NonSpace(s)
    decreases |s|
  {
    if |s| == 0 {
    } else if IsSpace(s[0]) {
      SplitKeepsNonSpace(s[1..]);
    } else {
      var n := WordLength(s);
      SplitKeepsNonSpace(s[n..]);
      NonSpaceOfWordPrefix(s, n);
      assert Split(s) == [s[..n]] + Split(s[n..]);
      assert ([s[..n]] + Split(s[n..]))[1..] == Split(s[n..]);
    }
  }

  lemma WordLengthOfWord(t: string, rest: string)
    requires IsWord(t)
    requires |rest| > 0 ==> IsSpace(rest[0])
    ensures WordLength(t + rest) == |t|
  {
    var s := t + rest;
    assert forall k :: 0 <= k < |t| ==> s[k] == t[k];
    assert |rest| > 0 ==> s[|t|] == rest[0];
  }

  /** A whitespace run before the text yields no token: leading runs, and
      the runs between tokens, are skipped whole. */
  lemma {:induction false} SplitSkipsSpace(ws: string, s: string)
    requires forall k :: 0 <= k < |ws| ==> IsSpace(ws[k])
    ensures Split(ws + s) == Split(s)
    decreases |ws|
  {
    if |ws| > 0 {
      var x := ws + s;
      assert x[0] == ws[0];
      assert x[1..] == ws[1..] + s;
      assert Split(x) == Split(x[1..]);
      SplitSkipsSpace(ws[1..], s);
    } else {
      assert ws + s == s;
    }
  }

  /** A word up to a whitespace run, or up to the end, is exactly one token;
      with `SplitSkipsSpace` and `Split("") == []` this fixes `Split` on
      every string. */
  lemma SplitTakesWord(t: string, ws: string, s: string)
    requires IsWord(t)
    requires forall k :: 0 <= k < |ws| ==> IsSpace(ws[k])
    requires |ws| > 0 || |s| == 0
    ensures Split(t + ws + s) == [t] + Split(s)
  {
    assert t + ws + s == t + (ws + s);
    SplitWordThen(t, ws + s);
    SplitSkipsSpace(ws, s);
  }

  lemma SplitWordThen(t: string, rest: string)
    requires IsWord(t)
    requires |rest| > 0 ==> IsSpace(rest[0])
    ensures Split(t + rest) == [t] + Split(rest)
  {
    var x := t + rest;
    WordLengthOfWord(t, rest);
    assert x[0] == t[0];
    assert x[..|t|] == t;
    assert x[|t|..] == rest;
  }

  /** Splitting space-joined words gives the words back. */
  lemma {:induction false} SplitJoin(ts: seq<string>)
    requires forall k :: 0 <= k < |ts| ==> IsWord(ts[k])
    ensures Split(Join(ts, ' ')) == ts
    decreases |ts|
  {
    if |ts| == 1 {
      var t := ts[0];
      WordLengthOfWord(t, "");
      assert t + "" == t;
      assert t[..|t|] == t && t[|t|..] == "";
    } else if |ts| > 1 {
      var t := ts[0];
      var rest := Join(ts[1..], ' ');
      var s := Join(ts, ' ');
      assert s == t + ([' '] + rest);
      WordLengthOfWord(t, [' '] + rest);
      assert s[..|t|] == t;
      assert s[|t|..] == [' '] + rest;
      assert ([' '] + rest)[1..] == rest;
      SplitJoin(ts[1..]);
      assert Split(s) == [t] + ts[1..];
    }
  }

  /** Re-splitting the space-joined tokens of `s` gives the same tokens. */
  lemma SplitIdempotent(s: string)
    ensures Split(Join(Split(s), ' ')) == Split(s)
  {
    SplitJoin(Split(s));
  }

  /** Every token of `split()` occurs in the split string. */
  lemma {:induction false} TokenOccurs(s: string, k: nat)
    requires k < |Split(s)|
    ensures exists at :: OccursAt(s, Split(s)[k], at)
    decreases |s|
  {
    assert |s| > 0;
    var t := Split(s)[k];
    if IsSpace(s[0]) {
      assert Split(s) == Split(s[1..]);
      TokenOccurs(s[1..], k);
      var at :| OccursAt(s[1..], t, at);
      assert s[1..][at..at + |t|] == s[at + 1..at + 1 + |t|];
      assert OccursAt(s, t, at + 1);
    } else {
      var n := WordLength(s);
      assert Split(s) == [s[..n]] + Split(s[n..]);
      if k > 0 {
        assert t == Split(s[n..])[k - 1];
        TokenOccurs(s[n..], k - 1);
        var at :| OccursAt(s[n..], t, at);
        assert s[n..][at..at + |t|] == s[n + at..n + at + |t|];
        assert OccursAt(s, t, n + at);
      } else {
        assert t == s[..n];
        assert OccursAt(s, t, 0);
      }
    }
  }

  /** Lower-casing keeps an occurrence where it is. */
  lemma LowerOccurs(s: string, p: string, at: int)
    requires OccursAt(s, p, at)
    ensures OccursAt(Lower(s), Lower(p), at)
  {
    var q := Lower(s)[at..at + |p|];
    forall k | 0 <= k < |p|
      ensures q[k] == Lower(p)[k]
    {
      assert s[at + k] == p[k];
    }
  }

  // ---------------------------------------------------------------------
  // str.isalpha and str.title

  /** `t.isalpha()`: non-empty and made of letters only. */
  predicate IsAlphaWord(t: string) {
    |t| > 0 && forall k :: 0 <= k < |t| ==> IsLetter(t[k])
  }

  /** `t.title()` for a string without word breaks: the first character
      upper-cased and the rest lower-cased. */
  function TitleCase(t: string): string {
    if |t| == 0 then "" else [ToUpper(t[0])] + Lower(t[1..])
  }

  /** One upper-case letter followed by lower-case letters only. */
  predicate IsTitleCased(t: string) {
    |t| > 0 && IsUpper(t[0]) && forall k :: 1 <= k < |t| ==> IsLower(t[k])
  }

  lemma TitleCaseOfAlphaWord(t: string)
    requires IsAlphaWord(t)
    ensures IsTitleCased(TitleCase(t))
    ensures IsAlphaWord(TitleCase(t))
    ensures |TitleCase(t)| == |t|
  {
    var r := TitleCase(t);
    forall k | 1 <= k < |r|
      ensures IsLower(r[k])
    {
      assert r[k] == ToLower(t[k]);
    }
  }

  /** Title-casing changes only case: lower-cased, a word and its title
      form are the same string. */
  lemma LowerOfTitleCase(t: string)
    ensures Lower(TitleCase(t)) == Lower(t)
  {
    if |t| > 0 {
      var l := Lower(TitleCase(t));
      forall k | 0 <= k < |t|
        ensures l[k] == Lower(t)[k]
      {
        if k > 0 {
          assert TitleCase(t)[k] == ToLower(t[k]);
        }
      }
    }
  }

  /** Title-casing an already title-cased word changes nothing. */
  lemma TitleCaseIdempotent(t: string)
    requires IsTitleCased(t)
    ensures TitleCase(t) == t
  {
  }

  // ---------------------------------------------------------------------
  // String ordering

  /** Python's `a < b` on strings: lexicographic by code point, a proper
      prefix sorting first. */
  predicate Less(a: string, b: string)
    decreases |a|
  {
    if |a| == 0 then |b| > 0
    else if |b| == 0 then false
    else a[0] < b[0] || (a[0] == b[0] && Less(a[1..], b[1..]))
  }

  lemma {:induction false} LessIrreflexive(a: string)
    ensures !Less(a, a)
    decreases |a|
  {
    if |a| > 0 {
      LessIrreflexive(a[1..]);
    }
  }

  lemma {:induction false} LessAsymmetric(a: string, b: string)
    ensures Less(a, b) ==> !Less(b, a)
    decreases |a|
  {
    if |a| > 0 && |b| > 0 {
      LessAsymmetric(a[1..], b[1..]);
    }
  }

  lemma {:induction false} LessTransitive(a: string, b: string, c: string)
    requires Less(a, b) && Less(b, c)
    ensures Less(a, c)
    decreases |a|
  {
    if |a| > 0 && a[0] == b[0] && b[0] == c[0] {
      LessTransitive(a[1..], b[1..], c[1..]);
    }
  }

  lemma {:induction false} LessTotal(a: string, b: string)
    ensures a == b || Less(a, b) || Less(b, a)
    decreases |a|
  {
    if |a| > 0 && |b| > 0 && a[0] == b[0] {
      LessTotal(a[1..], b[1..]);
      if a[1..] == b[1..] {
        assert a == [a[0]] + a[1..] && b == [b[0]] + b[1..];
      }
    }
  }
}
