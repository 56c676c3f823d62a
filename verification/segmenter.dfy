/** `formatText` of the reader component: the segmentation of a text into the phrases that are
    highlighted and spoken one at a time, and the pause taken after each phrase.

    The source builds the segmentation from three `String.prototype.split` calls whose regular
    expressions each consist of one capturing group; JavaScript then returns the captured
    separators as pieces of their own. `Split` reproduces the ECMAScript split loop and
    `MatchAt` the three regular expressions, so that the model follows what the code computes
    rather than an idealised segmenter. */
module Segmenter {
  import opened Wrappers
  import opened JsText

  predicate IsSentencePunct(c: char) {
    c == '.' || c == '!' || c == '?'
  }

  predicate IsClausePunct(c: char) {
    c == ',' || c == ';' || c == ':'
  }

  /** The three regular expressions formatText splits on. */
  datatype Pattern =
    | SentenceBreak     // /([.!?]+\s+)/
    | ClauseBreak       // /([,;:](?:\s+|$))/
    | ConjunctionBreak  // /(\s+(?:and|but|or|nor|for|so|yet)\s+)/

  /** The alternatives of the conjunction group, in the order the regular expression lists them. */
  const Conjunctions: seq<string> := ["and", "but", "or", "nor", "for", "so", "yet"]

  /** Index just past the longest run of characters satisfying `p` that starts at `i`: where a
      greedy `[...]+` or `\s+` stops. */
  function RunEnd(s: string, i: nat, p: char -> bool): (j: nat)
    requires i <= |s|
    ensures i <= j <= |s|
    ensures forall k :: i <= k < j ==> p(s[k])
    ensures j == |s| || !p(s[j])
    decreases |s| - i
  {
    if i < |s| && p(s[i]) then RunEnd(s, i + 1, p) else i
  }

  /** Every character of `s[a..b]` satisfies `p`. */
  predicate AllIn(s: string, a: nat, b: nat, p: char -> bool) {
    b <= |s| && forall k :: a <= k < b ==> p(s[k])
  }

  /** The word `w` stands at `j` and is followed by a whitespace character. */
  predicate WordAt(s: string, j: nat, w: string) {
    j + |w| < |s| && s[j..j + |w|] == w && IsSpace(s[j + |w|])
  }

  /** The alternation `(?:and|but|...)` followed by the first character of `\s+`, at position `j`:
      the alternatives are tried in order and the first one that is followed by whitespace wins,
      as backtracking does. The result is the index of that whitespace character. */
  function ConjunctionEnd(s: string, j: nat, words: seq<string>): (k: Option<nat>)
    requires j <= |s|
    ensures k.Some? ==> j <= k.value < |s| && IsSpace(s[k.value])
  {
    if |words| == 0 then None
    else
      var k := j + |words[0]|;
      if k < |s| && s[j..k] == words[0] && IsSpace(s[k]) then Some(k)
      else ConjunctionEnd(s, j, words[1..])
  }

  /** The alternation finds a word exactly when one of `words` stands at `j` followed by
      whitespace, and the text up to the result is such a word. */
  lemma {:induction false} ConjunctionEndFinds(s: string, j: nat, words: seq<string>)
    requires j <= |s|
    ensures ConjunctionEnd(s, j, words).Some? <==> exists w :: w in words && WordAt(s, j, w)
    ensures ConjunctionEnd(s, j, words).Some? ==>
      var k := ConjunctionEnd(s, j, words).value;
      s[j..k] in words && WordAt(s, j, s[j..k])
    decreases |words|
  {
    if |words| > 0 {
      var k := j + |words[0]|;
      if k < |s| && s[j..k] == words[0] && IsSpace(s[k]) {
        assert words[0] in words && WordAt(s, j, words[0]);
      } else {
        ConjunctionEndFinds(s, j, words[1..]);
        assert !WordAt(s, j, words[0]);
        assert forall w :: w in words <==> w == words[0] || w in words[1..];
      }
    }
  }

  /** The end of a match of `pat` that starts exactly at `q`, as a JavaScript regular expression
      matcher reports it, or None. Greedy runs never need to give back characters here: the
      character that follows a maximal `[.!?]+` or `\s+` run is never one the next element can
      start with when a shorter run is taken, so a match exists only at the maximal runs. The
      lemmas below state, pattern by pattern, exactly when a match exists and where it ends. */
  function MatchAt(pat: Pattern, s: string, q: nat): (e: Option<nat>)
    requires q <= |s|
    ensures e.Some? ==> q < e.value <= |s|
    ensures pat == SentenceBreak && e.Some? ==>
      && IsSentencePunct(s[q]) && IsSpace(s[e.value - 1])
      && forall k :: q <= k < e.value ==> IsSentencePunct(s[k]) || IsSpace(s[k])
    ensures pat == SentenceBreak && q < |s| && !IsSentencePunct(s[q]) ==> e.None?
    ensures pat == ClauseBreak && e.Some? ==> IsClausePunct(s[q])
    ensures pat == ClauseBreak && q < |s| && !IsClausePunct(s[q]) ==> e.None?
    ensures pat == ConjunctionBreak && e.Some? ==> IsSpace(s[q]) && IsSpace(s[e.value - 1])
    ensures pat == ConjunctionBreak && q < |s| && !IsSpace(s[q]) ==> e.None?
  {
    if q == |s| then None
    else match pat
      case SentenceBreak => SentenceMatch(s, q)
      case ClauseBreak => ClauseMatch(s, q)
      case ConjunctionBreak => ConjunctionMatch(s, q)
  }

  /** `[.!?]+\s+` at `q`. */
  function SentenceMatch(s: string, q: nat): (e: Option<nat>)
    requires q < |s|
    ensures e.Some? ==> q < e.value <= |s|
    ensures e.Some? ==>
      && IsSentencePunct(s[q]) && IsSpace(s[e.value - 1])
      && forall k :: q <= k < e.value ==> IsSentencePunct(s[k]) || IsSpace(s[k])
    ensures !IsSentencePunct(s[q]) ==> e.None?
  {
    if IsSentencePunct(s[q]) then
      var j := RunEnd(s, q, IsSentencePunct);
      if j < |s| && IsSpace(s[j]) then Some(RunEnd(s, j, IsSpace)) else None
    else None
  }

  /** `[,;:](?:\s+|$)` at `q`. */
  function ClauseMatch(s: string, q: nat): (e: Option<nat>)
    requires q < |s|
    ensures e.Some? ==> q < e.value <= |s| && IsClausePunct(s[q])
    ensures !IsClausePunct(s[q]) ==> e.None?
  {
    if IsClausePunct(s[q]) then
      if q + 1 < |s| && IsSpace(s[q + 1]) then Some(RunEnd(s, q + 1, IsSpace))
      else if q + 1 == |s| then Some(|s|)    // the `$` alternative
      else None
    else None
  }

  /** `\s+(?:and|but|or|nor|for|so|yet)\s+` at `q`. */
  function ConjunctionMatch(s: string, q: nat): (e: Option<nat>)
    requires q < |s|
    ensures e.Some? ==> q < e.value <= |s| && IsSpace(s[q]) && IsSpace(s[e.value - 1])
    ensures !IsSpace(s[q]) ==> e.None?
  {
    if IsSpace(s[q]) then
      var j := RunEnd(s, q, IsSpace);
      match ConjunctionEnd(s, j, Conjunctions)
      case None => None
      case Some(k) => Some(RunEnd(s, k, IsSpace))
    else None
  }

  /** `/([.!?]+\s+)/` matches at `q` exactly when a run of sentence punctuation starting at `q`
      is directly followed by whitespace; the match takes the whole whitespace run. */
  lemma SentenceBreakMatch(s: string, q: nat)
    requires q <= |s|
    ensures MatchAt(SentenceBreak, s, q).Some? <==>
      exists j :: q < j < |s| && AllIn(s, q, j, IsSentencePunct) && IsSpace(s[j])
    ensures MatchAt(SentenceBreak, s, q).Some? ==>
      var e := MatchAt(SentenceBreak, s, q).value;
      && (exists j :: q < j < e && AllIn(s, q, j, IsSentencePunct) && AllIn(s, j, e, IsSpace))
      && (e == |s| || !IsSpace(s[e]))
  {
    if q < |s| {
      var j := RunEnd(s, q, IsSentencePunct);
      forall j' | q < j' < |s| && AllIn(s, q, j', IsSentencePunct) && IsSpace(s[j'])
        ensures j' == j
      {
        assert IsSentencePunct(s[q]);
        assert !IsSentencePunct(s[j']);
      }
      if MatchAt(SentenceBreak, s, q).Some? {
        assert AllIn(s, q, j, IsSentencePunct);
      }
    }
  }

  /** `/([,;:](?:\s+|$))/` matches at `q` exactly when a clause mark at `q` is followed by
      whitespace or ends the text; the match takes the mark and the whole whitespace run. */
  lemma ClauseBreakMatch(s: string, q: nat)
    requires q <= |s|
    ensures MatchAt(ClauseBreak, s, q).Some? <==>
      q < |s| && IsClausePunct(s[q]) && (q + 1 == |s| || IsSpace(s[q + 1]))
    ensures MatchAt(ClauseBreak, s, q).Some? ==>
      var e := MatchAt(ClauseBreak, s, q).value;
      AllIn(s, q + 1, e, IsSpace) && (e == |s| || !IsSpace(s[e]))
  {
  }

  /** `/(\s+(?:and|but|or|nor|for|so|yet)\s+)/` matches at `q` exactly when the whitespace run
      starting at `q` is followed by one of the conjunctions and whitespace; the match takes the
      whole whitespace run after the word. */
  lemma ConjunctionBreakMatch(s: string, q: nat)
    requires q <= |s|
    ensures MatchAt(ConjunctionBreak, s, q).Some? <==>
      q < |s| && IsSpace(s[q]) && exists w :: w in Conjunctions && WordAt(s, RunEnd(s, q, IsSpace), w)
    ensures MatchAt(ConjunctionBreak, s, q).Some? ==>
      var e := MatchAt(ConjunctionBreak, s, q).value;
      && (exists w :: w in Conjunctions && WordAt(s, RunEnd(s, q, IsSpace), w)
           && AllIn(s, RunEnd(s, q, IsSpace) + |w|, e, IsSpace))
      && (e == |s| || !IsSpace(s[e]))
  {
    if q < |s| && IsSpace(s[q]) {
      ConjunctionEndFinds(s, RunEnd(s, q, IsSpace), Conjunctions);
    }
    if MatchAt(ConjunctionBreak, s, q).Some? {
      var j := RunEnd(s, q, IsSpace);
      var k := ConjunctionEnd(s, j, Conjunctions).value;
      var w := s[j..k];
      assert w in Conjunctions && WordAt(s, j, w) && j + |w| == k;
    }
  }

  /** The separator `sep` stands at offset `o`: `pat` matches there and `sep` is the match. */
  predicate SeparatorAt(pat: Pattern, s: string, o: nat, sep: string) {
    o <= |s| && MatchAt(pat, s, o).Some? && sep == s[o..MatchAt(pat, s, o).value]
  }

  /** No match of `pat` starts at any position of `[a, b)`. */
  predicate NoMatchIn(pat: Pattern, s: string, a: nat, b: nat) {
    forall o: nat :: a <= o < b && o <= |s| ==> MatchAt(pat, s, o).None?
  }

  /** `ok` holds of each odd element of `r` together with its offset, for `r` starting at `p`. */
  predicate OddElements(ok: (nat, string) -> bool, p: nat, r: seq<string>) {
    forall k :: 0 <= k < |r| && k % 2 == 1 ==> ok(p + |Concat(r[..k])|, r[k])
  }

  /** `ok` holds of the start and end offsets of each even element of `r` after the first. */
  predicate LaterEvenElements(ok: (nat, nat) -> bool, p: nat, r: seq<string>) {
    forall k :: 0 < k < |r| && k % 2 == 0 ==>
      ok(p + |Concat(r[..k])|, p + |Concat(r[..k])| + |r[k]|)
  }

  function IsSeparator(pat: Pattern, s: string): (nat, string) -> bool {
    (o: nat, sep: string) => SeparatorAt(pat, s, o, sep)
  }

  function IsMatchFree(pat: Pattern, s: string): (nat, nat) -> bool {
    (a: nat, b: nat) => NoMatchIn(pat, s, a, b)
  }

  /** The odd elements of a split starting at `p` are the matches found at their offsets. */
  predicate SeparatorsAreMatches(pat: Pattern, s: string, p: nat, r: seq<string>) {
    OddElements(IsSeparator(pat, s), p, r)
  }

  /** No match starts inside an even element of a split starting at `p` whose scan began at
      `q`: the first piece is free of matches from `q` on, the later ones throughout. */
  predicate PiecesHaveNoMatch(pat: Pattern, s: string, p: nat, q: nat, r: seq<string>) {
    |r| > 0 && NoMatchIn(pat, s, q, p + |r[0]|) && LaterEvenElements(IsMatchFree(pat, s), p, r)
  }

  /** The ECMAScript split loop from the scan position `q`, the current piece starting at `p`:
      where `pat` matches at `q`, the text since `p` and the captured separator are emitted and
      the scan resumes after the separator; otherwise the scan moves on by one. Because every
      match of the three patterns is non-empty, the loop's empty-match rule never applies. */
  function SplitFrom(pat: Pattern, s: string, p: nat, q: nat): (r: seq<string>)
    requires p <= q <= |s|
    ensures |r| % 2 == 1
    ensures Concat(r) == s[p..]
    decreases |s| - q
  {
    if q == |s| then
      [s[p..]]
    else
      match MatchAt(pat, s, q)
      case None => SplitFrom(pat, s, p, q + 1)
      case Some(e) =>
        var rest := SplitFrom(pat, s, e, e);
        ConcatEmitted(s, p, q, e, rest);
        [s[p..q], s[q..e]] + rest
  }

  /** A piece and a separator put back in front of the rest of the text. */
  lemma ConcatEmitted(s: string, p: nat, q: nat, e: nat, rest: seq<string>)
    requires p <= q <= e <= |s| && Concat(rest) == s[e..]
    ensures Concat([s[p..q], s[q..e]] + rest) == s[p..]
  {
    assert ([s[p..q], s[q..e]] + rest)[1..] == [s[q..e]] + rest;
    assert ([s[q..e]] + rest)[1..] == rest;
    assert s[p..] == s[p..q] + (s[q..e] + s[e..]);
  }

  /** The split loop passes over a position where the pattern does not match. */
  lemma SplitFromSkips(pat: Pattern, s: string, p: nat, q: nat)
    requires p <= q < |s| && MatchAt(pat, s, q).None?
    ensures SplitFrom(pat, s, p, q) == SplitFrom(pat, s, p, q + 1)
  {
  }

  /** The split loop emits the piece and the separator where the pattern matches. */
  lemma SplitFromEmits(pat: Pattern, s: string, p: nat, q: nat, e: nat)
    requires p <= q < |s| && MatchAt(pat, s, q) == Some(e)
    ensures e <= |s|
    ensures SplitFrom(pat, s, p, q) == [s[p..q], s[q..e]] + SplitFrom(pat, s, e, e)
  {
  }

  /** The offsets of `[a, b] + rest` are those of `rest` moved by `|a| + |b|`. */
  lemma ConcatPrefixShift(a: string, b: string, rest: seq<string>, k: nat)
    requires 2 <= k <= |rest| + 2
    ensures |Concat(([a, b] + rest)[..k])| == |a| + |b| + |Concat(rest[..k - 2])|
  {
    assert ([a, b] + rest)[..k] == [a, b] + rest[..k - 2];
    ConcatAppend([a, b], rest[..k - 2]);
    assert [a, b][1..] == [b];
    assert Concat([a, b]) == a + Concat([b]);
  }

  /** Prepending a piece and a separator that satisfies `ok` keeps `ok` on the odd elements. */
  lemma OddElementsStep(ok: (nat, string) -> bool, s: string, p: nat, q: nat, e: nat, rest: seq<string>)
    requires p <= q < e <= |s|
    requires ok(q, s[q..e]) && OddElements(ok, e, rest)
    ensures OddElements(ok, p, [s[p..q], s[q..e]] + rest)
  {
    var r := [s[p..q], s[q..e]] + rest;
    assert r[..1] == [s[p..q]];
    forall k | 0 <= k < |r| && k % 2 == 1
      ensures ok(p + |Concat(r[..k])|, r[k])
    {
      if k > 1 {
        ConcatPrefixShift(s[p..q], s[q..e], rest, k);
        assert r[k] == rest[k - 2] && (k - 2) % 2 == 1;
      }
    }
  }

  /** Prepending a piece and a separator moves the first piece of `rest` among the later ones. */
  lemma EvenElementsStep(ok: (nat, nat) -> bool, s: string, p: nat, q: nat, e: nat, rest: seq<string>)
    requires p <= q < e <= |s| && |rest| > 0
    requires ok(e, e + |rest[0]|) && LaterEvenElements(ok, e, rest)
    ensures LaterEvenElements(ok, p, [s[p..q], s[q..e]] + rest)
  {
    var r := [s[p..q], s[q..e]] + rest;
    forall k | 0 < k < |r| && k % 2 == 0
      ensures ok(p + |Concat(r[..k])|, p + |Concat(r[..k])| + |r[k]|)
    {
      ConcatPrefixShift(s[p..q], s[q..e], rest, k);
      assert r[k] == rest[k - 2];
      if k == 2 {
        assert rest[..0] == [];
      }
    }
  }

  /** Both halves of the cut property of a split from `p` whose scan began at `q`. */
  predicate CutsRight(pat: Pattern, s: string, p: nat, q: nat, r: seq<string>) {
    SeparatorsAreMatches(pat, s, p, r) && PiecesHaveNoMatch(pat, s, p, q, r)
  }

  /** At the end of the text the split loop emits the rest as its last piece. */
  lemma CutsAtEnd(pat: Pattern, s: string, p: nat)
    requires p <= |s|
    ensures CutsRight(pat, s, p, |s|, SplitFrom(pat, s, p, |s|))
  {
    assert SplitFrom(pat, s, p, |s|) == [s[p..]];
  }

  /** A position where the pattern does not match extends a match-free range by one. */
  lemma NoMatchExtend(pat: Pattern, s: string, q: nat, b: nat)
    requires q <= |s| && MatchAt(pat, s, q).None?
    requires NoMatchIn(pat, s, q + 1, b)
    ensures NoMatchIn(pat, s, q, b)
  {
  }

  /** A position where the pattern does not match extends the first piece's match-free range. */
  lemma CutsAfterSkip(pat: Pattern, s: string, p: nat, q: nat)
    requires p <= q < |s| && MatchAt(pat, s, q).None?
    requires CutsRight(pat, s, p, q + 1, SplitFrom(pat, s, p, q + 1))
    ensures CutsRight(pat, s, p, q, SplitFrom(pat, s, p, q))
  {
    SplitFromSkips(pat, s, p, q);
    var r := SplitFrom(pat, s, p, q + 1);
    NoMatchExtend(pat, s, q, p + |r[0]|);
  }


  /** A match at `q` ending at `e`, followed by a split from `e` whose cuts are right. */
  lemma CutsAfterMatch(pat: Pattern, s: string, p: nat, q: nat, e: nat)
    requires p <= q < e <= |s| && MatchAt(pat, s, q) == Some(e)
    requires CutsRight(pat, s, e, e, SplitFrom(pat, s, e, e))
    ensures CutsRight(pat, s, p, q, SplitFrom(pat, s, p, q))
  {
    SplitFromEmits(pat, s, p, q, e);
    SeparatorsAfterMatch(pat, s, p, q, e, SplitFrom(pat, s, e, e));
    PiecesAfterMatch(pat, s, p, q, e, SplitFrom(pat, s, e, e));
  }

  lemma SeparatorsAfterMatch(pat: Pattern, s: string, p: nat, q: nat, e: nat, rest: seq<string>)
    requires p <= q < e <= |s| && MatchAt(pat, s, q) == Some(e)
    requires SeparatorsAreMatches(pat, s, e, rest)
    ensures SeparatorsAreMatches(pat, s, p, [s[p..q], s[q..e]] + rest)
  {
    assert IsSeparator(pat, s)(q, s[q..e]);
    OddElementsStep(IsSeparator(pat, s), s, p, q, e, rest);
  }

  lemma PiecesAfterMatch(pat: Pattern, s: string, p: nat, q: nat, e: nat, rest: seq<string>)
    requires p <= q < e <= |s|
    requires PiecesHaveNoMatch(pat, s, e, e, rest)
    ensures PiecesHaveNoMatch(pat, s, p, q, [s[p..q], s[q..e]] + rest)
  {
    assert IsMatchFree(pat, s)(e, e + |rest[0]|);
    EvenElementsStep(IsMatchFree(pat, s), s, p, q, e, rest);
  }

  /** `s.split(pat)`: the pieces between matches, with each captured separator in between.
      (ECMAScript's special case for the empty string returns `[s]` here, as none of the
      patterns matches the empty string.) */
  function Split(pat: Pattern, s: string): (r: seq<string>)
    ensures |r| % 2 == 1
    ensures Concat(r) == s
  {
    SplitFrom(pat, s, 0, 0)
  }

  /** Where the split loop cuts: every separator it emits is the match found at its offset, and
      no match starts inside a piece at or after the scan position. */
  lemma {:induction false} SplitFromCuts(pat: Pattern, s: string, p: nat, q: nat)
    requires p <= q <= |s|
    ensures CutsRight(pat, s, p, q, SplitFrom(pat, s, p, q))
    decreases |s| - q
  {
    if q == |s| {
      CutsAtEnd(pat, s, p);
    } else {
      var m := MatchAt(pat, s, q);
      if m.None? {
        SplitFromCuts(pat, s, p, q + 1);
        CutsAfterSkip(pat, s, p, q);
      } else {
        SplitFromCuts(pat, s, m.value, m.value);
        CutsAfterMatch(pat, s, p, q, m.value);
      }
    }
  }

  /** `s.split(pat)` cuts exactly at the matches: its odd elements are the matches at their
      offsets and no match starts inside an even element. */
  lemma SplitCuts(pat: Pattern, s: string)
    ensures SeparatorsAreMatches(pat, s, 0, Split(pat, s))
    ensures PiecesHaveNoMatch(pat, s, 0, 0, Split(pat, s))
  {
    SplitFromCuts(pat, s, 0, 0);
  }

  /** Positions where the pattern does not match are passed over without emitting anything. */
  lemma {:induction false} SplitSkip(pat: Pattern, s: string, p: nat, q: nat, q': nat)
    requires p <= q <= q' <= |s|
    requires forall k :: q <= k < q' ==> MatchAt(pat, s, k).None?
    ensures SplitFrom(pat, s, p, q) == SplitFrom(pat, s, p, q')
    decreases q' - q
  {
    if q < q' {
      assert MatchAt(pat, s, q).None?;
      SplitSkip(pat, s, p, q + 1, q');
    }
  }

  /** Where the pattern matches nowhere from `q` on, the split has a single piece. */
  lemma {:induction false} SplitWithoutMatch(pat: Pattern, s: string, p: nat, q: nat)
    requires p <= q <= |s|
    requires forall k :: q <= k < |s| ==> MatchAt(pat, s, k).None?
    ensures SplitFrom(pat, s, p, q) == [s[p..]]
    decreases |s| - q
  {
    if q < |s| {
      SplitWithoutMatch(pat, s, p, q + 1);
    }
  }

  /** `/^[.!?,;:\s]+$/`: a non-empty piece made only of punctuation and whitespace. */
  predicate PunctuationOnly(s: string) {
    |s| > 0 && forall i :: 0 <= i < |s| ==> IsSentencePunct(s[i]) || IsClausePunct(s[i]) || IsSpace(s[i])
  }

  /** `/^[,;:]/`: a piece that starts with clause punctuation. */
  predicate StartsWithClausePunct(s: string) {
    |s| > 0 && IsClausePunct(s[0])
  }

  /** `xs[xs.length - 1] += tail`, which the source guards with `xs.length > 0`: the tail joins
      the last element, or is dropped when there is none. */
  function AppendToLast(xs: seq<string>, tail: string): (r: seq<string>)
    ensures |r| == |xs|
    ensures |xs| > 0 ==> r[..|r| - 1] == xs[..|xs| - 1] && r[|r| - 1] == xs[|xs| - 1] + tail
    ensures |xs| > 0 ==> Concat(r) == Concat(xs) + tail
  {
    if |xs| == 0 then xs
    else
      var r := xs[..|xs| - 1] + [xs[|xs| - 1] + tail];
      ConcatAppend(xs[..|xs| - 1], [xs[|xs| - 1]]);
      ConcatAppend(xs[..|xs| - 1], [xs[|xs| - 1] + tail]);
      assert xs[..|xs| - 1] + [xs[|xs| - 1]] == xs;
      r
  }

  /** Longest clause the source speaks as it is; longer ones are split at conjunctions. */
  const MaxClauseLength := 100

  /** One step of the inner `reduce`, over the pieces of a sentence split at clause punctuation. */
  function AddClausePart(acc: seq<string>, part: string): (r: seq<string>)
    // a piece opening with `,;:` never starts a phrase: it extends the last one or is dropped
    ensures StartsWithClausePunct(part) ==> |r| == |acc|
    ensures StartsWithClausePunct(part) && |acc| > 0 ==> r[..|acc| - 1] == acc[..|acc| - 1] && Concat(r) == Concat(acc) + part
    // a long piece is split at conjunctions; its pieces, separators included, are kept untrimmed
    ensures !StartsWithClausePunct(part) && |part| > MaxClauseLength ==>
      && |r| >= |acc| && r[..|acc|] == acc
      && r[|acc|..] == NonEmpty(Split(ConjunctionBreak, part))
      && Concat(r[|acc|..]) == part
    // a short piece is kept trimmed, if anything is left of it
    ensures !StartsWithClausePunct(part) && |part| <= MaxClauseLength ==>
      && (|r| == |acc| + 1 <==> !AllSpace(part))
      && (|r| == |acc| + 1 ==> r == acc + [Trim(part)])
      && (|r| != |acc| + 1 ==> r == acc)
  {
    if StartsWithClausePunct(part) then AppendToLast(acc, part)
    else if |part| > MaxClauseLength then
      var subs := NonEmpty(Split(ConjunctionBreak, part));
      assert (acc + subs)[|acc|..] == subs;
      acc + subs
    else if |Trim(part)| > 0 then acc + [Trim(part)]
    else acc
  }

  /** `r` grows `acc` the way the reduces do: the phrases before the last one are left alone,
      the last one may be extended, and new phrases only come after. */
  predicate Extends(acc: seq<string>, r: seq<string>) {
    |r| >= |acc| && (|acc| > 0 ==> r[..|acc| - 1] == acc[..|acc| - 1])
  }

  lemma ExtendsTransitive(a: seq<string>, b: seq<string>, c: seq<string>)
    requires Extends(a, b) && Extends(b, c)
    ensures Extends(a, c)
  {
    if |a| > 0 {
      assert c[..|a| - 1] == c[..|b| - 1][..|a| - 1];
      assert b[..|a| - 1] == b[..|b| - 1][..|a| - 1];
    }
  }

  lemma ClausePartExtends(acc: seq<string>, part: string)
    ensures Extends(acc, AddClausePart(acc, part))
  {
    var r := AddClausePart(acc, part);
    if |acc| > 0 && !StartsWithClausePunct(part) {
      assert r[..|acc|] == acc;
      assert r[..|acc| - 1] == r[..|acc|][..|acc| - 1];
    }
  }

  /** The inner `reduce` from `acc` over the remaining clause pieces. It only ever extends the
      last phrase or appends new ones. */
  function AddClauseParts(acc: seq<string>, parts: seq<string>): (r: seq<string>)
    ensures Extends(acc, r)
    decreases |parts|
  {
    if |parts| == 0 then acc
    else
      var next := AddClausePart(acc, parts[0]);
      var r := AddClauseParts(next, parts[1..]);
      ClausePartExtends(acc, parts[0]);
      ExtendsTransitive(acc, next, r);
      r
  }

  /** The phrases one sentence piece yields; none of them is empty. */
  function SentencePhrases(sentence: string): (r: seq<string>)
    ensures AllNonEmpty(r)
  {
    AddClausePartsNonEmpty([], Split(ClauseBreak, sentence));
    AddClauseParts([], Split(ClauseBreak, sentence))
  }

  /** One step of the outer `reduce`, over the pieces of the text split at sentence punctuation. */
  function AddSentence(chunks: seq<string>, sentence: string): (r: seq<string>)
    ensures AllSpace(sentence) ==> r == chunks
    // a punctuation-only piece never becomes a chunk of its own
    ensures PunctuationOnly(sentence) ==> |r| == |chunks|
    ensures PunctuationOnly(sentence) && |chunks| > 0 ==> r[..|r| - 1] == chunks[..|chunks| - 1]
    ensures PunctuationOnly(sentence) && !AllSpace(sentence) && |chunks| > 0 ==> Concat(r) == Concat(chunks) + sentence
    ensures !PunctuationOnly(sentence) && !AllSpace(sentence) ==> r == chunks + SentencePhrases(sentence)
  {
    if |Trim(sentence)| == 0 then chunks
    else if PunctuationOnly(sentence) then AppendToLast(chunks, sentence)
    else chunks + SentencePhrases(sentence)
  }

  lemma SentenceExtends(chunks: seq<string>, sentence: string)
    ensures Extends(chunks, AddSentence(chunks, sentence))
  {
    var r := AddSentence(chunks, sentence);
    if |chunks| > 0 && !PunctuationOnly(sentence) && !AllSpace(sentence) {
      assert r[..|chunks| - 1] == chunks[..|chunks| - 1];
    }
  }

  /** The outer `reduce` from `chunks` over the remaining sentence pieces. It only ever extends
      the last chunk or appends new ones. */
  function AddSentences(chunks: seq<string>, sentences: seq<string>): (r: seq<string>)
    ensures Extends(chunks, r)
    decreases |sentences|
  {
    if |sentences| == 0 then chunks
    else
      var next := AddSentence(chunks, sentences[0]);
      var r := AddSentences(next, sentences[1..]);
      SentenceExtends(chunks, sentences[0]);
      ExtendsTransitive(chunks, next, r);
      r
  }

  /** formatText: split at sentence punctuation, drop empty pieces, then fold the pieces into
      phrases. No phrase is empty, and a text of only whitespace has no phrases. */
  function FormatText(text: string): (r: seq<string>)
    ensures forall i :: 0 <= i < |r| ==> |r[i]| > 0
    ensures AllSpace(text) ==> r == []
  {
    var sentences := NonEmpty(Split(SentenceBreak, text));
    AddSentencesNonEmpty([], sentences);
    BlankHasNoPhrases(text);
    AddSentences([], sentences)
  }

  predicate AllNonEmpty(xs: seq<string>) {
    forall i :: 0 <= i < |xs| ==> |xs[i]| > 0
  }

  lemma ConcatenationNonEmpty(a: seq<string>, b: seq<string>)
    requires AllNonEmpty(a) && AllNonEmpty(b)
    ensures AllNonEmpty(a + b)
  {
    forall i | 0 <= i < |a + b| ensures |(a + b)[i]| > 0 {
      if i >= |a| { assert (a + b)[i] == b[i - |a|]; }
    }
  }

  lemma AppendToLastNonEmpty(xs: seq<string>, tail: string)
    requires AllNonEmpty(xs)
    ensures AllNonEmpty(AppendToLast(xs, tail))
  {
    if |xs| > 0 {
      var r := AppendToLast(xs, tail);
      forall i | 0 <= i < |r| ensures |r[i]| > 0 {
        if i < |r| - 1 { assert r[i] == r[..|r| - 1][i] == xs[i]; }
      }
    }
  }

  lemma AddClausePartNonEmpty(acc: seq<string>, part: string)
    requires AllNonEmpty(acc)
    ensures AllNonEmpty(AddClausePart(acc, part))
  {
    if StartsWithClausePunct(part) {
      AppendToLastNonEmpty(acc, part);
    } else if |part| > MaxClauseLength {
      ConcatenationNonEmpty(acc, NonEmpty(Split(ConjunctionBreak, part)));
    } else if |Trim(part)| > 0 {
      ConcatenationNonEmpty(acc, [Trim(part)]);
    }
  }

  lemma {:induction false} AddClausePartsNonEmpty(acc: seq<string>, parts: seq<string>)
    requires AllNonEmpty(acc)
    ensures AllNonEmpty(AddClauseParts(acc, parts))
    decreases |parts|
  {
    if |parts| > 0 {
      AddClausePartNonEmpty(acc, parts[0]);
      AddClausePartsNonEmpty(AddClausePart(acc, parts[0]), parts[1..]);
    }
  }

  lemma AddSentenceNonEmpty(chunks: seq<string>, sentence: string)
    requires AllNonEmpty(chunks)
    ensures AllNonEmpty(AddSentence(chunks, sentence))
  {
    if |Trim(sentence)| == 0 {
    } else if PunctuationOnly(sentence) {
      AppendToLastNonEmpty(chunks, sentence);
    } else {
      AddClausePartsNonEmpty([], Split(ClauseBreak, sentence));
      ConcatenationNonEmpty(chunks, SentencePhrases(sentence));
    }
  }

  lemma {:induction false} AddSentencesNonEmpty(chunks: seq<string>, sentences: seq<string>)
    requires AllNonEmpty(chunks)
    ensures AllNonEmpty(AddSentences(chunks, sentences))
    decreases |sentences|
  {
    if |sentences| > 0 {
      AddSentenceNonEmpty(chunks, sentences[0]);
      AddSentencesNonEmpty(AddSentence(chunks, sentences[0]), sentences[1..]);
    }
  }

  /** Empty or whitespace-only text has no phrases. */
  lemma BlankHasNoPhrases(text: string)
    ensures AllSpace(text) ==> AddSentences([], NonEmpty(Split(SentenceBreak, text))) == []
  {
    if !AllSpace(text) { return; }
    SplitWithoutMatch(SentenceBreak, text, 0, 0);
    assert text[0..] == text;
    if |text| > 0 {
      assert NonEmpty([text]) == [text];
      assert AddSentences([], [text]) == AddSentences(AddSentence([], text), []);
    }
  }

  /** A non-blank text of at most 100 characters without any of `. ! ? , ; :` is one phrase:
      the text trimmed. */
  lemma SinglePhrase(text: string)
    requires !AllSpace(text) && |text| <= MaxClauseLength
    requires forall i :: 0 <= i < |text| ==> !IsSentencePunct(text[i]) && !IsClausePunct(text[i])
    ensures FormatText(text) == [Trim(text)]
  {
    SplitWithoutMatch(SentenceBreak, text, 0, 0);
    SplitWithoutMatch(ClauseBreak, text, 0, 0);
    assert text[0..] == text;
    assert NonEmpty([text]) == [text];
    var c :| 0 <= c < |text| && !IsSpace(text[c]);
    assert !PunctuationOnly(text);
    assert SentencePhrases(text) == AddClauseParts(AddClausePart([], text), []);
    assert AddSentences([], [text]) == AddSentences(AddSentence([], text), []);
  }

  /** The pause, in milliseconds, after phrase `phrase` is spoken: `/[.!?]$/` and `/[,;:]$/`
      look at the phrase's very last character, whitespace included. */
  function PauseAfter(phrase: string): (ms: nat)
    ensures ms == 800 <==> |phrase| > 0 && IsSentencePunct(phrase[|phrase| - 1])
    ensures ms == 400 <==> |phrase| > 0 && IsClausePunct(phrase[|phrase| - 1])
    ensures ms == 200 <==> |phrase| == 0 || !(IsSentencePunct(phrase[|phrase| - 1]) || IsClausePunct(phrase[|phrase| - 1]))
  {
    if |phrase| > 0 && IsSentencePunct(phrase[|phrase| - 1]) then 800
    else if |phrase| > 0 && IsClausePunct(phrase[|phrase| - 1]) then 400
    else 200
  }
}
