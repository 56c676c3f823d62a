/** Two texts worked through formatText. They show two consequences of the code as
    written: a sentence's separator stays attached to its phrase, whitespace included, so the
    sentence-end pause is taken only after a phrase that has nothing after its punctuation;
    and a clause piece that opens a sentence with a comma is dropped together with its text. */
module SegmenterExamples {
  import opened Wrappers
  import opened JsText
  import opened Segmenter

  const TwoSentences := "Go. Sit."
  const LeadingComma := "Go. ,x"

  lemma UntouchedWord(w: string)
    requires |w| > 0 && !IsSpace(w[0]) && !IsSpace(w[|w| - 1]) && |w| <= MaxClauseLength
    requires forall k :: 0 <= k < |w| ==> !IsClausePunct(w[k])
    ensures SentencePhrases(w) == [w]
  {
    SplitWithoutMatch(ClauseBreak, w, 0, 0);
    assert w[0..] == w;
    assert AddClauseParts([], [w]) == AddClauseParts(AddClausePart([], w), []);
  }

  /** A piece without punctuation starts the chunk list. */
  lemma FirstWord(w: string)
    requires |w| > 0 && !IsSpace(w[0]) && !IsSpace(w[|w| - 1]) && |w| <= MaxClauseLength
    requires forall k :: 0 <= k < |w| ==> !IsClausePunct(w[k]) && !IsSentencePunct(w[k])
    ensures AddSentence([], w) == [w]
  {
    UntouchedWord(w);
    assert !PunctuationOnly(w);
  }

  lemma AttachSeparator(chunk: string, sep: string, joined: string)
    requires PunctuationOnly(sep) && !IsSpace(sep[0]) && joined == chunk + sep
    ensures AddSentence([chunk], sep) == [joined]
  {
    assert !AllSpace(sep);
  }

  lemma TwoSentencesHead()
    ensures SplitFrom(SentenceBreak, TwoSentences, 0, 0) == SplitFrom(SentenceBreak, TwoSentences, 0, 2)
  {
    assert forall k :: 0 <= k < 2 ==> !IsSentencePunct(TwoSentences[k]);
    SplitSkip(SentenceBreak, TwoSentences, 0, 0, 2);
  }

  lemma TwoSentencesBreak()
    ensures SplitFrom(SentenceBreak, TwoSentences, 0, 2) == ["Go", ". "] + SplitFrom(SentenceBreak, TwoSentences, 4, 4)
  {
    assert RunEnd(TwoSentences, 2, IsSentencePunct) == 3;
    assert RunEnd(TwoSentences, 3, IsSpace) == 4;
    assert MatchAt(SentenceBreak, TwoSentences, 2) == Some(4);
    assert TwoSentences[0..2] == "Go";
    assert TwoSentences[2..4] == ". ";
  }

  lemma TwoSentencesTail()
    ensures SplitFrom(SentenceBreak, TwoSentences, 4, 4) == ["Sit."]
  {
    assert forall k :: 4 <= k < 7 ==> !IsSentencePunct(TwoSentences[k]);
    SplitWithoutMatch(SentenceBreak, TwoSentences, 4, 4);
    assert TwoSentences[4..] == "Sit.";
  }

  lemma TwoSentencesPieces()
    ensures Split(SentenceBreak, TwoSentences) == ["Go", ". ", "Sit."]
  {
    TwoSentencesHead();
    TwoSentencesBreak();
    TwoSentencesTail();
  }

  lemma AddThreeSentences(chunks: seq<string>, a: string, b: string, c: string)
    ensures AddSentences(chunks, [a, b, c]) == AddSentence(AddSentence(AddSentence(chunks, a), b), c)
  {
    var one := AddSentence(chunks, a);
    var two := AddSentence(one, b);
    assert [a, b, c][1..] == [b, c];
    assert [b, c][1..] == [c];
    assert AddSentences(chunks, [a, b, c]) == AddSentences(one, [b, c]);
    assert AddSentences(one, [b, c]) == AddSentences(two, [c]);
  }

  lemma FirstChunk()
    ensures AddSentence([], "Go") == ["Go"]
  {
    FirstWord("Go");
  }

  lemma SeparatorChunk()
    ensures AddSentence(["Go"], ". ") == ["Go. "]
  {
    AttachSeparator("Go", ". ", "Go. ");
  }

  lemma SecondSentence()
    ensures AddSentence(["Go. "], "Sit.") == ["Go. ", "Sit."]
  {
    var chunks: seq<string> := ["Go. "];
    UntouchedWord("Sit.");
    SentenceIsText();
    assert chunks + ["Sit."] == ["Go. ", "Sit."];
  }

  lemma SentenceIsText()
    ensures !PunctuationOnly("Sit.") && !AllSpace("Sit.")
  {
    assert !IsSpace("Sit."[0]);
  }

  /** "Go. Sit." becomes "Go. " and "Sit.": only the second phrase ends in a full
      stop, so only it is followed by the 800 ms sentence pause; the first gets 200 ms. */
  lemma SentencePauseNeedsBareFullStop()
    ensures FormatText(TwoSentences) == ["Go. ", "Sit."]
    ensures PauseAfter("Go. ") == 200 && PauseAfter("Sit.") == 800
  {
    TwoSentencesPhrases();
    TwoSentencesPauses();
  }

  lemma TwoSentencesPauses()
    ensures PauseAfter("Go. ") == 200 && PauseAfter("Sit.") == 800
  {
  }

  lemma TwoSentencesPhrases()
    ensures FormatText(TwoSentences) == ["Go. ", "Sit."]
  {
    TwoSentencesPieces();
    var pieces := ["Go", ". ", "Sit."];
    assert NonEmpty(pieces) == pieces;
    FirstChunk();
    SeparatorChunk();
    SecondSentence();
    AddThreeSentences([], "Go", ". ", "Sit.");
  }

  lemma LeadingCommaHead()
    ensures SplitFrom(SentenceBreak, LeadingComma, 0, 0) == ["Go", ". "] + SplitFrom(SentenceBreak, LeadingComma, 4, 4)
  {
    assert forall k :: 0 <= k < 2 ==> !IsSentencePunct(LeadingComma[k]);
    SplitSkip(SentenceBreak, LeadingComma, 0, 0, 2);
    assert RunEnd(LeadingComma, 2, IsSentencePunct) == 3;
    assert RunEnd(LeadingComma, 3, IsSpace) == 4;
    assert MatchAt(SentenceBreak, LeadingComma, 2) == Some(4);
    assert LeadingComma[0..2] == "Go";
    assert LeadingComma[2..4] == ". ";
  }

  lemma LeadingCommaTail()
    ensures SplitFrom(SentenceBreak, LeadingComma, 4, 4) == [",x"]
  {
    assert forall k :: 4 <= k < 6 ==> !IsSentencePunct(LeadingComma[k]);
    SplitWithoutMatch(SentenceBreak, LeadingComma, 4, 4);
    assert LeadingComma[4..] == ",x";
  }

  lemma LeadingCommaPieces()
    ensures Split(SentenceBreak, LeadingComma) == ["Go", ". ", ",x"]
  {
    LeadingCommaHead();
    LeadingCommaTail();
  }

  lemma CommaPieceHasNoPhrase()
    ensures SentencePhrases(",x") == []
  {
    var s := ",x";
    assert MatchAt(ClauseBreak, s, 0).None?;
    assert MatchAt(ClauseBreak, s, 1).None?;
    SplitWithoutMatch(ClauseBreak, s, 0, 0);
    assert s[0..] == s;
    assert AddClausePart([], s) == [];
  }

  lemma CommaSentence()
    ensures AddSentence(["Go. "], ",x") == ["Go. "]
  {
    var chunks: seq<string> := ["Go. "];
    CommaPieceHasNoPhrase();
    CommaPieceIsText();
    assert chunks + [] == chunks;
  }

  lemma CommaPieceIsText()
    ensures !PunctuationOnly(",x") && !AllSpace(",x")
  {
    assert !IsSpace(",x"[1]);
  }

  /** In "Go. ,x" the piece ",x" opens its sentence with a comma and has no phrase before it in
      that sentence, so it is dropped and the "x" is never shown or spoken. */
  lemma LeadingCommaDropsText()
    ensures FormatText(LeadingComma) == ["Go. "]
  {
    LeadingCommaPieces();
    var pieces := ["Go", ". ", ",x"];
    assert NonEmpty(pieces) == pieces;
    FirstChunk();
    SeparatorChunk();
    CommaSentence();
    AddThreeSentences([], "Go", ". ", ",x");
  }
}
