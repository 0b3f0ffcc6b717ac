/** The sentence-splitting example of the repository's own test, on a token
    sequence written out by hand (the tokenizer is not part of this model). */
module Example {
  import opened Options
  import opened Tokens
  import opened Queries
  import opened Derived
  import opened Segmentation

  const Source: seq<char> := "There were three little pigs." + " They built three little homes."

  function W(start: nat, end: nat): Token {
    Token(Span(start, end), Word(WordMetadata(false)))
  }

  function Sp(start: nat): Token {
    Token(Span(start, start + 1), Space(1))
  }

  function Dot(start: nat): Token {
    Token(Span(start, start + 1), Punctuation(Period))
  }

  /** "There were three little pigs." */
  const FirstSentence: seq<Token> :=
    [W(0, 5), Sp(5), W(6, 10), Sp(10), W(11, 16), Sp(16), W(17, 23), Sp(23), W(24, 28), Dot(28)]

  /** " They built three little homes." */
  const SecondSentence: seq<Token> :=
    [Sp(29), W(30, 34), Sp(34), W(35, 40), Sp(40), W(41, 46), Sp(46), W(47, 53), Sp(53), W(54, 59), Dot(59)]

  const Pigs: seq<Token> := FirstSentence + SecondSentence

  lemma PigsTerminators()
    ensures Indices(Pigs, IsSentenceTerminator) == [9, 20]
  {
    assert IndicesFrom(Pigs, IsSentenceTerminator, 21) == [];
    assert IndicesFrom(Pigs, IsSentenceTerminator, 20) == [20];
    assert IndicesFrom(Pigs, IsSentenceTerminator, 19) == [20];
    assert IndicesFrom(Pigs, IsSentenceTerminator, 18) == [20];
    assert IndicesFrom(Pigs, IsSentenceTerminator, 17) == [20];
    assert IndicesFrom(Pigs, IsSentenceTerminator, 16) == [20];
    assert IndicesFrom(Pigs, IsSentenceTerminator, 15) == [20];
    assert IndicesFrom(Pigs, IsSentenceTerminator, 14) == [20];
    assert IndicesFrom(Pigs, IsSentenceTerminator, 13) == [20];
    assert IndicesFrom(Pigs, IsSentenceTerminator, 12) == [20];
    assert IndicesFrom(Pigs, IsSentenceTerminator, 11) == [20];
    assert IndicesFrom(Pigs, IsSentenceTerminator, 10) == [20];
    assert IndicesFrom(Pigs, IsSentenceTerminator, 9) == [9, 20];
    assert IndicesFrom(Pigs, IsSentenceTerminator, 8) == [9, 20];
    assert IndicesFrom(Pigs, IsSentenceTerminator, 7) == [9, 20];
    assert IndicesFrom(Pigs, IsSentenceTerminator, 6) == [9, 20];
    assert IndicesFrom(Pigs, IsSentenceTerminator, 5) == [9, 20];
    assert IndicesFrom(Pigs, IsSentenceTerminator, 4) == [9, 20];
    assert IndicesFrom(Pigs, IsSentenceTerminator, 3) == [9, 20];
    assert IndicesFrom(Pigs, IsSentenceTerminator, 2) == [9, 20];
    assert IndicesFrom(Pigs, IsSentenceTerminator, 1) == [9, 20];
    assert IndicesFrom(Pigs, IsSentenceTerminator, 0) == [9, 20];
  }

  lemma PigsUnits()
    ensures Sentences(Pigs) == [FirstSentence, SecondSentence]
  {
    var p := IsSentenceTerminator;
    PigsTerminators();
    SplitLength(Pigs, p);
    SplitUnit(Pigs, p, 0);
    SplitUnit(Pigs, p, 1);
    assert Pigs[0..10] == FirstSentence;
    assert Pigs[10..21] == SecondSentence;
  }

  lemma FirstSentenceSpan()
    ensures SpanOf(FirstSentence) == Some(Span(0, 29))
  {
    assert Ordered(FirstSentence);
    SpanOfOrdered(FirstSentence);
  }

  lemma SecondSentenceSpan()
    ensures SpanOf(SecondSentence) == Some(Span(29, 60))
  {
    assert Ordered(SecondSentence);
    SpanOfOrdered(SecondSentence);
  }

  /** The repository's sentence test: the text under each sentence's span,
      with the space after the first period opening the second sentence. */
  lemma PigsSentences()
    ensures |Sentences(Pigs)| == 2
    ensures SpanOf(Sentences(Pigs)[0]) == Some(Span(0, 29))
    ensures SpanOf(Sentences(Pigs)[1]) == Some(Span(29, 60))
    ensures GetContent(SpanOf(Sentences(Pigs)[0]).value, Source) == "There were three little pigs."
    ensures GetContent(SpanOf(Sentences(Pigs)[1]).value, Source) == " They built three little homes."
  {
    PigsUnits();
    FirstSentenceSpan();
    SecondSentenceSpan();
    FirstSentenceText();
    SecondSentenceText();
  }

  lemma FirstSentenceText()
    ensures GetContent(Span(0, 29), Source) == "There were three little pigs."
  {
  }

  lemma SecondSentenceText()
    ensures GetContent(Span(29, 60), Source) == " They built three little homes."
  {
  }

  /** With no comma or other chunk terminator, the whole sequence is one
      chunk. */
  lemma NoTerminatorOneChunk()
    ensures Chunks(FirstSentence[..9]) == [FirstSentence[..9]]
  {
    var s := FirstSentence[..9];
    var ix := Indices(s, IsChunkTerminator);
    assert forall i :: 0 <= i < 9 ==> s[i].kind.Word? || s[i].kind.Space?;
    SplitCount(s, IsChunkTerminator);
  }

  /** An unlintable token ahead of the first word suppresses it; a leading word
      is returned as is. */
  lemma FirstSentenceWordExamples()
    ensures FirstSentenceWord([Token(Span(0, 4), Unlintable), W(5, 9)]) == None
    ensures FirstSentenceWord([W(0, 5), Token(Span(6, 10), Unlintable)]) == Some(W(0, 5))
  {
    var s1 := [Token(Span(0, 4), Unlintable), W(5, 9)];
    assert !IsWord(s1[0].kind) && IsUnlintable(s1[0].kind);
    var s2 := [W(0, 5), Token(Span(6, 10), Unlintable)];
    assert IsWord(s2[0].kind);
  }
}
