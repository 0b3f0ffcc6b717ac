/** Tokens: a position-only view (a Span into a shared character buffer plus a
    kind) and the owned FatToken that copies the spanned characters out. */
module Tokens {

  /** Half-open range [start, end) of character offsets into a buffer. */
  datatype Span = Span(start: nat, end: nat) {

    /** The range is well formed and lies inside a buffer of length n. */
    predicate FitsIn(n: nat) {
      start <= end <= n
    }
  }

  /** The characters a span covers; slicing outside the buffer is a caller
      error, so it is a precondition. */
  function GetContent(span: Span, buffer: seq<char>): (r: seq<char>)
    requires span.FitsIn(|buffer|)
    ensures |r| == span.end - span.start
    ensures forall i :: 0 <= i < |r| ==> r[i] == buffer[span.start + i]
  {
    buffer[span.start..span.end]
  }

  /** A small stand-in for the external token-kind taxonomy: enough variants to
      tell words, whitespace, terminators and unlintable content apart. */
  datatype Punct = Period | Bang | Question | Comma | Semicolon | OtherPunct

  datatype WordMetadata = WordMetadata(linkingVerb: bool)

  datatype TokenKind =
    | Word(meta: WordMetadata)
    | Punctuation(punct: Punct)
    | Number(value: nat)
    | Space(count: nat)
    | Newline(count: nat)
    | ParagraphBreak
    | Unlintable

  predicate IsWord(k: TokenKind) {
    k.Word?
  }

  predicate IsUnlintable(k: TokenKind) {
    k.Unlintable?
  }

  predicate IsWhitespace(k: TokenKind) {
    k.Space? || k.Newline?
  }

  predicate IsParagraphBreak(k: TokenKind) {
    k.ParagraphBreak?
  }

  predicate IsSentenceTerminator(k: TokenKind) {
    || (k.Punctuation? && k.punct in {Period, Bang, Question})
    || k.ParagraphBreak?
  }

  predicate IsChunkTerminator(k: TokenKind) {
    IsSentenceTerminator(k) || (k.Punctuation? && k.punct == Comma)
  }

  /** A word token whose linguistic payload flags it as a linking verb. */
  predicate IsLinkingVerb(k: TokenKind) {
    k.Word? && k.meta.linkingVerb
  }

  datatype Token = Token(span: Span, kind: TokenKind)

  /** A token that owns its characters instead of pointing into a buffer. */
  datatype FatToken = FatToken(content: seq<char>, kind: TokenKind)

  /** Materialise a token against the buffer it was produced from. */
  function ToFat(t: Token, buffer: seq<char>): (f: FatToken)
    requires t.span.FitsIn(|buffer|)
    ensures f.kind == t.kind
    ensures |f.content| == t.span.end - t.span.start
    ensures forall i :: 0 <= i < |f.content| ==> f.content[i] == buffer[t.span.start + i]
  {
    FatToken(GetContent(t.span, buffer), t.kind)
  }
}
