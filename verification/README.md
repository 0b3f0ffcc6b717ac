# Token-string queries and segmentation of harper-core

This project models the token layer of harper-core (`harper-core/src/token.rs`).
A `Token` is a `Span` (a half-open range of character offsets into a shared
buffer) paired with a `TokenKind`. `to_fat` copies the spanned characters out
into an owned `FatToken`. A slice of tokens supports the following:

- A family of per-kind queries. In the source the `create_fns_for!` macro
  generates it once per kind: `first_*`, `last_*`, `last_*_index`,
  `iter_*_indices` and `iter_*s`.
- Four derived queries: `first_non_whitespace`, `first_sentence_word`, `span`
  and the linking-verb filter `iter_linking_verb_indices` / `iter_linking_verbs`.
- Three splitters, `iter_chunks`, `iter_sentences` and `iter_paragraphs`. Each
  cuts the slice into units that include their terminator.

The model is functional. Spans, tokens and fat tokens are immutable datatypes,
and every query is a pure function over `seq<Token>`.

- The macro family is written once, generic over a kind predicate
  `p: TokenKind -> bool` (module `Queries`).
- The three splitters are one function `Segmentation.Split(s, p)`, written as
  the source writes it: a head unit, one unit per pair of consecutive
  terminators, and a tail unit. `Chunks`, `Sentences` and `Paragraphs`
  instantiate it.
- Lazy iterators become finite sequences.

Modules:

- `Options`: the `Option` type.
- `Tokens`: `Span`, a small `TokenKind`, `Token`, `FatToken` and `ToFat`.
- `Queries`: the generic per-kind family, with reference definitions it is
  proved against.
- `Derived`: `first_non_whitespace`, `first_sentence_word`, `span` (through a
  model of itertools' `minmax`) and the linking-verb filter.
- `Segmentation`: the splitter, its partition, boundary and count properties,
  and its agreement with an independent recursive reference cut (`Units`).
- `Example`: the sentence-splitting example of the source's test, built on a
  hand-written token sequence.

Two behaviours of the code are easy to misread:

- An empty slice splits into ONE empty unit, not zero units. With no
  terminator the splitter emits `Some(self)`, and it does so even when `self`
  is empty (`harper-core/src/token.rs:203-205`; `Segmentation.SplitEmpty`).
- `span()` feeds two values per token into `minmax`
  (`harper-core/src/token.rs:161`), so the `OneElement` branch at
  `harper-core/src/token.rs:166` is unreachable. A single token gives
  `[min(start, end), max(start, end)]`, not a zero-length span at its start
  (`Derived.SpanOfSingleToken`).

## Model

| member | source | states |
|---|---|---|
| Tokens.ToFat | harper-core/src/token.rs:19-26 | the fat token keeps the kind, and its content has the span's length and is, character by character, the buffer under the span |
| Tokens.GetContent | harper-core/src/token.rs:20 | the content of an in-buffer span has the span's length and holds the buffer's characters from the start offset on |
| Queries.IndicesFrom | harper-core/src/token.rs:60-65 | the positions at or after `from` that match the predicate: strictly ascending, each a match, and every match from `from` on is listed |
| Queries.Indices | harper-core/src/token.rs:60-65 | `iter_*_indices` is strictly ascending and lists position i exactly when the token at i satisfies the predicate |
| Queries.Matching | harper-core/src/token.rs:67-69 | `iter_*s` yields only tokens of the slice that satisfy the predicate, and yields every matching token |
| Queries.MatchingIsFilter | harper-core/src/token.rs:60-69 | `iter_*s` equals the in-order filter of the slice by the predicate, with no loss, duplication or reordering |
| Queries.Find | harper-core/src/token.rs:49 | a forward search is None exactly when nothing matches; otherwise it returns a matching token of the slice with no match before it |
| Queries.Position | harper-core/src/token.rs:57 | the index search is None exactly when nothing matches; otherwise the index is in range, matches, and no earlier index matches |
| Queries.Reverse | harper-core/src/token.rs:53 | the reversed slice has the same length and holds element `len - 1 - i` at position i |
| Queries.First | harper-core/src/token.rs:48-50 | `first_*` is None exactly when nothing matches; otherwise it is a matching token with no match before it |
| Queries.Last | harper-core/src/token.rs:52-54 | `last_*` is None exactly when nothing matches; otherwise it is a matching token with no match after it |
| Queries.LastIndex | harper-core/src/token.rs:56-58 | the reverse position converted by `len - i - 1` is None exactly when nothing matches; otherwise it is an in-range matching index with no match after it |
| Queries.FirstIsFirstIndex | harper-core/src/token.rs:48-65 | `first_*` is the token at the first of `iter_*_indices`, or None when there are none |
| Queries.LastIndexIsLastIndex | harper-core/src/token.rs:56-65 | `last_*_index` is the last of `iter_*_indices`, or None when there are none |
| Queries.LastAtLastIndex | harper-core/src/token.rs:52-58 | `last_*` is the token at `last_*_index` |
| Queries.AscendingUnique | harper-core/src/token.rs:60-65 | two strictly ascending index sequences with the same members are equal, so an index query is determined by which positions match |
| Derived.FirstNonWhitespace | harper-core/src/token.rs:140-142 | None exactly when every token is whitespace; otherwise a non-whitespace token of the slice preceded only by whitespace |
| Derived.FirstSentenceWord | harper-core/src/token.rs:144-156 | Some exactly when some word has no unlintable token at or before it; the result is then the first word, with no unlintable token at or before it |
| Derived.MinMaxOf | harper-core/src/token.rs:159-162 | `minmax` reports nothing for no values, one element for one value, and otherwise a least and a greatest value both taken from the input |
| Derived.Endpoints | harper-core/src/token.rs:161 | each token contributes its start and then its end, in order, so the flattened list has twice as many values as there are tokens |
| Derived.SpanOf | harper-core/src/token.rs:158-169 | `span()` is None exactly for the empty slice; otherwise it bounds every token's start and end, and both of its ends are an endpoint of some token |
| Derived.SpanOfSingleToken | harper-core/src/token.rs:158-167 | one token takes the two-value branch of `minmax` and yields the span from the lesser to the greater of its start and end |
| Derived.SpanOfOrdered | harper-core/src/token.rs:158-169 | for ordered tokens, `span()` runs from the first token's start to the last token's end |
| Derived.TextIsBufferSlice | harper-core/src/token.rs:19-26 | for gap-free tokens, the `to_fat` contents laid end to end are the buffer from the first start to the last end |
| Derived.TextIsSpanContent | harper-core/src/token.rs:158-169 | for gap-free tokens, the `to_fat` contents laid end to end are exactly the buffer content under `span()` |
| Derived.KeepLinkingVerbs | harper-core/src/token.rs:172-179 | given word positions only, the filter keeps exactly the positions whose word is a linking verb and preserves ascending order; the word requirement is what makes the panic unreachable |
| Derived.LinkingVerbIndices | harper-core/src/token.rs:171-180 | strictly ascending, in range, each a linking verb, and every linking-verb position is listed |
| Derived.LinkingVerbs | harper-core/src/token.rs:182-184 | yields only tokens of the slice that are linking verbs |
| Derived.LinkingVerbIndicesAgree | harper-core/src/token.rs:171-184 | filtering the word indices by the linking-verb flag equals the generic index query for linking verbs, and the tokens equal the generic token query |
| Segmentation.SplitUnit | harper-core/src/token.rs:187-205 | unit k is the slice from just past terminator k-1 (or 0) through terminator k (or to the end) |
| Segmentation.SplitStructure | harper-core/src/token.rs:186-207 | the number of units is the number of terminators, plus one when none exist or the last is not the final token; every unit lies between consecutive terminator bounds |
| Segmentation.SplitConcat | harper-core/src/token.rs:186-208 | the units laid end to end reproduce the slice exactly |
| Segmentation.SplittersPartition | harper-core/src/token.rs:186-256 | each of `iter_chunks`, `iter_sentences` and `iter_paragraphs` partitions the slice |
| Segmentation.SplitUnitShape | harper-core/src/token.rs:187-205 | a terminator appears in a unit only as its last token, every unit but the last ends with a terminator, and a non-empty slice gives no empty unit |
| Segmentation.SplitCount | harper-core/src/token.rs:197-207 | with no terminator the whole slice is the single unit; with k terminators there are k units, plus one when the last is not the final token |
| Segmentation.SplitEmpty | harper-core/src/token.rs:203-205 | the empty slice yields exactly one unit, and that unit is empty |
| Segmentation.SplitAdjacentTerminators | harper-core/src/token.rs:192-195 | terminators at a and a+1 yield, as unit k where a+1 is the k-th terminator, a unit holding only the second terminator |
| Segmentation.SegmentationUnique | harper-core/src/token.rs:186-208 | two sequences of non-empty units that both reproduce the slice, with terminators only at unit ends and at every inner unit end, are equal |
| Segmentation.UnitsIsSegmentation | harper-core/src/token.rs:186-208 | the recursive reference cut of a non-empty slice is such a segmentation |
| Segmentation.SplitMatchesUnits | harper-core/src/token.rs:186-208 | the head/windows/tail splitter equals the recursive reference that cuts after each first terminator |
| Example.PigsSentences | harper-core/src/token.rs:266-287 | the hand-tokenized two-sentence text splits into two sentences with spans 0..29 and 29..60, and the buffer content under each sentence's span is "There were three little pigs." and " They built three little homes." |
| Example.NoTerminatorOneChunk | harper-core/src/token.rs:197-205 | a token sequence without chunk terminators is a single chunk |
| Example.FirstSentenceWordExamples | harper-core/src/token.rs:144-156 | a leading unlintable token suppresses the sentence word, and a leading word is returned as is |

## Left out

- The `TokenKind` taxonomy and its `is_*` predicates are defined outside
  `token.rs` and are not part of this model. `Tokens.TokenKind` is a small
  stand-in with words, punctuation, numbers, spaces, newlines, paragraph
  breaks and unlintable content, and `IsWhitespace`, `IsSentenceTerminator`,
  `IsChunkTerminator` and `IsParagraphBreak` are stand-ins for harper's
  predicates. The per-kind family (`Queries`) and the splitter
  (`Segmentation.Split` and the lemmas about it) are proved for an arbitrary
  predicate. The derived queries (`Derived`) and the instances `Chunks`,
  `Sentences`, `Paragraphs` and `Segmentation.SplittersPartition` are stated
  over the stand-in predicates; their proofs use nothing about them except
  that `IsWord` holds exactly of the `Word` variant.
- The seventeen macro instantiations (`word`, `word_like`, `conjunction`,
  `space`, ..., `likely_homograph`) are not written out one by one. Each is
  the generic family applied to that kind's predicate.
- `Span`'s own methods (`new`, `get_content`) live in a file that is not part
  of this model. `Tokens.GetContent` stands in for `get_content`. Its range
  check is a precondition, because an out-of-range span is a caller error in
  the source.
- `Token::new` is the plain constructor and is not modelled separately.
- The serde derives, `Default` and the derived `PartialOrd` on `FatToken` are
  generated by libraries and carry no logic.
- The `paste!` macro machinery and the itertools adapters are modelled only
  by their results: `tuple_windows` becomes the middle units, `minmax` becomes
  `Derived.MinMaxOf`, and `find_position` becomes `Position` plus indexing.
- Laziness and restartability of the iterators: each iterator is modelled as
  the finite sequence it yields.
- The `panic!` in `iter_linking_verb_indices` is not modelled as an error
  path. The word filter hands over only word positions, and
  `Derived.KeepLinkingVerbs` requires exactly that, so the panic is
  unreachable.
- `usize` width: indices are unbounded naturals. Every index is below the
  slice length, so no arithmetic in the source can wrap.
- The `PlainEnglish` tokenizer used by the test is not part of this model.
  `Example` writes out by hand the token sequence it would produce for the
  test's text.
- Queries.Matching: its contract states membership both ways. Order and
  multiplicity are stated by `Queries.MatchingIsFilter`.
- Derived.LinkingVerbs: its contract states membership one way. Full
  equality with the generic token query is `Derived.LinkingVerbIndicesAgree`.
