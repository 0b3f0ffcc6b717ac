/** The queries built on top of the per-kind family: the first non-whitespace
    token, the sentence-initial word, the bounding span of a slice and the
    linking-verb filter. */
module Derived {
  import opened Options
  import opened Tokens
  import opened Queries

  /** `first_non_whitespace`. */
  function FirstNonWhitespace(s: seq<Token>): (r: Option<Token>)
    ensures r.None? <==> forall i :: 0 <= i < |s| ==> IsWhitespace(s[i].kind)
    ensures r.Some? ==>
      exists i :: 0 <= i < |s| && s[i] == r.value && !IsWhitespace(r.value.kind)
        && forall j :: 0 <= j < i ==> IsWhitespace(s[j].kind)
  {
    Find(s, k => !IsWhitespace(k))
  }

  /** `first_sentence_word`: the first word, unless an unlintable token comes
      no later than it. */
  function FirstSentenceWord(s: seq<Token>): (r: Option<Token>)
    ensures r.Some? <==>
      exists i :: 0 <= i < |s| && IsWord(s[i].kind)
        && forall j :: 0 <= j <= i ==> !IsUnlintable(s[j].kind)
    ensures r.Some? ==>
      exists i :: 0 <= i < |s| && s[i] == r.value && IsWord(r.value.kind)
        && (forall j :: 0 <= j < i ==> !IsWord(s[j].kind))
        && (forall j :: 0 <= j <= i ==> !IsUnlintable(s[j].kind))
  {
    match Position(s, IsWord)
    case None => None
    case Some(w) =>
      match Position(s, IsUnlintable)
      case None => Some(s[w])
      case Some(u) =>
        if w < u then Some(s[w])
        else
          assert !exists i :: 0 <= i < |s| && IsWord(s[i].kind) &&
                    forall j :: 0 <= j <= i ==> !IsUnlintable(s[j].kind)
          by {
            forall i | 0 <= i < |s| && IsWord(s[i].kind)
              ensures IsUnlintable(s[u].kind) && u <= i
            {
            }
          }
          None
  }

  /** The outcome of itertools' `minmax`. */
  datatype MinMaxResult = NoElements | OneElement(x: nat) | MinMax(lo: nat, hi: nat)

  /** The smallest and largest value of a sequence; a single value is reported
      on its own, as `minmax` does. */
  function MinMaxOf(xs: seq<nat>): (r: MinMaxResult)
    ensures r.NoElements? <==> |xs| == 0
    ensures r.OneElement? <==> |xs| == 1
    ensures r.OneElement? ==> r.x == xs[0]
    ensures r.MinMax? ==> r.lo in xs && r.hi in xs
    ensures r.MinMax? ==> forall x :: x in xs ==> r.lo <= x <= r.hi
  {
    if |xs| == 0 then NoElements
    else if |xs| == 1 then OneElement(xs[0])
    else
      assert xs == [xs[0]] + xs[1..];
      match MinMaxOf(xs[1..])
      case OneElement(y) =>
        MinMax(if xs[0] <= y then xs[0] else y, if xs[0] <= y then y else xs[0])
      case MinMax(lo, hi) =>
        MinMax(if xs[0] <= lo then xs[0] else lo, if xs[0] <= hi then hi else xs[0])
  }

  /** Every token contributes its start and then its end (the `flat_map`). */
  function Endpoints(s: seq<Token>): (r: seq<nat>)
    ensures |r| == 2 * |s|
    ensures forall i :: 0 <= i < |s| ==> r[2 * i] == s[i].span.start
    ensures forall i :: 0 <= i < |s| ==> r[2 * i + 1] == s[i].span.end
  {
    if |s| == 0 then []
    else [s[0].span.start, s[0].span.end] + Endpoints(s[1..])
  }

  /** Token `i` of `s` has `x` as its start or its end. */
  predicate EndpointOf(s: seq<Token>, i: int, x: nat)
    requires 0 <= i < |s|
  {
    x == s[i].span.start || x == s[i].span.end
  }

  lemma {:induction false} EndpointsMembers(s: seq<Token>, x: nat)
    requires x in Endpoints(s)
    ensures exists i :: 0 <= i < |s| && EndpointOf(s, i, x)
  {
    if !EndpointOf(s, 0, x) {
      assert x in Endpoints(s[1..]);
      EndpointsMembers(s[1..], x);
      var i :| 0 <= i < |s| - 1 && EndpointOf(s[1..], i, x);
      assert EndpointOf(s, i + 1, x);
    }
  }

  /** `span()`: the bounding span of every start and end in the slice. */
  function SpanOf(s: seq<Token>): (r: Option<Span>)
    ensures r.None? <==> |s| == 0
    ensures r.Some? ==> forall i :: 0 <= i < |s| ==>
      && r.value.start <= s[i].span.start <= r.value.end
      && r.value.start <= s[i].span.end <= r.value.end
    ensures r.Some? ==> exists i :: 0 <= i < |s| && EndpointOf(s, i, r.value.start)
    ensures r.Some? ==> exists i :: 0 <= i < |s| && EndpointOf(s, i, r.value.end)
  {
    var e := Endpoints(s);
    match MinMaxOf(e)
    case NoElements => None
    case OneElement(m) => Some(Span(m, m))
    case MinMax(lo, hi) =>
      EndpointsMembers(s, lo);
      EndpointsMembers(s, hi);
      assert forall i :: 0 <= i < |s| ==> s[i].span.start in e && s[i].span.end in e by {
        forall i | 0 <= i < |s|
          ensures s[i].span.start in e && s[i].span.end in e
        {
          assert e[2 * i] == s[i].span.start;
          assert e[2 * i + 1] == s[i].span.end;
        }
      }
      Some(Span(lo, hi))
  }

  /** A slice always yields an even number of endpoints, so the one-element
      outcome of `minmax` never arises: one token gives [min, max] of its own
      start and end, not a zero-length span. */
  lemma SpanOfSingleToken(t: Token)
    ensures MinMaxOf(Endpoints([t])).MinMax?
    ensures SpanOf([t]) == Some(Span(
      if t.span.start <= t.span.end then t.span.start else t.span.end,
      if t.span.start <= t.span.end then t.span.end else t.span.start))
  {
    var e := Endpoints([t]);
    assert e == [t.span.start, t.span.end];
  }

  /** The ordering invariant of a token sequence: well-formed spans, each
      ending no later than the next one starts. */
  predicate Ordered(s: seq<Token>) {
    && (forall i :: 0 <= i < |s| ==> s[i].span.start <= s[i].span.end)
    && (forall i :: 0 <= i < |s| - 1 ==> s[i].span.end <= s[i + 1].span.start)
  }

  lemma {:induction false} OrderedBounds(s: seq<Token>)
    requires Ordered(s) && |s| > 0
    ensures forall i :: 0 <= i < |s| ==>
      s[0].span.start <= s[i].span.start && s[i].span.end <= s[|s| - 1].span.end
  {
    if |s| > 1 {
      var init := s[..|s| - 1];
      assert Ordered(init);
      OrderedBounds(init);
      assert forall i :: 0 <= i < |init| ==> init[i] == s[i];
    }
  }

  /** Under the ordering invariant the bounding span runs from the first
      token's start to the last token's end. */
  lemma SpanOfOrdered(s: seq<Token>)
    requires Ordered(s) && |s| > 0
    ensures SpanOf(s) == Some(Span(s[0].span.start, s[|s| - 1].span.end))
  {
    OrderedBounds(s);
    var sp := SpanOf(s);
    assert sp.Some?;
    var r := sp.value;
    var first, last := s[0].span, s[|s| - 1].span;
    assert r.start <= first.start && last.end <= r.end;
    var i :| 0 <= i < |s| && EndpointOf(s, i, r.start);
    assert first.start <= s[i].span.start <= s[i].span.end;
    var j :| 0 <= j < |s| && EndpointOf(s, j, r.end);
    assert s[j].span.start <= s[j].span.end <= last.end;
  }

  /** Token sequences as the tokenizer produces them: ordered and gap-free. */
  predicate Contiguous(s: seq<Token>) {
    && Ordered(s)
    && (forall i :: 0 <= i < |s| - 1 ==> s[i].span.end == s[i + 1].span.start)
  }

  /** The materialised text of a slice: its tokens' owned contents, in order. */
  function Text(s: seq<Token>, buffer: seq<char>): seq<char>
    requires forall i :: 0 <= i < |s| ==> s[i].span.FitsIn(|buffer|)
  {
    if |s| == 0 then []
    else Text(s[..|s| - 1], buffer) + ToFat(s[|s| - 1], buffer).content
  }

  lemma {:induction false} TextIsBufferSlice(s: seq<Token>, buffer: seq<char>)
    requires Contiguous(s) && |s| > 0
    requires forall i :: 0 <= i < |s| ==> s[i].span.FitsIn(|buffer|)
    ensures s[0].span.start <= s[|s| - 1].span.end
    ensures Text(s, buffer) == buffer[s[0].span.start..s[|s| - 1].span.end]
  {
    var last := s[|s| - 1];
    if |s| == 1 {
      assert Text(s, buffer) == [] + ToFat(last, buffer).content;
    } else {
      var init := s[..|s| - 1];
      assert forall i :: 0 <= i < |init| ==> init[i] == s[i];
      TextIsBufferSlice(init, buffer);
      var a, b, c := s[0].span.start, last.span.start, last.span.end;
      assert init[|init| - 1].span.end == b;
      assert Text(s, buffer) == buffer[a..b] + buffer[b..c];
      assert buffer[a..c] == buffer[a..b] + buffer[b..c];
    }
  }

  /** `to_fat` applied across a gap-free slice spells out exactly the buffer
      text under the slice's bounding span. */
  lemma TextIsSpanContent(s: seq<Token>, buffer: seq<char>)
    requires Contiguous(s) && |s| > 0
    requires s[|s| - 1].span.end <= |buffer|
    ensures forall i :: 0 <= i < |s| ==> s[i].span.FitsIn(|buffer|)
    ensures SpanOf(s) == Some(Span(s[0].span.start, s[|s| - 1].span.end))
    ensures Text(s, buffer) == GetContent(SpanOf(s).value, buffer)
  {
    OrderedBounds(s);
    SpanOfOrdered(s);
    TextIsBufferSlice(s, buffer);
  }

  /** Keep the word positions whose payload flags a linking verb. Every
      position handed in must carry a word, which is what makes the source's
      "unreachable" panic unreachable. */
  function KeepLinkingVerbs(s: seq<Token>, ix: seq<nat>): (r: seq<nat>)
    requires forall k :: 0 <= k < |ix| ==> ix[k] < |s| && IsWord(s[ix[k]].kind)
    ensures forall x {:trigger x in r} :: x in r ==> x in ix && x < |s| && IsLinkingVerb(s[x].kind)
    ensures forall x {:trigger x in ix} :: x in ix && x < |s| && IsLinkingVerb(s[x].kind) ==> x in r
    ensures StrictlyAscending(ix) ==> StrictlyAscending(r)
  {
    if |ix| == 0 then []
    else
      assert IsWord(s[ix[0]].kind);
      var rest := KeepLinkingVerbs(s, ix[1..]);
      assert StrictlyAscending(ix) ==> forall k :: 0 <= k < |rest| ==> ix[0] < rest[k] by {
        if StrictlyAscending(ix) {
          forall k | 0 <= k < |rest|
            ensures ix[0] < rest[k]
          {
            assert rest[k] in rest;
            var m :| 0 <= m < |ix| - 1 && ix[1..][m] == rest[k];
            assert ix[m + 1] == rest[k];
          }
        }
      }
      assert ix == [ix[0]] + ix[1..];
      if s[ix[0]].kind.meta.linkingVerb then [ix[0]] + rest else rest
  }

  /** `iter_linking_verb_indices`: the word indices, filtered by the
      linking-verb flag. */
  function LinkingVerbIndices(s: seq<Token>): (r: seq<nat>)
    ensures StrictlyAscending(r)
    ensures forall k :: 0 <= k < |r| ==> r[k] < |s| && IsLinkingVerb(s[r[k]].kind)
    ensures forall i :: 0 <= i < |s| && IsLinkingVerb(s[i].kind) ==> i in r
  {
    var words := Indices(s, IsWord);
    assert forall i :: 0 <= i < |s| && IsLinkingVerb(s[i].kind) ==> i in words by {
      forall i | 0 <= i < |s| && IsLinkingVerb(s[i].kind)
        ensures i in words
      {
        assert IsWord(s[i].kind);
      }
    }
    var r := KeepLinkingVerbs(s, words);
    assert forall k :: 0 <= k < |r| ==> r[k] in r;
    r
  }

  /** `iter_linking_verbs`: the tokens at those indices. */
  function LinkingVerbs(s: seq<Token>): (r: seq<Token>)
    ensures forall t :: t in r ==> t in s && IsLinkingVerb(t.kind)
  {
    Gather(s, LinkingVerbIndices(s))
  }

  /** Filtering the word indices by the payload flag is the same as the
      generic index query for the linking-verb predicate. */
  lemma LinkingVerbIndicesAgree(s: seq<Token>)
    ensures LinkingVerbIndices(s) == Indices(s, IsLinkingVerb)
    ensures LinkingVerbs(s) == Matching(s, IsLinkingVerb)
  {
    AscendingUnique(LinkingVerbIndices(s), Indices(s, IsLinkingVerb));
  }
}
