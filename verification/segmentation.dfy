/** The terminator-inclusive splitter behind `iter_chunks`, `iter_paragraphs`
    and `iter_sentences`, written once over the terminator predicate. */
module Segmentation {
  import opened Options
  import opened Tokens
  import opened Queries

  /** The unit up to and including the first terminator, when there is one. */
  function HeadUnit(s: seq<Token>, p: TokenKind -> bool): seq<seq<Token>> {
    var ix := Indices(s, p);
    if |ix| > 0 then [s[..ix[0] + 1]] else []
  }

  /** One unit per pair of consecutive terminators (the `tuple_windows`
      pass): just past the first through the second. */
  function MiddleUnits(s: seq<Token>, p: TokenKind -> bool): seq<seq<Token>> {
    var ix := Indices(s, p);
    seq(if |ix| == 0 then 0 else |ix| - 1,
        k requires 0 <= k < |ix| - 1 => s[ix[k] + 1..ix[k + 1] + 1])
  }

  /** What follows the last terminator when it is not empty, or the whole
      slice when there is no terminator at all (even when it is empty). */
  function TailUnit(s: seq<Token>, p: TokenKind -> bool): seq<seq<Token>> {
    match LastIndex(s, p)
    case Some(l) => if l + 1 < |s| then [s[l + 1..]] else []
    case None => [s]
  }

  /** The splitter: head, middle and tail units chained in that order. */
  function Split(s: seq<Token>, p: TokenKind -> bool): seq<seq<Token>> {
    HeadUnit(s, p) + MiddleUnits(s, p) + TailUnit(s, p)
  }

  /** `iter_chunks`, `iter_sentences` and `iter_paragraphs`. */
  function Chunks(s: seq<Token>): seq<seq<Token>> {
    Split(s, IsChunkTerminator)
  }

  function Sentences(s: seq<Token>): seq<seq<Token>> {
    Split(s, IsSentenceTerminator)
  }

  function Paragraphs(s: seq<Token>): seq<seq<Token>> {
    Split(s, IsParagraphBreak)
  }

  /** The units laid end to end. */
  function Concat(units: seq<seq<Token>>): seq<Token> {
    if |units| == 0 then []
    else Concat(units[..|units| - 1]) + units[|units| - 1]
  }

  /** A terminator may appear in a unit only as its final token. */
  predicate TerminatedOnlyAtEnd(u: seq<Token>, p: TokenKind -> bool) {
    forall j :: 0 <= j < |u| - 1 ==> !p(u[j].kind)
  }

  predicate EndsWithTerminator(u: seq<Token>, p: TokenKind -> bool) {
    |u| > 0 && p(u[|u| - 1].kind)
  }

  /** Where unit `k` starts and ends, given the ascending terminator
      positions `ix` of a slice of length `n`. */
  function UnitStart(ix: seq<nat>, k: nat): nat
    requires k <= |ix|
  {
    if k == 0 then 0 else ix[k - 1] + 1
  }

  function UnitEnd(ix: seq<nat>, n: nat, k: nat): nat
    requires k <= |ix|
  {
    if k < |ix| then ix[k] + 1 else n
  }

  /** `units` are the slices of `s` between the unit bounds of `ix`. */
  predicate Laid(s: seq<Token>, ix: seq<nat>, units: seq<seq<Token>>) {
    && |units| <= |ix| + 1
    && forall k :: 0 <= k < |units| ==>
         && UnitStart(ix, k) <= UnitEnd(ix, |s|, k) <= |s|
         && units[k] == s[UnitStart(ix, k)..UnitEnd(ix, |s|, k)]
  }

  lemma SplitLength(s: seq<Token>, p: TokenKind -> bool)
    ensures var ix := Indices(s, p);
      && |HeadUnit(s, p)| == (if |ix| > 0 then 1 else 0)
      && |MiddleUnits(s, p)| == (if |ix| > 0 then |ix| - 1 else 0)
      && |TailUnit(s, p)| == (if |ix| == 0 || ix[|ix| - 1] + 1 < |s| then 1 else 0)
  {
    LastIndexIsLastIndex(s, p);
  }

  lemma HeadUnitAt(s: seq<Token>, p: TokenKind -> bool)
    requires |Indices(s, p)| > 0
    ensures HeadUnit(s, p) == [s[..Indices(s, p)[0] + 1]]
  {
  }

  lemma MiddleUnitAt(s: seq<Token>, p: TokenKind -> bool, k: nat)
    requires 0 < k < |Indices(s, p)|
    ensures var ix := Indices(s, p);
      && |MiddleUnits(s, p)| == |ix| - 1
      && ix[k - 1] < ix[k] < |s|
      && MiddleUnits(s, p)[k - 1] == s[ix[k - 1] + 1..ix[k] + 1]
  {
  }

  lemma TailUnitAt(s: seq<Token>, p: TokenKind -> bool)
    requires |TailUnit(s, p)| > 0
    ensures var ix := Indices(s, p);
      TailUnit(s, p) == [s[UnitStart(ix, |ix|)..]]
  {
    LastIndexIsLastIndex(s, p);
    assert s[0..] == s;
  }

  /** Unit `k` of the splitter lies between the bounds of `ix`. The three
      cases (head, middle, tail) are proved by the three lemmas below, each of
      which repeats this contract for its own range of `k`: proving them in
      one context costs the solver far more than proving them apart. */
  lemma SplitUnit(s: seq<Token>, p: TokenKind -> bool, k: nat)
    requires k < |Split(s, p)|
    ensures k <= |Indices(s, p)|
    ensures var ix := Indices(s, p);
      && UnitStart(ix, k) <= UnitEnd(ix, |s|, k) <= |s|
      && Split(s, p)[k] == s[UnitStart(ix, k)..UnitEnd(ix, |s|, k)]
  {
    SplitLength(s, p);
    if k < |HeadUnit(s, p)| {
      SplitUnitHead(s, p, k);
    } else if k < |HeadUnit(s, p)| + |MiddleUnits(s, p)| {
      SplitUnitMiddle(s, p, k);
    } else {
      SplitUnitTail(s, p, k);
    }
  }

  /** The head unit, when present, runs from the start through the first
      terminator. */
  lemma SplitUnitHead(s: seq<Token>, p: TokenKind -> bool, k: nat)
    requires k < |HeadUnit(s, p)|
    ensures k <= |Indices(s, p)|
    ensures var ix := Indices(s, p);
      && UnitStart(ix, k) <= UnitEnd(ix, |s|, k) <= |s|
      && Split(s, p)[k] == s[UnitStart(ix, k)..UnitEnd(ix, |s|, k)]
  {
    SplitLength(s, p);
    PartAt(HeadUnit(s, p), MiddleUnits(s, p), TailUnit(s, p), k);
    HeadUnitAt(s, p);
  }

  /** A middle unit runs from just past one terminator through the next. */
  lemma SplitUnitMiddle(s: seq<Token>, p: TokenKind -> bool, k: nat)
    requires |HeadUnit(s, p)| <= k < |HeadUnit(s, p)| + |MiddleUnits(s, p)|
    ensures k <= |Indices(s, p)|
    ensures var ix := Indices(s, p);
      && UnitStart(ix, k) <= UnitEnd(ix, |s|, k) <= |s|
      && Split(s, p)[k] == s[UnitStart(ix, k)..UnitEnd(ix, |s|, k)]
  {
    SplitLength(s, p);
    PartAt(HeadUnit(s, p), MiddleUnits(s, p), TailUnit(s, p), k);
    MiddleUnitAt(s, p, k);
  }

  /** The tail unit runs from just past the last terminator to the end. */
  lemma SplitUnitTail(s: seq<Token>, p: TokenKind -> bool, k: nat)
    requires |HeadUnit(s, p)| + |MiddleUnits(s, p)| <= k < |Split(s, p)|
    ensures k <= |Indices(s, p)|
    ensures var ix := Indices(s, p);
      && UnitStart(ix, k) <= UnitEnd(ix, |s|, k) <= |s|
      && Split(s, p)[k] == s[UnitStart(ix, k)..UnitEnd(ix, |s|, k)]
  {
    SplitLength(s, p);
    PartAt(HeadUnit(s, p), MiddleUnits(s, p), TailUnit(s, p), k);
    TailUnitAt(s, p);
  }

  /** Indexing into three sequences laid end to end, stated once so that the
      three cases of `SplitUnit` need not re-derive it. */
  lemma PartAt<T>(a: seq<T>, b: seq<T>, c: seq<T>, k: nat)
    requires k < |a| + |b| + |c|
    ensures (a + b + c)[k] ==
      if k < |a| then a[k] else if k < |a| + |b| then b[k - |a|] else c[k - |a| - |b|]
  {
  }

  /** The count of units and the bounds of each: unit k runs from just past
      terminator k-1 through terminator k, and a trailing unit runs to the
      end. */
  lemma SplitStructure(s: seq<Token>, p: TokenKind -> bool)
    ensures var ix := Indices(s, p);
      |Split(s, p)| == |ix| + (if |ix| == 0 || ix[|ix| - 1] + 1 < |s| then 1 else 0)
    ensures Laid(s, Indices(s, p), Split(s, p))
  {
    SplitLength(s, p);
    var units := Split(s, p);
    forall k | 0 <= k < |units|
      ensures k <= |Indices(s, p)|
      ensures UnitStart(Indices(s, p), k) <= UnitEnd(Indices(s, p), |s|, k) <= |s|
      ensures units[k] == s[UnitStart(Indices(s, p), k)..UnitEnd(Indices(s, p), |s|, k)]
    {
      SplitUnit(s, p, k);
    }
  }

  lemma {:induction false} ConcatPrefix(s: seq<Token>, ix: seq<nat>, units: seq<seq<Token>>, n: nat)
    requires Laid(s, ix, units)
    requires 1 <= n <= |units|
    ensures Concat(units[..n]) == s[..UnitEnd(ix, |s|, n - 1)]
  {
    var u := units[..n];
    assert u[..n - 1] == units[..n - 1];
    if n == 1 {
      assert Concat(u) == [] + units[0];
    } else {
      ConcatPrefix(s, ix, units, n - 1);
      var a, b := UnitStart(ix, n - 1), UnitEnd(ix, |s|, n - 1);
      assert a == UnitEnd(ix, |s|, n - 2);
      assert Concat(u) == s[..a] + s[a..b];
      assert s[..b] == s[..a] + s[a..b];
    }
  }

  /** Units laid between the bounds of `ix` and reaching the end of `s`
      concatenate to `s`. */
  lemma LaidConcat(s: seq<Token>, ix: seq<nat>, units: seq<seq<Token>>)
    requires Laid(s, ix, units) && |units| > 0
    requires UnitEnd(ix, |s|, |units| - 1) == |s|
    ensures Concat(units) == s
  {
    ConcatPrefix(s, ix, units, |units|);
    assert units[..|units|] == units;
    assert s[..|s|] == s;
  }

  /** Segmentation is a partition: the units, laid end to end, give back the
      slice exactly. */
  lemma SplitConcat(s: seq<Token>, p: TokenKind -> bool)
    ensures Concat(Split(s, p)) == s
  {
    var ix := Indices(s, p);
    var units := Split(s, p);
    SplitStructure(s, p);
    assert UnitEnd(ix, |s|, |units| - 1) == |s|;
    LaidConcat(s, ix, units);
  }

  /** No terminator position lies strictly between two consecutive ones, nor
      before the first or after the last. */
  lemma NotTerminatorBetween(s: seq<Token>, p: TokenKind -> bool, k: nat, j: nat)
    requires k <= |Indices(s, p)|
    requires UnitStart(Indices(s, p), k) <= j < UnitEnd(Indices(s, p), |s|, k) - 1
    requires j < |s|
    ensures !p(s[j].kind)
  {
    var ix := Indices(s, p);
    if p(s[j].kind) {
      assert j in ix;
      var n :| 0 <= n < |ix| && ix[n] == j;
    }
  }

  /** The slice between the bounds of unit `k` holds a terminator at most in
      its last position, ends with one when `k` names a terminator, and is not
      empty when it lies before the last terminator or reaches past it. */
  lemma LaidUnitShape(s: seq<Token>, p: TokenKind -> bool, k: nat, u: seq<Token>)
    requires k <= |Indices(s, p)|
    requires UnitStart(Indices(s, p), k) <= UnitEnd(Indices(s, p), |s|, k) <= |s|
    requires u == s[UnitStart(Indices(s, p), k)..UnitEnd(Indices(s, p), |s|, k)]
    ensures TerminatedOnlyAtEnd(u, p)
    ensures k < |Indices(s, p)| ==> EndsWithTerminator(u, p)
  {
    var ix := Indices(s, p);
    var a := UnitStart(ix, k);
    forall j | 0 <= j < |u| - 1
      ensures !p(u[j].kind)
    {
      assert u[j] == s[a + j];
      NotTerminatorBetween(s, p, k, a + j);
    }
    if k < |ix| {
      if k > 0 {
        assert ix[k - 1] < ix[k];
      }
      assert u[|u| - 1] == s[ix[k]];
    }
  }

  /** The three splitters of the token string are partitions of the slice. */
  lemma SplittersPartition(s: seq<Token>)
    ensures Concat(Chunks(s)) == s
    ensures Concat(Sentences(s)) == s
    ensures Concat(Paragraphs(s)) == s
  {
    SplitConcat(s, IsChunkTerminator);
    SplitConcat(s, IsSentenceTerminator);
    SplitConcat(s, IsParagraphBreak);
  }

  /** Boundary ownership: every unit but possibly the last ends with a
      terminator, a terminator appears in a unit only as its final token, and
      a non-empty slice never yields an empty unit. */
  lemma SplitUnitShape(s: seq<Token>, p: TokenKind -> bool)
    ensures var units := Split(s, p);
      forall k :: 0 <= k < |units| ==> TerminatedOnlyAtEnd(units[k], p)
    ensures var units := Split(s, p);
      forall k :: 0 <= k < |units| - 1 ==> EndsWithTerminator(units[k], p)
    ensures var units := Split(s, p);
      |s| > 0 ==> forall k :: 0 <= k < |units| ==> |units[k]| > 0
  {
    var ix := Indices(s, p);
    var units := Split(s, p);
    SplitLength(s, p);
    forall k | 0 <= k < |units|
      ensures TerminatedOnlyAtEnd(units[k], p)
      ensures k < |units| - 1 ==> EndsWithTerminator(units[k], p)
      ensures |s| > 0 ==> |units[k]| > 0
    {
      SplitUnit(s, p, k);
      LaidUnitShape(s, p, k, units[k]);
      if k < |ix| && k > 0 {
        assert ix[k - 1] < ix[k];
      }
    }
  }

  /** Unit count: with no terminator the whole slice is the one unit (also
      when it is empty); otherwise one unit per terminator, plus one when the
      last terminator is not the final token. */
  lemma SplitCount(s: seq<Token>, p: TokenKind -> bool)
    ensures var ix := Indices(s, p);
      |ix| == 0 ==> Split(s, p) == [s]
    ensures var ix := Indices(s, p);
      |ix| > 0 ==> |Split(s, p)| == |ix| + (if ix[|ix| - 1] + 1 < |s| then 1 else 0)
  {
    var ix := Indices(s, p);
    SplitStructure(s, p);
    if |ix| == 0 {
      assert Split(s, p)[0] == s[0..|s|] == s;
    }
  }

  /** The empty slice splits into one empty unit, for every terminator. */
  lemma SplitEmpty(p: TokenKind -> bool)
    ensures Split([], p) == [[]]
  {
    SplitCount([], p);
  }

  /** Adjacent terminators: the second one forms a unit on its own, the unit
      `k` that the second terminator closes. */
  lemma SplitAdjacentTerminators(s: seq<Token>, p: TokenKind -> bool, a: nat) returns (k: nat)
    requires a + 1 < |s| && p(s[a].kind) && p(s[a + 1].kind)
    ensures k < |Indices(s, p)| && Indices(s, p)[k] == a + 1
    ensures k < |Split(s, p)| && Split(s, p)[k] == [s[a + 1]]
    ensures [s[a + 1]] in Split(s, p)
  {
    k := AdjacentIndices(s, p, a);
    SplitLength(s, p);
    SplitUnit(s, p, k);
    assert Split(s, p)[k] == s[a + 1..a + 2] == [s[a + 1]];
  }

  /** Adjacent terminators at `a` and `a + 1` are consecutive entries of the
      index list. */
  lemma AdjacentIndices(s: seq<Token>, p: TokenKind -> bool, a: nat) returns (k: nat)
    requires a + 1 < |s| && p(s[a].kind) && p(s[a + 1].kind)
    ensures 0 < k < |Indices(s, p)|
    ensures Indices(s, p)[k - 1] == a && Indices(s, p)[k] == a + 1
  {
    var ix := Indices(s, p);
    assert a in ix && a + 1 in ix;
    k :| 0 <= k < |ix| && ix[k] == a + 1;
    var n :| 0 <= n < |ix| && ix[n] == a;
    assert n < k by {
      AscendingOrder(ix, n, k);
    }
    assert ix[n] <= ix[k - 1] by {
      AscendingOrder(ix, n, k - 1);
    }
  }

  /** An independent reference: cut after the first terminator and split what
      follows, as long as anything follows. */
  function Units(s: seq<Token>, p: TokenKind -> bool): seq<seq<Token>>
    decreases |s|
  {
    match Position(s, p)
    case None => [s]
    case Some(i) => [s[..i + 1]] + (if i + 1 < |s| then Units(s[i + 1..], p) else [])
  }

  /** `units` segment `s` at terminators: they concatenate to `s`, none is
      empty, a terminator appears only last in a unit, and every unit but the
      last ends with one. */
  predicate IsSegmentation(units: seq<seq<Token>>, s: seq<Token>, p: TokenKind -> bool) {
    && Concat(units) == s
    && (forall k :: 0 <= k < |units| ==> |units[k]| > 0 && TerminatedOnlyAtEnd(units[k], p))
    && (forall k :: 0 <= k < |units| - 1 ==> EndsWithTerminator(units[k], p))
  }

  lemma {:induction false} ConcatFront(u: seq<Token>, units: seq<seq<Token>>)
    ensures Concat([u] + units) == u + Concat(units)
    decreases |units|
  {
    var v := [u] + units;
    if |units| == 0 {
      assert v[..0] == [];
    } else {
      assert v[..|v| - 1] == [u] + units[..|units| - 1];
      ConcatFront(u, units[..|units| - 1]);
    }
  }

  /** Non-empty units concatenate to the empty slice only when there are
      none of them. */
  lemma ConcatOfNonEmpty(units: seq<seq<Token>>)
    ensures (forall k :: 0 <= k < |units| ==> |units[k]| > 0) ==>
      (|Concat(units)| == 0 <==> |units| == 0)
  {
    if |units| > 0 {
      assert |Concat(units)| >= |units[|units| - 1]|;
    }
  }

  /** Prepending a terminated unit to a segmentation segments the longer
      slice. */
  lemma ConsSegmentation(head: seq<Token>, rest: seq<seq<Token>>, t: seq<Token>, p: TokenKind -> bool)
    requires |head| > 0 && TerminatedOnlyAtEnd(head, p) && EndsWithTerminator(head, p)
    requires IsSegmentation(rest, t, p)
    ensures IsSegmentation([head] + rest, head + t, p)
  {
    var units := [head] + rest;
    ConcatFront(head, rest);
    forall k | 0 <= k < |units|
      ensures |units[k]| > 0 && TerminatedOnlyAtEnd(units[k], p)
      ensures k < |units| - 1 ==> EndsWithTerminator(units[k], p)
    {
      if k > 0 {
        assert units[k] == rest[k - 1];
      }
    }
  }

  /** Two segmentations of one slice have first units of the same length:
      the shorter one would end in a terminator sitting inside the longer. */
  lemma FirstUnitNotShorter(us: seq<seq<Token>>, vs: seq<seq<Token>>, s: seq<Token>, p: TokenKind -> bool)
    requires IsSegmentation(us, s, p) && IsSegmentation(vs, s, p)
    requires |us| > 0 && |vs| > 0
    requires s == us[0] + Concat(us[1..]) && s == vs[0] + Concat(vs[1..])
    ensures |vs[0]| <= |us[0]|
  {
    var u, v := us[0], vs[0];
    if |us| == 1 {
      assert us[1..] == [];
      assert s == u;
    } else {
      var j := |u| - 1;
      assert EndsWithTerminator(u, p);
      assert p(s[j].kind);
      assert j < |v| ==> v[j] == s[j];
    }
  }

  /** A segmentation of a slice at terminators is unique. */
  lemma {:induction false} SegmentationUnique(us: seq<seq<Token>>, vs: seq<seq<Token>>, s: seq<Token>, p: TokenKind -> bool)
    requires IsSegmentation(us, s, p) && IsSegmentation(vs, s, p)
    ensures us == vs
    decreases |s|
  {
    ConcatOfNonEmpty(us);
    ConcatOfNonEmpty(vs);
    if |s| > 0 {
      assert us == [us[0]] + us[1..];
      assert vs == [vs[0]] + vs[1..];
      ConcatFront(us[0], us[1..]);
      ConcatFront(vs[0], vs[1..]);
      FirstUnitNotShorter(us, vs, s, p);
      FirstUnitNotShorter(vs, us, s, p);
      var n := |us[0]|;
      assert us[0] == s[..n] == vs[0];
      var tail := s[n..];
      assert Concat(us[1..]) == tail && Concat(vs[1..]) == tail;
      assert IsSegmentation(us[1..], tail, p);
      assert IsSegmentation(vs[1..], tail, p);
      SegmentationUnique(us[1..], vs[1..], tail, p);
    }
  }

  /** The reference cut is a segmentation of any non-empty sequence. */
  lemma {:induction false} UnitsIsSegmentation(s: seq<Token>, p: TokenKind -> bool)
    requires |s| > 0
    ensures IsSegmentation(Units(s, p), s, p)
    decreases |s|
  {
    match Position(s, p)
    case None =>
      UnitsWhole(s, p);
    case Some(i) =>
      if i + 1 < |s| {
        UnitsIsSegmentation(s[i + 1..], p);
        UnitsStep(s, p, i);
      } else {
        UnitsWhole(s, p);
      }
  }

  /** With no terminator, or a terminator only at the end, the reference cut
      keeps the sequence whole. */
  lemma UnitsWhole(s: seq<Token>, p: TokenKind -> bool)
    requires |s| > 0
    requires Position(s, p).None? || Position(s, p) == Some(|s| - 1)
    ensures IsSegmentation(Units(s, p), s, p)
  {
    WholeUnit(s, p);
    WholeTerminated(s, p);
    SingleUnit(s, Units(s, p), p);
  }

  /** The reference cut of a sequence terminated at most at its end. */
  lemma WholeUnit(s: seq<Token>, p: TokenKind -> bool)
    requires |s| > 0
    requires Position(s, p).None? || Position(s, p) == Some(|s| - 1)
    ensures Units(s, p) == [s]
  {
    if Position(s, p).Some? {
      assert s[..|s|] == s;
    }
  }

  /** A sequence whose first terminator, if any, is its last token. Kept apart
      from `WholeUnit`: the two facts together cost the solver much more than
      each alone. */
  lemma WholeTerminated(s: seq<Token>, p: TokenKind -> bool)
    requires Position(s, p).None? || Position(s, p) == Some(|s| - 1)
    ensures TerminatedOnlyAtEnd(s, p)
  {
  }

  /** One step of the reference cut: its first unit in front of the cut of the
      rest. */
  lemma UnitsStep(s: seq<Token>, p: TokenKind -> bool, i: nat)
    requires Position(s, p) == Some(i) && i + 1 < |s|
    requires IsSegmentation(Units(s[i + 1..], p), s[i + 1..], p)
    ensures IsSegmentation(Units(s, p), s, p)
  {
    var head, t := s[..i + 1], s[i + 1..];
    UnitsUnfold(s, p, i);
    FirstTerminatorUnit(s, p, i);
    assert s == head + t;
    ConsSegmentationAt(head, Units(t, p), t, p, Units(s, p), s);
  }

  /** The reference cut of a sequence with a terminator before its end. */
  lemma UnitsUnfold(s: seq<Token>, p: TokenKind -> bool, i: nat)
    requires Position(s, p) == Some(i) && i + 1 < |s|
    ensures Units(s, p) == [s[..i + 1]] + Units(s[i + 1..], p)
  {
  }

  /** `ConsSegmentation`, for a segmentation and sequence given by name. Taking
      the equalities as preconditions keeps the slice arithmetic of the caller
      out of the context in which the segmentation conditions are checked. */
  lemma ConsSegmentationAt(head: seq<Token>, rest: seq<seq<Token>>, t: seq<Token>, p: TokenKind -> bool, units: seq<seq<Token>>, s: seq<Token>)
    requires |head| > 0 && TerminatedOnlyAtEnd(head, p) && EndsWithTerminator(head, p)
    requires IsSegmentation(rest, t, p)
    requires units == [head] + rest && s == head + t
    ensures IsSegmentation(units, s, p)
  {
    ConsSegmentation(head, rest, t, p);
  }

  /** A prefix up to the first terminator is a unit that ends with it. */
  lemma FirstTerminatorUnit(s: seq<Token>, p: TokenKind -> bool, i: nat)
    requires Position(s, p) == Some(i)
    ensures |s[..i + 1]| > 0
    ensures TerminatedOnlyAtEnd(s[..i + 1], p) && EndsWithTerminator(s[..i + 1], p)
  {
  }

  /** A non-empty sequence terminated at most at its end is a segmentation of
      itself into one unit. */
  lemma SingleUnit(u: seq<Token>, units: seq<seq<Token>>, p: TokenKind -> bool)
    requires |u| > 0 && TerminatedOnlyAtEnd(u, p) && units == [u]
    ensures IsSegmentation(units, u, p)
  {
    assert Concat(units) == Concat([]) + u;
  }

  lemma SplitMatchesUnits(s: seq<Token>, p: TokenKind -> bool)
    ensures Split(s, p) == Units(s, p)
  {
    if |s| == 0 {
      SplitEmpty(p);
      assert Units(s, p) == [s];
    } else {
      var units := Split(s, p);
      SplitConcat(s, p);
      SplitUnitShape(s, p);
      assert IsSegmentation(units, s, p);
      UnitsIsSegmentation(s, p);
      SegmentationUnique(units, Units(s, p), s, p);
    }
  }
}
