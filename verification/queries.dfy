/** The per-kind query family (first / last / last index / indices / tokens),
    written once over an arbitrary kind predicate `p` instead of once per kind. */
module Queries {
  import opened Options
  import opened Tokens

  /** Some token of `s` satisfies `p`. */
  predicate AnyMatch(s: seq<Token>, p: TokenKind -> bool) {
    exists i :: 0 <= i < |s| && p(s[i].kind)
  }

  predicate StrictlyAscending(xs: seq<nat>) {
    forall a, b :: 0 <= a < b < |xs| ==> xs[a] < xs[b]
  }

  lemma AscendingOrder(xs: seq<nat>, i: nat, j: nat)
    requires StrictlyAscending(xs) && i < |xs| && j < |xs|
    ensures xs[i] < xs[j] <==> i < j
    ensures xs[i] <= xs[j] <==> i <= j
  {
  }

  /** Stated on its own, with no precondition, so that `AscendingUnique` can
      name the head's membership before its `assert false` without drawing on
      the contradictory facts of that branch. */
  lemma HeadIsMember(xs: seq<nat>)
    ensures |xs| > 0 ==> xs[0] in xs
  {
  }

  /** A strictly ascending sequence is determined by its set of elements. */
  lemma {:induction false} AscendingUnique(a: seq<nat>, b: seq<nat>)
    requires StrictlyAscending(a) && StrictlyAscending(b)
    requires forall x :: x in a <==> x in b
    ensures a == b
    decreases |a| + |b|
  {
    if |a| == 0 && |b| == 0 {
    } else if |a| == 0 || |b| == 0 {
      HeadIsMember(a);
      HeadIsMember(b);
      assert false;
    } else {
      assert a[0] == b[0] by {
        assert a[0] in b;
        assert b[0] in a;
      }
      assert forall x :: x in a[1..] <==> x in a && x != a[0];
      assert forall x :: x in b[1..] <==> x in b && x != b[0];
      AscendingUnique(a[1..], b[1..]);
      assert a == [a[0]] + a[1..];
      assert b == [b[0]] + b[1..];
    }
  }

  /** Positions at or after `from` whose token satisfies `p`: the enumerate /
      filter / map pipeline of `iter_*_indices`. */
  function IndicesFrom(s: seq<Token>, p: TokenKind -> bool, from: nat): (r: seq<nat>)
    requires from <= |s|
    ensures StrictlyAscending(r)
    ensures forall k :: 0 <= k < |r| ==> from <= r[k] < |s| && p(s[r[k]].kind)
    ensures forall i {:trigger i in r} :: from <= i < |s| && p(s[i].kind) ==> i in r
    decreases |s| - from
  {
    if from == |s| then []
    else if p(s[from].kind) then [from] + IndicesFrom(s, p, from + 1)
    else IndicesFrom(s, p, from + 1)
  }

  /** `iter_*_indices`: exactly the matching positions, ascending. */
  function Indices(s: seq<Token>, p: TokenKind -> bool): (r: seq<nat>)
    ensures StrictlyAscending(r)
    ensures forall k :: 0 <= k < |r| ==> r[k] < |s| && p(s[r[k]].kind)
    ensures forall i {:trigger i in r} :: 0 <= i < |s| ==> (p(s[i].kind) <==> i in r)
  {
    IndicesFrom(s, p, 0)
  }

  /** `iter_*s`: the indices mapped back through the slice. */
  function Matching(s: seq<Token>, p: TokenKind -> bool): (r: seq<Token>)
    ensures forall t :: t in r ==> t in s && p(t.kind)
    ensures forall i :: 0 <= i < |s| && p(s[i].kind) ==> s[i] in r
  {
    var ix := Indices(s, p);
    var r := Gather(s, ix);
    assert forall i :: 0 <= i < |s| && p(s[i].kind) ==> s[i] in r by {
      forall i | 0 <= i < |s| && p(s[i].kind)
        ensures s[i] in r
      {
        assert i in ix;
        var k :| 0 <= k < |ix| && ix[k] == i;
        assert r[k] == s[i];
      }
    }
    r
  }

  /** Independent reference: the tokens satisfying `p`, kept in order. */
  function Filter(s: seq<Token>, p: TokenKind -> bool): seq<Token> {
    if |s| == 0 then []
    else (if p(s[0].kind) then [s[0]] else []) + Filter(s[1..], p)
  }

  /** `Iterator::find` over the slice in forward order. */
  function Find(s: seq<Token>, p: TokenKind -> bool): (r: Option<Token>)
    ensures r.None? <==> !AnyMatch(s, p)
    ensures r.Some? ==>
      exists i :: 0 <= i < |s| && s[i] == r.value && p(r.value.kind)
        && forall j :: 0 <= j < i ==> !p(s[j].kind)
  {
    if |s| == 0 then None
    else if p(s[0].kind) then Some(s[0])
    else
      var r := Find(s[1..], p);
      assert r.Some? ==>
        exists i :: 0 <= i < |s| - 1 && s[1..][i] == r.value && p(r.value.kind)
          && forall j :: 0 <= j < i ==> !p(s[1..][j].kind);
      r
  }

  /** `Iterator::position` (and the index half of `find_position`). */
  function Position(s: seq<Token>, p: TokenKind -> bool): (r: Option<nat>)
    ensures r.None? <==> !AnyMatch(s, p)
    ensures r.Some? ==> r.value < |s| && p(s[r.value].kind)
    ensures r.Some? ==> forall j :: 0 <= j < r.value ==> !p(s[j].kind)
  {
    if |s| == 0 then None
    else if p(s[0].kind) then Some(0)
    else
      match Position(s[1..], p)
      case None => None
      case Some(i) => Some(i + 1)
  }

  /** The slice read back to front, as `iter().rev()` yields it. */
  function Reverse<T>(s: seq<T>): (r: seq<T>)
    ensures |r| == |s|
    ensures forall i :: 0 <= i < |s| ==> r[i] == s[|s| - 1 - i]
  {
    if |s| == 0 then [] else Reverse(s[1..]) + [s[0]]
  }

  /** `first_*`: the lowest-indexed matching token. */
  function First(s: seq<Token>, p: TokenKind -> bool): (r: Option<Token>)
    ensures r.None? <==> !AnyMatch(s, p)
    ensures r.Some? ==>
      exists i :: 0 <= i < |s| && s[i] == r.value && p(r.value.kind)
        && forall j :: 0 <= j < i ==> !p(s[j].kind)
  {
    Find(s, p)
  }

  /** `last_*`: a forward search over the reversed slice. */
  function Last(s: seq<Token>, p: TokenKind -> bool): (r: Option<Token>)
    ensures r.None? <==> !AnyMatch(s, p)
    ensures r.Some? ==>
      exists j :: 0 <= j < |s| && s[j] == r.value && p(r.value.kind)
        && forall k :: j < k < |s| ==> !p(s[k].kind)
  {
    var rev := Reverse(s);
    var r := Find(rev, p);
    assert AnyMatch(rev, p) <==> AnyMatch(s, p) by {
      if AnyMatch(s, p) {
        var i :| 0 <= i < |s| && p(s[i].kind);
        assert rev[|s| - 1 - i] == s[i];
      }
      if AnyMatch(rev, p) {
        var i :| 0 <= i < |rev| && p(rev[i].kind);
        assert s[|s| - 1 - i] == rev[i];
      }
    }
    assert r.Some? ==>
      exists j :: 0 <= j < |s| && s[j] == r.value && p(r.value.kind)
        && forall k :: j < k < |s| ==> !p(s[k].kind)
    by {
      if r.Some? {
        var i :| 0 <= i < |rev| && rev[i] == r.value && p(r.value.kind)
          && forall j :: 0 <= j < i ==> !p(rev[j].kind);
        var j := |s| - 1 - i;
        assert s[j] == r.value;
        forall k | j < k < |s|
          ensures !p(s[k].kind)
        {
          assert s[k] == rev[|s| - 1 - k];
        }
      }
    }
    r
  }

  /** `last_*_index`: the position of the match in the reversed slice,
      converted back to a forward index as `len - i - 1`. */
  function LastIndex(s: seq<Token>, p: TokenKind -> bool): (r: Option<nat>)
    ensures r.None? <==> !AnyMatch(s, p)
    ensures r.Some? ==> r.value < |s| && p(s[r.value].kind)
    ensures r.Some? ==> forall k :: r.value < k < |s| ==> !p(s[k].kind)
  {
    var rev := Reverse(s);
    match Position(rev, p)
    case None =>
      assert !AnyMatch(s, p) by {
        forall i | 0 <= i < |s|
          ensures !p(s[i].kind)
        {
          assert rev[|s| - 1 - i] == s[i];
        }
      }
      None
    case Some(i) =>
      var j := |s| - i - 1;
      assert s[j] == rev[i];
      assert forall k :: j < k < |s| ==> s[k] == rev[|s| - 1 - k];
      Some(j)
  }

  /** `iter_*s` is the in-order filter of the slice by `p`. */
  lemma {:induction false} MatchingIsFilter(s: seq<Token>, p: TokenKind -> bool)
    ensures Matching(s, p) == Filter(s, p)
  {
    MatchingFromIsFilter(s, p, 0);
    assert s[0..] == s;
  }

  lemma {:induction false} MatchingFromIsFilter(s: seq<Token>, p: TokenKind -> bool, from: nat)
    requires from <= |s|
    ensures Gather(s, IndicesFrom(s, p, from)) == Filter(s[from..], p)
    decreases |s| - from
  {
    if from < |s| {
      MatchingFromIsFilter(s, p, from + 1);
      assert s[from..][1..] == s[from + 1..];
      var tail := IndicesFrom(s, p, from + 1);
      if p(s[from].kind) {
        GatherAppend(s, [from], tail);
      }
    }
  }

  /** Map positions through the slice. */
  function Gather(s: seq<Token>, ix: seq<nat>): (r: seq<Token>)
    requires forall k :: 0 <= k < |ix| ==> ix[k] < |s|
    ensures |r| == |ix|
    ensures forall k :: 0 <= k < |r| ==> r[k] == s[ix[k]]
  {
    seq(|ix|, k requires 0 <= k < |ix| => s[ix[k]])
  }

  lemma GatherAppend(s: seq<Token>, a: seq<nat>, b: seq<nat>)
    requires forall k :: 0 <= k < |a| ==> a[k] < |s|
    requires forall k :: 0 <= k < |b| ==> b[k] < |s|
    ensures Gather(s, a + b) == Gather(s, a) + Gather(s, b)
  {
  }

  /** `first_*` is the token at the first of the indices. */
  lemma FirstIsFirstIndex(s: seq<Token>, p: TokenKind -> bool)
    ensures var ix := Indices(s, p);
      First(s, p) == if |ix| == 0 then None else Some(s[ix[0]])
  {
    var ix := Indices(s, p);
    if |ix| > 0 {
      assert p(s[ix[0]].kind);
      var i :| 0 <= i < |s| && s[i] == First(s, p).value && p(s[i].kind)
        && forall j :: 0 <= j < i ==> !p(s[j].kind);
      assert i in ix;
      assert ix[0] == i by {
        var m :| 0 <= m < |ix| && ix[m] == i;
      }
    } else {
      assert !AnyMatch(s, p) by {
        forall i | 0 <= i < |s|
          ensures !p(s[i].kind)
        {
          assert i !in ix;
        }
      }
    }
  }

  /** `last_*_index` is the last of the indices. */
  lemma LastIndexIsLastIndex(s: seq<Token>, p: TokenKind -> bool)
    ensures var ix := Indices(s, p);
      LastIndex(s, p) == if |ix| == 0 then None else Some(ix[|ix| - 1])
  {
    var ix := Indices(s, p);
    var r := LastIndex(s, p);
    if |ix| > 0 {
      assert p(s[ix[|ix| - 1]].kind);
      var j := r.value;
      assert j in ix;
      var m :| 0 <= m < |ix| && ix[m] == j;
      assert m == |ix| - 1;
    } else {
      assert !AnyMatch(s, p) by {
        forall i | 0 <= i < |s|
          ensures !p(s[i].kind)
        {
          assert i !in ix;
        }
      }
    }
  }

  /** `last_*` is the token at `last_*_index`. */
  lemma LastAtLastIndex(s: seq<Token>, p: TokenKind -> bool)
    ensures Last(s, p) == match LastIndex(s, p)
      case None => None
      case Some(j) => Some(s[j])
  {
    var r := Last(s, p);
    if r.Some? {
      var j :| 0 <= j < |s| && s[j] == r.value && p(r.value.kind)
        && forall k :: j < k < |s| ==> !p(s[k].kind);
      var l := LastIndex(s, p).value;
      assert j == l;
    }
  }
}
