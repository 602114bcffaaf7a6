module BracketSkipping {

  // What is passed when a structure is skipped: the tokens up to the close that belongs to its first bracket.

  import opened Wrappers
  import opened Serialization

  /** After n tokens the nesting depth is zero for the first time. */
  predicate ClosesAt(ts: Tokens, depth: nat, n: nat)
  {
    && n <= |ts| && Depth(ts[..n], depth) == Some(0)
    && forall k: nat :: k < n ==> Depth(ts[..k], depth).Some? && Depth(ts[..k], depth).value > 0
  }

  /** The depth after one token, in a structure that is still open. */
  function Next(t: Token, depth: nat): nat
    requires depth > 0
  {
    match t
    case Open => depth + 1
    case Close => depth - 1
    case _ => depth
  }

  lemma DepthBehind(ts: Tokens, depth: nat, k: nat)
    requires ts != [] && depth > 0 && 0 < k <= |ts|
    ensures Depth(ts[..k], depth) == Depth(ts[1..][..k - 1], Next(ts[0], depth))
  {
    assert ts[..k][1..] == ts[1..][..k - 1];
  }

  lemma ClosesBehind(ts: Tokens, depth: nat, n: nat)
    requires ts != [] && depth > 0
    ensures ClosesAt(ts, depth, n) <==> n > 0 && ClosesAt(ts[1..], Next(ts[0], depth), n - 1)
  {
    hide Depth, Next;
    DepthOfNothing(ts, depth);
    if 0 < n <= |ts| {
      var tail, next := ts[1..], Next(ts[0], depth);
      forall k: nat | 0 < k <= n ensures Depth(ts[..k], depth) == Depth(tail[..k - 1], next) {
        DepthBehind(ts, depth, k);
      }
      if ClosesAt(ts, depth, n) {
        forall k: nat | k < n - 1 ensures Depth(tail[..k], next).Some? && Depth(tail[..k], next).value > 0 {
          assert Depth(ts[..k + 1], depth) == Depth(tail[..k], next);
        }
      }
      if ClosesAt(tail, next, n - 1) {
        forall k: nat | k < n ensures Depth(ts[..k], depth).Some? && Depth(ts[..k], depth).value > 0 {
          if k > 0 { assert Depth(ts[..k], depth) == Depth(tail[..k - 1], next); }
        }
      }
    }
  }

  lemma DepthOfNothing(ts: Tokens, depth: nat)
    ensures Depth(ts[..0], depth) == Some(depth)
  {
  }

  /** Brackets are skipped up to the close that ends the structure, and not at all if there is none. */
  lemma {:induction false} SkippedUpToClose(ts: Tokens, depth: nat)
    ensures SkipBrackets(ts, depth).Some? <==> exists n: nat :: ClosesAt(ts, depth, n)
    ensures forall n: nat :: ClosesAt(ts, depth, n) ==> SkipBrackets(ts, depth) == Some(ts[n..])
    decreases ts
  {
    hide ClosesAt;
    if depth == 0 || ts == [] {
      AtTheEnd(ts, depth);
      assert ts[0..] == ts;
      assert depth == 0 ==> ClosesAt(ts, depth, 0);
    } else {
      SkippedUpToClose(ts[1..], Next(ts[0], depth));
      forall n: nat ensures ClosesAt(ts, depth, n) <==> n > 0 && ClosesAt(ts[1..], Next(ts[0], depth), n - 1) {
        ClosesBehind(ts, depth, n);
      }
      if m: nat :| ClosesAt(ts[1..], Next(ts[0], depth), m) { assert ClosesAt(ts, depth, m + 1); }
      forall n: nat | n > 0 && n <= |ts| ensures ts[1..][n - 1..] == ts[n..] {}
      forall n: nat | ClosesAt(ts, depth, n) ensures n <= |ts| { Within(ts, depth, n); }
    }
  }

  lemma Within(ts: Tokens, depth: nat, n: nat)
    requires ClosesAt(ts, depth, n)
    ensures n <= |ts|
  {
  }

  lemma AtTheEnd(ts: Tokens, depth: nat)
    requires depth == 0 || ts == []
    ensures forall n: nat :: ClosesAt(ts, depth, n) <==> depth == 0 && n == 0
  {
    assert Depth(ts[..0], depth) == Some(depth);
  }

  /** Skipping passes a single value, or an opened structure with all that is nested in it. */
  lemma SkipIsExact(ts: Tokens)
    ensures SkipStructure(ts).Some? <==>
              ts != [] && (ts[0].Val? || (ts[0] == Open && exists n: nat :: ClosesAt(ts[1..], 1, n)))
    ensures ts != [] && ts[0].Val? ==> SkipStructure(ts) == Some(ts[1..])
    ensures ts != [] && ts[0] == Open ==>
              forall n: nat :: ClosesAt(ts[1..], 1, n) ==> SkipStructure(ts) == Some(ts[1..][n..])
  {
    hide SkipBrackets, ClosesAt;
    if ts != [] { SkippedUpToClose(ts[1..], 1); }
  }
}
