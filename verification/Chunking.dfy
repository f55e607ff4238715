/** Text that arrives in chunks (crates/memmux-pty/src/capture.rs, `ingest`): what any number of
    chunks gives, against what the whole text gives at once. */
module Chunking {
  import opened Prelude
  import opened Splitter

  function Concat(chunks: seq<Bytes>): Bytes {
    if chunks == [] then [] else Concat(chunks[..|chunks| - 1]) + chunks[|chunks| - 1]
  }

  /** The lines of all chunks, one chunk after the other, and the text left pending. */
  function FeedAll(pending: Bytes, chunks: seq<Bytes>, cap: nat): Fed {
    if chunks == [] then Fed([], pending)
    else FeedMore(FeedAll(pending, chunks[..|chunks| - 1], cap), chunks[|chunks| - 1], cap)
  }

  function FeedMore(f: Fed, chunk: Bytes, cap: nat): Fed {
    var g := Feed(f.pending, chunk, cap);
    Fed(f.lines + g.lines, g.pending)
  }

  /** Every boundary between two chunks is clean. */
  ghost predicate AllClean(pending: Bytes, chunks: seq<Bytes>, cap: nat) {
    forall k | 0 < k < |chunks| :: CleanBoundary(pending, Concat(chunks[..k]), chunks[k], cap)
  }

  lemma AllCleanSnoc(pending: Bytes, init: seq<Bytes>, chunk: Bytes, cap: nat)
    ensures AllClean(pending, init + [chunk], cap)
       <==> AllClean(pending, init, cap) && (init == [] || CleanBoundary(pending, Concat(init), chunk, cap))
  {
    hide CleanBoundary;
    var chunks := init + [chunk];
    assert chunks[..|init|] == init;
    assert forall k | 0 < k < |init| :: chunks[..k] == init[..k] && chunks[k] == init[k];
  }

  lemma FeedAllSnoc(pending: Bytes, init: seq<Bytes>, chunk: Bytes, cap: nat)
    ensures FeedAll(pending, init + [chunk], cap) == FeedMore(FeedAll(pending, init, cap), chunk, cap)
    ensures Concat(init + [chunk]) == Concat(init) + chunk
  {
    assert (init + [chunk])[..|init|] == init;
  }

  // ----- clean boundaries go unnoticed -----

  lemma LastApart(chunks: seq<Bytes>)
    requires chunks != []
    ensures chunks == chunks[..|chunks| - 1] + [chunks[|chunks| - 1]]
  {
  }

  lemma NoChunks(pending: Bytes, cap: nat)
    requires NoTerminator(pending) && |pending| <= cap
    ensures Concat([]) == [] && FeedAll(pending, [], cap) == Fed([], pending) == Feed(pending, [], cap)
  {
    assert pending + [] == pending;
    TailOfTail(pending);
  }

  lemma OneChunk(pending: Bytes, chunk: Bytes, cap: nat)
    ensures FeedMore(Fed([], pending), chunk, cap) == Feed(pending, [] + chunk, cap)
  {
    hide Feed;
    assert [] + chunk == chunk;
    assert [] + Feed(pending, chunk, cap).lines == Feed(pending, chunk, cap).lines;
  }

  lemma CleanSnoc(pending: Bytes, init: seq<Bytes>, last: Bytes, cap: nat)
    requires NoTerminator(pending) && |pending| <= cap
    requires FeedAll(pending, init, cap) == Feed(pending, Concat(init), cap)
    requires init != [] ==> CleanBoundary(pending, Concat(init), last, cap)
    ensures FeedAll(pending, init + [last], cap) == Feed(pending, Concat(init + [last]), cap)
  {
    NoChunks(pending, cap);
    hide NoTerminator, CleanBoundary, Feed, FeedAll, Concat;
    FeedAllSnoc(pending, init, last, cap);
    if init == [] {
      OneChunk(pending, last, cap);
    } else {
      FeedTwice(pending, Concat(init), last, cap);
    }
  }

  lemma {:induction false} CleanIsOne(pending: Bytes, chunks: seq<Bytes>, cap: nat)
    requires NoTerminator(pending) && |pending| <= cap && AllClean(pending, chunks, cap)
    ensures FeedAll(pending, chunks, cap) == Feed(pending, Concat(chunks), cap)
  {
    hide *;
    if chunks == [] {
      NoChunks(pending, cap);
    } else {
      var init, last := chunks[..|chunks| - 1], chunks[|chunks| - 1];
      LastApart(chunks);
      AllCleanSnoc(pending, init, last, cap);
      CleanIsOne(pending, init, cap);
      CleanSnoc(pending, init, last, cap);
    }
  }

  // ----- an unclean one is never made good -----

  function Waiting(pending: Bytes): nat { if pending == [] then 0 else 1 }

  /** Fed so far against the whole text `t` so far: the pending text is the end of the tail of `t`,
      the rest `x` of that tail having been flushed early; lines and pending text count for no
      less than in the whole, and for more once things are `off`. */
  ghost predicate Lags(t: Bytes, f: Fed, x: Bytes, cap: nat, off: bool) {
    && Tail(t) == x + f.pending && NoTerminator(f.pending) && |f.pending| <= cap
    && (x != [] ==> |Tail(t)| > cap)
    && (x != [] && f.pending != [] ==> off)
    && |Lines(t)| + Waiting(Tail(t)) + (if off then 1 else 0) <= |f.lines| + Waiting(f.pending)
  }

  predicate CleanAt(t: Bytes, b: Bytes, cap: nat) {
    !CutsCrLf(t, b) && (b == [] || |Tail(t)| <= cap)
  }

  lemma CleanAtIff(pending: Bytes, a: Bytes, b: Bytes, cap: nat)
    requires NoTerminator(pending)
    ensures CleanAt(pending + a, b, cap) <==> CleanBoundary(pending, a, b, cap)
  {
    hide Tail;
    if !CutsCrLf(a, b) { PendingCutsNothing(pending, a, b); }
  }

  /** What one more chunk adds, by whether the new text has a terminator. */
  lemma FeedOnTail(p: Bytes, b: Bytes, cap: nat)
    requires NoTerminator(p)
    ensures |Lines(p + b)| == |Lines(b)| && Tail(p + b) == if Lines(b) == [] then p + b else Tail(b)
    ensures var g := Feed(p, b, cap);
      if |Tail(p + b)| > cap then |g.lines| == |Lines(b)| + 1 && g.pending == []
      else |g.lines| == |Lines(b)| && g.pending == Tail(p + b)
    ensures NoTerminator(Feed(p, b, cap).pending) && |Feed(p, b, cap).pending| <= cap
  {
    hide NoTerminator, Lines, Tail;
    TailInFront(p, b);
    hide Feed;
    FeedWhole(p, b, cap);
    FirstFed(p + b, cap);
    FeedLeavesShortTail(p, b, cap);
  }

  lemma NothingNew(t: Bytes, f: Fed, x: Bytes, cap: nat, off: bool)
    requires Lags(t, f, x, cap, off)
    ensures Lags(t + [], FeedMore(f, [], cap), x, cap, off)
  {
    assert t + [] == t && f.pending + [] == f.pending;
    TailOfTail(f.pending);
    assert f.lines + [] == f.lines;
  }

  /** Across "\r\n" the chunks give one line too many. */
  lemma LagAcrossCrLf(t: Bytes, f: Fed, x: Bytes, b: Bytes, cap: nat, off: bool) returns (x': Bytes)
    requires Lags(t, f, x, cap, off) && CutsCrLf(t, b)
    ensures Lags(t + b, FeedMore(f, b, cap), x', cap, true)
  {
    hide NoTerminator, Lines, Tail, Feed;
    SplitCrLf(t, b);
    FeedOnTail(f.pending, b, cap);
    assert f.pending == [] && f.pending + b == b;
    x' := if |Tail(b)| > cap then Tail(b) else [];
    assert x' + Feed(f.pending, b, cap).pending == Tail(t + b);
  }

  /** Away from "\r\n" the text so far counts with its tail only. */
  lemma MoreText(t: Bytes, b: Bytes)
    requires !CutsCrLf(t, b)
    ensures NoTerminator(Tail(t)) && |Lines(t + b)| == |Lines(t)| + |Lines(b)|
    ensures Tail(t + b) == if Lines(b) == [] then Tail(t) + b else Tail(b)
  {
    TailHasNone(t);
    hide NoTerminator, Lines, Tail;
    SplitAppend(t, b);
    FeedOnTail(Tail(t), b, 0);
  }

  lemma LagFlushes(t: Bytes, f: Fed, x: Bytes, b: Bytes, cap: nat, off: bool)
    requires Lags(t, f, x, cap, off) && !CutsCrLf(t, b) && b != [] && |Tail(f.pending + b)| > cap
    ensures Lags(t + b, FeedMore(f, b, cap), Tail(t + b), cap, off || |Tail(t)| > cap)
  {
    hide NoTerminator, Lines, Tail, Feed;
    MoreText(t, b);
    FeedOnTail(f.pending, b, cap);
    assert Tail(t + b) + [] == Tail(t + b);
    if Lines(b) == [] { assert |x + f.pending + b| >= |f.pending + b|; }
  }

  lemma LagGrows(t: Bytes, f: Fed, x: Bytes, b: Bytes, cap: nat, off: bool)
    requires Lags(t, f, x, cap, off) && !CutsCrLf(t, b) && b != []
    requires |Tail(f.pending + b)| <= cap && Lines(b) == []
    ensures Lags(t + b, FeedMore(f, b, cap), x, cap, off || |Tail(t)| > cap)
  {
    hide NoTerminator, Lines, Tail, Feed;
    MoreText(t, b);
    FeedOnTail(f.pending, b, cap);
    assert x + f.pending + b == x + (f.pending + b);
  }

  lemma LagEnds(t: Bytes, f: Fed, x: Bytes, b: Bytes, cap: nat, off: bool)
    requires Lags(t, f, x, cap, off) && !CutsCrLf(t, b) && b != []
    requires |Tail(f.pending + b)| <= cap && Lines(b) != []
    ensures Lags(t + b, FeedMore(f, b, cap), [], cap, off || |Tail(t)| > cap)
  {
    hide NoTerminator, Lines, Tail, Feed;
    MoreText(t, b);
    FeedOnTail(f.pending, b, cap);
    assert [] + Tail(b) == Tail(b);
  }

  lemma LagOnText(t: Bytes, f: Fed, x: Bytes, b: Bytes, cap: nat, off: bool) returns (x': Bytes)
    requires Lags(t, f, x, cap, off) && !CutsCrLf(t, b) && b != []
    ensures Lags(t + b, FeedMore(f, b, cap), x', cap, off || |Tail(t)| > cap)
  {
    hide Lags, FeedMore, Lines, Tail;
    if |Tail(f.pending + b)| > cap {
      x' := Tail(t + b);
      LagFlushes(t, f, x, b, cap, off);
    } else if Lines(b) == [] {
      x' := x;
      LagGrows(t, f, x, b, cap, off);
    } else {
      x' := [];
      LagEnds(t, f, x, b, cap, off);
    }
  }

  lemma StepLags(t: Bytes, f: Fed, x: Bytes, b: Bytes, cap: nat, off: bool) returns (x': Bytes)
    requires Lags(t, f, x, cap, off)
    ensures Lags(t + b, FeedMore(f, b, cap), x', cap, off || !CleanAt(t, b, cap))
  {
    hide Lags, FeedMore;
    if b == [] {
      NothingNew(t, f, x, cap, off);
      x' := x;
    } else if CutsCrLf(t, b) {
      x' := LagAcrossCrLf(t, f, x, b, cap, off);
    } else {
      x' := LagOnText(t, f, x, b, cap, off);
    }
  }

  lemma SnocLags(pending: Bytes, init: seq<Bytes>, last: Bytes, cap: nat, y: Bytes) returns (x: Bytes)
    requires NoTerminator(pending) && |pending| <= cap
    requires Lags(pending + Concat(init), FeedAll(pending, init, cap), y, cap, !AllClean(pending, init, cap))
    ensures var chunks := init + [last];
      Lags(pending + Concat(chunks), FeedAll(pending, chunks, cap), x, cap, !AllClean(pending, chunks, cap))
  {
    if init == [] {
      NoChunks(pending, cap);
      assert pending + Concat(init) == pending;
      FirstIsClean(pending, last, cap);
    }
    hide *;
    AllCleanSnoc(pending, init, last, cap);
    FeedAllSnoc(pending, init, last, cap);
    CleanAtIff(pending, Concat(init), last, cap);
    x := StepLags(pending + Concat(init), FeedAll(pending, init, cap), y, last, cap, !AllClean(pending, init, cap));
    Regroup(pending, Concat(init), last);
  }

  lemma Regroup(a: Bytes, b: Bytes, c: Bytes)
    ensures a + b + c == a + (b + c)
  {
  }

  lemma {:induction false} FeedAllLags(pending: Bytes, chunks: seq<Bytes>, cap: nat) returns (x: Bytes)
    requires NoTerminator(pending) && |pending| <= cap
    ensures Lags(pending + Concat(chunks), FeedAll(pending, chunks, cap), x, cap, !AllClean(pending, chunks, cap))
  {
    if chunks == [] {
      x := [];
      assert pending + [] == pending;
      TailOfTail(pending);
    } else {
      hide *;
      var init, last := chunks[..|chunks| - 1], chunks[|chunks| - 1];
      var y := FeedAllLags(pending, init, cap);
      LastApart(chunks);
      x := SnocLags(pending, init, last, cap, y);
    }
  }

  lemma FirstIsClean(pending: Bytes, b: Bytes, cap: nat)
    requires NoTerminator(pending) && |pending| <= cap
    ensures CleanAt(pending, b, cap)
  {
    TailOfTail(pending);
    assert pending != [] ==> !IsTerminator(pending[|pending| - 1]);
  }

  /** Any number of chunks gives the lines and the pending text of the whole exactly when every
      boundary is clean; otherwise even the number of lines or the pending text differs. */
  lemma FeedAllIff(pending: Bytes, chunks: seq<Bytes>, cap: nat)
    requires NoTerminator(pending) && |pending| <= cap
    ensures var fed, once := FeedAll(pending, chunks, cap), Feed(pending, Concat(chunks), cap);
      if AllClean(pending, chunks, cap) then fed == once
      else |fed.lines| != |once.lines| || fed.pending != once.pending
  {
    hide NoTerminator, AllClean, FeedAll, Feed, Concat, Lines, Tail;
    if AllClean(pending, chunks, cap) {
      CleanIsOne(pending, chunks, cap);
    } else {
      var x := FeedAllLags(pending, chunks, cap);
      FeedWhole(pending, Concat(chunks), cap);
      FirstFed(pending + Concat(chunks), cap);
    }
  }
}
