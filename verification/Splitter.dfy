/** Splitting provider output into lines (crates/memmux-pty/src/capture.rs, `ingest`). A line ends
    at "\n", "\r" or "\r\n"; what follows the last terminator is a tail that waits for more. */
module Splitter {
  import opened Prelude

  const LF: byte := 10
  const CR: byte := 13

  predicate IsTerminator(b: byte) { b == LF || b == CR }

  ghost predicate NoTerminator(t: Bytes) {
    forall i :: 0 <= i < |t| ==> t[i] != 10 && t[i] != 13
  }

  /** The index of the first terminator, or the length when there is none. */
  function FirstTerminator(t: Bytes): (idx: nat)
    ensures idx <= |t| && NoTerminator(t[..idx])
    ensures idx < |t| ==> IsTerminator(t[idx])
  {
    if t == [] || IsTerminator(t[0]) then 0
    else
      var rest := FirstTerminator(t[1..]);
      assert t[..rest + 1] == [t[0]] + t[1..][..rest];
      rest + 1
  }

  lemma {:induction false} FirstTerminatorIs(t: Bytes, idx: nat)
    requires idx <= |t| && NoTerminator(t[..idx]) && (idx < |t| ==> IsTerminator(t[idx]))
    ensures FirstTerminator(t) == idx
  {
    if idx > 0 {
      assert t[..idx][0] == t[0];
      assert t[1..][..idx - 1] == t[..idx][1..];
      FirstTerminatorIs(t[1..], idx - 1);
    }
  }

  lemma FirstOfLonger(a: Bytes, b: Bytes)
    requires FirstTerminator(a) < |a|
    ensures FirstTerminator(a + b) == FirstTerminator(a)
  {
    var idx := FirstTerminator(a);
    assert (a + b)[..idx] == a[..idx];
    FirstTerminatorIs(a + b, idx);
  }

  lemma FirstAfterTail(tail: Bytes, b: Bytes)
    requires NoTerminator(tail)
    ensures FirstTerminator(tail) == |tail|
    ensures FirstTerminator(tail + b) == |tail| + FirstTerminator(b)
  {
    var idx := FirstTerminator(b);
    assert tail[..|tail|] == tail;
    FirstTerminatorIs(tail, |tail|);
    assert (tail + b)[..|tail| + idx] == tail + b[..idx];
    assert NoTerminator(tail + b[..idx]) by { NoneInBoth(tail, b[..idx]); }
    FirstTerminatorIs(tail + b, |tail| + idx);
  }

  lemma NoneInBoth(a: Bytes, b: Bytes)
    requires NoTerminator(a) && NoTerminator(b)
    ensures NoTerminator(a + b)
  {
  }

  lemma NoneToTheEnd(t: Bytes)
    requires FirstTerminator(t) == |t|
    ensures NoTerminator(t)
  {
    assert t[..|t|] == t;
  }

  /** Where the text resumes after the terminator at `idx`: a "\n" right after "\r" goes with it. */
  function ResumeAt(t: Bytes, idx: nat): (cut: nat)
    requires idx < |t|
    ensures idx < cut <= |t|
  {
    if t[idx] == CR && idx + 1 < |t| && t[idx + 1] == LF then idx + 2 else idx + 1
  }

  /** The complete lines of a text, without their terminators. */
  function Lines(t: Bytes): seq<Bytes>
    decreases |t|
  {
    var idx := FirstTerminator(t);
    if idx == |t| then [] else [t[..idx]] + Lines(t[ResumeAt(t, idx)..])
  }

  /** What is left after the last terminator. */
  function Tail(t: Bytes): Bytes
    decreases |t|
  {
    var idx := FirstTerminator(t);
    if idx == |t| then t else Tail(t[ResumeAt(t, idx)..])
  }

  lemma NextLine(t: Bytes)
    ensures var idx := FirstTerminator(t);
      if idx == |t| then Lines(t) == [] && Tail(t) == t
      else Lines(t) == [t[..idx]] + Lines(t[ResumeAt(t, idx)..]) && Tail(t) == Tail(t[ResumeAt(t, idx)..])
  {
  }

  // ----- lines and terminators put back together -----

  /** "\n", "\r" and "\r\n". */
  datatype Ending = Lf | Cr | CrLf {
    function Text(): Bytes {
      match this
      case Lf => [10]
      case Cr => [13]
      case CrLf => [13, 10]
    }
  }

  datatype Piece = Piece(line: Bytes, ending: Ending)

  function Join(pieces: seq<Piece>, tail: Bytes): Bytes {
    if pieces == [] then tail
    else pieces[0].line + pieces[0].ending.Text() + Join(pieces[1..], tail)
  }

  function LinesOf(pieces: seq<Piece>): seq<Bytes> {
    seq(|pieces|, i requires 0 <= i < |pieces| => pieces[i].line)
  }

  /** Pieces as a reader would mark them: no terminator inside a line or the tail, and a lone
      "\r" only where no "\n" follows. */
  ghost predicate WellMarked(pieces: seq<Piece>, tail: Bytes) {
    if pieces == [] then NoTerminator(tail)
    else
      && NoTerminator(pieces[0].line)
      && (pieces[0].ending.Cr? ==> var rest := Join(pieces[1..], tail); rest == [] || rest[0] != 10)
      && WellMarked(pieces[1..], tail)
  }

  /** Every marking of a text yields exactly these lines and this tail. */
  lemma {:induction false} MarkingIsUnique(pieces: seq<Piece>, tail: Bytes)
    requires WellMarked(pieces, tail)
    ensures Lines(Join(pieces, tail)) == LinesOf(pieces) && Tail(Join(pieces, tail)) == tail
  {
    hide NoTerminator, FirstTerminator, Lines, Tail;
    var t := Join(pieces, tail);
    if pieces == [] {
      TailOfTail(t);
    } else {
      var p, rest := pieces[0], Join(pieces[1..], tail);
      assert LinesOf(pieces) == [p.line] + LinesOf(pieces[1..]);
      MarkingIsUnique(pieces[1..], tail);
      hide LinesOf, Join;
      NextMarked(p, rest);
      NextLine(t);
    }
  }

  lemma NextMarked(p: Piece, rest: Bytes)
    requires NoTerminator(p.line)
    requires p.ending.Cr? ==> rest == [] || rest[0] != LF
    ensures var t := p.line + p.ending.Text() + rest;
      && FirstTerminator(t) == |p.line| < |t|
      && t[..|p.line|] == p.line
      && t[ResumeAt(t, |p.line|)..] == rest
  {
    var t, idx := p.line + p.ending.Text() + rest, |p.line|;
    var after := p.ending.Text() + rest;
    assert t == p.line + after;
    FirstAfterTail(p.line, after);
    assert FirstTerminator(after) == 0 by { assert IsTerminator(after[0]); }
    assert t[idx] == after[0];
    if |after| > 1 { assert t[idx + 1] == after[1]; }
    assert t[idx + |p.ending.Text()|..] == rest;
  }

  /** Every text has such a marking. */
  lemma {:induction false} MarkingExists(t: Bytes) returns (pieces: seq<Piece>)
    ensures WellMarked(pieces, Tail(t)) && Join(pieces, Tail(t)) == t && LinesOf(pieces) == Lines(t)
    ensures NoTerminator(Tail(t))
    decreases |t|
  {
    if FirstTerminator(t) == |t| {
      pieces := [];
      assert t[..|t|] == t;
    } else {
      var piece, cut := FirstPiece(t);
      var rest := MarkingExists(t[cut..]);
      pieces := [piece] + rest;
      ConsMarking(piece, rest, Tail(t));
    }
  }

  lemma {:induction false} FirstPiece(t: Bytes) returns (p: Piece, cut: nat)
    requires FirstTerminator(t) < |t|
    ensures cut == ResumeAt(t, FirstTerminator(t)) && p.line == t[..FirstTerminator(t)]
    ensures t == p.line + p.ending.Text() + t[cut..]
    ensures p.ending.Cr? ==> t[cut..] == [] || t[cut..][0] != LF
  {
    var idx := FirstTerminator(t);
    cut := ResumeAt(t, idx);
    p := Piece(t[..idx], if cut == idx + 2 then CrLf else if t[idx] == CR then Cr else Lf);
    assert t == t[..idx] + t[idx..cut] + t[cut..];
    assert t[idx..cut] == p.ending.Text();
  }

  lemma ConsMarking(p: Piece, rest: seq<Piece>, tail: Bytes)
    requires WellMarked(rest, tail) && NoTerminator(p.line)
    requires p.ending.Cr? ==> Join(rest, tail) == [] || Join(rest, tail)[0] != LF
    ensures WellMarked([p] + rest, tail)
    ensures Join([p] + rest, tail) == p.line + p.ending.Text() + Join(rest, tail)
    ensures LinesOf([p] + rest) == [p.line] + LinesOf(rest)
  {
    assert ([p] + rest)[1..] == rest;
  }

  // ----- splitting in two goes -----

  /** A boundary between two chunks falls inside a "\r\n". */
  predicate CutsCrLf(a: Bytes, b: Bytes) {
    a != [] && a[|a| - 1] == CR && b != [] && b[0] == LF
  }

  lemma TailOfTail(t: Bytes)
    requires NoTerminator(t)
    ensures Lines(t) == [] && Tail(t) == t
  {
    FirstAfterTail(t, []);
  }

  lemma {:induction false} TailHasNone(t: Bytes)
    ensures NoTerminator(Tail(t))
    decreases |t|
  {
    hide NoTerminator;
    var idx := FirstTerminator(t);
    if idx == |t| {
      NoneToTheEnd(t);
    } else {
      TailHasNone(t[ResumeAt(t, idx)..]);
    }
  }

  /** Splitting a text at any other point, and the tail together with the second half, gives the
      lines of the whole. */
  lemma {:induction false} SplitAppend(a: Bytes, b: Bytes)
    requires !CutsCrLf(a, b)
    ensures Lines(a + b) == Lines(a) + Lines(Tail(a) + b) && Tail(a + b) == Tail(Tail(a) + b)
    decreases |a|
  {
    hide NoTerminator, FirstTerminator;
    var idx := FirstTerminator(a);
    if idx < |a| {
      FirstOfLonger(a, b);
      var cut := ResumeAt(a, idx);
      assert ResumeAt(a + b, idx) == cut;
      assert (a + b)[cut..] == a[cut..] + b;
      assert (a + b)[..idx] == a[..idx];
      SplitAppend(a[cut..], b);
    }
  }

  /** A boundary inside "\r\n" makes one more line, and an empty one. */
  lemma {:induction false} SplitCrLf(a: Bytes, b: Bytes)
    requires CutsCrLf(a, b)
    ensures Tail(a) == [] && Tail(a + b) == Tail(b)
    ensures Lines(b) != [] && Lines(b)[0] == [] && Lines(a + b) == Lines(a) + Lines(b)[1..]
    decreases |a|
  {
    hide NoTerminator, FirstTerminator, Lines, Tail;
    SomeTerminator(a);
    LeadingLf(b);
    var idx := FirstTerminator(a);
    if idx + 1 == |a| {
      CrMeetsLf(a, b);
    } else {
      var rest := a[ResumeAt(a, idx)..];
      LastStays(a, idx);
      SplitCrLf(rest, b);
      FirstStaysFirst(a, b);
      assert Lines(a + b) == [a[..idx]] + (Lines(rest) + Lines(b)[1..]);
    }
  }

  lemma SomeTerminator(a: Bytes)
    requires a != [] && a[|a| - 1] == CR
    ensures FirstTerminator(a) < |a|
  {
    if FirstTerminator(a) == |a| {
      NoneToTheEnd(a);
      assert false;
    }
  }

  /** When more than the terminator follows the first line, the rest is split on its own. */
  lemma FirstStaysFirst(a: Bytes, b: Bytes)
    requires FirstTerminator(a) + 1 < |a|
    ensures var idx := FirstTerminator(a);
      var rest := a[ResumeAt(a, idx)..];
      && Lines(a) == [a[..idx]] + Lines(rest) && Tail(a) == Tail(rest)
      && Lines(a + b) == [a[..idx]] + Lines(rest + b) && Tail(a + b) == Tail(rest + b)
  {
    hide NoTerminator, FirstTerminator, Lines, Tail;
    var idx := FirstTerminator(a);
    FirstOfLonger(a, b);
    NextLine(a);
    NextLine(a + b);
    assert ResumeAt(a + b, idx) == ResumeAt(a, idx);
    assert (a + b)[ResumeAt(a, idx)..] == a[ResumeAt(a, idx)..] + b && (a + b)[..idx] == a[..idx];
  }

  lemma {:induction false} CrMeetsLf(a: Bytes, b: Bytes)
    requires CutsCrLf(a, b) && FirstTerminator(a) + 1 == |a|
    ensures Lines(a) == [a[..|a| - 1]] && Tail(a) == []
    ensures Lines(a + b) == [a[..|a| - 1]] + Lines(b[1..]) && Tail(a + b) == Tail(b[1..])
  {
    hide NoTerminator, FirstTerminator, Lines, Tail;
    var idx := |a| - 1;
    FirstOfLonger(a, b);
    NextLine(a);
    NextLine(a + b);
    assert a[ResumeAt(a, idx)..] == [];
    Nothing();
    TailOfTail([]);
    assert (a + b)[idx + 1] == b[0];
    assert (a + b)[ResumeAt(a + b, idx)..] == b[1..] && (a + b)[..idx] == a[..idx];
  }

  lemma Nothing()
    ensures NoTerminator([])
  {
  }

  lemma LeadingLf(b: Bytes)
    requires b != [] && b[0] == LF
    ensures Lines(b) == [[]] + Lines(b[1..]) && Tail(b) == Tail(b[1..])
  {
    assert FirstTerminator(b) == 0;
    assert b[..0] == [];
  }

  /** A "\r" at the end is a line of its own when it is not the first terminator. */
  lemma LastStays(a: Bytes, idx: nat)
    requires idx + 1 < |a| && a[|a| - 1] == CR
    ensures a[ResumeAt(a, idx)..] != [] && a[ResumeAt(a, idx)..][|a[ResumeAt(a, idx)..]| - 1] == CR
  {
  }

  /** A tail in front of more text only lengthens the first line. */
  lemma {:induction false} TailInFront(tail: Bytes, b: Bytes)
    requires NoTerminator(tail)
    ensures |Lines(tail + b)| == |Lines(b)|
    ensures Tail(tail + b) == if Lines(b) == [] then tail + b else Tail(b)
  {
    hide NoTerminator, FirstTerminator, Lines, Tail;
    var idx := FirstTerminator(b);
    FirstAfterTail(tail, b);
    NextLine(b);
    NextLine(tail + b);
    if idx < |b| {
      assert (tail + b)[ResumeAt(tail + b, |tail| + idx)..] == b[ResumeAt(b, idx)..];
    }
  }

  // ----- what one chunk makes of the pending text -----

  /** The lines a chunk completes, and the text left pending. A tail longer than the line cap is
      taken as a line at once. */
  datatype Fed = Fed(lines: seq<Bytes>, pending: Bytes)

  function Feed(pending: Bytes, data: Bytes, cap: nat): Fed {
    var t := pending + data;
    if |Tail(t)| > cap then Fed(Lines(t) + [Tail(t)], []) else Fed(Lines(t), Tail(t))
  }

  lemma FeedLeavesShortTail(pending: Bytes, data: Bytes, cap: nat)
    ensures NoTerminator(Feed(pending, data, cap).pending) && |Feed(pending, data, cap).pending| <= cap
  {
    TailHasNone(pending + data);
    Nothing();
  }

  /** The boundary between two chunks goes unnoticed: it does not fall inside "\r\n", and the
      tail in front of it is not long enough to be flushed early. */
  predicate CleanBoundary(pending: Bytes, a: Bytes, b: Bytes, cap: nat) {
    !CutsCrLf(a, b) && (b == [] || |Tail(pending + a)| <= cap)
  }

  /** Two chunks give the same lines and pending text as one exactly at a clean boundary;
      elsewhere even the number of lines or the pending text differs. */
  lemma FeedTwice(pending: Bytes, a: Bytes, b: Bytes, cap: nat)
    requires NoTerminator(pending) && |pending| <= cap
    ensures var first := Feed(pending, a, cap);
      var second := Feed(first.pending, b, cap);
      var once := Feed(pending, a + b, cap);
      if CleanBoundary(pending, a, b, cap)
      then once == Fed(first.lines + second.lines, second.pending)
      else |once.lines| != |first.lines + second.lines| || once.pending != second.pending
  {
    hide NoTerminator, Lines, Tail, Feed;
    var t := pending + a;
    assert pending + (a + b) == t + b;
    FeedWhole(pending, a, cap);
    FeedWhole(pending, a + b, cap);
    FirstFed(t, cap);
    if CutsCrLf(a, b) {
      FedAcrossCrLf(t, b, cap);
    } else {
      PendingCutsNothing(pending, a, b);
      if |Tail(t)| > cap {
        FlushedEarly(t, b, cap);
      } else {
        KeptWaiting(t, b, cap);
      }
    }
  }

  lemma FeedWhole(pending: Bytes, data: Bytes, cap: nat)
    ensures Feed(pending, data, cap) == Feed([], pending + data, cap)
  {
    assert [] + (pending + data) == pending + data;
  }

  lemma FirstFed(t: Bytes, cap: nat)
    ensures Feed([], t, cap) == if |Tail(t)| > cap then Fed(Lines(t) + [Tail(t)], []) else Fed(Lines(t), Tail(t))
  {
    assert [] + t == t;
  }

  lemma PendingCutsNothing(pending: Bytes, a: Bytes, b: Bytes)
    requires NoTerminator(pending) && !CutsCrLf(a, b)
    ensures !CutsCrLf(pending + a, b)
  {
    if a == [] && pending != [] { assert !IsTerminator(pending[|pending| - 1]); }
  }

  lemma FedAcrossCrLf(t: Bytes, b: Bytes, cap: nat)
    requires CutsCrLf(t, b)
    ensures Tail(t) == [] && |Feed([], t + b, cap).lines| + 1 == |Lines(t)| + |Feed([], b, cap).lines|
  {
    hide NoTerminator, Lines, Tail, Feed;
    SplitCrLf(t, b);
    FirstFed(t + b, cap);
    FirstFed(b, cap);
  }

  lemma {:induction false} KeptWaiting(t: Bytes, b: Bytes, cap: nat)
    requires !CutsCrLf(t, b)
    ensures var second := Feed(Tail(t), b, cap);
      Feed([], t + b, cap) == Fed(Lines(t) + second.lines, second.pending)
  {
    hide Lines, Tail;
    SplitAppend(t, b);
    assert [] + (t + b) == t + b;
    assert Lines(t) + (Lines(Tail(t) + b) + [Tail(t + b)]) == Lines(t) + Lines(Tail(t) + b) + [Tail(t + b)];
  }

  /** An over-long tail was flushed in front of `b`. */
  lemma {:induction false} FlushedEarly(t: Bytes, b: Bytes, cap: nat)
    requires !CutsCrLf(t, b) && |Tail(t)| > cap
    ensures var second := Feed([], b, cap);
      var once := Feed([], t + b, cap);
      if b == [] then once == Fed(Lines(t) + [Tail(t)] + second.lines, second.pending)
      else |once.lines| != |Lines(t)| + 1 + |second.lines| || once.pending != second.pending
  {
    hide NoTerminator, Lines, Tail;
    assert [] + b == b && [] + (t + b) == t + b;
    if b == [] {
      assert t + b == t;
      Nothing();
      TailOfTail([]);
    } else {
      SplitAppend(t, b);
      TailHasNone(t);
      TailInFront(Tail(t), b);
      if Lines(b) == [] {
        assert Tail(b) == b by { NextLine(b); }
      }
    }
  }
}
