/** The per-line size cap (crates/memmux-pty/src/truncate.rs). Text is UTF-8; a character starts
    at every byte that is not a continuation byte 10xxxxxx (section 3 of RFC 3629). */
module Truncate {
  import opened Prelude

  datatype TruncateOutcome =
    | Kept(text: Bytes)
    | Cut(head: Bytes, fullBytes: nat, full: Bytes)

  predicate IsContinuation(b: byte) { 0x80 <= b < 0xC0 }

  predicate IsCharBoundary(line: Bytes, i: nat)
    requires i <= |line|
  {
    i == 0 || i == |line| || !IsContinuation(line[i])
  }

  /** Where a line of more than `maxLineBytes` bytes is cut: the last character boundary at or
      below the cap, a cap of zero counting as one. */
  function CutPoint(line: Bytes, maxLineBytes: nat): (end: nat)
    requires |line| > maxLineBytes
    ensures end <= Max(maxLineBytes, 1) && end <= |line| && IsCharBoundary(line, end)
    ensures forall i | end < i <= Max(maxLineBytes, 1) :: !IsCharBoundary(line, i)
  {
    BackOff(line, Max(maxLineBytes, 1))
  }

  function BackOff(line: Bytes, from: nat): (end: nat)
    requires from <= |line|
    ensures end <= from && IsCharBoundary(line, end)
    ensures forall i | end < i <= from :: !IsCharBoundary(line, i)
  {
    if IsCharBoundary(line, from) then from else BackOff(line, from - 1)
  }

  function Truncated(line: Bytes, maxLineBytes: nat): TruncateOutcome {
    if |line| <= maxLineBytes then Kept(line)
    else Cut(line[..CutPoint(line, maxLineBytes)], |line|, line)
  }

  method TruncateLine(line: Bytes, maxLineBytes: nat) returns (r: TruncateOutcome)
    ensures r == Truncated(line, maxLineBytes)
  {
    if |line| <= maxLineBytes {
      return Kept(line);
    }
    var cap := Max(maxLineBytes, 1);
    var end := Min(cap, |line|);
    while end > 0 && !IsCharBoundary(line, end)
      invariant 0 <= end <= cap <= |line|
      invariant BackOff(line, end) == BackOff(line, cap)
    {
      end := end - 1;
    }
    r := Cut(line[..end], |line|, line);
  }

  /** In UTF-8 at most three continuation bytes follow one another. */
  ghost predicate ShortCharacters(line: Bytes) {
    forall i :: 0 < i && i + 3 < |line| ==>
      !(IsContinuation(line[i]) && IsContinuation(line[i + 1]) &&
        IsContinuation(line[i + 2]) && IsContinuation(line[i + 3]))
  }

  /** Cutting on a character boundary costs at most three bytes of the cap. */
  lemma HeadNearlyFillsCap(line: Bytes, maxLineBytes: nat)
    requires |line| > maxLineBytes && ShortCharacters(line)
    ensures Max(maxLineBytes, 1) - 3 <= CutPoint(line, maxLineBytes)
  {
    var cap := Max(maxLineBytes, 1);
    if cap > 3 {
      var i := cap - 3;
      assert !(IsContinuation(line[i]) && IsContinuation(line[i + 1]) &&
        IsContinuation(line[i + 2]) && IsContinuation(line[i + 3]));
      assert IsCharBoundary(line, i) || IsCharBoundary(line, i + 1) ||
        IsCharBoundary(line, i + 2) || IsCharBoundary(line, i + 3);
    }
  }
}
