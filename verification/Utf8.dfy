/** UTF-8 text (section 3 of RFC 3629) and where the line cap cuts it
    (crates/memmux-pty/src/truncate.rs): always between two characters, and as late as possible. */
module Utf8 {
  import opened Prelude
  import Truncate

  /** A Unicode scalar value. */
  type Scalar = c: nat | c < 0xD800 || 0xE000 <= c < 0x11_0000

  /** One character: one to four bytes, of which all but the first start with the bits 10. */
  function EncodeChar(c: Scalar): (bytes: Bytes)
    ensures 1 <= |bytes| <= 4
  {
    if c < 0x80 then [c]
    else if c < 0x800 then [0xC0 + c / 64, 0x80 + c % 64]
    else if c < 0x1_0000 then [0xE0 + c / 4096, 0x80 + c / 64 % 64, 0x80 + c % 64]
    else [0xF0 + c / 262144, 0x80 + c / 4096 % 64, 0x80 + c / 64 % 64, 0x80 + c % 64]
  }

  function Encode(text: seq<Scalar>): Bytes {
    if text == [] then [] else Encode(text[..|text| - 1]) + EncodeChar(text[|text| - 1])
  }

  lemma EncodeSnoc(text: seq<Scalar>, c: Scalar)
    ensures Encode(text + [c]) == Encode(text) + EncodeChar(c)
  {
    assert (text + [c])[..|text|] == text;
  }

  lemma OnlyFirstByteStarts(c: Scalar)
    ensures !Truncate.IsContinuation(EncodeChar(c)[0])
    ensures forall i | 0 < i < |EncodeChar(c)| :: Truncate.IsContinuation(EncodeChar(c)[i])
  {
  }

  /** The first `k` characters end at byte `i`. */
  predicate EndsAt(text: seq<Scalar>, k: nat, i: nat) {
    k <= |text| && |Encode(text[..k])| == i
  }

  /** The program's byte test finds exactly the places between characters. */
  lemma {:induction false} BoundaryIff(text: seq<Scalar>, i: nat)
    requires i <= |Encode(text)|
    ensures Truncate.IsCharBoundary(Encode(text), i) <==> exists k: nat :: EndsAt(text, k, i)
  {
    if text == [] {
      assert EndsAt(text, 0, i);
    } else {
      var n := |text| - 1;
      var init, c := text[..n], text[n];
      var before, line := Encode(init), Encode(text);
      assert line == before + EncodeChar(c);
      OnlyFirstByteStarts(c);
      hide Encode, EncodeChar;
      if i < |before| {
        BoundaryIff(init, i);
        EndsBefore(text, i);
        assert line[i] == before[i];
      } else if i == |before| {
        assert EndsAt(text, n, i);
        assert line[i] == EncodeChar(c)[0];
      } else if i < |line| {
        assert line[i] == EncodeChar(c)[i - |before|];
        forall k: nat ensures !EndsAt(text, k, i) {
          NoneInside(text, k, i);
        }
      } else {
        assert text[..n + 1] == text;
        assert EndsAt(text, n + 1, i);
      }
    }
  }

  lemma EndsBefore(text: seq<Scalar>, i: nat)
    requires text != [] && i < |Encode(text[..|text| - 1])|
    ensures var init := text[..|text| - 1];
      (exists k: nat :: EndsAt(text, k, i)) <==> exists k: nat :: EndsAt(init, k, i)
  {
    var n := |text| - 1;
    assert text[..n + 1] == text;
    assert Encode(text) == Encode(text[..n]) + EncodeChar(text[n]);
    forall k: nat ensures EndsAt(text, k, i) <==> EndsAt(text[..n], k, i) {
      if k <= n { assert text[..n][..k] == text[..k]; }
    }
  }

  lemma NoneInside(text: seq<Scalar>, k: nat, i: nat)
    requires text != [] && |Encode(text[..|text| - 1])| < i < |Encode(text)|
    ensures !EndsAt(text, k, i)
  {
    if k == |text| {
      assert text[..k] == text;
    } else if k < |text| {
      PrefixIsShorter(text[..|text| - 1], k);
      assert text[..|text| - 1][..k] == text[..k];
    }
  }

  lemma {:induction false} PrefixIsShorter(text: seq<Scalar>, k: nat)
    requires k <= |text|
    ensures Encode(text[..k]) <= Encode(text)
    ensures |Encode(text)| >= |Encode(text[..k])| + (|text| - k)
    decreases |text|
  {
    if k == |text| {
      assert text[..k] == text;
    } else {
      PrefixIsShorter(text[..|text| - 1], k);
      assert text[..|text| - 1][..k] == text[..k];
    }
  }

  /** The longest run of leading characters that takes at most `cap` bytes. */
  predicate IsLongestWithin(text: seq<Scalar>, k: nat, cap: nat) {
    k <= |text| && |Encode(text[..k])| <= cap && (k < |text| ==> cap < |Encode(text[..k + 1])|)
  }

  /** The longest head of UTF-8 text that ends between two characters within the cap holds the longest run
      of characters within the cap, and less than one character, at most three bytes, is missing to it. */
  lemma LongestIs(text: seq<Scalar>, head: Bytes, cap: nat) returns (k: nat)
    requires head <= Encode(text) && |head| <= cap <= |Encode(text)|
    requires Truncate.IsCharBoundary(Encode(text), |head|)
    requires forall i | |head| < i <= cap :: !Truncate.IsCharBoundary(Encode(text), i)
    ensures IsLongestWithin(text, k, cap) && head == Encode(text[..k]) && cap - 3 <= |head|
  {
    hide Truncate.IsCharBoundary, EncodeChar, Encode;
    BoundaryIff(text, |head|);
    k :| EndsAt(text, k, |head|);
    PrefixIsShorter(text, k);
    if k < |text| {
      assert text[..k + 1] == text[..k] + [text[k]];
      EncodeSnoc(text[..k], text[k]);
      PrefixIsShorter(text, k + 1);
      var next := |Encode(text[..k + 1])|;
      assert EndsAt(text, k + 1, next);
      BoundaryIff(text, next);
    } else {
      assert text[..k] == text;
    }
  }

  /** Where the program cuts UTF-8 text: behind the last character that ends within the cap. */
  lemma CutIsLongest(text: seq<Scalar>, maxLineBytes: nat) returns (k: nat)
    requires |Encode(text)| > maxLineBytes
    ensures var head := Encode(text)[..Truncate.CutPoint(Encode(text), maxLineBytes)];
      && IsLongestWithin(text, k, Max(maxLineBytes, 1)) && head == Encode(text[..k])
      && Max(maxLineBytes, 1) - 3 <= |head|
  {
    var line := Encode(text);
    k := LongestIs(text, line[..Truncate.CutPoint(line, maxLineBytes)], Max(maxLineBytes, 1));
  }
}
