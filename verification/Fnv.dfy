/** The FNV-1a 64-bit digest (section 2 of draft-eastlake-fnv), used by the checkpoint integrity
    field (crates/memmux-lifecycle/src/checkpoint.rs) and by slugs
    (crates/memmux-worktree/src/slug.rs). */
module Fnv {
  import opened Prelude
  import Radix

  const OFFSET_BASIS: nat := 0xcbf29ce484222325
  const FNV_PRIME: nat := 0x100000001b3

  /** `FNV_PRIME` times this is one modulo 2^64: an odd number has an inverse. */
  const PRIME_INVERSE: nat := 0xce965057aff6957b

  type u64 = x: nat | x < 0x1_0000_0000_0000_0000

  /** Bitwise exclusive or of the low `bits` bits. */
  function Xor(a: nat, b: nat, bits: nat): nat {
    if bits == 0 then 0 else (a + b) % 2 + 2 * Xor(a / 2, b / 2, bits - 1)
  }

  /** `h ^ b`: only the low eight bits of the state can change. */
  function XorByte(h: u64, b: byte): u64 {
    XorIsByte(h % 256, b);
    h / 256 * 256 + Xor(h % 256, b, 8)
  }

  lemma XorIsByte(a: nat, b: nat)
    ensures Xor(a, b, 8) < 256
  {
    hide Xor;
    XorBound(a, b, 8);
    TwoToTheEighth();
  }

  lemma TwoToTheEighth()
    ensures Radix.Power(2, 8) == 256
  {
    assert Radix.Power(2, 4) == 16;
  }

  lemma {:induction false} XorBound(a: nat, b: nat, bits: nat)
    ensures Xor(a, b, bits) < Radix.Power(2, bits)
  {
    if bits > 0 { XorBound(a / 2, b / 2, bits - 1); }
  }

  function WrappingMul(a: u64, b: u64): u64 { a * b % TWO_TO_THE_64 }

  function Step(h: u64, b: byte): u64 { WrappingMul(XorByte(h, b), FNV_PRIME) }

  function Digest(bytes: Bytes): u64 {
    if bytes == [] then OFFSET_BASIS else Step(Digest(bytes[..|bytes| - 1]), bytes[|bytes| - 1])
  }

  // ----- each step is a bijection -----

  /** Exclusive or with the same operand twice changes nothing. */
  lemma {:induction false} XorTwice(a: nat, b: nat, bits: nat)
    requires a < Radix.Power(2, bits)
    ensures Xor(Xor(a, b, bits), b, bits) == a
  {
    if bits > 0 {
      XorTwice(a / 2, b / 2, bits - 1);
      XorUnfold(a, b, bits);
      XorUnfold(Xor(a, b, bits), b, bits);
      hide Xor;
      var x, low := Xor(a, b, bits), (a + b) % 2;
      Radix.ModUnique(x, 2, Xor(a / 2, b / 2, bits - 1), low);
      assert (x + b) % 2 == a % 2 by { LowBit(a, b, x); }
    }
  }

  lemma XorUnfold(a: nat, b: nat, bits: nat)
    requires bits > 0
    ensures Xor(a, b, bits) == (a + b) % 2 + 2 * Xor(a / 2, b / 2, bits - 1)
  {
  }

  function LowBitOf(a: nat, b: nat): nat { (a + b) % 2 }

  /** Four bits, written out on top of the rest. */
  function Xor4(a: nat, b: nat, rest: nat): nat {
    LowBitOf(a, b) + 2 * LowBitOf(a / 2, b / 2) + 4 * LowBitOf(a / 4, b / 4) + 8 * LowBitOf(a / 8, b / 8) + 16 * rest
  }

  /** The eight bits written out. */
  function Xor8(a: nat, b: nat): nat {
    (a + b) % 2 + 2 * ((a / 2 + b / 2) % 2) + 4 * ((a / 4 + b / 4) % 2) + 8 * ((a / 8 + b / 8) % 2) +
    16 * ((a / 16 + b / 16) % 2) + 32 * ((a / 32 + b / 32) % 2) +
    64 * ((a / 64 + b / 64) % 2) + 128 * ((a / 128 + b / 128) % 2)
  }

  lemma Sixteenths(a: nat)
    ensures a / 16 / 2 == a / 32 && a / 16 / 4 == a / 64 && a / 16 / 8 == a / 128
  {
  }

  lemma EightBits(a: nat, b: nat)
    ensures Xor4(a, b, Xor4(a / 16, b / 16, 0)) == Xor8(a, b)
  {
    Sixteenths(a);
    Sixteenths(b);
  }

  lemma XorPeel(a: nat, b: nat, bits: nat)
    requires bits > 0
    ensures Xor(a, b, bits) == LowBitOf(a, b) + 2 * Xor(a / 2, b / 2, bits - 1)
  {
  }

  lemma Halves(a: nat)
    ensures a / 2 / 2 == a / 4 && a / 4 / 2 == a / 8 && a / 8 / 2 == a / 16
  {
  }

  lemma XorFour(a: nat, b: nat, bits: nat)
    requires bits >= 4
    ensures Xor(a, b, bits) == Xor4(a, b, Xor(a / 16, b / 16, bits - 4))
  {
    hide Xor, LowBitOf;
    Halves(a);
    Halves(b);
    XorPeel(a, b, bits);
    XorPeel(a / 2, b / 2, bits - 1);
    XorPeel(a / 4, b / 4, bits - 2);
    XorPeel(a / 8, b / 8, bits - 3);
  }

  lemma XorSpelled(a: nat, b: nat)
    ensures Xor(a, b, 8) == Xor8(a, b)
  {
    hide Xor, Xor4, Xor8;
    XorFour(a, b, 8);
    XorFour(a / 16, b / 16, 4);
    XorNothing(a / 16 / 16, b / 16 / 16);
    EightBits(a, b);
  }

  lemma XorNothing(a: nat, b: nat)
    ensures Xor(a, b, 0) == 0
  {
  }

  lemma LowBit(a: nat, b: nat, x: nat)
    requires x % 2 == (a + b) % 2
    ensures (x + b) % 2 == a % 2
  {
  }

  lemma {:induction false} XorSymmetric(a: nat, b: nat, bits: nat)
    ensures Xor(a, b, bits) == Xor(b, a, bits)
  {
    if bits > 0 { XorSymmetric(a / 2, b / 2, bits - 1); }
  }

  lemma LowByte(h: u64, b: byte)
    ensures XorByte(h, b) / 256 == h / 256
    ensures XorByte(h, b) % 256 == Xor(h % 256, b, 8)
  {
    XorIsByte(h % 256, b);
    hide Xor;
    Radix.ModUnique(XorByte(h, b), 256, h / 256, Xor(h % 256, b, 8));
  }

  lemma XorInjective(h: u64, b: byte, k: u64, c: byte)
    requires XorByte(h, b) == XorByte(k, c)
    ensures b == c ==> h == k
    ensures h == k ==> b == c
  {
    hide Xor, XorByte;
    LowByte(h, b);
    LowByte(k, c);
    if b == c {
      XorTwice(h % 256, b, 8);
      XorTwice(k % 256, b, 8);
      assert h == h / 256 * 256 + h % 256 && k == k / 256 * 256 + k % 256;
    }
    if h == k {
      XorSymmetric(h % 256, b, 8);
      XorSymmetric(h % 256, c, 8);
      XorTwice(b, h % 256, 8);
      XorTwice(c, h % 256, 8);
    }
  }

  lemma PrimeIsOdd(x: u64)
    ensures WrappingMul(WrappingMul(x, FNV_PRIME), PRIME_INVERSE) == x
  {
    var q := x * FNV_PRIME / TWO_TO_THE_64;
    var r := x * FNV_PRIME % TWO_TO_THE_64;
    var k := FNV_PRIME * PRIME_INVERSE / TWO_TO_THE_64;
    assert FNV_PRIME * PRIME_INVERSE == k * TWO_TO_THE_64 + 1;
    assert r == x * FNV_PRIME - q * TWO_TO_THE_64;
    assert r * PRIME_INVERSE == (x * k - q * PRIME_INVERSE) * TWO_TO_THE_64 + x;
    Radix.ModUnique(r * PRIME_INVERSE, TWO_TO_THE_64, x * k - q * PRIME_INVERSE, x);
  }

  // ----- ... and stays one when only the low bits are kept -----

  /** `m` is a multiple of 256 that divides 2^64: a power of two from 2^8 on. */
  predicate IsModulus(m: nat, bytes: nat, rest: nat) {
    bytes > 0 && m == 256 * bytes && m * rest == TWO_TO_THE_64
  }

  lemma PositiveModulus(m: nat, bytes: nat, rest: nat)
    requires IsModulus(m, bytes, rest)
    ensures m > 0
  {
  }

  lemma MulLow(u: nat, c: nat, m: nat)
    requires m > 0
    ensures u * c % m == u % m * c % m
  {
    var s := u % m;
    var a, w := s * c / m, s * c % m;
    assert u * c == (u / m * c + a) * m + w by {
      assert u == u / m * m + s && s * c == a * m + w;
      assert (u / m * m + s) * c == u / m * c * m + s * c;
    }
    Radix.ModUnique(u * c, m, u / m * c + a, w);
  }

  /** A product modulo 2^64 is determined, modulo `m`, by the factors modulo `m`. */
  lemma MulCongruent(u: u64, v: u64, c: u64, m: nat, bytes: nat, rest: nat)
    requires IsModulus(m, bytes, rest) && u % m == v % m
    ensures WrappingMul(u, c) % m == WrappingMul(v, c) % m
  {
    MulLow(u, c, m);
    MulLow(v, c, m);
    Radix.ModMod(u * c, m, rest);
    Radix.ModMod(v * c, m, rest);
  }

  lemma XorByteLow(h: u64, b: byte, m: nat, bytes: nat, rest: nat)
    requires IsModulus(m, bytes, rest)
    ensures h % m < 0x1_0000_0000_0000_0000 && XorByte(h, b) % m == XorByte(h % m, b)
  {
    hide Xor;
    var t, g := h / m, h % m;
    var high, low := g / 256, g % 256;
    XorIsByte(low, b);
    assert h == t * m + g;
    assert g <= h by { Radix.MulMono(0, t, m); }
    BytesOf(h, t, high, low, bytes);
    assert XorByte(h, b) == t * m + XorByte(g, b) by { Regroup(t, bytes, high); }
    Radix.ModUnique(XorByte(h, b), m, t, XorByte(g, b));
  }

  lemma Regroup(t: nat, bytes: nat, high: nat)
    ensures (t * bytes + high) * 256 == t * (256 * bytes) + high * 256
  {
  }

  lemma BytesOf(h: nat, t: nat, high: nat, low: nat, bytes: nat)
    requires h == t * (256 * bytes) + (high * 256 + low) && low < 256
    ensures h / 256 == t * bytes + high && h % 256 == low
  {
    Regroup(t, bytes, high);
    Radix.ModUnique(h, 256, t * bytes + high, low);
  }

  /** Modulo `m`, equal bytes keep different states different and equal states equal; different
      bytes make equal states different. */
  lemma StepInjectiveLow(h: u64, b: byte, k: u64, c: byte, m: nat, bytes: nat, rest: nat)
    requires IsModulus(m, bytes, rest)
    ensures b == c ==> (Step(h, b) % m == Step(k, c) % m <==> h % m == k % m)
    ensures h % m == k % m ==> (Step(h, b) % m == Step(k, c) % m <==> b == c)
  {
    hide XorByte, WrappingMul;
    var x, y := XorByte(h, b), XorByte(k, c);
    XorByteLow(h, b, m, bytes, rest);
    XorByteLow(k, c, m, bytes, rest);
    if Step(h, b) % m == Step(k, c) % m {
      MulCongruent(Step(h, b), Step(k, c), PRIME_INVERSE, m, bytes, rest);
      PrimeIsOdd(x);
      PrimeIsOdd(y);
      XorInjective(h % m, b, k % m, c);
    }
    if x % m == y % m {
      MulCongruent(x, y, FNV_PRIME, m, bytes, rest);
    }
  }

  /** The whole state is the case of 2^64. */
  lemma AllBits()
    ensures IsModulus(TWO_TO_THE_64, 0x100_0000_0000_0000, 1)
  {
  }

  /** Equal bytes keep different states different; different bytes make equal states different. */
  lemma StepInjective(h: u64, b: byte, k: u64, c: byte)
    requires Step(h, b) == Step(k, c)
    ensures b == c <==> h == k
  {
    hide Step;
    AllBits();
    StepInjectiveLow(h, b, k, c, TWO_TO_THE_64, 0x100_0000_0000_0000, 1);
  }

  /** Modulo `m`, the digest after a common end differs exactly when it differed before. */
  lemma {:induction false} CommonEndLow(a: Bytes, b: Bytes, end: Bytes, m: nat, bytes: nat, rest: nat)
    requires IsModulus(m, bytes, rest)
    ensures Digest(a + end) % m == Digest(b + end) % m <==> Digest(a) % m == Digest(b) % m
  {
    hide Digest, Step;
    if end == [] {
      assert a + end == a && b + end == b;
    } else {
      var n := |end| - 1;
      CommonEndLow(a, b, end[..n], m, bytes, rest);
      DigestSnoc(a + end[..n], end[n]);
      DigestSnoc(b + end[..n], end[n]);
      assert end == end[..n] + [end[n]];
      assert a + end == a + end[..n] + [end[n]] && b + end == b + end[..n] + [end[n]];
      StepInjectiveLow(Digest(a + end[..n]), end[n], Digest(b + end[..n]), end[n], m, bytes, rest);
    }
  }

  /** The digest after a common end differs exactly when it differed before. */
  lemma CommonEnd(a: Bytes, b: Bytes, end: Bytes)
    ensures Digest(a + end) == Digest(b + end) <==> Digest(a) == Digest(b)
  {
    hide Digest, Step;
    AllBits();
    CommonEndLow(a, b, end, TWO_TO_THE_64, 0x100_0000_0000_0000, 1);
  }

  ghost predicate DifferInOneByte(a: Bytes, b: Bytes) {
    |a| == |b| && exists i :: 0 <= i < |a| && a[i] != b[i] && a[..i] == b[..i] && a[i + 1..] == b[i + 1..]
  }

  lemma AroundByte(a: Bytes, i: nat)
    requires i < |a|
    ensures a == a[..i] + [a[i]] + a[i + 1..]
  {
  }

  /** A single changed byte changes the digest, and already any low bits of it from the eighth on. */
  lemma OneByteChangesLowBits(a: Bytes, b: Bytes, m: nat, bytes: nat, rest: nat)
    requires DifferInOneByte(a, b) && IsModulus(m, bytes, rest)
    ensures Digest(a) % m != Digest(b) % m
  {
    hide Step, Digest, IsModulus;
    var i :| 0 <= i < |a| && a[i] != b[i] && a[..i] == b[..i] && a[i + 1..] == b[i + 1..];
    var start := a[..i];
    DigestSnoc(start, a[i]);
    DigestSnoc(start, b[i]);
    PositiveModulus(m, bytes, rest);
    StepInjectiveLow(Digest(start), a[i], Digest(start), b[i], m, bytes, rest);
    CommonEndLow(start + [a[i]], start + [b[i]], a[i + 1..], m, bytes, rest);
    AroundByte(a, i);
    AroundByte(b, i);
  }

  /** A single changed byte always changes the digest. */
  lemma OneByteChangesDigest(a: Bytes, b: Bytes)
    requires DifferInOneByte(a, b)
    ensures Digest(a) != Digest(b)
  {
    hide Digest, DifferInOneByte;
    AllBits();
    OneByteChangesLowBits(a, b, TWO_TO_THE_64, 0x100_0000_0000_0000, 1);
  }

  lemma DigestOfNothing()
    ensures Digest([]) == OFFSET_BASIS
  {
  }

  lemma DigestSnoc(bytes: Bytes, b: byte)
    ensures Digest(bytes + [b]) == Step(Digest(bytes), b)
  {
    assert (bytes + [b])[..|bytes|] == bytes;
  }

  // ----- hexadecimal rendering -----

  /** Sixteen lower-case hexadecimal digits, zero-padded. */
  function Hex(h: u64): string {
    Radix.FixedDigitsValue(h, 16, 16);
    Radix.Spell(Radix.FixedDigits(h, 16, 16))
  }

  lemma HexInjective(h: u64, k: u64)
    ensures Hex(h) == Hex(k) <==> h == k
  {
    hide Radix.FixedDigits, Radix.Spell;
    Radix.FixedDigitsValue(h, 16, 16);
    Radix.FixedDigitsValue(k, 16, 16);
    Radix.SpellInverse(Radix.FixedDigits(h, 16, 16));
    Radix.SpellInverse(Radix.FixedDigits(k, 16, 16));
    SixteenToTheSixteenth();
  }

  lemma SixteenToTheSixteenth()
    ensures Radix.Power(16, 16) == TWO_TO_THE_64
  {
    assert Radix.Power(16, 4) == 0x1_0000;
    assert Radix.Power(16, 8) == 0x1_0000_0000;
    assert Radix.Power(16, 12) == 0x1_0000_0000_0000;
  }

  /** The loop over the bytes; both users of the digest run it. */
  method Fold(bytes: Bytes) returns (h: u64)
    ensures h == Digest(bytes)
  {
    h := OFFSET_BASIS;
    for i := 0 to |bytes|
      invariant h == Digest(bytes[..i])
    {
      assert bytes[..i + 1][..i] == bytes[..i];
      h := XorByte(h, bytes[i]);
      h := WrappingMul(h, FNV_PRIME);
    }
    assert bytes[..|bytes|] == bytes;
  }

  method ContentHash(bytes: Bytes) returns (s: string)
    ensures s == Hex(Digest(bytes)) && |s| == 16
  {
    var h := Fold(bytes);
    Radix.FixedDigitsValue(h, 16, 16);
    s := Hex(h);
  }
}

/** Task checkpoints and their integrity field (crates/memmux-lifecycle/src/checkpoint.rs). The
    canonical JSON encoding of the body is a parameter. */
module Checkpoint {
  import opened Prelude
  import opened Fnv

  datatype SecretSource = Env(name: string) | File(path: string) | Keychain(account: string)

  datatype SecretRef = SecretRef(name: string, source: SecretSource)

  datatype Body = Body(
    taskId: string,
    gitHead: string,
    gitPatchHash: string,
    transcriptCursor: nat,
    providerSessionRef: Option<string>,
    resourceBaselineBytes: nat,
    secretRefs: seq<SecretRef>,
    createdAtMs: nat)

  datatype Checkpoint = Checkpoint(body: Body, integrity: string)

  function ComputeIntegrity(encode: Body -> Bytes, body: Body): string { Hex(Digest(encode(body))) }

  function New(encode: Body -> Bytes, body: Body): Checkpoint {
    Checkpoint(body, ComputeIntegrity(encode, body))
  }

  predicate Verify(encode: Body -> Bytes, cp: Checkpoint) {
    cp.integrity == ComputeIntegrity(encode, cp.body)
  }

  /** A fresh checkpoint verifies; with a body whose encoding differs in one byte, or with any
      other integrity field, it does not. */
  lemma CorruptionIsDetected(encode: Body -> Bytes, body: Body, other: Body, integrity: string)
    ensures Verify(encode, New(encode, body))
    ensures DifferInOneByte(encode(body), encode(other)) ==> !Verify(encode, New(encode, body).(body := other))
    ensures integrity != New(encode, body).integrity ==> !Verify(encode, New(encode, body).(integrity := integrity))
  {
    if DifferInOneByte(encode(body), encode(other)) {
      OneByteChangesDigest(encode(body), encode(other));
      HexInjective(Digest(encode(body)), Digest(encode(other)));
    }
  }

  /** Exactly the digests decide: a changed body passes if and only if its encoding has the same
      64-bit digest. */
  lemma VerifyIff(encode: Body -> Bytes, body: Body, other: Body)
    ensures Verify(encode, New(encode, body).(body := other)) <==> Digest(encode(body)) == Digest(encode(other))
  {
    HexInjective(Digest(encode(body)), Digest(encode(other)));
  }
}
