/** Vocabulary shared by the models: options, bytes and the few operations of Rust's `u64`
    that the modelled code relies on. */
module Prelude {

  datatype Option<+T> = None | Some(value: T)

  type byte = x: int | 0 <= x < 256

  /** A Rust string, as the UTF-8 bytes it holds. */
  type Bytes = seq<byte>

  const TWO_TO_THE_64: nat := 0x1_0000_0000_0000_0000
  const U64_MAX: nat := 0xFFFF_FFFF_FFFF_FFFF

  function Min(a: int, b: int): int { if a <= b then a else b }

  function Max(a: int, b: int): int { if a >= b then a else b }

  function SaturatingSub(a: nat, b: nat): nat { if a >= b then a - b else 0 }

  function SaturatingAdd(a: nat, b: nat): nat { Min(a + b, U64_MAX) }

  ghost predicate NoDuplicates<T(!new)>(s: seq<T>) {
    forall i, j :: 0 <= i < j < |s| ==> s[i] != s[j]
  }
}

/** The order of Rust strings: by code point, a prefix first. */
module Lexicographic {

  predicate Before(a: string, b: string) {
    if b == "" then false
    else if a == "" then true
    else a[0] < b[0] || (a[0] == b[0] && Before(a[1..], b[1..]))
  }

  lemma {:induction false} OrderTotal(a: string, b: string)
    ensures a == b || Before(a, b) || Before(b, a)
    ensures !(Before(a, b) && Before(b, a)) && !Before(a, a)
    decreases |a| + |b|
  {
    if a != "" && b != "" {
      OrderTotal(a[1..], b[1..]);
      if a[0] == b[0] && a[1..] == b[1..] { assert a == [a[0]] + a[1..] && b == [b[0]] + b[1..]; }
    }
    if a != "" { OrderIrreflexive(a); }
  }

  lemma {:induction false} OrderIrreflexive(a: string)
    ensures !Before(a, a)
  {
    if a != "" { OrderIrreflexive(a[1..]); }
  }

  lemma {:induction false} OrderTransitive(a: string, b: string, c: string)
    requires Before(a, b) && Before(b, c)
    ensures Before(a, c)
  {
    if a != "" && a[0] == b[0] == c[0] { OrderTransitive(a[1..], b[1..], c[1..]); }
  }

  /** The two strings agree up to `n`, and there the first one ends or has the smaller character. */
  predicate FirstDifferAt(a: string, b: string, n: nat) {
    n <= |a| && n < |b| && a[..n] == b[..n] && (n == |a| || a[n] < b[n])
  }

  /** A string comes before another exactly when it is a proper prefix of it, or has the smaller
      character where they first differ. */
  lemma {:induction false} BeforeIff(a: string, b: string)
    ensures Before(a, b) <==> exists n: nat :: FirstDifferAt(a, b, n)
  {
    if a == "" && b != "" {
      assert FirstDifferAt(a, b, 0);
    } else if a != "" && b != "" {
      BeforeIff(a[1..], b[1..]);
      if a[0] < b[0] { assert FirstDifferAt(a, b, 0); }
      if n: nat :| FirstDifferAt(a, b, n) {
        if n > 0 { DifferInRest(a, b, n - 1); }
      }
      if a[0] == b[0] && Before(a[1..], b[1..]) {
        var n: nat :| FirstDifferAt(a[1..], b[1..], n);
        DifferInRest(a, b, n);
      }
    }
  }

  lemma DifferInRest(a: string, b: string, n: nat)
    requires a != "" && b != ""
    ensures FirstDifferAt(a, b, n + 1) <==> a[0] == b[0] && FirstDifferAt(a[1..], b[1..], n)
  {
    if n + 1 <= |a| && n + 1 < |b| {
      assert a[..n + 1] == [a[0]] + a[1..][..n] && b[..n + 1] == [b[0]] + b[1..][..n];
      assert a[1..][..n] == a[..n + 1][1..] && b[1..][..n] == b[..n + 1][1..];
      assert a[..n + 1][0] == a[0] && b[..n + 1][0] == b[0];
    }
  }
}
