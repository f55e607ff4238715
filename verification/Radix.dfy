/** Positional notation. Used for artifact names (decimal), the checkpoint digest (hexadecimal,
    fixed width) and the slug suffix (base 36). */
module Radix {

  /** The digits of `n`, most significant first, without leading zeros; `[0]` for zero. */
  function Digits(n: nat, base: nat): seq<nat>
    requires base >= 2
  {
    if n < base then [n] else DivShrinks(n, base); Digits(n / base, base) + [n % base]
  }

  /** The low `width` digits of `n`, most significant first. */
  function FixedDigits(n: nat, base: nat, width: nat): seq<nat>
    requires base >= 2
  {
    if width == 0 then [] else FixedDigits(n / base, base, width - 1) + [n % base]
  }

  function Value(ds: seq<nat>, base: nat): nat {
    if ds == [] then 0 else Value(ds[..|ds| - 1], base) * base + ds[|ds| - 1]
  }

  function Power(base: nat, e: nat): nat {
    if e == 0 then 1 else Power(base, e - 1) * base
  }

  lemma DivShrinks(n: nat, base: nat)
    requires n >= base >= 2
    ensures 0 <= n / base < n
  {
    assert n == n / base * base + n % base;
    if n / base >= n {
      assert n / base * base >= n * base by { MulMono(n, n / base, base); }
      assert n * base >= n * 2 by { MulMono(2, base, n); }
    }
  }

  lemma MulMono(a: nat, b: nat, c: nat)
    requires a <= b
    ensures a * c <= b * c && c * a <= c * b
  {
    assert b * c == a * c + (b - a) * c;
  }

  /** Reading the digits back gives the number: positional notation is a round trip. */
  lemma {:induction false} DigitsRoundTrip(n: nat, base: nat)
    requires base >= 2
    ensures Value(Digits(n, base), base) == n
  {
    hide Value;
    if n < base {
      ValueSnoc([], n, base);
      assert [] + [n] == [n];
      assert Value([], base) == 0 by { ValueOfNothing(base); }
    } else {
      DivShrinks(n, base);
      DigitsRoundTrip(n / base, base);
      ValueSnoc(Digits(n / base, base), n % base, base);
      assert n == n / base * base + n % base;
    }
  }

  lemma ValueOfNothing(base: nat)
    ensures Value([], base) == 0
  {
  }

  lemma ValueSnoc(ds: seq<nat>, d: nat, base: nat)
    ensures Value(ds + [d], base) == Value(ds, base) * base + d
  {
    assert (ds + [d])[..|ds|] == ds;
  }

  /** Zeros in front do not change the value. */
  lemma {:induction false} LeadingZeros(zeros: seq<nat>, ds: seq<nat>, base: nat)
    requires forall i :: 0 <= i < |zeros| ==> zeros[i] == 0
    ensures Value(zeros + ds, base) == Value(ds, base)
  {
    if ds != [] {
      var n := |ds| - 1;
      LeadingZeros(zeros, ds[..n], base);
      ValueSnoc(zeros + ds[..n], ds[n], base);
      assert zeros + ds == zeros + ds[..n] + [ds[n]];
    } else if zeros != [] {
      var n := |zeros| - 1;
      LeadingZeros(zeros[..n], [], base);
      assert zeros[..n] + [] == zeros[..n] && zeros + [] == zeros;
      assert zeros == zeros[..n] + [0];
      ValueSnoc(zeros[..n], 0, base);
    }
  }

  lemma {:induction false} DigitsInRange(n: nat, base: nat)
    requires base >= 2
    ensures Digits(n, base) != []
    ensures forall i :: 0 <= i < |Digits(n, base)| ==> Digits(n, base)[i] < base
  {
    if n >= base {
      DivShrinks(n, base);
      DigitsInRange(n / base, base);
    }
  }

  lemma {:induction false} PowerPositive(base: nat, e: nat)
    requires base >= 1
    ensures Power(base, e) >= 1
  {
    if e > 0 {
      PowerPositive(base, e - 1);
      MulMono(1, Power(base, e - 1), base);
    }
  }

  /** The fixed-width digits spell the remainder modulo `base` to the `width`. */
  lemma {:induction false} FixedDigitsValue(n: nat, base: nat, width: nat)
    requires base >= 2
    ensures |FixedDigits(n, base, width)| == width
    ensures forall i :: 0 <= i < width ==> FixedDigits(n, base, width)[i] < base
    ensures Power(base, width) > 0
    ensures Value(FixedDigits(n, base, width), base) == n % Power(base, width)
  {
    PowerPositive(base, width);
    if width > 0 {
      var ds := FixedDigits(n, base, width);
      FixedDigitsValue(n / base, base, width - 1);
      assert ds[..|ds| - 1] == FixedDigits(n / base, base, width - 1);
      ModSplit(n, base, Power(base, width - 1));
    }
  }

  lemma ModSplit(n: nat, b: nat, p: nat)
    requires b > 0 && p > 0
    ensures p * b > 0
    ensures n % (p * b) == n / b % p * b + n % b
  {
    MulMono(1, p, b);
    Divides(n, b);
    Divides(n / b, p);
    Regrouped(n, b, p, n / b, n / b / p, n / b % p, n % b);
    SmallRest(n / b % p, p, b, n % b);
    ModUnique(n, p * b, n / b / p, n / b % p * b + n % b);
  }

  lemma Divides(n: nat, m: nat)
    requires m > 0
    ensures n == n / m * m + n % m && n % m < m
  {
  }

  lemma Regrouped(n: nat, b: nat, p: nat, q: nat, k: nat, s: nat, r: nat)
    requires n == q * b + r && q == k * p + s
    ensures n == k * (p * b) + (s * b + r)
  {
    assert (k * p + s) * b == k * (p * b) + s * b;
  }

  lemma SmallRest(s: nat, p: nat, b: nat, r: nat)
    requires s < p && r < b
    ensures s * b + r < p * b
  {
    MulMono(s + 1, p, b);
  }

  lemma ModUnique(n: int, m: nat, k: int, r: nat)
    requires n == k * m + r && r < m
    ensures n / m == k && n % m == r
  {
    assert n == n / m * m + n % m;
    SplitUnique(k, r, n / m, n % m, m);
  }

  lemma SplitUnique(v: int, r: nat, w: int, s: nat, m: nat)
    requires v * m + r == w * m + s && r < m && s < m
    ensures v == w && r == s
  {
    assert (v - w) * m == s - r;
    if v > w {
      MulMono(1, v - w, m);
    } else if w > v {
      MulMono(1, w - v, m);
    }
  }

  /** Dividing the next number. */
  lemma NextQuotient(k: nat, r: nat)
    requires r >= 1
    ensures (k + 1) / r == k / r + if k % r + 1 == r then 1 else 0
    ensures (k + 1) % r == if k % r + 1 == r then 0 else k % r + 1
  {
    var q, s := k / r, k % r;
    assert k == q * r + s;
    if s + 1 == r {
      assert k + 1 == (q + 1) * r;
      ModUnique(k + 1, r, q + 1, 0);
    } else {
      ModUnique(k + 1, r, q, s + 1);
    }
  }

  lemma ModMod(n: nat, m: nat, q: nat)
    requires m > 0 && m * q > 0
    ensures n % (m * q) % m == n % m
  {
    var k, r := n / (m * q), n % (m * q);
    var a, s := r / m, r % m;
    assert n == k * (m * q) + r && r == a * m + s;
    assert k * (m * q) == k * q * m;
    ModUnique(n, m, k * q + a, s);
  }

  /** Two numbers have the same fixed-width digits exactly when they agree modulo the width. */
  lemma {:induction false} FixedDigitsEqual(m: nat, n: nat, base: nat, width: nat)
    requires base >= 2
    ensures Power(base, width) > 0
    ensures FixedDigits(m, base, width) == FixedDigits(n, base, width)
       <==> m % Power(base, width) == n % Power(base, width)
  {
    FixedDigitsValue(m, base, width);
    FixedDigitsValue(n, base, width);
    if m % Power(base, width) == n % Power(base, width) {
      SameValueSameDigits(FixedDigits(m, base, width), FixedDigits(n, base, width), base);
    }
  }

  lemma {:induction false} SameValueSameDigits(ds: seq<nat>, es: seq<nat>, base: nat)
    requires |ds| == |es| && Value(ds, base) == Value(es, base)
    requires forall i :: 0 <= i < |ds| ==> ds[i] < base && es[i] < base
    ensures ds == es
  {
    if ds != [] {
      var d, e := |ds| - 1, |es| - 1;
      SplitUnique(Value(ds[..d], base), ds[d], Value(es[..e], base), es[e], base);
      SameValueSameDigits(ds[..d], es[..e], base);
      assert ds == ds[..d] + [ds[d]] && es == es[..e] + [es[e]];
    }
  }

  /** Padding with zeros on the left and keeping the last `width` digits gives the fixed-width
      digits, however long the number is. */
  lemma {:induction false} LastDigits(n: nat, base: nat, width: nat, pad: seq<nat>)
    requires base >= 2 && |pad| + |Digits(n, base)| >= width
    requires forall i :: 0 <= i < |pad| ==> pad[i] == 0
    ensures (pad + Digits(n, base))[|pad| + |Digits(n, base)| - width..] == FixedDigits(n, base, width)
  {
    var ds := Digits(n, base);
    var all := pad + ds;
    if width > 0 {
      var keep := all[|all| - width..];
      if n < base {
        QuotZero(n, base);
        ModUnique(n, base, 0, n);
        ZeroDigits(base, width - 1);
        assert keep == FixedDigits(0, base, width - 1) + [n];
      } else {
        DivShrinks(n, base);
        var top := Digits(n / base, base);
        LastDigits(n / base, base, width - 1, pad);
        assert keep == (pad + top)[|pad| + |top| - (width - 1)..] + [n % base];
      }
    }
  }

  lemma QuotZero(n: nat, base: nat)
    requires n < base
    ensures n / base == 0
  {
    assert n == n / base * base + n % base;
    if n / base > 0 { MulMono(1, n / base, base); }
  }

  lemma {:induction false} ZeroDigits(base: nat, width: nat)
    requires base >= 2
    ensures FixedDigits(0, base, width) == seq(width, _ => 0)
  {
    if width > 0 {
      QuotZero(0, base);
      ZeroDigits(base, width - 1);
      assert 0 % base == 0;
    }
  }

  /** The character of one digit, as in "0123456789abcdefghijklmnopqrstuvwxyz". */
  function DigitChar(d: nat): char
    requires d < 36
  {
    "0123456789abcdefghijklmnopqrstuvwxyz"[d]
  }

  function CharDigit(c: char): nat {
    if '0' <= c <= '9' then c as nat - '0' as nat
    else if 'a' <= c <= 'z' then c as nat - 'a' as nat + 10
    else 0
  }

  lemma DigitCharInverse(d: nat)
    requires d < 36
    ensures CharDigit(DigitChar(d)) == d
    ensures '0' <= DigitChar(d) <= '9' || 'a' <= DigitChar(d) <= 'z'
  {
  }

  /** Digits as text. */
  function Spell(ds: seq<nat>): string
    requires forall i :: 0 <= i < |ds| ==> ds[i] < 36
  {
    seq(|ds|, i requires 0 <= i < |ds| => DigitChar(ds[i]))
  }

  function Unspell(s: string): seq<nat> {
    seq(|s|, i requires 0 <= i < |s| => CharDigit(s[i]))
  }

  lemma SpellInverse(ds: seq<nat>)
    requires forall i :: 0 <= i < |ds| ==> ds[i] < 36
    ensures Unspell(Spell(ds)) == ds
  {
    forall i | 0 <= i < |ds| ensures CharDigit(Spell(ds)[i]) == ds[i] {
      DigitCharInverse(ds[i]);
    }
  }

  /** `n` in the given base, as Rust prints it. */
  function Show(n: nat, base: nat): string
    requires 2 <= base <= 36
  {
    DigitsInRange(n, base);
    Spell(Digits(n, base))
  }

  function Read(s: string, base: nat): nat { Value(Unspell(s), base) }

  /** Reading is positional: each further digit, "0" to "9" or "a" to "z", adds its value to the rest
      times the base. */
  lemma ReadGrows(s: string, c: char, base: nat)
    ensures Read("", base) == 0
    ensures '0' <= c <= '9' ==> Read(s + [c], base) == Read(s, base) * base + (c as nat - '0' as nat)
    ensures 'a' <= c <= 'z' ==> Read(s + [c], base) == Read(s, base) * base + (c as nat - 'a' as nat + 10)
  {
    assert Unspell(s + [c]) == Unspell(s) + [CharDigit(c)];
    ValueSnoc(Unspell(s), CharDigit(c), base);
  }

  lemma ReadShow(n: nat, base: nat)
    requires 2 <= base <= 36
    ensures Read(Show(n, base), base) == n
  {
    DigitsRoundTrip(n, base);
    DigitsInRange(n, base);
    SpellInverse(Digits(n, base));
  }

  /** Decimal, with zeros in front up to `width` characters. */
  function Padded(n: nat, width: nat): string {
    Zeros(width - |Show(n, 10)|) + Show(n, 10)
  }

  function Zeros(n: int): string { seq(if n < 0 then 0 else n, _ => '0') }

  lemma ReadPadded(n: nat, width: nat)
    ensures Read(Padded(n, width), 10) == n
  {
    hide Show, Value;
    var k := |Zeros(width - |Show(n, 10)|)|;
    var zeros: seq<nat> := seq(k, _ => 0);
    ReadShow(n, 10);
    assert Unspell(Padded(n, width)) == zeros + Unspell(Show(n, 10));
    LeadingZeros(zeros, Unspell(Show(n, 10)), 10);
  }

  lemma TwoDigits(n: nat)
    requires n < 100
    ensures |Padded(n, 2)| == 2
  {
    if n < 10 {
      assert Digits(n, 10) == [n];
    } else {
      assert Digits(n, 10) == Digits(n / 10, 10) + [n % 10] && Digits(n / 10, 10) == [n / 10];
    }
    assert |Show(n, 10)| == |Digits(n, 10)|;
  }

  predicate IsDecimal(s: string) {
    forall i :: 0 <= i < |s| ==> '0' <= s[i] <= '9'
  }

  lemma PaddedIsDecimal(n: nat, width: nat)
    ensures IsDecimal(Padded(n, width))
  {
    DigitsInRange(n, 10);
    hide Digits;
    forall i | 0 <= i < |Show(n, 10)| ensures '0' <= Show(n, 10)[i] <= '9' {
      DecimalDigit(Digits(n, 10)[i]);
    }
    hide Show;
  }

  lemma DecimalDigit(d: nat)
    requires d < 10
    ensures '0' <= DigitChar(d) <= '9'
  {
  }

  lemma PaddedLength(n: nat, width: nat)
    ensures |Padded(n, width)| >= width
  {
    hide Show;
  }
}
