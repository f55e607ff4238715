/** The memory budget of a host (crates/memmux-sched/src/envelope.rs): physical memory less four
    reserves, each the larger of a floor and a fraction. */
module Envelope {
  import opened Prelude
  import Radix

  const GIB: nat := 1024 * 1024 * 1024

  datatype Reserves = Reserves(os: nat, interactiveApp: nat, sharedService: nat, swapMargin: nat) {
    function Total(): nat {
      SaturatingAdd(SaturatingAdd(SaturatingAdd(os, interactiveApp), sharedService), swapMargin)
    }
  }

  function SaturatingMul(a: nat, b: nat): nat { Min(a * b, U64_MAX) }

  function Fraction(physical: nat, floor: nat, num: nat, den: nat): nat
    requires den > 0
  {
    Max(floor, SaturatingMul(physical, num) / den)
  }

  function DefaultReserves(physical: nat): Reserves {
    Reserves(
      Fraction(physical, 3 * GIB / 2, 8, 100),
      Fraction(physical, 3 * GIB, 20, 100),
      Fraction(physical, GIB, 5, 100),
      Fraction(physical, 2 * GIB, 12, 100))
  }

  /** The budget with the default reserves. */
  function DefaultBudget(physical: nat): nat {
    SaturatingSub(physical, DefaultReserves(physical).Total())
  }

  // ----- the reserves without the saturating operations -----

  function Share(p: nat, floor: nat, num: nat): nat { Max(floor, Min(p * num, U64_MAX) / 100) }

  /** The reserves of any host size in `u64`. */
  function Reserved(p: nat): nat {
    Share(p, 3 * GIB / 2, 8) + Share(p, 3 * GIB, 20) + Share(p, GIB, 5) + Share(p, 2 * GIB, 12)
  }

  lemma ShareIsSmall(p: nat, floor: nat, num: nat)
    requires floor <= 3 * GIB
    ensures Fraction(p, floor, num, 100) == Share(p, floor, num) <= U64_MAX / 100
  {
  }

  /** The sum of the reserves never saturates. */
  lemma PlainBudget(p: nat)
    ensures DefaultBudget(p) == Max(0, p - Reserved(p))
  {
    ShareIsSmall(p, 3 * GIB / 2, 8);
    ShareIsSmall(p, 3 * GIB, 20);
    ShareIsSmall(p, GIB, 5);
    ShareIsSmall(p, 2 * GIB, 12);
    hide Share, Fraction;
    var r := DefaultReserves(p);
    assert r.os + r.interactiveApp + r.sharedService + r.swapMargin <= 4 * (U64_MAX / 100);
  }

  lemma FractionIff(p: nat, floor: nat, num: nat, y: nat)
    ensures y <= Fraction(p, floor, num, 100) <==> y <= floor || 100 * y <= Min(p * num, U64_MAX)
  {
  }

  /** How much each reserve holds, without division: an amount is within it exactly when it is within the
      floor, or the hundredth part of the host times the percentage, capped at the top of `u64`, covers it. */
  lemma WithinReserveIff(p: nat, y: nat)
    ensures var r := DefaultReserves(p);
      && (y <= r.os <==> 2 * y <= 3 * GIB || (100 * y <= 8 * p && 100 * y <= U64_MAX))
      && (y <= r.interactiveApp <==> y <= 3 * GIB || (100 * y <= 20 * p && 100 * y <= U64_MAX))
      && (y <= r.sharedService <==> y <= GIB || (100 * y <= 5 * p && 100 * y <= U64_MAX))
      && (y <= r.swapMargin <==> y <= 2 * GIB || (100 * y <= 12 * p && 100 * y <= U64_MAX))
  {
    FractionIff(p, 3 * GIB / 2, 8, y);
    FractionIff(p, 3 * GIB, 20, y);
    FractionIff(p, GIB, 5, y);
    FractionIff(p, 2 * GIB, 12, y);
    hide Fraction;
  }

  // ----- what a host is left with -----

  lemma ShareBounds(p: nat, floor: nat, num: nat)
    ensures floor <= Share(p, floor, num)
    ensures 100 * Share(p, floor, num) <= Max(100 * floor, p * num)
    ensures 100 * Share(p, floor, num) <= Max(100 * floor, U64_MAX)
    ensures p * num <= U64_MAX ==> p * num - 99 <= 100 * Share(p, floor, num)
  {
  }

  lemma ReservedBounds(p: nat)
    ensures 15 * GIB <= 2 * Reserved(p)
    ensures 2 * p > 15 * GIB ==> Reserved(p) < p
    ensures p * 20 <= U64_MAX ==> 45 * p - 396 <= 100 * Reserved(p)
    ensures p >= 300 * GIB ==> 100 * Reserved(p) <= 25 * p + U64_MAX
  {
    ShareBounds(p, 3 * GIB / 2, 8);
    ShareBounds(p, 3 * GIB, 20);
    ShareBounds(p, GIB, 5);
    ShareBounds(p, 2 * GIB, 12);
    hide Share;
  }

  /** A host has a positive budget exactly when it has more than the four floors, 7.5 GiB. */
  lemma PositiveIff(p: nat)
    ensures DefaultBudget(p) > 0 <==> 2 * p > 15 * GIB
  {
    PlainBudget(p);
    ReservedBounds(p);
    hide DefaultBudget, Reserved;
  }

  /** The largest host with at least 45 percent in reserve: from about 2^64 / 20 on the product of
      the largest fraction saturates. */
  const LAST_FULL_SHARE: nat := 922_337_203_685_477_593

  /** At least 45 percent stays reserved, up to the rounding of four divisions, exactly for the
      hosts up to that size. */
  lemma BudgetShareIff(p: nat)
    ensures 100 * DefaultBudget(p) <= 55 * p + 396 <==> p <= LAST_FULL_SHARE
  {
    PlainBudget(p);
    ReservedBounds(p);
    if 922_337_203_685_477_580 < p <= 922_337_203_685_477_600 { AtTheEdge(p, p - 922_337_203_685_477_580); }
    hide DefaultBudget, Reserved;
  }

  lemma AtTheEdge(p: nat, k: nat)
    requires p == 922_337_203_685_477_580 + k && 0 < k <= 20
    ensures Reserved(p) < p && (100 * (p - Reserved(p)) <= 55 * p + 396 <==> k <= 13)
  {
    var a, b, c := (8 * k + 40) / 100, 5 * k / 100, (12 * k + 60) / 100;
    assert p * 8 == 100 * 73_786_976_294_838_206 + (8 * k + 40);
    assert p * 5 == 100 * 46_116_860_184_273_879 + 5 * k;
    assert p * 12 == 100 * 110_680_464_442_257_309 + (12 * k + 60);
    assert Share(p, 3 * GIB / 2, 8) == 73_786_976_294_838_206 + a;
    assert Share(p, GIB, 5) == 46_116_860_184_273_879 + b;
    assert Share(p, 2 * GIB, 12) == 110_680_464_442_257_309 + c;
    assert Share(p, 3 * GIB, 20) == 184_467_440_737_095_516;
    hide Share;
  }

  // ----- larger hosts -----

  /** One reserve grows by at most its share of the growth, rounded up. */
  lemma ReserveGrows(p: nat, d: nat, floor: nat, num: nat)
    ensures Share(p + d, floor, num) - Share(p, floor, num) <= HundredthUp(d * num)
  {
    assert (p + d) * num == p * num + d * num;
    Radix.MulMono(0, d, num);
    var m, n := Min(p * num, U64_MAX), Min((p + d) * num, U64_MAX);
    assert m <= n <= m + d * num;
    HundredthGrows(m, n, d * num);
  }

  lemma HundredthGrows(m: nat, n: nat, d: nat)
    requires m <= n <= m + d
    ensures n / 100 - m / 100 <= HundredthUp(d)
  {
  }

  /** A larger host never loses more than three bytes to rounding, and a positive budget strictly
      grows once the host is five bytes larger. */
  lemma BudgetGrows(p: nat, q: nat)
    requires p <= q
    ensures DefaultBudget(q) + 3 >= DefaultBudget(p)
    ensures DefaultBudget(p) > 0 && q >= p + 5 ==> DefaultBudget(q) > DefaultBudget(p)
  {
    hide Reserved, SharesOf, DefaultBudget;
    PlainBudget(p);
    PlainBudget(q);
    ReservedGrows(p, q - p);
    Shares(q - p);
  }

  function HundredthUp(x: nat): nat { (x + 99) / 100 }

  lemma HundredthUpIs(x: nat)
    ensures x <= 100 * HundredthUp(x) <= x + 99
  {
  }

  /** The four shares of a growth, each rounded up. */
  function SharesOf(d: nat): nat {
    HundredthUp(d * 8) + HundredthUp(d * 20) + HundredthUp(d * 5) + HundredthUp(d * 12)
  }

  lemma ReservedGrows(p: nat, d: nat)
    ensures Reserved(p + d) - Reserved(p) <= SharesOf(d)
  {
    hide Share;
    ReserveGrows(p, d, 3 * GIB / 2, 8);
    ReserveGrows(p, d, 3 * GIB, 20);
    ReserveGrows(p, d, GIB, 5);
    ReserveGrows(p, d, 2 * GIB, 12);
  }

  lemma Shares(d: nat)
    ensures SharesOf(d) <= d + 3
    ensures d >= 5 ==> SharesOf(d) < d
  {
    hide HundredthUp;
    HundredthUpIs(d * 8);
    HundredthUpIs(d * 20);
    HundredthUpIs(d * 5);
    HundredthUpIs(d * 12);
  }

  lemma ReservedAt()
    ensures Reserved(107374182500) == 48318382125 && Reserved(107374182499) == 48318382121
    ensures Reserved(107374182496) == 48318382121
  {
  }

  /** Neither number can be smaller: one byte more can cost three, and four bytes more can add
      nothing. */
  lemma GrowthIsTight()
    ensures DefaultBudget(107374182500) + 3 == DefaultBudget(107374182499) > 0
    ensures DefaultBudget(107374182500) == DefaultBudget(107374182496) > 0
  {
    hide DefaultBudget, Reserved;
    ReservedAt();
    PlainBudget(107374182500);
    PlainBudget(107374182499);
    PlainBudget(107374182496);
  }
}
