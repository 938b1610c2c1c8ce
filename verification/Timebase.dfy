/** The conversion of the PowerPC timebase register to OSAL ticks
    (fsw/modules/timebase_vxworks/cfe_psp_timebase_vxworks.c). */
module Timebase {
  import opened Bits

  const NS_PER_SECOND: nat := 1_000_000_000

  // ---------------------------------------------------------------- greatest common divisors

  function Gcd(a: nat, b: nat): nat
    decreases b
  {
    if b == 0 then a else Gcd(b, a % b)
  }

  predicate Common(f: nat, a: nat, b: nat) {
    f > 0 && a % f == 0 && b % f == 0
  }

  lemma MultipleSum(a: nat, b: nat, k: int, f: nat)
    requires f > 0 && b % f == 0
    ensures (a + k * b) % f == a % f
  {
    var q := b / f;
    assert b == q * f;
    assert k * b == (k * q) * f;
    ModAddMultiple(a, f, k * q);
  }

  lemma {:induction false} GcdIsCommon(a: nat, b: nat)
    requires a > 0 || b > 0
    ensures Common(Gcd(a, b), a, b)
    decreases b
  {
    if b == 0 {
      DivModUnique(a, a, 1, 0);
      DivModUnique(0, a, 0, 0);
    } else {
      var g, q, r := Gcd(b, a % b), a / b, a % b;
      GcdIsCommon(b, r);
      assert a == r + q * b;
      MultipleSum(r, b, q, g);
    }
  }

  /** Every common divisor divides the greatest one. */
  lemma {:induction false} GcdIsGreatest(a: nat, b: nat, f: nat)
    requires Common(f, a, b)
    ensures Gcd(a, b) % f == 0
    decreases b
  {
    if b > 0 {
      var q, r := a / b, a % b;
      assert r == a + (-q) * b;
      MultipleSum(a, b, -q, f);
      GcdIsGreatest(b, r, f);
    }
  }

  lemma {:induction false} GcdScale(c: nat, a: nat, b: nat)
    requires c > 0
    ensures Gcd(c * a, c * b) == c * Gcd(a, b)
    decreases b
  {
    if b > 0 {
      ModScale(c, a, b);
      GcdScale(c, b, a % b);
    }
  }

  lemma ModScale(c: nat, a: nat, b: nat)
    requires c > 0 && b > 0
    ensures c * b > 0 && (c * a) % (c * b) == c * (a % b)
  {
    var q, r := a / b, a % b;
    MulBound(b, c);
    ScaleSplit(c, a, b, q, r);
    DivModUnique(c * a, c * b, q, c * r);
  }

  lemma ScaleSplit(c: nat, a: nat, b: nat, q: nat, r: nat)
    requires c > 0 && a == q * b + r && r < b
    ensures c * a == q * (c * b) + c * r && c * r < c * b
  {
    MulBound(b - r, c);
    assert c * (b - r) == c * b - c * r;
    assert c * (q * b) == q * (c * b);
    assert c * (q * b + r) == c * (q * b) + c * r;
  }

  /** The factors already tried do not divide both numbers. */
  ghost predicate NoCommonBelow(limit: nat, n: nat, d: nat) {
    forall f :: 2 <= f < limit ==> !Common(f, n, d)
  }

  lemma CommonScales(c: nat, f: nat, n: nat, d: nat)
    requires Common(f, n, d)
    ensures Common(f, c * n, c * d)
  {
    MultipleSum(0, n, c, f);
    MultipleSum(0, d, c, f);
    DivModUnique(0, f, 0, 0);
  }

  lemma NoCommonAfterDivision(c: nat, n: nat, d: nat)
    requires NoCommonBelow(c, c * n, c * d)
    ensures NoCommonBelow(c, n, d)
  {
    forall f | 2 <= f < c
      ensures !Common(f, n, d)
    {
      if Common(f, n, d) {
        CommonScales(c, f, n, d);
      }
    }
  }

  /** Once one of the numbers is below the factor to be tried, there is nothing left to find. */
  lemma NothingLeft(limit: nat, n: nat, d: nat)
    requires n > 0 && d > 0 && NoCommonBelow(limit, n, d) && (n < limit || d < limit)
    ensures Gcd(n, d) == 1
  {
    GcdIsCommon(n, d);
    DivisorBelow(Gcd(n, d), n);
    DivisorBelow(Gcd(n, d), d);
  }

  lemma DivisorBelow(f: nat, n: nat)
    requires f > 0 && n > 0 && n % f == 0
    ensures f <= n
  {
    if n < f {
      DivModUnique(n, f, 0, n);
    }
  }

  /** `n`/`d` is `n0`/`d0` in lowest terms: both divided by their greatest common divisor. */
  ghost predicate Reduced(n0: nat, d0: nat, n: nat, d: nat) {
    var g := Gcd(n0, d0);
    g > 0 && Gcd(n, d) == 1 && n0 == g * n && d0 == g * d
  }

  /** How often a period of N/D ns fits in a second. */
  function PerSecond(N: nat, D: nat): nat
    requires N > 0
  {
    NS_PER_SECOND * D / N
  }

  // ---------------------------------------------------------------- the module's state

  class TimebaseGlobal {
    var ticksPerSecond: uint32
    var numerator: uint32
    var denominator: uint32

    constructor () {
      ticksPerSecond, numerator, denominator := 0, 0, 0;
    }

    /** The trial division of timebase_vxworks_Init. The factor stays a 32-bit number. */
    static method Reduce(n0: uint32, d0: uint32) returns (n: uint32, d: uint32)
      ensures n0 > 0 && d0 > 0 ==> Reduced(n0, d0, n, d)
      ensures n0 == 0 || d0 == 0 ==> n == n0 && d == d0
    {
      n, d := n0, d0;
      var factor: uint32 := 2;
      ghost var g: nat := 1;
      NothingDivided(n0, d0);
      while n >= factor && d >= factor
        invariant 2 <= factor && (n > 0 <==> n0 > 0) && (d > 0 <==> d0 > 0)
        invariant n0 == 0 || d0 == 0 ==> n == n0 && d == d0
        invariant DividedBy(n0, d0, g, n, d)
        invariant NoCommonBelow(factor, n, d)
        decreases n, TWO32 - factor
      {
        var quotientN, quotientD := n / factor, d / factor;
        if quotientN * factor == n && quotientD * factor == d {
          DivideOut(n0, d0, g, factor, quotientN, quotientD);
          n, d, g := quotientN, quotientD, g * factor;
        } else {
          NotCommon(factor, n, d);
          factor := factor + 1;
        }
      }
      if n > 0 && d > 0 {
        NothingLeft(factor, n, d);
        FullyDivided(n0, d0, g, n, d);
      }
    }

    method Init(periodNumerator: uint32, periodDenominator: uint32, tickResolutionNs: uint32)
      requires periodNumerator > 0
      modifies this
      ensures ticksPerSecond == Wrap32(PerSecond(periodNumerator, periodDenominator))
      ensures
        var d0 := Wrap32(periodDenominator * tickResolutionNs);
        if d0 == 0 then numerator == periodNumerator && denominator == 0
        else Reduced(periodNumerator, d0, numerator, denominator)
    {
      var ticksPerSec: uint64 := NS_PER_SECOND;
      assert NS_PER_SECOND * periodDenominator < TWO64;
      ticksPerSec := ticksPerSec * periodDenominator;
      QuotientAtMost(ticksPerSec, periodNumerator);
      ticksPerSec := ticksPerSec / periodNumerator;
      var ratioD := Wrap32(periodDenominator * tickResolutionNs);
      numerator, denominator := Reduce(periodNumerator, ratioD);
      ticksPerSecond := Wrap32(ticksPerSec);
    }

    method GetTimerTicksPerSecond() returns (t: uint32)
      ensures t == ticksPerSecond
    {
      t := ticksPerSecond;
    }

    /** CFE_PSP_GetTime on the two halves of the register. */
    method GetTime(regUpper: uint32, regLower: uint32) returns (time: uint64)
      requires denominator != 0
      ensures time == Convert(Ticks(regUpper, regLower), numerator, denominator)
      ensures time == (regUpper * 0x1_0000_0000 + regLower) * numerator % 0x1_0000_0000_0000_0000 / denominator
    {
      var normalizedTicks: uint64 := regUpper;
      JoinRegisters(regUpper, regLower);
      normalizedTicks := ShiftLeft32(normalizedTicks);
      normalizedTicks := Or(normalizedTicks, regLower);
      normalizedTicks := Mul64(normalizedTicks, numerator);
      QuotientAtMost(normalizedTicks, denominator);
      normalizedTicks := normalizedTicks / denominator;
      time := normalizedTicks;
    }
  }

  /** `n` and `d` are what is left after dividing both numbers by `g`. */
  ghost predicate DividedBy(n0: nat, d0: nat, g: nat, n: nat, d: nat) {
    g > 0 && n0 == g * n && d0 == g * d && Gcd(n0, d0) == g * Gcd(n, d)
  }

  lemma NothingDivided(n0: nat, d0: nat)
    ensures DividedBy(n0, d0, 1, n0, d0)
  {
  }

  lemma FullyDivided(n0: nat, d0: nat, g: nat, n: nat, d: nat)
    requires DividedBy(n0, d0, g, n, d) && Gcd(n, d) == 1
    ensures Gcd(n0, d0) == g
  {
  }

  lemma Regroup(n0: nat, g: nat, c: nat, q: nat, n: nat)
    requires n == q * c && n0 == g * n
    ensures n0 == (g * c) * q
  {
  }

  lemma QuotientSmaller(q: nat, c: nat)
    requires c >= 2 && q * c > 0
    ensures 0 < q < q * c
  {
    MulBound(c - 1, q);
  }

  lemma DivideOut(n0: nat, d0: nat, g: nat, c: nat, qn: nat, qd: nat)
    requires 2 <= c && qn * c > 0 && qd * c > 0
    requires DividedBy(n0, d0, g, qn * c, qd * c) && NoCommonBelow(c, qn * c, qd * c)
    ensures DividedBy(n0, d0, g * c, qn, qd) && NoCommonBelow(c, qn, qd)
    ensures 0 < qn < qn * c && 0 < qd < qd * c
  {
    FactorMoves(n0, d0, g, c, qn, qd);
    NoCommonAfterDivision(c, qn, qd);
    QuotientSmaller(qn, c);
    QuotientSmaller(qd, c);
  }

  lemma FactorMoves(n0: nat, d0: nat, g: nat, c: nat, qn: nat, qd: nat)
    requires c > 0 && DividedBy(n0, d0, g, qn * c, qd * c)
    ensures DividedBy(n0, d0, g * c, qn, qd)
  {
    var n, d, h := qn * c, qd * c, Gcd(qn, qd);
    assert n == c * qn && d == c * qd;
    GcdScale(c, qn, qd);
    var m := h * c;
    assert Gcd(n, d) == m;
    Regroup(n0, g, c, qn, n);
    Regroup(d0, g, c, qd, d);
    Regroup(Gcd(n0, d0), g, c, h, m);
    MulBound(c, g);
  }

  lemma NotCommon(f: nat, n: nat, d: nat)
    requires 2 <= f && !((n / f) * f == n && (d / f) * f == d)
    requires NoCommonBelow(f, n, d)
    ensures NoCommonBelow(f + 1, n, d)
    ensures !(n == f == d)
  {
    assert n == (n / f) * f + n % f && d == (d / f) * f + d % f;
    if n == f == d {
      DivModUnique(f, f, 1, 0);
    }
  }

  lemma QuotientAtMost(a: nat, n: nat)
    requires n > 0
    ensures a / n <= a
  {
    MulBound(n, a + 1);
    DivBelow(a, n, a + 1);
  }

  function ShiftLeft32(x: uint64): uint64 {
    x * TWO32 % TWO64
  }

  function Mul64(x: uint64, y: uint64): uint64 {
    x * y % TWO64
  }

  lemma JoinRegisters(upper: uint32, lower: uint32)
    ensures Or(ShiftLeft32(upper), lower) == Ticks(upper, lower)
  {
    assert ShiftLeft32(upper) == upper * TWO32;
    Pow2Is32();
    DivModUnique(upper * TWO32, TWO32, upper, 0);
    OrDisjoint(upper * TWO32, lower, 32);
  }

  // ---------------------------------------------------------------- what the conversion means

  function Ticks(upper: uint32, lower: uint32): uint64 {
    upper * TWO32 + lower
  }

  /** The 64-bit product, then the division. */
  function Convert(ticks: uint64, n: uint32, d: uint32): nat
    requires d > 0
  {
    Mul64(ticks, n) / d
  }

  lemma DivScale(a: nat, d: nat, g: nat)
    requires d > 0 && g > 0
    ensures g * d > 0 && (g * a) / (g * d) == a / d
  {
    var q, r := a / d, a % d;
    MulBound(d, g);
    ScaleSplit(g, a, d, q, r);
    DivModUnique(g * a, g * d, q, g * r);
  }

  /** With the reduced fraction n/d of N/D the result is the exact value of ticks * N / D, rounded
      down, precisely as long as the 64-bit product does not overflow. */
  lemma ConvertExactIff(ticks: uint64, N: nat, D: nat, g: nat, n: uint32, d: uint32)
    requires g > 0 && d > 0 && N == g * n && D == g * d
    ensures D > 0
    ensures Convert(ticks, n, d) == ticks * N / D <==> ticks * n < TWO64
  {
    var x := ticks * n;
    assert ticks * N == g * x;
    DivScale(x, d, g);
    if x < TWO64 {
      assert x % TWO64 == x;
    } else {
      assert x % TWO64 <= x - TWO64;
      assert x - d == x + (-1) * d;
      ModAddMultiple(x, d, -1);
      DivMonotone(x % TWO64, x - d, d);
    }
  }

  lemma TicksMonotone(u1: uint32, l1: uint32, u2: uint32, l2: uint32)
    requires u1 < u2 || (u1 == u2 && l1 <= l2)
    ensures Ticks(u1, l1) <= Ticks(u2, l2)
  {
  }

  lemma ProductMonotone(t1: uint64, t2: uint64, n: uint32)
    requires t1 <= t2 && t2 * n < TWO64
    ensures Mul64(t1, n) <= Mul64(t2, n)
  {
    MulMonotone(n, t1, t2);
    var p1, p2 := n * t1, n * t2;
    assert t1 * n == p1 && t2 * n == p2;
    assert p1 % TWO64 == p1 && p2 % TWO64 == p2;
  }

  /** Later register values give later times. */
  lemma ConvertMonotone(u1: uint32, l1: uint32, u2: uint32, l2: uint32, n: uint32, d: uint32)
    requires d > 0 && (u1 < u2 || (u1 == u2 && l1 <= l2))
    requires Ticks(u2, l2) * n < TWO64
    ensures Convert(Ticks(u1, l1), n, d) <= Convert(Ticks(u2, l2), n, d)
  {
    TicksMonotone(u1, l1, u2, l2);
    ProductMonotone(Ticks(u1, l1), Ticks(u2, l2), n);
    DivMonotone(Mul64(Ticks(u1, l1), n), Mul64(Ticks(u2, l2), n), d);
  }

  /** At most one second, and short of it by less than one timebase period (N/D ns) plus one OSAL
      tick; all is in nanoseconds times D, of which an OSAL tick has `scale`. */
  predicate AboutASecond(time: nat, second: nat, N: nat, scale: nat) {
    time * scale <= second && second - time * scale < N + scale
  }

  lemma ReducedPositive(n0: nat, d0: nat, n: nat, d: nat)
    requires d0 > 0 && Reduced(n0, d0, n, d)
    ensures d > 0
  {
  }

  lemma WrapBelow(x: nat)
    requires x < TWO32
    ensures Wrap32(x) == x
  {
  }

  /** The number of ticks the module reports per second converts to about a second. */
  lemma OneSecond(N: uint32, D: uint32, resolution: uint32, g: nat, n: uint32, d: uint32)
    requires N > 0 && D * resolution < TWO32
    requires g > 0 && d > 0 && N == g * n && D * resolution == g * d
    requires PerSecond(N, D) < TWO32
    ensures AboutASecond(Convert(PerSecond(N, D), n, d), NS_PER_SECOND * D, N, D * resolution)
  {
    SecondOf(NS_PER_SECOND * D, N, D * resolution, PerSecond(N, D), g, n, d);
  }

  lemma SecondOf(second: nat, N: uint32, scale: uint32, ticks: uint32, g: nat, n: uint32, d: uint32)
    requires N > 0 && g > 0 && d > 0 && N == g * n && scale == g * d
    requires ticks == second / N
    ensures AboutASecond(Convert(ticks, n, d), second, N, scale)
  {
    ProductBelow64(ticks, n);
    ConvertExactIff(ticks, N, scale, g, n, d);
    Remainders(second, N, scale);
  }

  /** Two divisions in a row lose less than the two divisors together. */
  lemma Remainders(total: nat, n: nat, d: nat)
    requires n > 0 && d > 0
    ensures
      var time := total / n * n / d;
      time * d <= total && total - time * d < n + d
  {
    var q := total / n;
    var x := q * n;
    assert total == x + total % n;
    var time := x / d;
    assert x == time * d + x % d;
  }

  /** From the configured period to the reported time, and exactly when it is the exact one. */
  method TimeAfterInit(timebase: TimebaseGlobal, N: uint32, D: uint32, resolution: uint32,
                       upper: uint32, lower: uint32)
    returns (time: uint64)
    requires N > 0 && 0 < D * resolution < TWO32
    modifies timebase
    ensures time == Ticks(upper, lower) * N / (D * resolution) <==>
            Ticks(upper, lower) * timebase.numerator < TWO64
  {
    timebase.Init(N, D, resolution);
    ghost var g := Gcd(N, D * resolution);
    ReducedPositive(N, D * resolution, timebase.numerator, timebase.denominator);
    time := timebase.GetTime(upper, lower);
    ConvertExactIff(Ticks(upper, lower), N, D * resolution, g, timebase.numerator, timebase.denominator);
  }

  /** Feeding the reported ticks per second back gives about a second. */
  method SecondAfterInit(timebase: TimebaseGlobal, N: uint32, D: uint32, resolution: uint32)
    returns (ticks: uint32, time: uint64)
    requires N > 0 && 0 < D * resolution < TWO32 && PerSecond(N, D) < TWO32
    modifies timebase
    ensures ticks == PerSecond(N, D) && AboutASecond(time, NS_PER_SECOND * D, N, D * resolution)
  {
    WrapBelow(PerSecond(N, D));
    WrapBelow(D * resolution);
    timebase.Init(N, D, resolution);
    ticks, time := ReportedSecond(timebase, NS_PER_SECOND * D, N, D * resolution);
  }

  method ReportedSecond(timebase: TimebaseGlobal, ghost total: nat, ghost N: uint32, ghost scale: uint32)
    returns (ticks: uint32, time: uint64)
    requires N > 0 && scale > 0 && Reduced(N, scale, timebase.numerator, timebase.denominator)
    requires timebase.ticksPerSecond == total / N
    ensures ticks == total / N && AboutASecond(time, total, N, scale)
  {
    ReducedPositive(N, scale, timebase.numerator, timebase.denominator);
    ticks := timebase.GetTimerTicksPerSecond();
    time := timebase.GetTime(0, ticks);
    LowTicks(ticks);
    SecondOf(total, N, scale, ticks, Gcd(N, scale), timebase.numerator, timebase.denominator);
  }

  lemma LowTicks(ticks: uint32)
    ensures Ticks(0, ticks) == ticks
  {
  }

  lemma ProductBelow64(a: uint32, b: uint32)
    ensures a * b < TWO64
  {
    MulMonotone(a, b, TWO32);
  }
}
