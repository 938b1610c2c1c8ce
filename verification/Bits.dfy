/** Fixed-width words: C's unsigned 32-bit arithmetic and the bit masks the package uses.
    `And`, `Or` and `Complement` are defined bit by bit; the lemmas give their arithmetic
    meaning for masks of the form 2^k - 1. */
module Bits {

  const TWO32: nat := 0x1_0000_0000
  const TWO64: nat := 0x1_0000_0000_0000_0000

  type uint32 = x: nat | x < TWO32
  type uint64 = x: nat | x < TWO64
  type byte = bv8

  datatype Option<+T> = None | Some(value: T)

  /** C's conversion of any integer to uint32. */
  function Wrap32(x: int): uint32 {
    x % TWO32
  }

  function Sub32(a: uint32, b: uint32): uint32 {
    Wrap32(a - b)
  }

  function Pow2(n: nat): (r: nat)
    ensures r > 0
  {
    if n == 0 then 1 else 2 * Pow2(n - 1)
  }

  function And(x: nat, y: nat): nat {
    if x == 0 || y == 0 then 0
    else 2 * And(x / 2, y / 2) + (if x % 2 == 1 && y % 2 == 1 then 1 else 0)
  }

  function Or(x: nat, y: nat): nat {
    if x == 0 then y
    else if y == 0 then x
    else 2 * Or(x / 2, y / 2) + (if x % 2 == 1 || y % 2 == 1 then 1 else 0)
  }

  function Xor(x: nat, y: nat): nat {
    if x == 0 then y
    else if y == 0 then x
    else 2 * Xor(x / 2, y / 2) + (if x % 2 != y % 2 then 1 else 0)
  }

  /** `~x` in a word of `width` bits. */
  function Complement(x: nat, width: nat): nat
    requires x < Pow2(width)
  {
    Pow2(width) - 1 - x
  }

  /** Bit `k` of a number. */
  function Bit(x: nat, k: nat): bool
    decreases k
  {
    if k == 0 then x % 2 == 1 else Bit(x / 2, k - 1)
  }

  /** The three operations work bit by bit. */
  lemma {:induction false} BitOfAnd(x: nat, y: nat, k: nat)
    ensures Bit(And(x, y), k) == (Bit(x, k) && Bit(y, k))
    decreases k
  {
    HalfOfAnd(x, y);
    if k > 0 {
      BitOfAnd(x / 2, y / 2, k - 1);
    }
  }

  lemma {:induction false} BitOfOr(x: nat, y: nat, k: nat)
    ensures Bit(Or(x, y), k) == (Bit(x, k) || Bit(y, k))
    decreases k
  {
    HalfOfOr(x, y);
    if k > 0 {
      BitOfOr(x / 2, y / 2, k - 1);
    }
  }

  lemma {:induction false} BitOfXor(x: nat, y: nat, k: nat)
    ensures Bit(Xor(x, y), k) == (Bit(x, k) != Bit(y, k))
    decreases k
  {
    HalfOfXor(x, y);
    if k > 0 {
      BitOfXor(x / 2, y / 2, k - 1);
    }
  }

  lemma HalfOfAnd(x: nat, y: nat)
    ensures And(x, y) / 2 == And(x / 2, y / 2)
    ensures And(x, y) % 2 == 1 <==> x % 2 == 1 && y % 2 == 1
  {
  }

  lemma HalfOfOr(x: nat, y: nat)
    ensures Or(x, y) / 2 == Or(x / 2, y / 2)
    ensures Or(x, y) % 2 == 1 <==> x % 2 == 1 || y % 2 == 1
  {
  }

  lemma HalfOfXor(x: nat, y: nat)
    ensures Xor(x, y) / 2 == Xor(x / 2, y / 2)
    ensures Xor(x, y) % 2 == 1 <==> x % 2 != y % 2
  {
  }

  // ---------------------------------------------------------------- powers of two

  lemma Pow2Is32()
    ensures Pow2(32) == TWO32
  {
    assert Pow2(8) == 256;
    assert Pow2(16) == 256 * Pow2(8);
    assert Pow2(24) == 256 * Pow2(16);
    assert Pow2(32) == 256 * Pow2(24);
  }

  lemma Pow2Literals()
    ensures Pow2(8) == 0x100 && Pow2(16) == 0x1_0000 && Pow2(31) == 0x8000_0000 && Pow2(32) == TWO32
  {
    Pow2Is32();
    assert Pow2(8) == 0x100;
    assert Pow2(16) == 0x100 * Pow2(8);
    assert Pow2(32) == 2 * Pow2(31);
  }

  lemma {:induction false} Pow2Add(a: nat, b: nat)
    ensures Pow2(a + b) == Pow2(a) * Pow2(b)
  {
    if a > 0 {
      Pow2Add(a - 1, b);
      assert Pow2(a + b) == 2 * Pow2(a - 1 + b);
    }
  }

  lemma Pow2Monotone(a: nat, b: nat)
    requires a <= b
    ensures Pow2(a) <= Pow2(b)
    decreases b
  {
    if a < b {
      Pow2Monotone(a, b - 1);
    }
  }

  // ---------------------------------------------------------------- division facts

  lemma MulBound(d: int, n: int)
    requires n >= 0
    ensures d >= 1 ==> d * n >= n
    ensures d <= -1 ==> d * n <= -n
  {
  }

  lemma MulMonotone(a: nat, b: int, c: int)
    requires b <= c
    ensures a * b <= a * c
  {
    assert a * c - a * b == a * (c - b);
  }

  /** The quotient and remainder of a division are the only pair that satisfies its equation. */
  lemma DivModUnique(x: int, n: int, q: int, r: int)
    requires n > 0 && 0 <= r < n && x == q * n + r
    ensures x / n == q && x % n == r
  {
    var q', r' := x / n, x % n;
    assert x == q' * n + r';
    assert (q' - q) * n == r - r';
    MulBound(q' - q, n);
  }

  lemma ModAddMultiple(x: int, n: int, k: int)
    requires n > 0
    ensures (x + k * n) % n == x % n
    ensures (x + k * n) / n == x / n + k
  {
    var q, r := x / n, x % n;
    assert x == q * n + r;
    assert x + k * n == (q + k) * n + r;
    DivModUnique(x + k * n, n, q + k, r);
  }

  lemma DivBelow(a: int, n: int, m: int)
    requires n > 0 && a < m * n
    ensures a / n < m
  {
    var q, r := a / n, a % n;
    assert a == q * n + r;
    assert (q - m) * n == q * n - m * n;
    MulBound(q - m, n);
  }

  lemma DivMonotone(a: int, b: int, n: int)
    requires n > 0 && a <= b
    ensures a / n <= b / n
  {
    var qa, ra, qb, rb := a / n, a % n, b / n, b % n;
    assert a == qa * n + ra && b == qb * n + rb;
    assert (qa - qb) * n == qa * n - qb * n;
    MulBound(qa - qb, n);
  }

  /** Reducing by a multiple of `n` first does not disturb a reduction by `n`. */
  lemma ModOfMultiple(x: int, n: int, k: int)
    requires n > 0 && k > 0
    ensures k * n > 0 && (x % (k * n)) % n == x % n
  {
    MulBound(k, n);
    var m := k * n;
    var q, r := x / m, x % m;
    assert x == q * m + r;
    assert q * m == (q * k) * n;
    ModAddMultiple(r, n, q * k);
  }

  lemma ModMod(x: int, small: nat, big: nat)
    requires small <= big
    ensures (x % Pow2(big)) % Pow2(small) == x % Pow2(small)
  {
    Pow2Add(big - small, small);
    ModOfMultiple(x, Pow2(small), Pow2(big - small));
  }

  lemma MultipleBelow(x: nat, n: nat)
    requires n > 0
    ensures (x - x % n) % n == 0 && x - n < x - x % n <= x
  {
    var q, r := x / n, x % n;
    assert x == q * n + r;
    DivModUnique(x - r, n, q, 0);
  }

  /** Two indices less than `n` apart are in the same residue class only if they are equal. */
  lemma ModDistinct(i: int, j: int, n: int)
    requires n > 0 && i < j < i + n
    ensures i % n != j % n
  {
    var qi, ri, qj, rj := i / n, i % n, j / n, j % n;
    assert i == qi * n + ri && j == qj * n + rj;
    assert (qj - qi) * n == (j - i) - (rj - ri);
    MulBound(qj - qi, n);
  }

  lemma HalveMod(x: nat, n: nat)
    requires n > 0
    ensures x % (2 * n) == 2 * ((x / 2) % n) + x % 2
  {
    var q, r := (x / 2) / n, (x / 2) % n;
    assert x / 2 == q * n + r;
    assert q * (2 * n) == 2 * (q * n);
    DivModUnique(x, 2 * n, q, 2 * r + x % 2);
  }

  // ---------------------------------------------------------------- masks

  /** The low `k` bits of `x`. */
  function Low(x: nat, k: nat): nat {
    if k == 0 then 0 else 2 * Low(x / 2, k - 1) + x % 2
  }

  lemma {:induction false} LowIsMod(x: nat, k: nat)
    ensures Low(x, k) == x % Pow2(k)
    decreases k
  {
    if k > 0 {
      LowIsMod(x / 2, k - 1);
      HalveMod(x, Pow2(k - 1));
    }
  }

  lemma {:induction false} LowBelow(x: nat, k: nat)
    ensures x < Pow2(k) ==> Low(x, k) == x
    ensures Low(x, k) <= x
  {
    if k > 0 {
      LowBelow(x / 2, k - 1);
    }
  }

  lemma {:induction false} AndLow(x: nat, k: nat)
    ensures And(x, Pow2(k) - 1) == Low(x, k)
    decreases k
  {
    if k > 0 && x > 0 {
      AndLow(x / 2, k - 1);
      assert (2 * Pow2(k - 1) - 1) / 2 == Pow2(k - 1) - 1;
    } else if x == 0 {
      LowBelow(0, k);
    }
  }

  lemma AndMask(x: nat, k: nat)
    ensures And(x, Pow2(k) - 1) == x % Pow2(k)
  {
    AndLow(x, k);
    LowIsMod(x, k);
  }

  lemma HalfComplement(low: nat, all: nat)
    requires 0 < low <= all
    ensures
      var y := 2 * all - 1 - (2 * low - 1);
      y % 2 == 0 && y / 2 == all - 1 - (low - 1)
  {
  }

  lemma {:induction false} AndComplementLow(x: nat, k: nat, width: nat)
    requires k <= width && x < Pow2(width)
    requires Pow2(k) <= Pow2(width)
    ensures And(x, Complement(Pow2(k) - 1, width)) == x - Low(x, k)
    decreases k
  {
    if k == 0 {
      AndLow(x, width);
      LowBelow(x, width);
    } else if x > 0 {
      AndComplementLow(x / 2, k - 1, width - 1);
      HalfComplement(Pow2(k - 1), Pow2(width - 1));
    } else {
      LowBelow(0, k);
    }
  }

  lemma AndComplementMask(x: nat, k: nat, width: nat)
    requires k <= width && x < Pow2(width)
    ensures Pow2(k) <= Pow2(width)
    ensures And(x, Complement(Pow2(k) - 1, width)) == x - x % Pow2(k)
  {
    Pow2Monotone(k, width);
    AndComplementLow(x, k, width);
    LowIsMod(x, k);
  }

  /** `|` of a value whose low bits are clear with a value that fits in those bits is a sum. */
  lemma {:induction false} OrDisjointLow(high: nat, low: nat, k: nat)
    requires low < Pow2(k) && Low(high, k) == 0
    ensures Or(high, low) == high + low
    decreases k
  {
    if high > 0 && low > 0 {
      OrDisjointLow(high / 2, low / 2, k - 1);
    }
  }

  lemma {:induction false} OrCommutes(x: nat, y: nat)
    ensures Or(x, y) == Or(y, x)
  {
    if x > 0 && y > 0 {
      OrCommutes(x / 2, y / 2);
    }
  }

  lemma OrDisjoint(high: nat, low: nat, k: nat)
    requires low < Pow2(k) && high % Pow2(k) == 0
    ensures Or(high, low) == high + low
  {
    LowIsMod(high, k);
    OrDisjointLow(high, low, k);
  }

  // ---------------------------------------------------------------- wrapping counters

  /** The difference of two free-running counters survives their wrap-around. */
  lemma CounterDifference(w: nat, r: nat)
    requires r <= w < r + TWO32
    ensures Sub32(Wrap32(w), Wrap32(r)) == w - r
  {
    var q := w / TWO32 - r / TWO32;
    assert Wrap32(w) - Wrap32(r) == (w - r) - q * TWO32;
    ModAddMultiple(w - r, TWO32, -q);
  }

  lemma CounterIncrement(w: nat)
    ensures Wrap32(Wrap32(w) + 1) == Wrap32(w + 1)
  {
  }
}
