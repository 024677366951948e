/**
  Unsigned machine arithmetic: 32- and 64-bit ranges, powers of two, and bitwise
  operators on natural numbers, with the facts that every index mask, phase bit and
  bitmap word of the library depends on.
 */
module Bits {

  const TWO_32: int := 0x1_0000_0000
  const TWO_64: int := 0x1_0000_0000_0000_0000

  type bit = x: int | 0 <= x < 2
  type u4 = x: int | 0 <= x < 0x10
  type u8 = x: int | 0 <= x < 0x100
  type u16 = x: int | 0 <= x < 0x1_0000
  type u32 = x: int | 0 <= x < 0x1_0000_0000
  type u64 = x: int | 0 <= x < 0x1_0000_0000_0000_0000

  /** Unsigned 32-bit addition, wrapping. */
  function Add32(a: int, b: int): u32 {
    (a + b) % TWO_32
  }

  /** Unsigned 32-bit subtraction, wrapping. */
  function Sub32(a: int, b: int): u32 {
    (a - b) % TWO_32
  }

  function Pow2(k: nat): (p: nat)
    ensures p >= 1
  {
    if k == 0 then 1 else 2 * Pow2(k - 1)
  }

  ghost predicate IsPow2(n: nat) {
    exists k: nat :: n == Pow2(k)
  }

  function And(a: nat, b: nat): nat {
    if a == 0 || b == 0 then 0
    else (if a % 2 == 1 && b % 2 == 1 then 1 else 0) + 2 * And(a / 2, b / 2)
  }

  function Or(a: nat, b: nat): nat
    decreases a + b
  {
    if a == 0 then b else if b == 0 then a
    else (if a % 2 == 1 || b % 2 == 1 then 1 else 0) + 2 * Or(a / 2, b / 2)
  }

  predicate Bit(a: nat, i: nat)
    decreases i
  {
    if i == 0 then a % 2 == 1 else Bit(a / 2, i - 1)
  }

  /* Powers of two. */

  lemma {:induction false} Pow2Add(a: nat, b: nat)
    ensures Pow2(a + b) == Pow2(a) * Pow2(b)
  {
    if a > 0 {
      Pow2Add(a - 1, b);
      assert Pow2(a + b) == 2 * (Pow2(a - 1) * Pow2(b)) == (2 * Pow2(a - 1)) * Pow2(b);
    }
  }

  lemma {:induction false} Pow2Monotone(a: nat, b: nat)
    requires a <= b
    ensures Pow2(a) <= Pow2(b)
    ensures a < b ==> 2 * Pow2(a) <= Pow2(b)
    decreases b
  {
    if a < b {
      Pow2Monotone(a, b - 1);
    }
  }

  lemma Pow2Small()
    ensures Pow2(6) == 64 && Pow2(12) == 4096 && Pow2(16) == 0x1_0000
  {
    Pow2Add(6, 6);
    Pow2Add(12, 4);
  }

  lemma Pow2Constants()
    ensures Pow2(6) == 64 && Pow2(12) == 4096 && Pow2(16) == 0x1_0000
    ensures Pow2(22) == 0x40_0000 && Pow2(31) == 0x8000_0000
    ensures Pow2(32) == TWO_32 && Pow2(63) == 0x8000_0000_0000_0000 && Pow2(64) == TWO_64
  {
    hide Pow2;
    Pow2Small();
    Pow2Add(16, 6);
    Pow2Add(16, 16);
    Pow2Add(32, 32);
    Pow2Halves(32);
    Pow2Halves(64);
  }

  lemma Pow2Halves(k: nat)
    requires k > 0
    ensures Pow2(k) == 2 * Pow2(k - 1)
  {
  }

  /* Division and remainder. */

  lemma SmallMultiple(d: int, n: int)
    requires n > 0 && -n < d * n < n
    ensures d == 0
  {
  }

  lemma Distribute(a: int, b: int, n: int)
    ensures (a + b) * n == a * n + b * n && (a - b) * n == a * n - b * n
  {
  }

  lemma Associate(a: int, b: int, c: int)
    ensures a * (b * c) == (a * b) * c
  {
  }

  lemma DivModUnique(x: int, n: int, q: int, r: int)
    requires n > 0 && x == q * n + r && 0 <= r < n
    ensures x / n == q && x % n == r
  {
    Distribute(x / n, q, n);
    SmallMultiple(x / n - q, n);
  }

  /** A wrapped counter can be subtracted from as if it had not wrapped. */
  lemma SubTrunc(a: int, b: int)
    ensures Sub32(a % TWO_32, b) == (a - b) % TWO_32
    ensures Sub32(a % TWO_32, b % TWO_32) == (a - b) % TWO_32
  {
    ModAdd(a, -b, TWO_32);
    ModAdd(a, -(b % TWO_32), TWO_32);
    WholeLaps(a - b, b / TWO_32, TWO_32);
  }

  lemma WholeLaps(x: int, q: int, n: int)
    requires n > 0
    ensures (x + q * n) % n == x % n
  {
    Distribute(x / n, q, n);
    DivModUnique(x + q * n, n, x / n + q, x % n);
  }

  lemma ModAdd(a: int, b: int, n: int)
    requires n > 0
    ensures (a % n + b) % n == (a + b) % n
  {
    var q, r := (a % n + b) / n, (a % n + b) % n;
    assert a + b == (a / n + q) * n + r;
    DivModUnique(a + b, n, a / n + q, r);
  }

  /** Where a position falls when counted from another one of the same or next lap. */
  lemma SlotOffset(c: nat, i: nat, n: nat)
    requires n > 0 && i <= n
    ensures (c + i) % n == (if c % n + i < n then c % n + i else c % n + i - n)
    ensures (c + i) / n == (if c % n + i < n then c / n else c / n + 1)
  {
    if c % n + i < n {
      DivModUnique(c + i, n, c / n, c % n + i);
    } else {
      assert c + i == (c / n + 1) * n + (c % n + i - n);
      DivModUnique(c + i, n, c / n + 1, c % n + i - n);
    }
  }

  /** Positions closer than one lap never share a slot. */
  lemma SlotsDistinct(a: nat, b: nat, n: nat)
    requires a < b < a + n
    ensures a % n != b % n
  {
    SlotOffset(a, b - a, n);
  }

  /** A remainder is not changed by first reducing modulo a multiple. */
  lemma ModOfMod(n: int, c: int, m: int)
    requires c > 0 && m > 0 && c * m > 0
    ensures n % (c * m) % c == n % c
    ensures n % (c * m) / c == n / c - (n / (c * m)) * m
  {
    var h, s := n / (c * m), n % (c * m);
    var q, r := s / c, s % c;
    Associate(h, m, c);
    Distribute(h * m, q, c);
    assert h * (c * m) == h * (m * c);
    assert n == (h * m + q) * c + r;
    DivModUnique(n, c, h * m + q, r);
  }

  /** Truncating a free-running counter to 32 bits keeps its slot in a power-of-two ring. */
  lemma TruncSlot(n: int, k: nat)
    requires k <= 32
    ensures n % TWO_32 % Pow2(k) == n % Pow2(k)
  {
    Pow2Add(k, 32 - k);
    Pow2Constants();
    ModOfMod(n, Pow2(k), Pow2(32 - k));
  }

  /** Truncating to 32 bits keeps the parity of the lap, as long as the ring has fewer than 2^32 slots. */
  lemma TruncLap(n: int, k: nat)
    requires k < 32
    ensures n % TWO_32 / Pow2(k) % 2 == n / Pow2(k) % 2
  {
    Pow2Add(k, 32 - k);
    Pow2Constants();
    ModOfMod(n, Pow2(k), Pow2(32 - k));
    EvenShift(n / Pow2(k), n / TWO_32, Pow2(31 - k));
  }

  lemma EvenShift(x: int, h: int, m: int)
    ensures (x - h * (2 * m)) % 2 == x % 2
  {
    var y := h * m;
    assert h * (2 * m) == 2 * y;
  }

  /** Halving commutes with taking the quotient and remainder by a power of two. */
  lemma HalveDivMod(n: nat, k: nat)
    requires k > 0
    ensures n % Pow2(k) == 2 * (n / 2 % Pow2(k - 1)) + n % 2
    ensures n / Pow2(k) == n / 2 / Pow2(k - 1)
  {
    var p := Pow2(k - 1);
    var q, r := n / 2 / p, n / 2 % p;
    Associate(q, 2, p);
    Associate(2, q, p);
    assert n == q * (2 * p) + (2 * r + n % 2);
    DivModUnique(n, 2 * p, q, 2 * r + n % 2);
  }

  /* Bitwise operators. */

  lemma AndStep(a: nat, b: nat)
    ensures And(a, b) == (if a % 2 == 1 && b % 2 == 1 then 1 else 0) + 2 * And(a / 2, b / 2)
    ensures a == 0 || b == 0 ==> And(a, b) == 0
  {
  }

  lemma {:induction false} MaskIsMod(n: nat, k: nat)
    ensures And(n, Pow2(k) - 1) == n % Pow2(k)
  {
    hide And;
    if k == 0 {
      AndStep(n, 0);
    } else {
      hide Pow2;
      Pow2Halves(k);
      MaskIsMod(n / 2, k - 1);
      HalveDivMod(n, k);
      AndStep(n, Pow2(k) - 1);
    }
  }

  /** Testing the bit just above an index mask gives the parity of the lap. */
  lemma {:induction false} AndPow2(n: nat, k: nat)
    ensures And(n, Pow2(k)) == if n / Pow2(k) % 2 == 1 then Pow2(k) else 0
  {
    hide And;
    AndStep(n, Pow2(k));
    if k == 0 {
      AndStep(n / 2, 0);
    } else {
      AndPow2(n / 2, k - 1);
      HalveDivMod(n, k);
      assert Pow2(k) == 2 * Pow2(k - 1);
    }
  }

  /** A mask and its complement split a value. */
  lemma {:induction false} AndComplement(n: nat, m: nat, w: nat)
    requires n < Pow2(w) && m < Pow2(w)
    ensures And(n, m) + And(n, Pow2(w) - 1 - m) == n
  {
    hide And;
    var c := Pow2(w) - 1 - m;
    if w == 0 {
      AndStep(n, m);
      AndStep(n, c);
    } else {
      AndComplement(n / 2, m / 2, w - 1);
      assert c / 2 == Pow2(w - 1) - 1 - m / 2 && c % 2 == 1 - m % 2;
      AndStep(n, m);
      AndStep(n, c);
    }
  }

  /** Clearing the low k bits of a w-bit value rounds it down to a multiple of 2^k. */
  lemma AndHighMask(n: nat, k: nat, w: nat)
    requires k <= w && n < Pow2(w)
    ensures Pow2(k) <= Pow2(w)
    ensures And(n, Pow2(w) - Pow2(k)) == n - n % Pow2(k)
  {
    Pow2Monotone(k, w);
    AndComplement(n, Pow2(k) - 1, w);
    MaskIsMod(n, k);
  }

  lemma {:induction false} AndBit(a: nat, b: nat, i: nat)
    ensures Bit(And(a, b), i) == (Bit(a, i) && Bit(b, i))
    decreases i
  {
    if a == 0 || b == 0 {
      ZeroBit(i);
    } else if i > 0 {
      AndBit(a / 2, b / 2, i - 1);
    }
  }

  lemma {:induction false} OrBit(a: nat, b: nat, i: nat)
    ensures Bit(Or(a, b), i) == (Bit(a, i) || Bit(b, i))
    decreases i
  {
    if a == 0 || b == 0 {
      ZeroBit(i);
    } else if i > 0 {
      OrBit(a / 2, b / 2, i - 1);
    }
  }

  lemma {:induction false} ZeroBit(i: nat)
    ensures !Bit(0, i)
  {
    if i > 0 {
      ZeroBit(i - 1);
    }
  }

  lemma {:induction false} Pow2Bit(k: nat, i: nat)
    ensures Bit(Pow2(k), i) == (i == k)
  {
    if k == 0 {
      if i > 0 {
        ZeroBit(i - 1);
      }
    } else if i > 0 {
      Pow2Bit(k - 1, i - 1);
    }
  }

  /** Complement of a w-bit value. */
  lemma {:induction false} NotBit(a: nat, w: nat, i: nat)
    requires a < Pow2(w) && i < w
    ensures Bit(Pow2(w) - 1 - a, i) == !Bit(a, i)
  {
    hide Pow2;
    Pow2Halves(w);
    HalveComplement(a, Pow2(w - 1));
    if i > 0 {
      NotBit(a / 2, w - 1, i - 1);
    }
  }

  lemma HalveComplement(a: nat, p: nat)
    requires a < 2 * p
    ensures (2 * p - 1 - a) / 2 == p - 1 - a / 2 && (2 * p - 1 - a) % 2 == 1 - a % 2
  {
  }

  /** Shifting one value past another and joining them is adding. */
  lemma {:induction false} OrShift(h: nat, l: nat, k: nat)
    requires l < Pow2(k)
    ensures h * Pow2(k) >= 0 && Or(h * Pow2(k), l) == h * Pow2(k) + l
  {
    hide Or;
    if k == 0 {
      OrZero(h);
    } else {
      ShiftOnce(h, k);
      OrShift(h, l / 2, k - 1);
      OrDouble(h * Pow2(k - 1), l);
    }
  }

  lemma OrZero(a: nat)
    ensures Or(a, 0) == a
  {
  }

  lemma ShiftOnce(h: nat, k: nat)
    requires k > 0
    ensures h * Pow2(k) == 2 * (h * Pow2(k - 1))
  {
    Associate(h, 2, Pow2(k - 1));
    Associate(2, h, Pow2(k - 1));
  }

  lemma OrDouble(a: nat, l: nat)
    ensures Or(2 * a, l) == l % 2 + 2 * Or(a, l / 2)
  {
  }

  lemma {:induction false} OrBound(a: nat, b: nat, w: nat)
    requires a < Pow2(w) && b < Pow2(w)
    ensures Or(a, b) < Pow2(w)
  {
    if a > 0 && b > 0 {
      OrBound(a / 2, b / 2, w - 1);
    }
  }
}
