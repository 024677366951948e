/**
  Ring geometry: the power-of-two sizing arithmetic and the queue structure shared by
  the completion ring and the submission ring.
 */
module Common {
  import opened Bits

  const ENOMEM := -12
  const EINVAL := -22

  datatype Option<+T> = None | Some(value: T)

  /** Number of bits needed to write v; zero for zero. */
  function BitLength(v: nat): nat {
    if v == 0 then 0 else 1 + BitLength(v / 2)
  }

  function RoundupPow2(n: nat): nat
    requires n >= 1
  {
    if n == 1 then 1 else Pow2(BitLength(n - 1))
  }

  /** Exponent of the least power of two that is not below n. */
  function CeilLog2(n: nat): nat {
    if n <= 1 then 0 else BitLength(n - 1)
  }

  function Align(val: nat, unit: nat): nat
    requires unit >= 1 && val + unit <= TWO_64
  {
    And(val + unit - 1, TWO_64 - 1 - (unit - 1))
  }

  lemma {:induction false} BitLengthBounds(v: nat)
    ensures v < Pow2(BitLength(v))
    ensures v > 0 ==> BitLength(v) > 0 && Pow2(BitLength(v) - 1) <= v
  {
    if v > 0 {
      BitLengthBounds(v / 2);
    }
  }

  /** The rounding really is the least power of two that is not below its argument. */
  lemma RoundupIsLeast(n: nat, j: nat)
    requires n >= 1
    ensures RoundupPow2(n) == Pow2(CeilLog2(n)) && n <= RoundupPow2(n)
    ensures n <= Pow2(j) <==> RoundupPow2(n) <= Pow2(j)
    ensures n <= Pow2(j) <==> CeilLog2(n) <= j
  {
    BitLengthBounds(n - 1);
    if j < CeilLog2(n) {
      Pow2Monotone(j, CeilLog2(n) - 1);
    } else {
      Pow2Monotone(CeilLog2(n), j);
    }
  }

  lemma RoundupOfPow2(k: nat)
    ensures RoundupPow2(Pow2(k)) == Pow2(k) && CeilLog2(Pow2(k)) == k
  {
    RoundupIsLeast(Pow2(k), k);
    if CeilLog2(Pow2(k)) < k {
      Pow2Monotone(CeilLog2(Pow2(k)), k);
    }
  }

  /** Rounding commutes with scaling by a power of two. */
  lemma RoundupScaled(a: nat, e: nat)
    requires e >= 1
    ensures Pow2(a) * e >= 1
    ensures CeilLog2(Pow2(a) * e) == a + CeilLog2(e)
  {
    hide Pow2, BitLength;
    var s := CeilLog2(e);
    var n := Pow2(a) * e;
    RoundupIsLeast(e, s);
    Pow2Add(a, s);
    ScaleMonotone(1, e, Pow2(a));
    ScaleMonotone(e, Pow2(s), Pow2(a));
    RoundupIsLeast(n, a + s);
    if s == 0 {
      assert e == 1;
      RoundupOfPow2(a);
    } else {
      RoundupIsLeast(e, s - 1);
      Pow2Add(a, s - 1);
      ScaleStrict(Pow2(s - 1), e, Pow2(a));
      RoundupIsLeast(n, a + s - 1);
    }
  }

  lemma ScaleMonotone(x: int, y: int, c: nat)
    requires x <= y
    ensures c * x <= c * y
  {
  }

  lemma ScaleStrict(x: int, y: int, c: nat)
    requires x < y && c > 0
    ensures c * x < c * y
  {
  }

  lemma RoundDown(n: nat, u: nat)
    requires u > 0
    ensures n - n % u <= n < n - n % u + u && (n - n % u) % u == 0
  {
    DivModUnique(n - n % u, u, n / u, 0);
  }

  /** Alignment is the least multiple of the unit that is not below the value. */
  lemma AlignIsCeiling(val: nat, p: nat)
    requires p <= 63 && val + Pow2(p) <= TWO_64
    ensures val <= Align(val, Pow2(p)) < val + Pow2(p)
    ensures Align(val, Pow2(p)) % Pow2(p) == 0
  {
    var w := 64;
    Pow2Constants();
    MaskDown(val + Pow2(p) - 1, p, w);
  }

  lemma MaskDown(n: nat, p: nat, w: nat)
    requires p <= w && n < Pow2(w) == TWO_64
    ensures Pow2(p) <= TWO_64
    ensures var r := And(n, TWO_64 - 1 - (Pow2(p) - 1)); n - Pow2(p) < r <= n && r % Pow2(p) == 0
  {
    AndHighMask(n, p, w);
    RoundDown(n, Pow2(p));
  }

  lemma AlignPow2(b: nat, p: nat, t: nat)
    requires b <= 31 && p <= 31 && t == if p > b then p else b
    ensures Pow2(b) + Pow2(p) <= TWO_64
    ensures Align(Pow2(b), Pow2(p)) == Pow2(t)
  {
    hide And, Pow2;
    assert Pow2(31) == 0x8000_0000 by {
      Pow2Constants();
    }
    Pow2Monotone(b, 31);
    Pow2Monotone(p, 31);
    AlignIsCeiling(Pow2(b), p);
    if p > b {
      Pow2Monotone(b, p);
      NextMultiple(Align(Pow2(b), Pow2(p)), Pow2(p), 0);
    } else {
      Pow2Add(p, b - p);
      MultipleWithin(Align(Pow2(b), Pow2(p)), Pow2(p), Pow2(b - p));
    }
  }

  lemma MultipleWithin(r: nat, u: nat, q: nat)
    requires u > 0 && r % u == 0
    requires u * q <= r < u * q + u
    ensures r == u * q
  {
    DivModUnique(r, u, q, r - u * q);
  }

  lemma NextMultiple(r: nat, u: nat, q: nat)
    requires u > 0 && r % u == 0
    requires u * q < r < u * q + 2 * u
    ensures r == u * q + u
  {
    if r < u * q + u {
      MultipleWithin(r, u, q);
    } else {
      assert u * (q + 1) == u * q + u;
      MultipleWithin(r, u, q + 1);
    }
  }

  /** Bytes of a queue: rounded depth times rounded entry size, but no less than a page. */
  function BufferBytes(maxCnt: nat, entrySize: nat, pageSize: nat): nat
    requires maxCnt >= 1 && entrySize >= 1
  {
    var least := RoundupPow2(maxCnt) * RoundupPow2(entrySize);
    if pageSize > least then pageSize else least
  }

  /** The submission or completion queue of the library; B is its basic block. */
  class JettyQueue<B(0)> {
    var qbuf: array?<B>
    var qbufAddr: nat       // address of the buffer
    var qbufSize: u32       // bytes
    var qbufCurr: nat       // address where the next block goes
    var pi: u32
    var ci: u32
    var baseblkShift: nat
    var baseblkCnt: u32
    var baseblkMask: u32
    var wrid: array?<u64>
    var sqeBbCnt: u32
    var maxSgeNum: u8
    var flushFlag: bool

    constructor Zeroed()
      ensures qbuf == null && wrid == null && pi == 0 && ci == 0 && !flushFlag
    {
      qbuf, qbufAddr, qbufSize, qbufCurr := null, 0, 0, 0;
      pi, ci := 0, 0;
      baseblkShift, baseblkCnt, baseblkMask := 0, 0, 0;
      wrid := null;
      sqeBbCnt, maxSgeNum := 0, 0;
      flushFlag := false;
    }

    /** Sizes fit together: a power-of-two number of power-of-two blocks fills the buffer. */
    ghost predicate Shaped(k: nat)
      reads this
    {
      && k <= 31 && baseblkShift <= 31
      && baseblkCnt == Pow2(k) && baseblkMask == baseblkCnt - 1
      && Pow2(k) * Pow2(baseblkShift) == qbufSize
      && qbuf != null && qbuf.Length == baseblkCnt
      && (wrid != null ==> wrid.Length == baseblkCnt)
    }

    /**
      Sizes and allocates the buffer. The two flags and the address stand for what the
      memory allocators answer; mapped memory is zero-filled.
     */
    method AllocQueueBuf(maxCnt: u32, entrySize: u32, pageSize: u32, wridEn: bool,
                         zero: B, wridOk: bool, bufOk: bool, addr: nat) returns (ret: int)
      requires wrid == null && maxCnt >= 1 && entrySize >= 1
      requires IsPow2(pageSize) && pageSize <= 0x8000_0000
      requires RoundupPow2(maxCnt) * entrySize <= 0x8000_0000
      modifies this
      ensures ret == (if (wridEn && !wridOk) || !bufOk then ENOMEM else 0)
      ensures pi == old(pi) && ci == old(ci) && flushFlag == old(flushFlag)
      ensures sqeBbCnt == old(sqeBbCnt) && maxSgeNum == old(maxSgeNum)
      ensures ret != 0 ==> wrid == null
      ensures ret == 0 ==>
                && Shaped(CeilLog2(baseblkCnt))
                && baseblkCnt >= maxCnt
                && baseblkShift == CeilLog2(entrySize)
                && qbufSize % pageSize == 0
                && qbufSize == BufferBytes(maxCnt, entrySize, pageSize)
                && fresh(qbuf) && (forall i :: 0 <= i < qbuf.Length ==> qbuf[i] == zero)
                && qbufAddr == addr == qbufCurr
                && (if wridEn then wrid != null && fresh(wrid) else wrid == null)
    {
      hide Pow2, And, Align, BitLength, CeilLog2, RoundupPow2, BufferBytes;
      ghost var p: nat :| pageSize == Pow2(p);
      PageExponent(p);
      ghost var t := GeometryFits(maxCnt, entrySize, p);
      SizingExponents(maxCnt, entrySize);
      var entryCnt: u32 := RoundupPow2(maxCnt);
      var bufShift := AlignPower2(RoundupPow2(entryCnt * entrySize));
      var shift := AlignPower2(RoundupPow2(entrySize));
      var size: u32 := Align(Pow2(bufShift), pageSize);
      var cnt: u32 := size / Pow2(shift);
      baseblkShift, qbufSize, baseblkCnt, baseblkMask := shift, size, cnt, cnt - 1;
      if wridEn {
        if !wridOk {
          wrid := null;
          return ENOMEM;
        }
        wrid := new u64[cnt];
      }
      if !bufOk {
        qbuf := null;
        if wridEn {
          wrid := null;
        }
        return ENOMEM;
      }
      qbuf := new B[cnt](_ => zero);
      qbufAddr := addr;
      qbufCurr := addr;
      return 0;
    }
  }

  /** Size exponent of a queue. */
  ghost function Exp<B(0)>(q: JettyQueue<B>): nat
    reads q
  {
    CeilLog2(q.baseblkCnt)
  }

  method AlignPower2(n: u32) returns (res: nat)
    requires n <= 0x8000_0000
    ensures res == CeilLog2(n) && res <= 31
  {
    res := 0;
    assert Pow2(31) == 0x8000_0000 by {
      Pow2Constants();
    }
    while Pow2(res) < n
      invariant res <= 31
      invariant res > 0 ==> Pow2(res - 1) < n
      decreases 31 - res
    {
      res := res + 1;
    }
    if n >= 1 {
      RoundupIsLeast(n, res);
      if res > 0 {
        RoundupIsLeast(n, res - 1);
      }
    }
  }

  /** The exponents that the sizing steps compute for the buffer and for one block. */
  lemma SizingExponents(maxCnt: u32, entrySize: u32)
    requires maxCnt >= 1 && entrySize >= 1
    requires RoundupPow2(maxCnt) * entrySize <= 0x8000_0000
    ensures 1 <= RoundupPow2(maxCnt) * entrySize && maxCnt <= RoundupPow2(maxCnt) <= 0x8000_0000
    ensures RoundupPow2(maxCnt) == Pow2(CeilLog2(maxCnt))
    ensures RoundupPow2(RoundupPow2(maxCnt) * entrySize) <= 0x8000_0000
    ensures RoundupPow2(entrySize) <= 0x8000_0000
    ensures CeilLog2(RoundupPow2(RoundupPow2(maxCnt) * entrySize)) == CeilLog2(maxCnt) + CeilLog2(entrySize) <= 31
    ensures CeilLog2(RoundupPow2(entrySize)) == CeilLog2(entrySize)
  {
    var a, s := CeilLog2(maxCnt), CeilLog2(entrySize);
    RoundupIsLeast(maxCnt, a);
    RoundupIsLeast(entrySize, s);
    ScaleMonotone(1, entrySize, Pow2(a));
    ScaleMonotone(1, Pow2(a), entrySize);
    RoundupScaled(a, entrySize);
    assert Pow2(31) == 0x8000_0000 by {
      Pow2Constants();
    }
    RoundupIsLeast(Pow2(a) * entrySize, 31);
    RoundupIsLeast(entrySize, 31);
    RoundupOfPow2(a + s);
    RoundupOfPow2(s);
  }

  lemma PageExponent(p: nat)
    requires Pow2(p) <= 0x8000_0000
    ensures p <= 31
  {
    Pow2Constants();
    if p > 31 {
      Pow2Monotone(31, p);
    }
  }

  /** A power-of-two buffer divides evenly into power-of-two blocks and pages. */
  lemma BlocksFillBuffer(t: nat, s: nat, p: nat)
    requires s <= t <= 31 && p <= t
    ensures Pow2(t) <= 0x8000_0000 && Pow2(t) / Pow2(s) == Pow2(t - s) <= 0x8000_0000
    ensures Pow2(t - s) * Pow2(s) == Pow2(t)
    ensures Pow2(t) % Pow2(p) == 0
    ensures CeilLog2(Pow2(t - s)) == t - s
  {
    hide Pow2, CeilLog2;
    assert Pow2(31) == 0x8000_0000 by {
      Pow2Constants();
    }
    Pow2Monotone(t, 31);
    Pow2Monotone(t - s, 31);
    Pow2Add(t - s, s);
    DivModUnique(Pow2(t), Pow2(s), Pow2(t - s), 0);
    Pow2Add(t - p, p);
    DivModUnique(Pow2(t), Pow2(p), Pow2(t - p), 0);
    RoundupOfPow2(t - s);
  }

  /** The larger of two powers of two, by their exponents. */
  lemma LeastBuffer(maxCnt: u32, entrySize: u32, p: nat)
    requires maxCnt >= 1 && entrySize >= 1
    ensures var e := CeilLog2(maxCnt) + CeilLog2(entrySize);
            && RoundupPow2(maxCnt) * RoundupPow2(entrySize) == Pow2(e)
            && (p > e ==> Pow2(p) > Pow2(e)) && (p <= e ==> Pow2(p) <= Pow2(e))
  {
    hide Pow2, CeilLog2, RoundupPow2;
    var a, s := CeilLog2(maxCnt), CeilLog2(entrySize);
    RoundupIsLeast(maxCnt, a);
    RoundupIsLeast(entrySize, s);
    Pow2Add(a, s);
    if p > a + s {
      Pow2Monotone(a + s, p);
    } else {
      Pow2Monotone(p, a + s);
    }
  }

  /**
    Ring geometry. For every depth, entry size and power-of-two page, the buffer holds a
    power-of-two number of blocks, no fewer than asked for, that fill it exactly.
   */
  lemma GeometryFits(maxCnt: u32, entrySize: u32, p: nat) returns (t: nat)
    requires maxCnt >= 1 && entrySize >= 1 && p <= 31
    requires RoundupPow2(maxCnt) * entrySize <= 0x8000_0000
    ensures t <= 31 && t >= CeilLog2(entrySize)
    ensures var b := CeilLog2(RoundupPow2(RoundupPow2(maxCnt) * entrySize));
            b <= 31 && Pow2(b) + Pow2(p) <= TWO_64 && Align(Pow2(b), Pow2(p)) == Pow2(t)
    ensures var cnt := Pow2(t - CeilLog2(entrySize));
            && Pow2(t) / Pow2(CeilLog2(entrySize)) == cnt
            && maxCnt <= cnt <= 0x8000_0000
            && cnt * Pow2(CeilLog2(entrySize)) == Pow2(t) <= 0x8000_0000
            && Pow2(t) % Pow2(p) == 0
            && CeilLog2(cnt) == t - CeilLog2(entrySize)
    ensures Pow2(t) == BufferBytes(maxCnt, entrySize, Pow2(p))
  {
    SizingExponents(maxCnt, entrySize);
    var a, s := CeilLog2(maxCnt), CeilLog2(entrySize);
    t := if p > a + s then p else a + s;
    AlignPow2(a + s, p, t);
    BlocksFillBuffer(t, s, p);
    Pow2Monotone(a, t - s);
    LeastBuffer(maxCnt, entrySize, p);
  }

  /** Advances a buffer pointer, folding it back at the end of the buffer. */
  function UpdatePtr(ptr: nat, inc: nat, qbuf: nat, qbufEnd: nat): int {
    if ptr + inc < qbufEnd then ptr + inc else qbuf + (ptr + inc - qbufEnd)
  }

  lemma FoldPtr(addr: nat, o: nat, n: nat, c: nat, u: nat)
    requires o < c && n <= c && u > 0
    ensures UpdatePtr(addr + o * u, n * u, addr, addr + c * u) ==
            addr + (if o + n < c then o + n else o + n - c) * u
  {
    Distribute(o, n, u);
    Distribute(o + n, c, u);
    if o + n < c {
      ScaleStrict(o + n, c, u);
    } else {
      ScaleMonotone(c, o + n, u);
    }
  }

  /** The running pointer and the index agree after an advance of at most one lap. */
  lemma PtrFollowsIndex(addr: nat, pos: nat, n: nat, k: nat, shift: nat)
    requires n <= Pow2(k)
    ensures UpdatePtr(addr + pos % Pow2(k) * Pow2(shift), n * Pow2(shift), addr, addr + Pow2(k) * Pow2(shift))
         == addr + (pos + n) % Pow2(k) * Pow2(shift)
  {
    SlotOffset(pos, n, Pow2(k));
    FoldPtr(addr, pos % Pow2(k), n, Pow2(k), Pow2(shift));
  }
}
