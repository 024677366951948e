/**
  Filling the four-block scratch buffer of a request field by field, as the posting code
  does, and the proof that the result is the printed form of the request.
 */
module SqeFill {
  import opened Bits
  import opened Common
  import opened Sqe

  const BUF_WORDS := 64

  /** Stores the low part of v into the bit-field of a word that starts at lo and has `size` values. */
  function Insert(w: u32, lo: nat, size: nat, v: nat): int
    requires lo > 0 && size > 0
  {
    w - Field(w, lo, size) * lo + v % size * lo
  }

  lemma InsertInto(w: u32, lo: nat, size: nat, v: nat, low: nat, high: nat)
    requires lo > 0 && size > 0 && low < lo && w == low + lo * size * high
    ensures Insert(w, lo, size, v) == low + lo * (v % size) + lo * size * high
  {
    hide Field;
    PickField(w, lo, size, low, 0, high);
  }

  /** The bit-fields of the first word, stored one after the other, add up to the printed word. */
  lemma Word0Build(wr: Wr, owner: bit, tokenEn: bit) returns (w1: u32, w2: u32, w3: u32, w4: u32, w5: u32, w6: u32)
    ensures w1 == Insert(0, 0x20_0000, 2, wr.complete)
    ensures w2 == Insert(w1, 0x8000_0000, 2, owner)
    ensures w3 == Insert(w2, 0x1_0000, 4, wr.placeOrder)
    ensures w4 == Insert(w3, 0x8_0000, 2, wr.fence)
    ensures w5 == Insert(w4, 0x4_0000, 2, wr.compOrder)
    ensures w6 == Insert(w5, 0x10_0000, 2, wr.solicited)
    ensures Insert(w6, 0x40_0000, 2, 0) == Word0(wr, owner, 0)
    ensures Insert(Word0(wr, owner, 0), 0x1000_0000, 2, tokenEn) == Word0(wr, owner, tokenEn)
  {
    hide Insert, Field;
    var p: nat, c: nat, f: nat, s: nat, e: nat := wr.placeOrder, wr.compOrder, wr.fence, wr.solicited, wr.complete;
    var t: nat, o: nat := tokenEn, owner;
    InsertInto(0, 0x20_0000, 2, e, 0, 0);
    w1 := 0x20_0000 * e;
    InsertInto(w1, 0x8000_0000, 2, o, w1, 0);
    w2 := w1 + 0x8000_0000 * o;
    InsertInto(w2, 0x1_0000, 4, p, 0, 8 * e + 0x2000 * o);
    w3 := w2 + 0x1_0000 * p;
    InsertInto(w3, 0x8_0000, 2, f, 0x1_0000 * p, 2 * e + 0x800 * o);
    w4 := w3 + 0x8_0000 * f;
    InsertInto(w4, 0x4_0000, 2, c, 0x1_0000 * p, f + 4 * e + 0x1000 * o);
    w5 := w4 + 0x4_0000 * c;
    InsertInto(w5, 0x10_0000, 2, s, 0x1_0000 * p + 0x4_0000 * c + 0x8_0000 * f, e + 0x400 * o);
    w6 := w5 + 0x10_0000 * s;
    InsertInto(w6, 0x40_0000, 2, 0, w6 - 0x8000_0000 * o, 0x100 * o);
    InsertInto(w6, 0x1000_0000, 2, t, w6 - 0x8000_0000 * o, 4 * o);
  }

  lemma Word12Build(hint: u8, opcode: u8, tpn: u32, sgeNum: nat)
    ensures Insert(0, 0x100, 0x100, opcode) == Word1(0, opcode) && Insert(Word1(0, opcode), 1, 0x100, hint) == Word1(hint, opcode)
    ensures Insert(0, 1, 0x100_0000, tpn) == Word2(tpn, 0)
    ensures Insert(Word2(tpn, 0), 0x100_0000, 0x100, sgeNum) == Word2(tpn, sgeNum)
  {
    hide Insert, Field;
    InsertInto(0, 0x100, 0x100, opcode, 0, 0);
    InsertInto(Word1(0, opcode), 1, 0x100, hint, 0, opcode);
    InsertInto(0, 1, 0x100_0000, tpn, 0, 0);
    InsertInto(Word2(tpn, 0), 0x100_0000, 0x100, sgeNum, tpn % 0x100_0000, 0);
  }

  /** Stores a bit-field of word i. */
  method Store(buf: array<u32>, i: nat, lo: nat, size: nat, v: nat)
    requires i < buf.Length && lo > 0 && size > 0 && 0 <= Insert(buf[i], lo, size, v) < TWO_32
    modifies buf
    ensures buf[..] == old(buf[..])[i := Insert(old(buf[i]), lo, size, v)]
  {
    buf[i] := Insert(buf[i], lo, size, v);
  }

  /** The control part before the operation fills in its own fields. */
  function Ctl(wr: Wr, opcode: u8, owner: bit): (h: seq<u32>)
    ensures |h| == 12
  {
    [Word0(wr, owner, 0), Word1(0, opcode), Word2(wr.tpn, 0), 0, wr.rmtEid, 0, 0, 0, 0, 0, 0, 0]
  }

  /** The fields that every operation has. */
  method SetCtl(buf: array<u32>, wr: Wr, opcode: u8, owner: bit)
    requires buf.Length == BUF_WORDS && buf[..] == Zeros(BUF_WORDS)
    modifies buf
    ensures buf[..] == Ctl(wr, opcode, owner) + Zeros(52)
  {
    hide Insert, Word0, Word1, Word2;
    ghost var w1, w2, w3, w4, w5, w6 := Word0Build(wr, owner, 0);
    Word12Build(0, opcode, wr.tpn, 0);
    Store(buf, 0, 0x20_0000, 2, wr.complete);
    Store(buf, 0, 0x8000_0000, 2, owner);
    Store(buf, 1, 0x100, 0x100, opcode);
    Store(buf, 2, 1, 0x100_0000, wr.tpn);
    Store(buf, 0, 0x1_0000, 4, wr.placeOrder);
    Store(buf, 0, 0x8_0000, 2, wr.fence);
    Store(buf, 0, 0x4_0000, 2, wr.compOrder);
    Store(buf, 0, 0x10_0000, 2, wr.solicited);
    Store(buf, 0, 0x40_0000, 2, 0);
    buf[4] := wr.rmtEid;
  }

  /** Remote token and address; the count of local entries and the hint are set by the callers. */
  method SetRemote(buf: array<u32>, wr: Wr, opcode: u8, owner: bit, hint: u8, sgeNum: nat, s: Sge)
    requires buf.Length == BUF_WORDS && buf[..12] == Ctl(wr, opcode, owner)
    modifies buf
    ensures buf[..12] == Header(wr, opcode, owner, hint, sgeNum, s)
    ensures buf[12..] == old(buf[12..])
  {
    hide Insert, Word0, Word1, Word2;
    ghost var w1, w2, w3, w4, w5, w6 := Word0Build(wr, owner, s.seg.tokenValid);
    Word12Build(hint, opcode, wr.tpn, sgeNum);
    ghost var h := buf[..12];
    assert buf[0] == h[0] && buf[1] == h[1] && buf[2] == h[2];
    assert Insert(0, 1, 0x10_0000, s.seg.tid) == s.seg.tid % 0x10_0000 by {
      InsertInto(0, 1, 0x10_0000, s.seg.tid, 0, 0);
    }
    assert buf[3] == h[3] == 0;
    Store(buf, 2, 0x100_0000, 0x100, sgeNum);
    Store(buf, 3, 1, 0x10_0000, s.seg.tid);
    Store(buf, 0, 0x1000_0000, 2, s.seg.tokenValid);
    buf[8] := s.seg.tokenValue;
    Store(buf, 1, 1, 0x100, hint);
    buf[10] := Lo(s.addr);
    buf[11] := Hi(s.addr);
    assert h[4] == wr.rmtEid && h[5] == h[6] == h[7] == h[9] == 0;
    assert forall i :: 4 <= i < 12 && i != 8 && i != 10 && i != 11 ==> buf[i] == h[i];
  }

  /** One local entry, four words. */
  method SetSge(buf: array<u32>, off: nat, s: Sge)
    requires off + 4 <= buf.Length
    modifies buf
    ensures buf[..] == old(buf[..])[..off] + SgeWords(s) + old(buf[..])[off + 4..]
  {
    buf[off + 2], buf[off + 3] := Lo(s.addr), Hi(s.addr);
    buf[off] := s.len;
    buf[off + 1] := s.seg.tid;
  }

  lemma {:induction false} FlatConcat(a: seq<Sge>, b: seq<Sge>)
    ensures FlatSges(a + b) == FlatSges(a) + FlatSges(b)
  {
    hide SgeWords;
    if a == [] {
      assert a + b == b;
    } else {
      assert (a + b)[1..] == a[1..] + b;
      FlatConcat(a[1..], b);
    }
  }

  lemma FlatOne(s: Sge)
    ensures FlatSges([s]) == SgeWords(s)
  {
    hide SgeWords;
    assert [s][1..] == [];
    assert FlatSges([s]) == SgeWords(s) + FlatSges([]);
  }

  lemma Splice(b0: seq<u32>, off: nat, f: seq<u32>, w: seq<u32>)
    requires |w| == 4 && off + |f| + 4 <= |b0|
    ensures var b := b0[..off] + f + b0[off + |f|..];
            b[..off + |f|] + w + b[off + |f| + 4..] == b0[..off] + (f + w) + b0[off + |f| + 4..]
  {
  }

  /** What one more entry of the list adds. */
  lemma KeptStep(sges: seq<Sge>, i: nat)
    requires i < |sges|
    ensures Kept(sges[..i + 1]) == if sges[i].len == 0 then Kept(sges[..i]) else Kept(sges[..i]) + [sges[i]]
    ensures FlatSges(Kept(sges[..i + 1])) == FlatSges(Kept(sges[..i])) + if sges[i].len == 0 then [] else SgeWords(sges[i])
  {
    hide SgeWords, Kept, FlatSges;
    assert sges[..i + 1] == sges[..i] + [sges[i]];
    KeptConcat(sges[..i], [sges[i]]);
    KeptOne(sges[i]);
    if sges[i].len == 0 {
      assert Kept(sges[..i]) + [] == Kept(sges[..i]);
    } else {
      FlatConcat(Kept(sges[..i]), [sges[i]]);
      FlatOne(sges[i]);
    }
  }

  lemma KeptFront(sges: seq<Sge>, i: nat)
    requires i <= |sges|
    ensures |Kept(sges[..i])| <= |Kept(sges)|
  {
    hide Kept;
    assert sges == sges[..i] + sges[i..];
    KeptConcat(sges[..i], sges[i..]);
  }

  /** One entry packed right after the words f already there. */
  method PackSge(buf: array<u32>, ghost b0: seq<u32>, ghost off: nat, ghost f: seq<u32>, at: nat, s: Sge)
    requires at == off + |f| && at + 4 <= buf.Length == |b0|
    requires buf[..] == b0[..off] + f + b0[at..]
    modifies buf
    ensures buf[..] == b0[..off] + (f + SgeWords(s)) + b0[at + 4..]
  {
    hide SgeWords;
    Splice(b0, off, f, SgeWords(s));
    SetSge(buf, at, s);
  }

  /** The entry list: zero-length entries are skipped, the others are packed from `off` on. */
  method FillMultiSge(buf: array<u32>, off: nat, sges: seq<Sge>) returns (sgeNum: nat)
    requires off + 4 * |Kept(sges)| <= buf.Length
    modifies buf
    ensures sgeNum == |Kept(sges)|
    ensures buf[..] == old(buf[..])[..off] + FlatSges(Kept(sges)) + old(buf[..])[off + 4 * sgeNum..]
  {
    hide SgeWords, Kept, FlatSges;
    ghost var b0 := buf[..];
    sgeNum := 0;
    var i := 0;
    KeptNone();
    assert b0 == b0[..off] + [] + b0[off..];
    while i < |sges|
      invariant i <= |sges| && sgeNum == |Kept(sges[..i])| && off + 4 * sgeNum <= buf.Length
      invariant buf[..] == b0[..off] + FlatSges(Kept(sges[..i])) + b0[off + 4 * sgeNum..]
    {
      KeptStep(sges, i);
      KeptFront(sges, i + 1);
      if sges[i].len != 0 {
        PackSge(buf, b0, off, FlatSges(Kept(sges[..i])), off + 4 * sgeNum, sges[i]);
        sgeNum := sgeNum + 1;
      }
      i := i + 1;
    }
    assert sges[..i] == sges;
  }

  lemma KeptNone()
    ensures Kept([]) == [] && FlatSges([]) == []
  {
  }

  /** A 64-bit value as two words. */
  method SetU64(buf: array<u32>, i: nat, x: u64)
    requires i + 2 <= buf.Length
    modifies buf
    ensures buf[..] == old(buf[..])[i := Lo(x)][i + 1 := Hi(x)]
  {
    buf[i] := Lo(x);
    buf[i + 1] := Hi(x);
  }

  /** An operand of 4, 8 or 16 bytes: the value itself, or what its address holds. */
  method CopyOperand(buf: array<u32>, off: nat, x: Operand, len: u32)
    requires (len == 4 || len == 8 || len == 16) && off + len / 4 <= buf.Length
    modifies buf
    ensures buf[..] == old(buf[..])[..off] + OperandWords(x, len) + old(buf[..])[off + len / 4..]
  {
    if len == 4 {
      buf[off] := Lo(x.data);
    } else if len == 8 {
      SetU64(buf, off, x.data);
    } else {
      forall i | 0 <= i < 4 {
        buf[off + i] := x.mem[i];
      }
    }
  }

  /** The tail of the scratch buffer, after the control part. */
  ghost predicate TailIs(buf: seq<u32>, tail: seq<u32>) {
    |tail| <= 52 && |buf| == BUF_WORDS && buf[12..] == tail + Zeros(52 - |tail|)
  }

  /** Words spliced into an empty tail at `off`. */
  lemma SplicedTail(c: seq<u32>, off: nat, f: seq<u32>)
    requires |c| == 12 <= off && off + |f| <= BUF_WORDS
    ensures var b0 := c + Zeros(52);
            var b := b0[..off] + f + b0[off + |f|..];
            b[..12] == c && b[12..] == Zeros(off - 12) + f + Zeros(BUF_WORDS - off - |f|)
  {
  }

  lemma EmptyTail(t: seq<u32>)
    requires |t| == 4
    ensures forall b: seq<u32> {:trigger TailIs(b, t)} :: |b| == BUF_WORDS && b[12..] == t + Zeros(48) ==> TailIs(b, t)
  {
  }

  lemma NoGap(f: seq<u32>)
    ensures Zeros(0) + f == f
  {
  }

  lemma GapTail(b: seq<u32>, f: seq<u32>)
    requires |b| == BUF_WORDS && |f| <= 44 && b[12..] == Zeros(8) + f + Zeros(44 - |f|)
    ensures b[12..20] == Zeros(8) && b[20..] == f + Zeros(44 - |f|)
  {
    assert b[12..20] == b[12..][..8] && b[20..] == b[12..][8..];
  }

  lemma FilledGap(b: seq<u32>, g: seq<u32>, f: seq<u32>)
    requires |b| == BUF_WORDS && |g| == 8 && |f| <= 44 && b[12..20] == g && b[20..] == f + Zeros(44 - |f|)
    ensures TailIs(b, g + f)
  {
    assert b[12..] == b[12..20] + b[20..];
  }

  /** A write, plain or with notification. */
  method FillWrite(buf: array<u32>, wr: Wr, owner: bit)
    requires WellFormed(wr) && (wr.opcode == WR_WRITE || wr.opcode == WR_NOTIFY)
    requires |Kept(wr.body.src)| <= (if wr.opcode == WR_NOTIFY then MAX_SGE_NOTIFY else MAX_SGE_BUFFER)
    requires buf.Length == BUF_WORDS && buf[..] == Ctl(wr, ParseOpcode(wr.opcode), owner) + Zeros(52)
    modifies buf
    ensures buf[..12] == Header(wr, ParseOpcode(wr.opcode), owner, wr.body.targetHint, SgeNum(wr), wr.body.dst[0])
    ensures TailIs(buf[..], Tail(wr))
  {
    hide Header, Ctl, FlatSges, Kept, Zeros, NotifyWords;
    var off := CtlLen(wr.opcode) / 4;
    var sgeNum := FillMultiSge(buf, off, wr.body.src);
    ghost var f := FlatSges(Kept(wr.body.src));
    SplicedTail(Ctl(wr, ParseOpcode(wr.opcode), owner), off, f);
    SetRemote(buf, wr, ParseOpcode(wr.opcode), owner, wr.body.targetHint, sgeNum, wr.body.dst[0]);
    assert buf[12..] == Zeros(off - 12) + f + Zeros(BUF_WORDS - off - |f|);
    if wr.opcode == WR_NOTIFY {
      GapTail(buf[..], f);
      FillNotify(buf, wr.body);
      FilledGap(buf[..], NotifyWords(wr.body), f);
    } else {
      NoGap(f);
    }
  }

  /** Notify token, address and data, at their fixed places. */
  method FillNotify(buf: array<u32>, b: Body)
    requires buf.Length == BUF_WORDS && b.Rw? && buf[12..20] == Zeros(8)
    modifies buf
    ensures buf[..12] == old(buf[..12]) && buf[20..] == old(buf[20..])
    ensures buf[12..20] == NotifyWords(b)
  {
    ghost var z := buf[12..20];
    assert buf[12] == z[0] && buf[18] == z[6] && buf[19] == z[7];
    Store(buf, 12, 1, 0x10_0000, b.notifyTokenId);
    buf[13] := b.notifyTokenValue;
    SetU64(buf, 14, b.notifyAddr);
    SetU64(buf, 16, b.notifyData);
  }

  /** Words spliced right behind the control part of an otherwise empty buffer. */
  lemma SplicedFirst(c: seq<u32>, f: seq<u32>)
    requires |c| == 12 && |f| <= 52
    ensures var b0 := c + Zeros(52);
            var b := b0[..12] + f + b0[12 + |f|..];
            b[..12] == c && TailIs(b, f)
  {
  }

  /** A tail does not depend on what the control part holds. */
  lemma SameTail(a: seq<u32>, b: seq<u32>, f: seq<u32>)
    requires TailIs(a, f) && |b| == |a| && b[12..] == a[12..]
    ensures TailIs(b, f)
  {
    hide Zeros;
  }

  method FillRead(buf: array<u32>, wr: Wr, owner: bit)
    requires WellFormed(wr) && wr.opcode == WR_READ && |wr.body.dst| <= MAX_SGE_READ
    requires buf.Length == BUF_WORDS && buf[..] == Ctl(wr, OP_READ, owner) + Zeros(52)
    modifies buf
    ensures buf[..12] == Header(wr, OP_READ, owner, 0, SgeNum(wr), wr.body.src[0])
    ensures TailIs(buf[..], Tail(wr))
  {
    hide Header, Ctl, FlatSges, Kept, Zeros, TailIs;
    var sgeNum := FillMultiSge(buf, 12, wr.body.dst);
    SplicedFirst(Ctl(wr, OP_READ, owner), FlatSges(Kept(wr.body.dst)));
    ghost var filled := buf[..];
    SetRemote(buf, wr, OP_READ, owner, 0, sgeNum, wr.body.src[0]);
    SameTail(filled, buf[..], FlatSges(Kept(wr.body.dst)));
  }

  /** Words spliced right after others into a tail. */
  lemma SplicedAfter(b: seq<u32>, t: seq<u32>, f: seq<u32>)
    requires |b| == BUF_WORDS && TailIs(b, t) && |t| + |f| <= 52
    ensures var b' := b[..12 + |t|] + f + b[12 + |t| + |f|..]; b'[..12] == b[..12] && TailIs(b', t + f)
  {
  }

  /** Compare-and-swap: the swap operand first, the compare operand right after it. */
  method FillCas(buf: array<u32>, wr: Wr, owner: bit) returns (ret: int)
    requires WellFormed(wr) && wr.opcode == WR_CAS
    requires buf.Length == BUF_WORDS && buf[..] == Ctl(wr, OP_CAS, owner) + Zeros(52)
    modifies buf
    ensures ret == if AtomicLenOk(wr.body.srcSge.len, WR_CAS) then 0 else EINVAL
    ensures ret == 0 ==>
              && buf[..12] == Header(wr, OP_CAS, owner, 0, 1, wr.body.dstSge)
              && TailIs(buf[..], Tail(wr))
  {
    hide Header, Ctl, SgeWords, OperandWords, Zeros, TailIs;
    EmptyTail(SgeWords(wr.body.srcSge));
    var s := wr.body.srcSge;
    if !AtomicLenOk(s.len, wr.opcode) {
      return EINVAL;
    }
    SetSge(buf, 12, s);
    SplicedTail(Ctl(wr, OP_CAS, owner), 12, SgeWords(s));
    NoGap(SgeWords(s));
    SetRemote(buf, wr, OP_CAS, owner, 0, 1, wr.body.dstSge);
    SplicedAfter(buf[..], SgeWords(s), OperandWords(wr.body.swap, s.len));
    CopyOperand(buf, 16, wr.body.swap, s.len);
    SplicedAfter(buf[..], SgeWords(s) + OperandWords(wr.body.swap, s.len), OperandWords(wr.body.cmp, s.len));
    CopyOperand(buf, 16 + s.len / 4, wr.body.cmp, s.len);
    return 0;
  }

  /** Fetch-and-add. */
  method FillFaa(buf: array<u32>, wr: Wr, owner: bit) returns (ret: int)
    requires WellFormed(wr) && wr.opcode == WR_FADD
    requires buf.Length == BUF_WORDS && buf[..] == Ctl(wr, OP_FAA, owner) + Zeros(52)
    modifies buf
    ensures ret == if AtomicLenOk(wr.body.srcSge.len, WR_FADD) then 0 else EINVAL
    ensures ret == 0 ==>
              && buf[..12] == Header(wr, OP_FAA, owner, 0, 1, wr.body.dstSge)
              && TailIs(buf[..], Tail(wr))
  {
    hide Header, Ctl, SgeWords, OperandWords, Zeros, TailIs;
    EmptyTail(SgeWords(wr.body.srcSge));
    var s := wr.body.srcSge;
    if !AtomicLenOk(s.len, wr.opcode) {
      return EINVAL;
    }
    SetSge(buf, 12, s);
    SplicedTail(Ctl(wr, OP_FAA, owner), 12, SgeWords(s));
    NoGap(SgeWords(s));
    SetRemote(buf, wr, OP_FAA, owner, 0, 1, wr.body.dstSge);
    SplicedAfter(buf[..], SgeWords(s), OperandWords(Operand(wr.body.operand, [0, 0, 0, 0]), s.len));
    CopyOperand(buf, 16, Operand(wr.body.operand, [0, 0, 0, 0]), s.len);
    return 0;
  }
}
