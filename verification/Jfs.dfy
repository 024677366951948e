/**
  The send queue object: creation, posting of lists and the two ways of announcing them, as
  they update the ring, the contexts, the pointer and the index in place.
 */
module Jfs {
  import opened Bits
  import opened Common
  import opened Sqe
  import opened SqeStream
  import opened SqeFill
  import opened SendQueue
  import opened SendQueueProps

  type SendQ = JettyQueue<Wqebb>

  /** A created send queue whose pointer agrees with its producer index. */
  ghost predicate Ok(q: SendQ)
    reads q
  {
    && q.Shaped(Exp(q)) && 6 <= Exp(q) && q.baseblkShift == BLOCK_SHIFT && q.wrid != null
    && q.qbufCurr == q.qbufAddr + q.pi % Pow2(Exp(q)) * Pow2(BLOCK_SHIFT)
  }

  ghost function Value(q: SendQ): Sq
    reads q, q.qbuf, q.wrid
    requires Ok(q)
  {
    Sq(Exp(q), q.qbuf[..], q.wrid[..], q.pi, q.ci, q.qbufAddr, q.qbufCurr, q.maxSgeNum)
  }

  /* Printing a request into the scratch buffer. */

  lemma WholeBuffer(b: seq<u32>, wr: Wr, owner: bit)
    requires WellFormed(wr) && ParseOpcode(wr.opcode) != OP_INVALID && |b| == BUF_WORDS
    requires IsAtomic(wr.opcode) ==> AtomicLenOk(wr.body.srcSge.len, wr.opcode)
    requires b[..12] == Header(wr, ParseOpcode(wr.opcode), owner, Hint(wr), SgeNum(wr), RemoteSge(wr)) && TailIs(b, Tail(wr))
    ensures |Words(wr, owner)| <= BUF_WORDS && b == Words(wr, owner) + Zeros(BUF_WORDS - |Words(wr, owner)|)
  {
    hide Header, Tail, Zeros;
    assert b == b[..12] + b[12..];
  }

  /** Prints the request; an atomic request of an unsupported length is refused. */
  method SetSqe(buf: array<u32>, q: SendQ, wr: Wr, opcode: u8) returns (ret: int)
    requires Ok(q) && Postable(wr, q.maxSgeNum) && opcode == ParseOpcode(wr.opcode) != OP_INVALID && !BadSgeNum(opcode, q.maxSgeNum, wr)
    requires buf.Length == BUF_WORDS && buf[..] == Zeros(BUF_WORDS)
    modifies buf
    ensures ret == if Accepted(wr, q.maxSgeNum) then 0 else EINVAL
    ensures ret == 0 ==> var w := Words(wr, OwnerBit(q.pi, Exp(q)));
                         |w| <= BUF_WORDS && buf[..] == w + Zeros(BUF_WORDS - |w|)
  {
    hide Header, Ctl, TailIs, Tail, Words, And, Pow2, Zeros, BitLength, Kept;
    var owner: bit := if And(q.pi, q.baseblkCnt) == 0 then 1 else 0;
    SetCtl(buf, wr, opcode, owner);
    ret := 0;
    if wr.opcode == WR_WRITE || wr.opcode == WR_NOTIFY {
      WriteFits(wr, q.maxSgeNum);
      FillWrite(buf, wr, owner);
    } else if wr.opcode == WR_READ {
      FillRead(buf, wr, owner);
    } else if wr.opcode == WR_CAS {
      ret := FillCas(buf, wr, owner);
    } else {
      ret := FillFaa(buf, wr, owner);
    }
    if ret == 0 {
      WholeBuffer(buf[..], wr, owner);
    }
  }

  /** Block j of the printed request is block j of the scratch buffer. */
  lemma BufferBlocks(b: seq<u32>, sq: Sq, wr: Wr)
    requires SqSized(sq) && Postable(wr, sq.maxSge) && Accepted(wr, sq.maxSge) && |b| == BUF_WORDS
    requires var w := Words(wr, OwnerBit(sq.pi, sq.k)); |w| <= BUF_WORDS && b == w + Zeros(BUF_WORDS - |w|)
    ensures Printable(ReqFor(sq, wr))
    ensures var r := ReqFor(sq, wr);
            |BlocksOf(r)| <= MAX_SQE_BB_NUM && forall j :: 0 <= j < |BlocksOf(r)| ==> BlocksOf(r)[j] == b[16 * j..16 * j + 16]
  {
    AcceptedIsPrintable(sq, wr);
    var r := ReqFor(sq, wr);
    BlockBound(r);
    PrintableFits(r);
    var w := Words(wr, r.owner);
    ChunksOfPadded(w, |BlocksOf(r)|);
    PatchNothing(Blocks(wr, r.owner)[0], wr, r.owner) by {
      FirstWord(wr, r.owner);
    }
  }

  lemma FirstWord(wr: Wr, owner: bit)
    requires WellFormed(wr) && ParseOpcode(wr.opcode) != OP_INVALID && SgeNum(wr) < 0x100
    requires IsAtomic(wr.opcode) ==> AtomicLenOk(wr.body.srcSge.len, wr.opcode)
    requires 1 <= BlockCount(wr) && |Words(wr, owner)| <= 16 * BlockCount(wr)
    ensures Blocks(wr, owner)[0][0] == Word0(wr, owner, RemoteSge(wr).seg.tokenValid)
  {
    hide Tail, BlockCount;
  }

  lemma PatchNothing(b: Wqebb, wr: Wr, owner: bit)
    requires exists t: bit :: b[0] == Word0(wr, owner, t)
    ensures Patched(b, 0) == b
  {
    var t: bit :| b[0] == Word0(wr, owner, t);
    PatchedWord0(wr, owner, t, 0);
    assert b[0 := b[0]] == b;
  }

  lemma ChunksOfPadded(w: seq<u32>, n: nat)
    requires |w| <= 16 * n <= BUF_WORDS
    ensures forall j :: 0 <= j < n ==>
              (w + Zeros(16 * n - |w|))[16 * j..16 * j + 16] == (w + Zeros(BUF_WORDS - |w|))[16 * j..16 * j + 16]
  {
  }

  /* Posting. */

  lemma ShapeFacts(q: SendQ)
    requires Ok(q)
    ensures SqSized(Value(q)) && MAX_SQE_BB_NUM <= q.qbuf.Length == q.wrid.Length == Pow2(Exp(q))
    ensures (q.qbufCurr - q.qbufAddr) / Pow2(BLOCK_SHIFT) == q.pi % Pow2(Exp(q))
  {
    hide Pow2;
    RoomForFour(Value(q));
    DivModUnique(q.pi % Pow2(Exp(q)) * Pow2(BLOCK_SHIFT), Pow2(BLOCK_SHIFT), q.pi % Pow2(Exp(q)), 0);
  }

  /** Copies `count` blocks of the scratch buffer, from block `from` on, to block `at` of the ring. */
  method CopyBlocks(ring: array<Wqebb>, at: nat, count: nat, buf: array<u32>, from: nat, ghost b: seq<Wqebb>)
    requires at + count <= ring.Length && from + count <= |b| && 16 * |b| <= buf.Length
    requires forall j :: 0 <= j < |b| ==> b[j] == buf[16 * j..16 * j + 16]
    modifies ring
    ensures ring[..] == old(ring[..])[..at] + b[from..from + count] + old(ring[..])[at + count..]
  {
    forall j | 0 <= j < count {
      ring[at + j] := buf[16 * (from + j)..16 * (from + j) + 16];
    }
  }

  /** A copy that ends before the ring end is an overlay. */
  lemma StraightCopy<T>(ring: seq<T>, s: nat, b: seq<T>)
    requires s < |ring| && s + |b| <= |ring|
    ensures ring[..s] + b[0..|b|] + ring[s + |b|..] == Overlay(ring, s, b)
  {
  }

  /** The two parts of a split copy make one overlay. */
  lemma SplitCopy<T>(ring: seq<T>, s: nat, b: seq<T>, tail: nat)
    requires s < |ring| < s + |b| && |b| <= |ring| && tail == |ring| - s
    ensures var r := ring[..s] + b[0..tail] + ring[s + tail..];
            r[..0] + b[tail..|b|] + r[|b| - tail..] == Overlay(ring, s, b)
  {
  }

  /** Up to the ring end from block `at`, and the rest from the start of the ring. */
  method CopyAround(ring: array<Wqebb>, at: nat, tail: nat, head: nat, buf: array<u32>, ghost b: seq<Wqebb>)
    requires at < ring.Length && tail + head == |b| <= ring.Length && 16 * |b| <= buf.Length
    requires tail == if ring.Length - at > |b| then |b| else ring.Length - at
    requires forall j :: 0 <= j < |b| ==> b[j] == buf[16 * j..16 * j + 16]
    modifies ring
    ensures ring[..] == Overlay(old(ring[..]), at, b)
  {
    hide Overlay;
    if head == 0 {
      StraightCopy(ring[..], at, b);
    } else {
      SplitCopy(ring[..], at, b, tail);
    }
    CopyBlocks(ring, at, tail, buf, 0, b);
    if head > 0 {
      CopyBlocks(ring, 0, head, buf, tail, b);
    }
  }

  /** Room test, then the copy, split at the ring end. */
  method CopyToSq(q: SendQ, n: u32, buf: array<u32>, ghost b: seq<Wqebb>) returns (ret: int)
    requires Ok(q) && buf.Length == BUF_WORDS && 1 <= n <= MAX_SQE_BB_NUM
    requires |b| == n && forall j :: 0 <= j < n ==> b[j] == buf[16 * j..16 * j + 16]
    modifies q.qbuf
    ensures Ok(q) && n <= |old(q.qbuf[..])| && q.pi % Pow2(Exp(q)) < |old(q.qbuf[..])|
    ensures ret == if Overflows(q.pi, q.ci, n, Exp(q)) then ENOMEM else 0
    ensures q.qbuf[..] == if ret == 0 then Overlay(old(q.qbuf[..]), q.pi % Pow2(Exp(q)), b) else old(q.qbuf[..])
  {
    hide Pow2, And, BitLength, Overlay;
    ShapeFacts(q);
    MaskIsMod(q.pi, Exp(q));
    var remain := q.baseblkCnt - And(q.pi, q.baseblkMask);
    if Add32(Sub32(q.pi, q.ci), n) > q.baseblkCnt {
      return ENOMEM;
    }
    var tail := if remain > n then n else remain;
    CopyAround(q.qbuf, (q.qbufCurr - q.qbufAddr) / Pow2(BLOCK_SHIFT), tail, n - tail, buf, b);
    return 0;
  }

  /** One context per block, around the ring. */
  method FillWrid(q: SendQ, n: u32, ctx: u64)
    requires Ok(q) && n <= q.wrid.Length && q.wrid.Length == Pow2(Exp(q))
    modifies q.wrid
    ensures Ok(q) && q.pi % Pow2(Exp(q)) < |old(q.wrid[..])|
    ensures q.wrid[..] == Overlay(old(q.wrid[..]), q.pi % Pow2(Exp(q)), Repeat(ctx, n))
  {
    hide Pow2, And, BitLength;
    ghost var w0, s := q.wrid[..], q.pi % Pow2(Exp(q));
    var i := 0;
    while i < n
      invariant i <= n && q.wrid[..] == Overlay(w0, s, Repeat(ctx, i))
    {
      ModAdd(q.pi + i, 0, TWO_32);
      MaskIsMod(Add32(q.pi, i), Exp(q));
      TruncSlot(q.pi + i, Exp(q));
      SlotOffset(q.pi, i, Pow2(Exp(q)));
      q.wrid[And(Add32(q.pi, i), q.baseblkMask)] := ctx;
      i := i + 1;
    }
  }

  /** The pointer stays in step with the truncated index. */
  lemma PointerStep(addr: nat, pi: u32, n: nat, k: nat)
    requires k <= 31 && n <= Pow2(k)
    ensures UpdatePtr(addr + pi % Pow2(k) * Pow2(BLOCK_SHIFT), n * Pow2(BLOCK_SHIFT), addr, addr + Pow2(k) * Pow2(BLOCK_SHIFT))
         == addr + Add32(pi, n) % Pow2(k) * Pow2(BLOCK_SHIFT)
  {
    hide Pow2, UpdatePtr;
    PtrFollowsIndex(addr, pi, n, k, BLOCK_SHIFT);
    TruncSlot(pi + n, k);
  }

  /** One request: checks, print, room test and copy, pointer, contexts, index. */
  method PostOneWr(q: SendQ, wr: Wr, enabled: bool) returns (ret: int, at: nat, flag: bool)
    requires Ok(q) && Postable(wr, q.maxSgeNum)
    modifies q`qbufCurr, q`pi, q.qbuf, q.wrid
    ensures Ok(q) && SqSized(old(Value(q)))
    ensures flag == (enabled && Accepted(wr, old(q.maxSgeNum)) && FitsOneBlock(wr))
    ensures match PostOne(old(Value(q)), wr)
            case Refused(code) => ret == code != 0 && Value(q) == old(Value(q))
            case Taken(sq, _, start) => ret == 0 && Value(q) == sq && at == start
  {
    hide Pow2, And, BitLength, Words, Overlay, UpdatePtr, Printable, BlocksOf, Overflows, BlockCount, SgeNum, FitsOneBlock;
    ShapeFacts(q);
    WantsDirectExactly(wr, q.maxSgeNum, enabled);
    ghost var v := Value(q);
    flag := false;
    at := q.qbufCurr;
    var opcode := ParseOpcode(wr.opcode);
    if opcode == OP_INVALID {
      return EINVAL, at, flag;
    }
    if BadSgeNum(opcode, q.maxSgeNum, wr) {
      return EINVAL, at, flag;
    }
    var tmp := new u32[BUF_WORDS](_ => 0);
    assert tmp[..] == Zeros(BUF_WORDS);
    ret := SetSqe(tmp, q, wr, opcode);
    if ret != 0 {
      return;
    }
    RequestFits(wr, OwnerBit(q.pi, Exp(q)), q.maxSgeNum);
    var n := BlockCount(wr);
    flag := n == 1 && enabled;
    if n > MAX_SQE_BB_NUM {
      n := MAX_SQE_BB_NUM;
    }
    BufferBlocks(tmp[..], v, wr);
    ghost var b := BlocksOf(ReqFor(v, wr));
    ret := CopyToSq(q, n, tmp, b);
    if ret != 0 {
      return;
    }
    at := Commit(q, n, wr.userCtx);
  }

  lemma AdvanceFacts(q: SendQ, n: u32)
    requires Ok(q) && n <= MAX_SQE_BB_NUM
    ensures var size := Pow2(Exp(q)) * Pow2(BLOCK_SHIFT);
            && q.qbufSize == size
            && UpdatePtr(q.qbufCurr, n * Pow2(BLOCK_SHIFT), q.qbufAddr, q.qbufAddr + size)
               == q.qbufAddr + Add32(q.pi, n) % Pow2(Exp(q)) * Pow2(BLOCK_SHIFT)
  {
    hide Pow2, CeilLog2, UpdatePtr, Add32;
    RoomForFour(Value(q)) by {
      SizedValue(q);
    }
    PointerStep(q.qbufAddr, q.pi, n, Exp(q));
  }

  /** Pointer and index move past n blocks and keep agreeing. */
  method Advance(q: SendQ, n: u32)
    requires Ok(q) && n <= MAX_SQE_BB_NUM
    modifies q`qbufCurr, q`pi
    ensures Ok(q) && q.pi == Add32(old(q.pi), n)
    ensures q.qbufCurr == UpdatePtr(old(q.qbufCurr), n * Pow2(BLOCK_SHIFT), q.qbufAddr,
                                    q.qbufAddr + Pow2(Exp(q)) * Pow2(BLOCK_SHIFT))
  {
    hide Pow2, CeilLog2, UpdatePtr, Add32;
    AdvanceFacts(q, n);
    q.qbufCurr := UpdatePtr(q.qbufCurr, n * Pow2(q.baseblkShift), q.qbufAddr, q.qbufAddr + q.qbufSize);
    q.pi := Add32(q.pi, n);
  }

  /** After the copy: pointer, contexts, index. */
  method Commit(q: SendQ, n: u32, ctx: u64) returns (at: nat)
    requires Ok(q) && n <= MAX_SQE_BB_NUM
    modifies q`qbufCurr, q`pi, q.wrid
    ensures Ok(q) && at == old(q.qbufCurr)
    ensures n <= |old(Value(q)).wrid| && q.wrid == old(q.wrid)
    ensures old(q.pi % Pow2(Exp(q))) < |old(Value(q)).wrid|
    ensures var v := old(Value(q));
            Value(q) == v.(wrid := Overlay(v.wrid, v.pi % Pow2(v.k), Repeat(ctx, n)), pi := Add32(v.pi, n),
                           curr := UpdatePtr(v.curr, n * Pow2(BLOCK_SHIFT), v.addr, v.addr + Pow2(v.k) * Pow2(BLOCK_SHIFT)))
  {
    hide Pow2, And, CeilLog2, Overlay, UpdatePtr, Repeat;
    ShapeFacts(q);
    FillWrid(q, n, ctx);
    at := q.qbufCurr;
    Advance(q, n);
  }

  /* Posting a list and announcing it. */

  /** A refusal ends the list. */
  lemma {:induction false} PrefixStops(sq: Sq, wrs: seq<Wr>, i: nat, n: nat, enabled: bool)
    requires SqSized(sq) && i <= n <= |wrs| && AllPostable(wrs, sq.maxSge)
    requires PostPrefix(sq, wrs, i, enabled).ret != 0
    ensures PostPrefix(sq, wrs, n, enabled) == PostPrefix(sq, wrs, i, enabled)
    decreases n
  {
    hide PostPrefix, PostOne, SqSized, WellFormed, Postable, WantsDirect;
    if i < n {
      PrefixStops(sq, wrs, i, n - 1, enabled);
      PrefixStopped(sq, wrs, n, enabled);
    }
  }

  lemma SizedValue(q: SendQ)
    requires Ok(q)
    ensures SqSized(Value(q)) && Value(q).addr == q.qbufAddr && Value(q).maxSge == q.maxSgeNum
  {
  }

  lemma SlotOfCurr(q: SendQ)
    requires Ok(q)
    ensures 0 <= SlotOf(Value(q), q.qbufCurr) < |Value(q).ring| && Value(q).curr == q.qbufCurr
  {
    hide Pow2;
    ShapeFacts(q);
  }

  lemma TakenAt(sq: Sq, wr: Wr)
    requires SqSized(sq) && Postable(wr, sq.maxSge)
    ensures var t := PostOne(sq, wr);
            t.Taken? ==> t.at == sq.curr && t.sq.addr == sq.addr && |t.sq.ring| == |sq.ring|
  {
    hide Overlay, UpdatePtr, Pow2, BlocksOf, Printable;
  }

  /** Where the posting loop stands after some requests of the list, none refused. */
  ghost predicate LoopAt(q: SendQ, l: Listed, count: nat, at: nat, flag: bool)
    reads q, q.qbuf, q.wrid
  {
    && Ok(q) && SqSized(Value(q)) && l.sq == Value(q) && l.count == count && l.flag == flag
    && (count > 0 ==> l.at == at && 0 <= SlotOf(Value(q), at) < |Value(q).ring|)
  }

  /** One round of the posting loop. */
  method PostNext(q: SendQ, wrs: seq<Wr>, i: nat, at: nat, flag: bool, enabled: bool, ghost v: Sq)
    returns (ret: int, at': nat, flag': bool)
    requires SqSized(v) && i < |wrs| && AllPostable(wrs, v.maxSge)
    requires LoopAt(q, PostPrefix(v, wrs, i, enabled), i, at, flag) && PostPrefix(v, wrs, i, enabled).ret == 0
    modifies q`qbufCurr, q`pi, q.qbuf, q.wrid
    ensures PostPrefix(v, wrs, i + 1, enabled).ret == ret
    ensures LoopAt(q, PostPrefix(v, wrs, i + 1, enabled), if ret == 0 then i + 1 else i, at', flag')
  {
    hide Pow2, PostOne, WellFormed, WantsDirect, FitsOneBlock, PostPrefix, Value, SqSized, Ok;
    PrefixNext(v, wrs, i, enabled);
    SlotOfCurr(q);
    TakenAt(Value(q), wrs[i]);
    SizedValue(q);
    WantsDirectExactly(wrs[i], q.maxSgeNum, enabled);
    var start, wants;
    ret, start, wants := PostOneWr(q, wrs[i], enabled);
    SizedValue(q);
    flag' := flag || wants;
    at' := if ret == 0 then start else at;
  }

  /** The posting loop: stops at the first refused request and says which one it was. */
  method PostAll(q: SendQ, wrs: seq<Wr>, enabled: bool) returns (ret: int, count: nat, at: nat, flag: bool)
    requires Ok(q) && AllPostable(wrs, q.maxSgeNum)
    modifies q`qbufCurr, q`pi, q.qbuf, q.wrid
    ensures SqSized(old(Value(q)))
    ensures LoopAt(q, PostPrefix(old(Value(q)), wrs, |wrs|, enabled), count, at, flag)
    ensures ret == PostPrefix(old(Value(q)), wrs, |wrs|, enabled).ret
    ensures (ret == 0 ==> count == |wrs|) && (ret != 0 ==> count < |wrs|)
  {
    hide Pow2, WellFormed, Postable, PostPrefix, SqSized, Ok, Value, SlotOf;
    SizedValue(q);
    ghost var v := Value(q);
    ret, count, at, flag := 0, 0, q.qbufAddr, false;
    NothingPosted(v, wrs, enabled);
    while count < |wrs|
      invariant count <= |wrs| && ret == 0
      invariant LoopAt(q, PostPrefix(v, wrs, count, enabled), count, at, flag) && PostPrefix(v, wrs, count, enabled).ret == 0
    {
      ret, at, flag := PostNext(q, wrs, count, at, flag, enabled, v);
      if ret != 0 {
        PrefixStops(v, wrs, count + 1, |wrs|, enabled);
        return;
      }
      count := count + 1;
    }
  }

  /** Announces what was posted: by the block itself where that is chosen, else by the doorbell. */
  method Tell(q: SendQ, count: nat, flag: bool, at: nat) returns (notice: Notice)
    requires Ok(q) && (count > 0 ==> 0 <= SlotOf(Value(q), at) < |Value(q).ring|)
    modifies q.qbuf
    ensures Ok(q)
    ensures count == 0 ==> notice == Quiet && Value(q) == old(Value(q))
    ensures count > 0 ==> (Value(q), notice) == Announce(old(Value(q)), count, flag, at)
  {
    hide Pow2, Patched;
    if count == 0 {
      return Quiet;
    }
    if count == 1 && flag && Sub32(q.pi, q.ci) == 1 {
      var i := (at - q.qbufAddr) / Pow2(BLOCK_SHIFT);
      q.qbuf[i] := Patched(q.qbuf[i], q.pi);
      return Direct(q.qbuf[i]);
    }
    return Doorbell(q.pi);
  }

  /**
    Posting a list, c being the true consumer position and reqs the requests accepted before.
    On success or failure the queue is that of the requests before the first refused one; `bad`
    names that one; anything accepted has been announced. The log grows by exactly the accepted
    requests and the ring invariant holds for it.
   */
  method PostSqWr(q: SendQ, wrs: seq<Wr>, enabled: bool, ghost c: nat, ghost reqs: seq<Req>)
    returns (ret: int, bad: Option<nat>, notice: Notice, ghost log: seq<Req>)
    requires Ok(q) && SqInv(Value(q), c, reqs) && AllPostable(wrs, q.maxSgeNum)
    modifies q`qbufCurr, q`pi, q.qbuf, q.wrid
    ensures Ok(q) && SqSized(old(Value(q)))
    ensures var l := PostPrefix(old(Value(q)), wrs, |wrs|, enabled);
            && ret == l.ret && bad == (if ret != 0 then Some(l.count) else None)
            && (l.count == 0 ==> notice == Quiet && Value(q) == l.sq)
            && (l.count > 0 ==> 0 <= SlotOf(l.sq, l.at) < |l.sq.ring|
                                && (Value(q), notice) == Announce(l.sq, l.count, l.flag, l.at))
    ensures SqInv(Value(q), c, log)
    ensures |reqs| <= |log| <= |reqs| + |wrs|
    ensures forall i :: 0 <= i < |log| ==> log[i].wr == if i < |reqs| then reqs[i].wr else wrs[i - |reqs|]
    ensures ret == 0 <==> |log| == |reqs| + |wrs|
    ensures ret != 0 ==> bad == Some(|log| - |reqs|)
    ensures AllPrintable(log)
    ensures notice.Quiet? <==> |log| == |reqs|
    ensures var seen := |log| - |reqs| + if ret != 0 then 1 else 0;
            && seen <= |wrs|
            && (notice.Direct? <==>
                && enabled && |log| == |reqs| + 1 && |Print(log)| == c + 1
                && SomeFitsOneBlock(wrs, seen, old(q.maxSgeNum)))
    ensures notice.Doorbell? ==> notice.pi == |Print(log)| % TWO_32
    ensures notice.Direct? ==> notice.block[0] % 0x1_0000 == |Print(log)| % 0x1_0000
  {
    hide Pow2, PostPrefix, Value, Announce, SlotOf, Postable, SqInv, SqSized, SomeFitsOneBlock, Print, Printable, Ok;
    SizedValue(q);
    PrefixFacts(Value(q), c, reqs, wrs, |wrs|, enabled);
    log := OutcomeTells(Value(q), c, reqs, wrs, enabled);
    var count, at, flag;
    ret, count, at, flag := PostAll(q, wrs, enabled);
    notice := Tell(q, count, flag, at);
    bad := if ret != 0 then Some(count) else None;
  }

  /* Creation. */

  lemma BbCntIs(maxSge: u8)
    ensures var n := CalWqebbNum(NOTIFY_CTL_LEN, maxSge, 64);
            1 <= n && SqeBbCnt(maxSge) == (if n > MAX_SQE_BB_NUM then MAX_SQE_BB_NUM else n)
  {
    BlockCountIsCeiling(NOTIFY_CTL_LEN, maxSge);
  }

  /** Blocks of the largest request: a notify with maxSge entries, but never more than four. */
  lemma BbCntInNumbers(maxSge: u8)
    ensures SqeBbCnt(maxSge) == if maxSge > 11 then 4 else (80 + 16 * maxSge + 63) / 64
  {
    BlockCountIsCeiling(NOTIFY_CTL_LEN, maxSge);
  }

  /** No sizing product overflows 32 bits. */
  lemma DepthFits(depth: u32, bb: u32)
    requires depth >= 1 && 1 <= bb && bb * depth <= 0x200_0000
    ensures 1 <= bb * depth <= RoundupPow2(bb * depth) <= 0x200_0000
    ensures RoundupPow2(RoundupPow2(bb * depth)) * 64 <= 0x8000_0000
    ensures IsPow2(4096)
  {
    hide RoundupPow2, CeilLog2, Pow2;
    ScaleMonotone(1, depth, bb);
    Pow2Constants();
    Pow2Small();
    assert Pow2(25) == 0x200_0000 by {
      Pow2Add(22, 3);
      assert Pow2(3) == 8 by {
        PowThree();
      }
    }
    RoundupIsLeast(bb * depth, 25);
    RoundupOfPow2(CeilLog2(bb * depth));
  }

  /** Exactly when the product of rounded block count and block size fits 32 bits. */
  lemma SizingFitsExactly(n: nat)
    requires n >= 1
    ensures RoundupPow2(n) * 64 < TWO_32 <==> n <= 0x200_0000
  {
    hide RoundupPow2, CeilLog2, Pow2;
    assert Pow2(25) == 0x200_0000 by {
      Pow2Constants();
      Pow2Add(22, 3);
      PowThree();
    }
    RoundupIsLeast(n, 25);
    if CeilLog2(n) > 25 {
      Pow2Monotone(25, CeilLog2(n));
    }
  }

  lemma PowThree()
    ensures Pow2(3) == 8
  {
  }

  lemma BlockExponent()
    ensures CeilLog2(64) == BLOCK_SHIFT && Pow2(BLOCK_SHIFT) == 64
  {
    Pow2Small();
    RoundupOfPow2(6);
  }

  /** A whole number of pages holds at least 64 blocks. */
  lemma RingExponent(k: nat, size: u32)
    requires Pow2(k) * Pow2(BLOCK_SHIFT) == size && size % 4096 == 0
    ensures k >= 6
  {
    hide Pow2;
    Pow2Small();
    if k < 6 {
      Pow2Monotone(k, 6);
    }
  }

  lemma Created(q: SendQ)
    requires q.Shaped(CeilLog2(q.baseblkCnt)) && q.wrid != null && q.pi == 0
    requires q.baseblkShift == CeilLog2(64) && q.qbufSize % 4096 == 0 && q.qbufCurr == q.qbufAddr
    ensures Ok(q)
  {
    hide Pow2, BitLength, CeilLog2;
    BlockExponent();
    RingExponent(CeilLog2(q.baseblkCnt), q.qbufSize);
    DivModUnique(0, Pow2(Exp(q)), 0, 0);
  }

  lemma FreshQueue(q: SendQ)
    requires Ok(q) && q.pi == q.ci == 0
    ensures SqInv(Value(q), 0, [])
  {
    hide Pow2;
    PrintEmpty();
    RoomForFour(Value(q));
    DivModUnique(0, Pow2(Exp(q)), 0, 0);
  }

  /** Blocks needed for `depth` requests of the largest size. */
  function BlocksNeeded(depth: u32, maxSge: u8): nat {
    SqeBbCnt(maxSge) * depth
  }

  lemma NeedFits(depth: u32, maxSge: u8)
    requires depth >= 1 && BlocksNeeded(depth, maxSge) <= 0x200_0000
    ensures 1 <= BlocksNeeded(depth, maxSge) <= RoundupPow2(BlocksNeeded(depth, maxSge)) <= 0x200_0000
    ensures RoundupPow2(RoundupPow2(BlocksNeeded(depth, maxSge))) * 64 <= 0x8000_0000
    ensures IsPow2(4096)
  {
    hide RoundupPow2;
    BbCntIs(maxSge);
    DepthFits(depth, SqeBbCnt(maxSge));
  }

  /** Rounding a rounded count changes nothing. */
  lemma RoundedTwice(n: nat)
    requires n >= 1
    ensures RoundupPow2(n) >= 1 && BufferBytes(RoundupPow2(n), 64, 4096) == BufferBytes(n, 64, 4096)
  {
    hide Pow2, CeilLog2;
    RoundupIsLeast(n, 0);
    RoundupOfPow2(CeilLog2(n));
  }

  method InitSq(q: SendQ, maxSge: u8)
    modifies q
    ensures q.pi == q.ci == 0 && !q.flushFlag && q.maxSgeNum == maxSge && q.sqeBbCnt == SqeBbCnt(maxSge)
    ensures q.wrid == old(q.wrid) && q.qbuf == old(q.qbuf)
  {
    q.flushFlag := false;
    q.pi := 0;
    q.ci := 0;
    var bb := CalWqebbNum(NOTIFY_CTL_LEN, maxSge, 64);
    if bb > MAX_SQE_BB_NUM {
      bb := MAX_SQE_BB_NUM;
    }
    BbCntIs(maxSge);
    q.sqeBbCnt := bb;
    q.maxSgeNum := maxSge;
  }

  /**
    Creates the ring for `depth` requests of at most maxSge entries. The flags and the address
    are the answers of the allocators.
   */
  method CreateSq(q: SendQ, depth: u32, maxSge: u8, wridOk: bool, bufOk: bool, addr: nat) returns (ret: int)
    requires depth >= 1 && BlocksNeeded(depth, maxSge) <= 0x200_0000
    requires q.wrid == null
    modifies q
    ensures ret == if wridOk && bufOk then 0 else EINVAL
    ensures ret == 0 ==>
              && Ok(q) && fresh(q.qbuf) && fresh(q.wrid)
              && SqInv(Value(q), 0, []) && q.maxSgeNum == maxSge && !q.flushFlag
              && q.sqeBbCnt == (if maxSge > 11 then 4 else (80 + 16 * maxSge + 63) / 64)
              && BlocksNeeded(depth, maxSge) <= Pow2(Exp(q))
              && BlocksNeeded(depth, maxSge) >= 1 && q.qbufSize == BufferBytes(BlocksNeeded(depth, maxSge), 64, 4096)
  {
    hide Pow2, BitLength, RoundupPow2, CeilLog2, SqeBbCnt, SqInv, Ok, IsPow2, BufferBytes;
    InitSq(q, maxSge);
    BbCntInNumbers(maxSge);
    NeedFits(depth, maxSge);
    var want := RoundupPow2(q.sqeBbCnt * depth);
    var r := q.AllocQueueBuf(want, 64, 4096, true, seq(16, _ => 0), wridOk, bufOk, addr);
    if r != 0 {
      return EINVAL;
    }
    Created(q);
    FreshQueue(q);
    RoundedTwice(BlocksNeeded(depth, maxSge));
    return 0;
  }
}
