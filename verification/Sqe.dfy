/**
  The wire form of a work request: how a request is printed into 64-byte blocks, a parser
  that a device can run on those blocks, and the proof that the parser undoes the printer.
 */
module Sqe {
  import opened Bits
  import opened Common

  type order = x: int | 0 <= x < 4
  type Wqebb = s: seq<u32> | |s| == 16 witness seq(16, _ => 0)
  type Bytes16 = s: seq<u32> | |s| == 4 witness [0, 0, 0, 0]

  const MAX_SQE_BB_NUM := 4
  const MAX_SGE_READ := 6
  const MAX_SGE_NOTIFY := 11
  const MAX_SGE_BUFFER := 13
  const NORMAL_CTL_LEN := 48
  const NOTIFY_CTL_LEN := 80

  /* Request opcodes. */
  const WR_WRITE: u32 := 0x00
  const WR_NOTIFY: u32 := 0x02
  const WR_READ: u32 := 0x10
  const WR_CAS: u32 := 0x20
  const WR_FADD: u32 := 0x22

  /* Opcodes on the wire. */
  const OP_WRITE: u8 := 0x03
  const OP_NOTIFY: u8 := 0x05
  const OP_READ: u8 := 0x06
  const OP_CAS: u8 := 0x07
  const OP_FAA: u8 := 0x0b
  const OP_INVALID: u8 := 0x12

  datatype Seg = Seg(tid: u32, tokenValue: u32, tokenValid: bit)
  datatype Sge = Sge(addr: u64, len: u32, seg: Seg)

  /** An atomic operand: the 64-bit value, or the address of 16 bytes and what is stored there. */
  datatype Operand = Operand(data: u64, mem: Bytes16)

  datatype Body =
    | Rw(src: seq<Sge>, dst: seq<Sge>, targetHint: u8, notifyData: u64, notifyAddr: u64,
         notifyTokenId: u32, notifyTokenValue: u32)
    | Cas(dstSge: Sge, srcSge: Sge, cmp: Operand, swap: Operand)
    | Faa(dstSge: Sge, srcSge: Sge, operand: u64)

  datatype Wr = Wr(opcode: u32, placeOrder: order, compOrder: bit, fence: bit, solicited: bit, complete: bit,
                   userCtx: u64, tpn: u32, rmtEid: u32, body: Body)

  /** What the source takes for granted: the union member fits the opcode, and the lists it dereferences are there. */
  predicate WellFormed(wr: Wr) {
    && ((wr.opcode == WR_WRITE || wr.opcode == WR_NOTIFY) ==> wr.body.Rw? && 1 <= |wr.body.dst| && |wr.body.src| < TWO_32)
    && (wr.opcode == WR_READ ==> wr.body.Rw? && 1 <= |wr.body.src| && |wr.body.dst| < TWO_32)
    && (wr.opcode == WR_CAS ==> wr.body.Cas?)
    && (wr.opcode == WR_FADD ==> wr.body.Faa?)
  }

  function ParseOpcode(opcode: u32): u8 {
    if opcode == WR_READ then OP_READ
    else if opcode == WR_WRITE then OP_WRITE
    else if opcode == WR_NOTIFY then OP_NOTIFY
    else if opcode == WR_CAS then OP_CAS
    else if opcode == WR_FADD then OP_FAA
    else OP_INVALID
  }

  /** True when the request has too many entries. */
  predicate BadSgeNum(opcode: u8, maxSge: u8, wr: Wr)
    requires WellFormed(wr) && opcode == ParseOpcode(wr.opcode) != OP_INVALID
  {
    if opcode == OP_CAS || opcode == OP_FAA then maxSge == 0
    else if opcode == OP_READ then |wr.body.dst| > MAX_SGE_READ || |wr.body.dst| > maxSge
    else if opcode == OP_NOTIFY then |wr.body.src| > MAX_SGE_NOTIFY || |wr.body.src| > maxSge
    else |wr.body.src| > maxSge
  }

  predicate AtomicLenOk(len: u32, opcode: u32) {
    if opcode == WR_CAS then len == 4 || len == 8 || len == 16
    else if opcode == WR_FADD then len == 4 || len == 8
    else false
  }

  /** A request that passes every check that does not depend on room in the queue. */
  predicate Accepted(wr: Wr, maxSge: u8)
    requires WellFormed(wr)
  {
    && ParseOpcode(wr.opcode) != OP_INVALID
    && !BadSgeNum(ParseOpcode(wr.opcode), maxSge, wr)
    && (wr.opcode == WR_CAS || wr.opcode == WR_FADD ==> AtomicLenOk(wr.body.srcSge.len, wr.opcode))
  }

  function CtlLen(opcode: u32): u32 {
    if opcode == WR_NOTIFY then NOTIFY_CTL_LEN else NORMAL_CTL_LEN
  }

  /** Block count in 32-bit arithmetic; a count of zero entries wraps on purpose. */
  function CalWqebbNum(ctlLen: u32, sgeNum: u32, blockSize: u32): u32
    requires 2 <= blockSize
  {
    Add32(ctlLen, Sub32(sgeNum, 1) * 16) / blockSize + 1
  }

  /** The wrapping formula is the exact ceiling, also for zero entries. */
  lemma BlockCountIsCeiling(ctlLen: u32, sgeNum: u32)
    requires (ctlLen == NORMAL_CTL_LEN || ctlLen == NOTIFY_CTL_LEN) && sgeNum < 0x800_0000
    ensures CalWqebbNum(ctlLen, sgeNum, 64) == (ctlLen + 16 * sgeNum + 63) / 64
  {
    hide Add32, Sub32;
    WrappedLength(ctlLen, sgeNum);
    CeilingOfSixteens(ctlLen / 16 + sgeNum);
  }

  /** Subtracting an entry and adding its length wraps back to the true length. */
  lemma WrappedLength(ctlLen: u32, sgeNum: u32)
    requires 16 <= ctlLen <= 80 && sgeNum < 0x800_0000
    ensures Add32(ctlLen, Sub32(sgeNum, 1) * 16) == ctlLen + 16 * sgeNum - 16
  {
    if sgeNum == 0 {
      assert Sub32(0, 1) == TWO_32 - 1;
    } else {
      assert Sub32(sgeNum, 1) == sgeNum - 1;
    }
  }

  lemma CeilingOfSixteens(n: nat)
    requires n > 0
    ensures (16 * n - 16) / 64 + 1 == (16 * n + 63) / 64
  {
    var q, r := (n - 1) / 4, (n - 1) % 4;
    assert 16 * n - 16 == 64 * q + 16 * r;
  }

  /** Zero-length entries are skipped. */
  function Kept(sges: seq<Sge>): (r: seq<Sge>)
    ensures |r| <= |sges|
  {
    if sges == [] then [] else (if sges[0].len == 0 then [] else [sges[0]]) + Kept(sges[1..])
  }

  /** The local entries of a read, write or notify request. */
  function LocalSges(wr: Wr): seq<Sge>
    requires WellFormed(wr) && ParseOpcode(wr.opcode) != OP_INVALID
  {
    if wr.opcode == WR_READ then wr.body.dst
    else if wr.body.Rw? then wr.body.src
    else [wr.body.srcSge]
  }

  /** The entry that describes remote memory. */
  function RemoteSge(wr: Wr): Sge
    requires WellFormed(wr) && ParseOpcode(wr.opcode) != OP_INVALID
  {
    if wr.opcode == WR_READ then wr.body.src[0]
    else if wr.body.Rw? then wr.body.dst[0]
    else wr.body.dstSge
  }

  predicate IsAtomic(opcode: u32) {
    opcode == WR_CAS || opcode == WR_FADD
  }

  /** Entries the header announces. */
  function SgeNum(wr: Wr): nat
    requires WellFormed(wr) && ParseOpcode(wr.opcode) != OP_INVALID
  {
    if IsAtomic(wr.opcode) then 1 else |Kept(LocalSges(wr))|
  }

  /** Blocks a request takes, as the poster counts them. */
  function BlockCount(wr: Wr): u32
    requires WellFormed(wr) && ParseOpcode(wr.opcode) != OP_INVALID
    requires SgeNum(wr) < 0x100
  {
    CalWqebbNum(CtlLen(wr.opcode), if IsAtomic(wr.opcode) then 2 else SgeNum(wr), 64)
  }

  /* Printing. */

  function Lo(x: u64): u32 { x % TWO_32 }

  function Hi(x: u64): u32 { x / TWO_32 }

  function Word0(wr: Wr, owner: bit, tokenEn: bit): u32 {
    wr.placeOrder * 0x1_0000 + wr.compOrder * 0x4_0000 + wr.fence * 0x8_0000 + wr.solicited * 0x10_0000 +
    wr.complete * 0x20_0000 + tokenEn * 0x1000_0000 + owner * 0x8000_0000
  }

  function Word1(hint: u8, opcode: u8): u32 {
    hint + opcode * 0x100
  }

  function Word2(tpn: u32, sgeNum: nat): u32 {
    tpn % 0x100_0000 + sgeNum % 0x100 * 0x100_0000
  }

  /** The twelve words of the control part. */
  function Header(wr: Wr, opcode: u8, owner: bit, hint: u8, sgeNum: nat, remote: Sge): (h: seq<u32>)
    ensures |h| == 12
  {
    [Word0(wr, owner, remote.seg.tokenValid), Word1(hint, opcode), Word2(wr.tpn, sgeNum),
     remote.seg.tid % 0x10_0000, wr.rmtEid, 0, 0, 0, remote.seg.tokenValue, 0, Lo(remote.addr), Hi(remote.addr)]
  }

  function SgeWords(s: Sge): (w: seq<u32>)
    ensures |w| == 4
  {
    [s.len, s.seg.tid, Lo(s.addr), Hi(s.addr)]
  }

  function FlatSges(sges: seq<Sge>): (w: seq<u32>)
    ensures |w| == 4 * |sges|
  {
    if sges == [] then [] else SgeWords(sges[0]) + FlatSges(sges[1..])
  }

  function OperandWords(x: Operand, len: u32): (w: seq<u32>)
    requires len == 4 || len == 8 || len == 16
    ensures |w| == len / 4
  {
    if len == 4 then [Lo(x.data)] else if len == 8 then [Lo(x.data), Hi(x.data)] else x.mem
  }

  function NotifyWords(b: Body): (w: seq<u32>)
    requires b.Rw?
    ensures |w| == 8
  {
    [b.notifyTokenId % 0x10_0000, b.notifyTokenValue, Lo(b.notifyAddr), Hi(b.notifyAddr),
     Lo(b.notifyData), Hi(b.notifyData), 0, 0]
  }

  /** Everything after the control part. */
  function Tail(wr: Wr): seq<u32>
    requires WellFormed(wr) && ParseOpcode(wr.opcode) != OP_INVALID
    requires IsAtomic(wr.opcode) ==> AtomicLenOk(wr.body.srcSge.len, wr.opcode)
  {
    if wr.opcode == WR_CAS then
      SgeWords(wr.body.srcSge) + OperandWords(wr.body.swap, wr.body.srcSge.len)
      + OperandWords(wr.body.cmp, wr.body.srcSge.len)
    else if wr.opcode == WR_FADD then
      SgeWords(wr.body.srcSge) + OperandWords(Operand(wr.body.operand, [0, 0, 0, 0]), wr.body.srcSge.len)
    else if wr.opcode == WR_NOTIFY then NotifyWords(wr.body) + FlatSges(Kept(LocalSges(wr)))
    else FlatSges(Kept(LocalSges(wr)))
  }

  function Hint(wr: Wr): u8
  {
    if (wr.opcode == WR_WRITE || wr.opcode == WR_NOTIFY) && wr.body.Rw? then wr.body.targetHint else 0
  }

  function Words(wr: Wr, owner: bit): seq<u32>
    requires WellFormed(wr) && ParseOpcode(wr.opcode) != OP_INVALID
    requires IsAtomic(wr.opcode) ==> AtomicLenOk(wr.body.srcSge.len, wr.opcode)
  {
    Header(wr, ParseOpcode(wr.opcode), owner, Hint(wr), SgeNum(wr), RemoteSge(wr)) + Tail(wr)
  }

  function Zeros(n: nat): (z: seq<u32>)
    ensures |z| == n
  {
    seq(n, _ => 0)
  }

  /**
    What a poster may hand to a queue of at most maxSge entries per request: if the checks let the
    request through, it must fit the four-block buffer, which only plain writes can exceed.
   */
  predicate Postable(wr: Wr, maxSge: u8) {
    WellFormed(wr) && (Accepted(wr, maxSge) ==> SgeNum(wr) <= MAX_SGE_BUFFER)
  }

  /** In queues of at most 13 entries per request every request is. */
  lemma SmallQueuesFit(wr: Wr, maxSge: u8)
    requires WellFormed(wr) && maxSge <= MAX_SGE_BUFFER
    ensures Postable(wr, maxSge)
  {
    hide Kept;
  }

  lemma WriteFits(wr: Wr, maxSge: u8)
    requires Postable(wr, maxSge) && (wr.opcode == WR_WRITE || wr.opcode == WR_NOTIFY)
    requires !BadSgeNum(ParseOpcode(wr.opcode), maxSge, wr)
    ensures |Kept(wr.body.src)| <= (if wr.opcode == WR_NOTIFY then MAX_SGE_NOTIFY else MAX_SGE_BUFFER)
  {
    hide Kept;
  }

  /** Which requests the checks let through, opcode by opcode. */
  lemma AcceptedExactly(wr: Wr, maxSge: u8)
    requires WellFormed(wr)
    ensures Accepted(wr, maxSge) <==>
            || (wr.opcode == 0x00 && |wr.body.src| <= maxSge)
            || (wr.opcode == 0x02 && |wr.body.src| <= 11 && |wr.body.src| <= maxSge)
            || (wr.opcode == 0x10 && |wr.body.dst| <= 6 && |wr.body.dst| <= maxSge)
            || (wr.opcode == 0x20 && maxSge > 0 && wr.body.srcSge.len in {4, 8, 16})
            || (wr.opcode == 0x22 && maxSge > 0 && wr.body.srcSge.len in {4, 8})
  {
  }

  /** Exactly when an accepted request fits the buffer of four blocks. */
  lemma BufferHoldsExactly(wr: Wr, owner: bit, maxSge: u8)
    requires WellFormed(wr) && Accepted(wr, maxSge)
    ensures |Words(wr, owner)| <= 16 * MAX_SQE_BB_NUM <==> SgeNum(wr) <= MAX_SGE_BUFFER
    ensures SgeNum(wr) > MAX_SGE_BUFFER ==> wr.opcode == WR_WRITE
  {
    hide Kept, FlatSges, Header;
  }

  /** Every accepted request fits its blocks, and its blocks fit the four-block buffer. */
  lemma RequestFits(wr: Wr, owner: bit, maxSge: u8)
    requires Postable(wr, maxSge) && Accepted(wr, maxSge)
    ensures SgeNum(wr) <= MAX_SGE_BUFFER
    ensures 1 <= BlockCount(wr) <= MAX_SQE_BB_NUM
    ensures BlockCount(wr) <= CalWqebbNum(NOTIFY_CTL_LEN, maxSge, 64)
    ensures BlockCount(wr) == (CtlLen(wr.opcode) + 16 * (SgeNum(wr) + if IsAtomic(wr.opcode) then 1 else 0) + 63) / 64
    ensures |Words(wr, owner)| <= 16 * BlockCount(wr)
  {
    hide Kept, FlatSges, Header;
    var n := if IsAtomic(wr.opcode) then 2 else SgeNum(wr);
    BlockCountIsCeiling(CtlLen(wr.opcode), n);
    BlockCountIsCeiling(NOTIFY_CTL_LEN, maxSge);
  }

  /** The blocks that go into the ring. */
  function Blocks(wr: Wr, owner: bit): (b: seq<Wqebb>)
    requires WellFormed(wr) && ParseOpcode(wr.opcode) != OP_INVALID
    requires IsAtomic(wr.opcode) ==> AtomicLenOk(wr.body.srcSge.len, wr.opcode)
    requires SgeNum(wr) < 0x100
    requires |Words(wr, owner)| <= 16 * BlockCount(wr)
    ensures |b| == BlockCount(wr)
  {
    var buf := Words(wr, owner) + Zeros(16 * BlockCount(wr) - |Words(wr, owner)|);
    seq(BlockCount(wr), j requires 0 <= j < BlockCount(wr) => buf[16 * j..16 * j + 16])
  }

  /* The device side. */

  datatype Local = Local(len: u32, tid: u32, va: u64)

  datatype Hdr = Hdr(placeOrder: nat, compOrder: nat, fence: nat, solicited: nat, complete: nat, owner: nat,
                     hint: nat, tpn: nat, rmtEid: u32)

  datatype Remote = Remote(tid: nat, tokenEn: nat, tokenValue: u32, addr: u64)

  datatype WireOp =
    | WriteOp(locals: seq<Local>)
    | NotifyOp(locals: seq<Local>, tokenId: nat, tokenValue: u32, addr: u64, data: u64)
    | ReadOp(locals: seq<Local>)
    | CasOp(local: Local, swap: seq<u32>, cmp: seq<u32>)
    | FaaOp(local: Local, operand: seq<u32>)

  /** A request as the device understands it. */
  datatype Wire = Wire(hdr: Hdr, remote: Remote, op: WireOp)

  function Field(w: nat, lo: nat, size: nat): nat
    requires lo > 0 && size > 0
  {
    w / lo % size
  }

  function Join(lo: u32, hi: u32): u64 {
    hi * TWO_32 + lo
  }

  function ReadSges(w: seq<u32>, off: nat, n: nat): seq<Local>
    requires off + 4 * n <= |w|
    decreases n
  {
    if n == 0 then []
    else [Local(w[off], w[off + 1], Join(w[off + 2], w[off + 3]))] + ReadSges(w, off + 4, n - 1)
  }

  function OpcodeField(w: seq<u32>): nat
    requires |w| >= 12
  {
    Field(w[1], 0x100, 0x100)
  }

  function SgeNumField(w: seq<u32>): nat
    requires |w| >= 12
  {
    Field(w[2], 0x100_0000, 0x100)
  }

  /** Blocks of a request, worked out from its first block alone. */
  function WireBlocks(w: seq<u32>): nat
    requires |w| >= 12
  {
    var ctl := if OpcodeField(w) == 0x05 then 80 else 48;
    var extra := if OpcodeField(w) == 0x07 || OpcodeField(w) == 0x0b then 1 else 0;
    (ctl + 16 * (SgeNumField(w) + extra) + 63) / 64
  }

  function DecodeHdr(w: seq<u32>): Hdr
    requires |w| >= 12
  {
    Hdr(Field(w[0], 0x1_0000, 4), Field(w[0], 0x4_0000, 2), Field(w[0], 0x8_0000, 2), Field(w[0], 0x10_0000, 2),
        Field(w[0], 0x20_0000, 2), Field(w[0], 0x8000_0000, 2), Field(w[1], 1, 0x100), Field(w[2], 1, 0x100_0000), w[4])
  }

  function DecodeRemote(w: seq<u32>): Remote
    requires |w| >= 12
  {
    Remote(Field(w[3], 1, 0x10_0000), Field(w[0], 0x1000_0000, 2), w[8], Join(w[10], w[11]))
  }

  /** The words of one request, with as many of them as its block count says. */
  function DecodeOp(w: seq<u32>): Option<WireOp>
    requires |w| >= 12 && |w| == 16 * WireBlocks(w)
  {
    var op, n := OpcodeField(w), SgeNumField(w);
    if op == 0x03 then Some(WriteOp(ReadSges(w, 12, n)))
    else if op == 0x06 then Some(ReadOp(ReadSges(w, 12, n)))
    else if op == 0x05 then
      Some(NotifyOp(ReadSges(w, 20, n), Field(w[12], 1, 0x10_0000), w[13], Join(w[14], w[15]), Join(w[16], w[17])))
    else if op == 0x07 && n == 1 && (w[12] == 4 || w[12] == 8 || w[12] == 16) then
      var k := w[12] / 4;
      Some(CasOp(ReadSges(w, 12, 1)[0], w[16..16 + k], w[16 + k..16 + 2 * k]))
    else if op == 0x0b && n == 1 && (w[12] == 4 || w[12] == 8) then
      Some(FaaOp(ReadSges(w, 12, 1)[0], w[16..16 + w[12] / 4]))
    else None
  }

  function Decode(w: seq<u32>): Option<Wire>
    requires |w| >= 12 && |w| == 16 * WireBlocks(w)
  {
    match DecodeOp(w)
    case None => None
    case Some(op) => Some(Wire(DecodeHdr(w), DecodeRemote(w), op))
  }

  function Flatten(blocks: seq<Wqebb>): (w: seq<u32>)
    ensures |w| == 16 * |blocks|
  {
    seq(16 * |blocks|, i requires 0 <= i < 16 * |blocks| => blocks[i / 16][i % 16])
  }

  /** The device walks over a stretch of blocks, one request after the other. */
  function ParseAll(blocks: seq<Wqebb>): Option<seq<Wire>>
    decreases |blocks|
  {
    if blocks == [] then Some([])
    else
      var n := WireBlocks(blocks[0]);
      if n == 0 || n > |blocks| || WireBlocks(Flatten(blocks[..n])) != n then None
      else
        match (Decode(Flatten(blocks[..n])), ParseAll(blocks[n..]))
        case (Some(x), Some(xs)) => Some([x] + xs)
        case _ => None
  }

  /* What a request means to the device. */

  function LocalOf(s: Sge): Local {
    Local(s.len, s.seg.tid, s.addr)
  }

  function LocalsOf(sges: seq<Sge>): seq<Local> {
    seq(|sges|, i requires 0 <= i < |sges| => LocalOf(sges[i]))
  }

  /** The entries of a list that move any data, from the last one back. */
  function Transfers(sges: seq<Sge>): seq<Local>
    decreases |sges|
  {
    if sges == [] then []
    else
      var last := sges[|sges| - 1];
      Transfers(sges[..|sges| - 1]) + if last.len > 0 then [Local(last.len, last.seg.tid, last.addr)] else []
  }

  /** The remote side: the destination of a write or an atomic, the source of a read. */
  function RemoteTarget(wr: Wr): Remote
    requires WellFormed(wr) && ParseOpcode(wr.opcode) != OP_INVALID
  {
    var s := match wr.body
             case Rw(src, dst, _, _, _, _, _) => if wr.opcode == 0x10 then src[0] else dst[0]
             case Cas(dst, _, _, _) => dst
             case Faa(dst, _, _) => dst;
    Remote(s.seg.tid % 0x10_0000, s.seg.tokenValid, s.seg.tokenValue, s.addr)
  }

  /** An operand of len bytes: the low words of the value, or the sixteen bytes in memory. */
  function OperandOf(data: u64, mem: Bytes16, len: u32): seq<u32>
    requires len == 4 || len == 8 || len == 16
  {
    seq(len / 4, i requires 0 <= i < len / 4 =>
      if len == 16 then mem[i] else if i == 0 then data % 0x1_0000_0000 else data / 0x1_0000_0000)
  }

  /**
    The meaning of a request, from its own fields: entries that move no data gone, tokens and
    path number cut to the widths of their fields, operands of the length of the local entry,
    swap before compare.
   */
  function Meaning(wr: Wr, owner: bit): Wire
    requires WellFormed(wr) && ParseOpcode(wr.opcode) != OP_INVALID
    requires IsAtomic(wr.opcode) ==> AtomicLenOk(wr.body.srcSge.len, wr.opcode)
  {
    Wire(
      Hdr(wr.placeOrder, wr.compOrder, wr.fence, wr.solicited, wr.complete, owner,
          if wr.opcode == 0x00 || wr.opcode == 0x02 then wr.body.targetHint else 0,
          wr.tpn % 0x100_0000, wr.rmtEid),
      RemoteTarget(wr),
      match wr.body
      case Rw(src, dst, _, data, addr, tokenId, tokenValue) =>
        if wr.opcode == 0x00 then WriteOp(Transfers(src))
        else if wr.opcode == 0x10 then ReadOp(Transfers(dst))
        else NotifyOp(Transfers(src), tokenId % 0x10_0000, tokenValue, addr, data)
      case Cas(_, src, cmp, swap) =>
        CasOp(Local(src.len, src.seg.tid, src.addr), OperandOf(swap.data, swap.mem, src.len),
              OperandOf(cmp.data, cmp.mem, src.len))
      case Faa(_, src, operand) =>
        FaaOp(Local(src.len, src.seg.tid, src.addr), OperandOf(operand, [0, 0, 0, 0], src.len)))
  }

  /* The printer's own choices agree with these. */

  lemma {:induction false} KeptConcat(a: seq<Sge>, b: seq<Sge>)
    ensures Kept(a + b) == Kept(a) + Kept(b)
  {
    if a == [] {
      assert a + b == b;
    } else {
      assert (a + b)[1..] == a[1..] + b;
      KeptConcat(a[1..], b);
    }
  }

  lemma KeptOne(s: Sge)
    ensures Kept([s]) == if s.len == 0 then [] else [s]
  {
    assert [s][1..] == [];
    assert Kept([s]) == (if s.len == 0 then [] else [s]) + Kept([]);
  }

  lemma LocalsConcat(a: seq<Sge>, b: seq<Sge>)
    ensures LocalsOf(a + b) == LocalsOf(a) + LocalsOf(b)
  {
  }

  lemma {:induction false} TransfersAreKept(sges: seq<Sge>)
    ensures Transfers(sges) == LocalsOf(Kept(sges))
    decreases |sges|
  {
    if sges != [] {
      hide Kept, LocalsOf;
      var front, last := sges[..|sges| - 1], sges[|sges| - 1];
      TransfersAreKept(front);
      assert sges == front + [last];
      KeptConcat(front, [last]);
      KeptOne(last);
      LocalsConcat(Kept(front), Kept([last]));
      FewLocals(last);
    }
  }

  lemma FewLocals(s: Sge)
    ensures LocalsOf([]) == [] && LocalsOf([s]) == [Local(s.len, s.seg.tid, s.addr)]
  {
  }

  lemma OperandIs(x: Operand, len: u32)
    requires len == 4 || len == 8 || len == 16
    ensures OperandWords(x, len) == OperandOf(x.data, x.mem, len)
  {
  }

  lemma RemoteIs(wr: Wr)
    requires WellFormed(wr) && ParseOpcode(wr.opcode) != OP_INVALID
    ensures var r := RemoteSge(wr);
            RemoteTarget(wr) == Remote(r.seg.tid % 0x10_0000, r.seg.tokenValid, r.seg.tokenValue, r.addr)
  {
  }

  lemma JoinSplit(x: u64)
    ensures Join(Lo(x), Hi(x)) == x
  {
  }

  lemma PickField(x: nat, lo: nat, size: nat, low: nat, v: nat, high: nat)
    requires lo > 0 && size > 0 && low < lo && v < size
    requires x == low + lo * v + (lo * size) * high
    ensures Field(x, lo, size) == v
  {
    Associate(lo, size, high);
    assert x == (v + size * high) * lo + low;
    DivModUnique(x, lo, v + size * high, low);
    DivModUnique(v + size * high, size, high, v);
  }

  /** The bit-fields of the first word do not disturb each other, whatever block index sits below them. */
  lemma Word0Fields(wr: Wr, owner: bit, tokenEn: bit, idx: u16)
    ensures Word0(wr, owner, tokenEn) + idx < TWO_32
    ensures var w := Word0(wr, owner, tokenEn) + idx;
            && Field(w, 0x1_0000, 4) == wr.placeOrder && Field(w, 0x4_0000, 2) == wr.compOrder
            && Field(w, 0x8_0000, 2) == wr.fence && Field(w, 0x10_0000, 2) == wr.solicited
            && Field(w, 0x20_0000, 2) == wr.complete && Field(w, 0x1000_0000, 2) == tokenEn
            && Field(w, 0x8000_0000, 2) == owner
  {
    hide Field;
    var w := Word0(wr, owner, tokenEn) + idx;
    var p: nat, c: nat, f: nat, s: nat, e: nat := wr.placeOrder, wr.compOrder, wr.fence, wr.solicited, wr.complete;
    var t: nat, o: nat := tokenEn, owner;
    PickField(w, 0x1_0000, 4, idx, p, c + 2 * f + 4 * s + 8 * e + 0x400 * t + 0x2000 * o);
    PickField(w, 0x4_0000, 2, idx + 0x1_0000 * p, c, f + 2 * s + 4 * e + 0x200 * t + 0x1000 * o);
    PickField(w, 0x8_0000, 2, idx + 0x1_0000 * p + 0x4_0000 * c, f, s + 2 * e + 0x100 * t + 0x800 * o);
    PickField(w, 0x10_0000, 2, idx + 0x1_0000 * p + 0x4_0000 * c + 0x8_0000 * f, s, e + 0x80 * t + 0x400 * o);
    PickField(w, 0x20_0000, 2, idx + 0x1_0000 * p + 0x4_0000 * c + 0x8_0000 * f + 0x10_0000 * s, e, 0x40 * t + 0x200 * o);
    PickField(w, 0x1000_0000, 2, w - 0x1000_0000 * t - 0x8000_0000 * o, t, 4 * o);
    PickField(w, 0x8000_0000, 2, w - 0x8000_0000 * o, o, 0);
  }

  lemma Word12Fields(hint: u8, opcode: u8, tpn: u32, sgeNum: nat)
    requires sgeNum < 0x100
    ensures Field(Word1(hint, opcode), 1, 0x100) == hint && Field(Word1(hint, opcode), 0x100, 0x100) == opcode
    ensures Field(Word2(tpn, sgeNum), 1, 0x100_0000) == tpn % 0x100_0000
    ensures Field(Word2(tpn, sgeNum), 0x100_0000, 0x100) == sgeNum
  {
  }

  lemma {:induction false} ReadSgesInverts(w: seq<u32>, off: nat, sges: seq<Sge>)
    requires off + 4 * |sges| <= |w| && w[off..off + 4 * |sges|] == FlatSges(sges)
    ensures ReadSges(w, off, |sges|) == LocalsOf(sges)
    decreases |sges|
  {
    if sges != [] {
      var s := w[off..off + 4 * |sges|];
      assert s[..4] == SgeWords(sges[0]);
      assert forall i :: 0 <= i < 4 ==> w[off + i] == s[i];
      assert w[off + 4..off + 4 + 4 * |sges[1..]|] == s[4..] == FlatSges(sges[1..]);
      JoinSplit(sges[0].addr);
      ReadSgesInverts(w, off + 4, sges[1..]);
    }
  }

  /** The low half of the first word carries a block index that the device-side parser does not read. */
  function Patched(w: seq<u32>, idx: u32): (r: seq<u32>)
    requires |w| > 0
    ensures |r| == |w|
  {
    w[0 := w[0] - w[0] % 0x1_0000 + idx % 0x1_0000]
  }

  /** The index goes to the low half of the first word and nothing else changes. */
  lemma PatchedExactly(w: seq<u32>, idx: u32)
    requires |w| > 0
    ensures var r := Patched(w, idx);
            && r[0] % 0x1_0000 == idx % 0x1_0000 && r[0] / 0x1_0000 == w[0] / 0x1_0000
            && forall i :: 0 < i < |w| ==> r[i] == w[i]
  {
    DivModUnique(w[0] - w[0] % 0x1_0000 + idx % 0x1_0000, 0x1_0000, w[0] / 0x1_0000, idx % 0x1_0000);
  }

  lemma PatchedWord0(wr: Wr, owner: bit, tokenEn: bit, idx: u32)
    ensures var x := Word0(wr, owner, tokenEn);
            x - x % 0x1_0000 + idx % 0x1_0000 == x + idx % 0x1_0000
  {
    var m := wr.placeOrder + wr.compOrder * 4 + wr.fence * 8 + wr.solicited * 0x10 + wr.complete * 0x20 +
             tokenEn * 0x1000 + owner * 0x8000;
    DivModUnique(Word0(wr, owner, tokenEn), 0x1_0000, m, 0);
  }

  /** The header fields survive the block index and whatever follows the header. */
  lemma HeaderDecodes(wr: Wr, owner: bit, idx: u32, rest: seq<u32>)
    requires WellFormed(wr) && ParseOpcode(wr.opcode) != OP_INVALID && SgeNum(wr) < 0x100
    ensures var w := Patched(Header(wr, ParseOpcode(wr.opcode), owner, Hint(wr), SgeNum(wr), RemoteSge(wr)) + rest, idx);
            && OpcodeField(w) == ParseOpcode(wr.opcode) && SgeNumField(w) == SgeNum(wr)
            && DecodeHdr(w) == Hdr(wr.placeOrder, wr.compOrder, wr.fence, wr.solicited, wr.complete, owner, Hint(wr),
                                   wr.tpn % 0x100_0000, wr.rmtEid)
            && DecodeRemote(w) == RemoteTarget(wr)
  {
    hide Field, Word0, Word1, Word2, Kept, RemoteTarget;
    RemoteIs(wr);
    PatchedWord0(wr, owner, RemoteSge(wr).seg.tokenValid, idx);
    Word0Fields(wr, owner, RemoteSge(wr).seg.tokenValid, idx % 0x1_0000);
    Word12Fields(Hint(wr), ParseOpcode(wr.opcode), wr.tpn, SgeNum(wr));
    JoinSplit(RemoteSge(wr).addr);
    WholeField(RemoteSge(wr).seg.tid % 0x10_0000);
  }

  lemma WholeField(x: nat)
    requires x < 0x10_0000
    ensures Field(x, 1, 0x10_0000) == x
  {
  }

  /** Words as the device reads them: a request, its padding, and a block index. */
  ghost predicate Printed(w: seq<u32>, wr: Wr)
    requires WellFormed(wr) && ParseOpcode(wr.opcode) != OP_INVALID
    requires IsAtomic(wr.opcode) ==> AtomicLenOk(wr.body.srcSge.len, wr.opcode)
  {
    && |w| >= 16 && |w| == 16 * WireBlocks(w)
    && OpcodeField(w) == ParseOpcode(wr.opcode) && SgeNumField(w) == SgeNum(wr)
    && 12 + |Tail(wr)| <= |w| && w[12..12 + |Tail(wr)|] == Tail(wr)
  }

  lemma PlainDecodes(w: seq<u32>, wr: Wr, owner: bit)
    requires WellFormed(wr) && (wr.opcode == WR_WRITE || wr.opcode == WR_READ) && Printed(w, wr)
    ensures DecodeOp(w) == Some(Meaning(wr, owner).op)
  {
    hide Field, Kept, WireBlocks, FlatSges, RemoteSge, RemoteTarget, Transfers, OpcodeField, SgeNumField;
    ReadSgesInverts(w, 12, Kept(LocalSges(wr)));
    TransfersAreKept(LocalSges(wr));
  }

  lemma NotifyOpDecodes(w: seq<u32>, wr: Wr, owner: bit)
    requires WellFormed(wr) && wr.opcode == WR_NOTIFY && Printed(w, wr)
    ensures DecodeOp(w) == Some(Meaning(wr, owner).op)
  {
    hide Field, Kept, WireBlocks, FlatSges, RemoteSge, RemoteTarget, Transfers, OpcodeField, SgeNumField, NotifyWords, Join;
    TransfersAreKept(wr.body.src);
    var t := w[12..12 + |Tail(wr)|];
    assert w[12..20] == t[..8] == NotifyWords(wr.body);
    assert w[20..20 + 4 * SgeNum(wr)] == t[8..] == FlatSges(Kept(wr.body.src));
    ReadSgesInverts(w, 20, Kept(wr.body.src));
    NotifyDecodes(wr, w);
  }

  lemma AtomicOpDecodes(w: seq<u32>, wr: Wr, owner: bit)
    requires WellFormed(wr) && IsAtomic(wr.opcode) && AtomicLenOk(wr.body.srcSge.len, wr.opcode) && Printed(w, wr)
    ensures DecodeOp(w) == Some(Meaning(wr, owner).op)
  {
    hide Field, Kept, FlatSges, RemoteSge, RemoteTarget, OpcodeField, SgeNumField, OperandWords, OperandOf, ReadSges, Tail;
    AtomicDecodes(wr, w);
    if wr.opcode == WR_CAS {
      OperandIs(wr.body.swap, wr.body.srcSge.len);
      OperandIs(wr.body.cmp, wr.body.srcSge.len);
    } else {
      OperandIs(Operand(wr.body.operand, [0, 0, 0, 0]), wr.body.srcSge.len);
    }
  }

  /** The operation part decodes to what the request asks for. */
  lemma OpDecodes(w: seq<u32>, wr: Wr, owner: bit)
    requires WellFormed(wr) && ParseOpcode(wr.opcode) != OP_INVALID
    requires IsAtomic(wr.opcode) ==> AtomicLenOk(wr.body.srcSge.len, wr.opcode)
    requires Printed(w, wr)
    ensures DecodeOp(w) == Some(Meaning(wr, owner).op)
  {
    hide Printed, DecodeOp, Meaning;
    if IsAtomic(wr.opcode) {
      AtomicOpDecodes(w, wr, owner);
    } else if wr.opcode == WR_NOTIFY {
      NotifyOpDecodes(w, wr, owner);
    } else {
      PlainDecodes(w, wr, owner);
    }
  }

  lemma TailAt(h: seq<u32>, tail: seq<u32>, pad: seq<u32>, idx: u32)
    requires |h| == 12
    ensures Patched(h + tail + pad, idx)[12..12 + |tail|] == tail
  {
    var w := h + tail + pad;
    assert Patched(w, idx)[12..12 + |tail|] == w[12..12 + |tail|];
  }

  lemma NotifyDecodes(wr: Wr, w: seq<u32>)
    requires wr.body.Rw? && |w| >= 20 && w[12..20] == NotifyWords(wr.body)
    ensures Field(w[12], 1, 0x10_0000) == wr.body.notifyTokenId % 0x10_0000 && w[13] == wr.body.notifyTokenValue
    ensures Join(w[14], w[15]) == wr.body.notifyAddr && Join(w[16], w[17]) == wr.body.notifyData
  {
    hide Field;
    var t := w[12..20];
    assert forall i :: 0 <= i < 8 ==> w[12 + i] == t[i];
    WholeField(wr.body.notifyTokenId % 0x10_0000);
    JoinSplit(wr.body.notifyAddr);
    JoinSplit(wr.body.notifyData);
  }

  lemma AtomicDecodes(wr: Wr, w: seq<u32>)
    requires WellFormed(wr) && IsAtomic(wr.opcode) && AtomicLenOk(wr.body.srcSge.len, wr.opcode)
    requires |w| >= 32 && w[12..12 + |Tail(wr)|] == Tail(wr)
    ensures w[12] == wr.body.srcSge.len && ReadSges(w, 12, 1) == [LocalOf(wr.body.srcSge)]
    ensures var k := w[12] / 4;
            if wr.opcode == WR_CAS then
              && w[16..16 + k] == OperandWords(wr.body.swap, w[12])
              && w[16 + k..16 + 2 * k] == OperandWords(wr.body.cmp, w[12])
            else w[16..16 + k] == OperandWords(Operand(wr.body.operand, [0, 0, 0, 0]), w[12])
  {
    hide OperandWords, Field, Join, SgeWords, ReadSges;
    var s := wr.body.srcSge;
    var t := Tail(wr);
    assert t[..4] == SgeWords(s);
    SliceAt(w, 12, t, 0, 4);
    OneSgeDecodes(w, s);
    var k := s.len / 4;
    SliceAt(w, 12, t, 4, 4 + k);
    if wr.opcode == WR_CAS {
      SliceAt(w, 12, t, 4 + k, 4 + 2 * k);
    }
  }

  lemma SliceAt(w: seq<u32>, off: nat, t: seq<u32>, a: nat, b: nat)
    requires off + |t| <= |w| && w[off..off + |t|] == t && a <= b <= |t|
    ensures w[off + a..off + b] == t[a..b]
  {
    forall i | a <= i < b
      ensures w[off + i] == t[i]
    {
      assert w[off..off + |t|][i] == t[i];
    }
  }

  /** The one local entry of an atomic operation reads back. */
  lemma OneSgeDecodes(w: seq<u32>, s: Sge)
    requires |w| >= 16 && w[12..16] == SgeWords(s)
    ensures w[12] == s.len && ReadSges(w, 12, 1) == [LocalOf(s)]
  {
    hide Join, Lo, Hi;
    var t := w[12..16];
    assert w[12] == t[0] && w[13] == t[1] && w[14] == t[2] && w[15] == t[3];
    JoinSplit(s.addr);
    assert ReadSges(w, 16, 0) == [];
    assert ReadSges(w, 12, 1) == [Local(w[12], w[13], Join(w[14], w[15]))] + ReadSges(w, 16, 0);
  }
}
