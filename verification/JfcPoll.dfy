/**
  Polling as a function on values: one entry is taken off the completion ring, the send
  queue it names has its consumer index rebuilt from the 16-bit index in the entry, and a
  completion record is reported.
 */
module JfcPoll {
  import opened Bits
  import opened Common
  import opened CompletionRing

  datatype CrStatus =
    | Success | UnsupportedOpcodeErr | LocLenErr | LocOperationErr | LocAccessErr | RemRespLenErr
    | RemUnsupportedReqErr | RemOperationErr | RemAccessAbortErr | AckTimeoutErr | RnrRetryCntExcErr
    | WrFlushErr | WrSuspendDone | WrFlushErrDone | WrUnhandled | LocDataPoison | RemDataPoison

  datatype Cr = Cr(status: CrStatus, userCtx: u64, sR: bit, jetty: bit, completionLen: u32,
                   localId: nat, remoteId: nat, tpn: nat)

  datatype PollState = PollOk | PollEmpty | PollErr

  /** The part of a send queue that polling reads and moves. */
  datatype SqIndex = SqIndex(k: nat, ci: u32, wrid: seq<u64>, flushFlag: bool)

  function StatusOf(status: u8, substatus: u8): Option<CrStatus> {
    match (status, substatus)
    case (0, 0) => Some(Success)
    case (1, 0) => Some(UnsupportedOpcodeErr)
    case (2, 1) => Some(LocLenErr)
    case (2, 2) => Some(LocAccessErr)
    case (2, 3) => Some(RemRespLenErr)
    case (2, 4) => Some(LocDataPoison)
    case (3, 1) => Some(RemUnsupportedReqErr)
    case (3, 2) => Some(RemAccessAbortErr)
    case (3, 4) => Some(RemDataPoison)
    case (4, 0) => Some(RnrRetryCntExcErr)
    case (5, 0) => Some(AckTimeoutErr)
    case (6, 0) => Some(WrFlushErr)
    case _ => None
  }

  /** Where the entry moves the consumer index of its queue: the next index with the reported slot. */
  function MovedIndex<Q>(e: Cqe<Q>, sq: SqIndex): u32 {
    if e.fd then sq.ci else Add32(sq.ci, Sub32(e.entryIdx, sq.ci) % Pow2(sq.k))
  }

  /** The record for an entry, with the user context found at the moved index. */
  function Record<Q>(e: Cqe<Q>, sq: SqIndex, status: CrStatus): Cr
    requires |sq.wrid| == Pow2(sq.k)
  {
    Cr(if e.fd then WrFlushErrDone else status, sq.wrid[MovedIndex(e, sq) % Pow2(sq.k)],
       e.sR, e.isJetty, e.byteCnt, LocalId(e), e.rmtIdx, e.tpn)
  }

  /** An entry with a status outside the table still moves the index, but not past the reported block. */
  function ParseCqe<Q>(e: Cqe<Q>, sq: SqIndex): (SqIndex, Option<Cr>)
    requires |sq.wrid| == Pow2(sq.k)
  {
    var moved := sq.(ci := MovedIndex(e, sq));
    match StatusOf(e.status, e.substatus)
    case None => (moved, None)
    case Some(status) =>
      if e.fd then (moved.(flushFlag := true), Some(Record(e, sq, status)))
      else (moved.(ci := Add32(moved.ci, 1)), Some(Record(e, sq, status)))
  }

  datatype Polled<Q> = Polled(state: PollState, cq: Cq<Q>, sqs: map<Q, SqIndex>, cr: Option<Cr>)

  ghost predicate IndicesOk<Q>(sqs: map<Q, SqIndex>) {
    forall q :: q in sqs ==> |sqs[q].wrid| == Pow2(sqs[q].k)
  }

  /**
    The next n polls meet only entries that name no queue or one of qs. A poll follows the
    reference in its entry, so this is what it takes for granted; slots that are not polled do
    not matter.
   */
  ghost predicate NamesOnly<Q>(cq: Cq<Q>, qs: set<Q>, n: nat)
    requires |cq.ring| == Pow2(cq.k)
    decreases n
  {
    n > 0 ==>
      match NextCqe(cq, cq.ci)
      case None => true
      case Some(e) => (e.queue.Some? ==> e.queue.value in qs) && NamesOnly(cq.(ci := Add32(cq.ci, 1)), qs, n - 1)
  }

  /** What n polls take for granted. */
  ghost predicate Pollable<Q>(cq: Cq<Q>, sqs: map<Q, SqIndex>, n: nat) {
    Sized(cq) && IndicesOk(sqs) && NamesOnly(cq, sqs.Keys, n)
  }

  function PollOne<Q>(cq: Cq<Q>, sqs: map<Q, SqIndex>): (r: Polled<Q>)
    requires Pollable(cq, sqs, 1)
    ensures r.cq.k == cq.k && r.cq.ring == cq.ring && IndicesOk(r.sqs) && r.sqs.Keys == sqs.Keys
    ensures r.state == PollOk ==> r.cq.ci == Add32(cq.ci, 1) && r.cq.swDb == cq.swDb && NextCqe(cq, cq.ci).Some?
  {
    match NextCqe(cq, cq.ci)
    case None => Polled(PollEmpty, cq, sqs, None)
    case Some(e) =>
      var cq' := cq.(ci := Add32(cq.ci, 1));
      if e.queue == None then Polled(PollErr, cq', sqs, None)
      else
        var (sq, cr) := ParseCqe(e, sqs[e.queue.value]);
        var sqs' := sqs[e.queue.value := sq];
        if cr == None then Polled(PollErr, cq', sqs', None)
        else if cr.value.status == WrFlushErrDone || cr.value.status == WrSuspendDone then
          Polled(PollEmpty, cq', sqs', cr)
        else Polled(PollOk, cq', sqs', cr)
  }

  datatype Batch<Q> = Batch(state: PollState, cq: Cq<Q>, sqs: map<Q, SqIndex>, crs: seq<Cr>)

  /** Polls up to n entries, stopping at the first that is not an ordinary completion. */
  function PollLoop<Q>(cq: Cq<Q>, sqs: map<Q, SqIndex>, n: nat): (b: Batch<Q>)
    requires Pollable(cq, sqs, n)
    ensures b.cq.k == cq.k && b.cq.ring == cq.ring && IndicesOk(b.sqs) && b.sqs.Keys == sqs.Keys
    decreases n
  {
    if n == 0 then Batch(PollOk, cq, sqs, [])
    else
      NamesFirst(cq, sqs.Keys, n);
      var r := PollOne(cq, sqs);
      if r.state != PollOk then Batch(r.state, r.cq, r.sqs, [])
      else
        var b := PollLoop(r.cq, r.sqs, n - 1);
        b.(crs := [r.cr.value] + b.crs)
  }

  lemma NamesFirst<Q>(cq: Cq<Q>, qs: set<Q>, n: nat)
    requires |cq.ring| == Pow2(cq.k) && NamesOnly(cq, qs, n) && n > 0
    ensures NamesOnly(cq, qs, 1)
    ensures NextCqe(cq, cq.ci).Some? ==> NamesOnly(cq.(ci := Add32(cq.ci, 1)), qs, n - 1)
  {
    hide Pow2, NextCqe;
  }

  function PollJfc<Q>(cq: Cq<Q>, sqs: map<Q, SqIndex>, n: nat): (b: Batch<Q>)
    requires Pollable(cq, sqs, n)
    ensures b.cq.k == cq.k && b.cq.ring == cq.ring && IndicesOk(b.sqs) && b.sqs.Keys == sqs.Keys
  {
    var b := PollLoop(cq, sqs, n);
    if |b.crs| > 0 then b.(cq := b.cq.(swDb := b.cq.ci % DB_CI_MODULUS)) else b
  }

  /** Return value of the polling call. */
  function PollResult<Q>(b: Batch<Q>): int {
    if b.state == PollErr then -1 else |b.crs|
  }

  /** Entries a batch takes off the ring: one more than it reports if it ended on a special entry. */
  function Taken<Q>(cq: Cq<Q>, b: Batch<Q>): nat {
    Sub32(b.cq.ci, cq.ci)
  }

  /** A record reports the entry it was made from; a flush marker reports that the flush is done. */
  predicate Reports<Q>(cr: Cr, e: Cqe<Q>) {
    && cr.sR == e.sR && cr.jetty == e.isJetty && cr.completionLen == e.byteCnt
    && cr.localId / 0x1_0000 == e.localNumH && cr.localId % 0x1_0000 == e.localNumL && cr.remoteId == e.rmtIdx && cr.tpn == e.tpn
    && StatusOf(e.status, e.substatus).Some?
    && cr.status == if e.fd then WrFlushErrDone else StatusOf(e.status, e.substatus).value
  }

  lemma ParseReports<Q>(e: Cqe<Q>, sq: SqIndex)
    requires |sq.wrid| == Pow2(sq.k)
    ensures ParseCqe(e, sq).1.Some? ==> Reports(ParseCqe(e, sq).1.value, Payload(e))
  {
    hide MovedIndex, StatusOf, Pow2;
  }

  /** A poll takes exactly the head of the FIFO, or nothing from an empty one. */
  lemma PollOneTakesHead<Q>(cq: Cq<Q>, sqs: map<Q, SqIndex>, c: nat, p: nat)
    requires Inv(cq, c, p) && IndicesOk(sqs) && NamesOnly(cq, sqs.Keys, 1)
    ensures c <= p
    ensures var r := PollOne(cq, sqs);
            if c == p then r == Polled(PollEmpty, cq, sqs, None)
            else
              && Inv(r.cq, c + 1, p) && Pending(r.cq, c + 1, p) == Pending(cq, c, p)[1..]
              && r.cq.swDb == cq.swDb
              && (r.cr.None? <==> r.state == PollErr)
              && (r.cr.Some? ==> Reports(r.cr.value, Pending(cq, c, p)[0]))
  {
    hide Pow2, SlotOwner, ParseCqe, Reports, NextCqe, Payload, Window;
    HeadIsPending(cq, c, p);
    if c < p {
      var e := NextCqe(cq, cq.ci).value;
      if e.queue.Some? {
        ParseReports(e, sqs[e.queue.value]);
      }
      ConsumeOne(cq, c, p, cq.swDb);
    }
  }

  /**
    What a batch of at most n polls did: it took the first t entries of the FIFO, in order,
    and reports all of them, except that the last one taken goes unreported when the batch
    ended on an error or a flush marker. An ordinary end means the limit or an empty ring.
   */
  ghost predicate TookPrefix<Q>(cq: Cq<Q>, b: Batch<Q>, c: nat, p: nat, n: nat, t: nat)
    requires Inv(cq, c, p)
  {
    && |b.crs| <= t <= n && c + t <= p
    && Inv(b.cq, c + t, p) && Pending(b.cq, c + t, p) == Pending(cq, c, p)[t..]
    && (forall i :: 0 <= i < |b.crs| ==> Reports(b.crs[i], Pending(cq, c, p)[i]))
    && match b.state
       case PollOk => t == n == |b.crs|
       case PollErr => t == |b.crs| + 1
       case PollEmpty => (t == |b.crs| && c + t == p) || t == |b.crs| + 1
  }

  lemma {:induction false} PollLoopTakesPrefix<Q>(cq: Cq<Q>, sqs: map<Q, SqIndex>, c: nat, p: nat, n: nat) returns (t: nat)
    requires Inv(cq, c, p) && IndicesOk(sqs) && NamesOnly(cq, sqs.Keys, n)
    ensures TookPrefix(cq, PollLoop(cq, sqs, n), c, p, n, t)
    ensures PollLoop(cq, sqs, n).cq.swDb == cq.swDb
    decreases n
  {
    hide Pow2, SlotOwner, IndicesOk, NamesOnly, PollOne, Window, Reports, NextCqe;
    t := 0;
    if n > 0 {
      NamesFirst(cq, sqs.Keys, n);
      PollOneTakesHead(cq, sqs, c, p);
      var r := PollOne(cq, sqs);
      if c < p {
        t := 1;
        if r.state == PollOk {
          var s := PollLoopTakesPrefix(r.cq, r.sqs, c + 1, p, n - 1);
          t := s + 1;
          PrefixExtends(Pending(cq, c, p), Pending(r.cq, c + 1, p), r.cr.value, PollLoop(r.cq, r.sqs, n - 1).crs, s);
        }
      }
    }
  }

  lemma PrefixExtends<Q>(q: seq<Cqe<Q>>, q': seq<Cqe<Q>>, cr: Cr, crs: seq<Cr>, s: nat)
    requires |q| > 0 && q' == q[1..] && |crs| <= s <= |q'|
    requires Reports(cr, q[0]) && forall i :: 0 <= i < |crs| ==> Reports(crs[i], q'[i])
    ensures forall i :: 0 <= i < |crs| + 1 ==> Reports(([cr] + crs)[i], q[i])
    ensures q'[s..] == q[s + 1..]
  {
    hide Reports;
  }

  /* Rebuilding the consumer index of a send queue. */

  /**
    The 16-bit index in an entry is enough: from the low bits of any position s within one
    ring of the consumer position, the truncated index moves to exactly s.
   */
  lemma IndexRebuilt(c: nat, s: nat, k: nat)
    requires k <= 16 && c <= s < c + Pow2(k)
    ensures Add32(c % TWO_32, Sub32(s % 0x1_0000, c % TWO_32) % Pow2(k)) == s % TWO_32
  {
    hide Pow2, Add32, Sub32;
    assert Pow2(k) <= 0x1_0000 by {
      Pow2Constants();
      Pow2Monotone(k, 16);
    }
    IndexRebuiltExactly(c, s, k);
  }

  /**
    Exactly when 16 bits are enough, for rings of any size: the slot of the reported position
    must itself fit 16 bits. Rings of at most 2^16 blocks have no other slots.
   */
  lemma IndexRebuiltExactly(c: nat, s: nat, k: nat)
    requires k <= 32 && c <= s < c + Pow2(k)
    ensures Add32(c % TWO_32, Sub32(s % 0x1_0000, c % TWO_32) % Pow2(k)) == s % TWO_32
       <==> s % Pow2(k) < 0x1_0000
  {
    hide Pow2, Add32, Sub32;
    var cnt, x := Pow2(k), s % 0x1_0000;
    RebuiltIs(c, x, k);
    assert cnt <= TWO_32 by {
      Pow2Constants();
      Pow2Monotone(k, 32);
    }
    CloseCounters(c + (x - c) % cnt, s);
    DivModUnique(s - c, cnt, 0, s - c);
    SameAfterShift(x, s, c, cnt);
    LowBits(s, k);
  }

  /** What the 32-bit arithmetic comes to on true counters. */
  lemma RebuiltIs(c: nat, x: nat, k: nat)
    requires k <= 32
    ensures Add32(c % TWO_32, Sub32(x, c % TWO_32) % Pow2(k)) == (c + (x - c) % Pow2(k)) % TWO_32
  {
    hide Pow2, Sub32;
    DistanceSlot(c, x, k);
    ModAdd(c, (x - c) % Pow2(k), TWO_32);
  }

  lemma DistanceSlot(c: nat, x: nat, k: nat)
    requires k <= 32
    ensures Sub32(x, c % TWO_32) % Pow2(k) == (x - c) % Pow2(k)
  {
    hide Pow2;
    var y := c % TWO_32;
    TruncSlot(c, k);
    SubMod(x, y, x, c, Pow2(k));
    TruncSlot(x - y, k);
  }

  lemma CloseCounters(a: nat, b: nat)
    requires a - b < TWO_32 && b - a < TWO_32
    ensures a % TWO_32 == b % TWO_32 <==> a == b
  {
  }

  lemma SameAfterShift(x: int, s: int, c: int, n: int)
    requires n > 0
    ensures (x - c) % n == (s - c) % n <==> x % n == s % n
  {
    if x % n == s % n {
      SubMod(x, c, s, c, n);
    }
    if (x - c) % n == (s - c) % n {
      SubMod(x - c, -c, s - c, -c, n);
    }
  }

  /** Cutting to 16 bits keeps the slot exactly when the slot fits 16 bits. */
  lemma LowBits(s: nat, k: nat)
    ensures s % 0x1_0000 % Pow2(k) == s % Pow2(k) <==> s % Pow2(k) < 0x1_0000
  {
    hide Pow2;
    var cnt := Pow2(k);
    Pow2Constants();
    if k <= 16 {
      Pow2Monotone(k, 16);
      Pow2Add(k, 16 - k);
      ModOfMod(s, cnt, Pow2(16 - k));
    } else {
      WideRing(s, k);
    }
  }

  lemma WideRing(s: nat, k: nat)
    requires k > 16
    ensures s % 0x1_0000 % Pow2(k) == s % Pow2(k) <==> s % Pow2(k) < 0x1_0000
  {
    hide Pow2;
    var cnt, x := Pow2(k), s % 0x1_0000;
    assert Pow2(16) == 0x1_0000 by {
      Pow2Constants();
    }
    Pow2Monotone(16, k);
    Pow2Add(16, k - 16);
    ModOfMod(s, 0x1_0000, Pow2(k - 16));
    assert x % cnt == x by {
      DivModUnique(x, cnt, 0, x);
    }
    CutIsSame(s % cnt);
  }

  lemma CutIsSame(t: nat)
    ensures t % 0x1_0000 == t <==> t < 0x1_0000
  {
  }

  lemma SubMod(a: int, b: int, s: int, c: int, n: int)
    requires n > 0 && a % n == s % n && b % n == c % n
    ensures (a - b) % n == (s - c) % n
  {
    SubParts(a, b, s, c, a / n, b / n, s / n, c / n, a % n, b % n, n);
  }

  lemma SubParts(a: int, b: int, s: int, c: int, qa: int, qb: int, qs: int, qc: int, ra: int, rb: int, n: int)
    requires n > 0
    requires a == qa * n + ra && b == qb * n + rb && s == qs * n + ra && c == qc * n + rb
    ensures (a - b) % n == (s - c) % n
  {
    SameRemainders(a, b, s, c, qa, qb, qs, qc, ra, rb, n);
    WholeLaps(s - c, qa - qs - (qb - qc), n);
  }

  /** Two pairs with the same remainders differ by a multiple. */
  lemma SameRemainders(a: int, b: int, s: int, c: int, qa: int, qb: int, qs: int, qc: int, ra: int, rb: int, n: int)
    requires a == qa * n + ra && b == qb * n + rb && s == qs * n + ra && c == qc * n + rb
    ensures a - b == s - c + (qa - qs - (qb - qc)) * n
  {
    Distribute(qa, qs, n);
    Distribute(qb, qc, n);
    Distribute(qa - qs, qb - qc, n);
  }

  /**
    A valid ordinary completion for block position s reports the context stored for s and
    leaves the consumer index just past s.
   */
  lemma CompletionReportsContext<Q>(e: Cqe<Q>, sq: SqIndex, c: nat, s: nat)
    requires sq.k <= 16 && |sq.wrid| == Pow2(sq.k) && sq.ci == c % TWO_32
    requires c <= s < c + Pow2(sq.k) && e.entryIdx == s % 0x1_0000
    requires !e.fd && StatusOf(e.status, e.substatus).Some?
    ensures var (sq', cr) := ParseCqe(e, sq);
            && cr.Some? && cr.value.userCtx == sq.wrid[s % Pow2(sq.k)]
            && sq' == sq.(ci := (s + 1) % TWO_32)
  {
    hide Pow2, StatusOf;
    IndexRebuilt(c, s, sq.k);
    TruncSlot(s, sq.k);
    ModAdd(s, 1, TWO_32);
  }
}
