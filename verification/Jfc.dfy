/**
  The completion queue object: polling and cleaning as they update the ring, the consumer
  indices and the doorbell in place, each proved against the functions on values.
 */
module Jfc {
  import opened Bits
  import opened Common
  import opened CompletionRing
  import opened JfcPoll
  import opened JfcClean
  import opened JfcCleanExact
  import opened JfcCleanAll
  import Sqe

  type SendQ = JettyQueue<Sqe.Wqebb>
  type Entry = Cqe<SendQ>

  ghost predicate SendQueueOk(q: SendQ)
    reads q
  {
    q.Shaped(Exp(q)) && q.wrid != null
  }

  /** What polling sees of a send queue. */
  ghost function IndexOf(q: SendQ): SqIndex
    reads q, q.wrid
    requires SendQueueOk(q)
  {
    SqIndex(Exp(q), q.ci, q.wrid[..], q.flushFlag)
  }

  ghost predicate AllOk(sqs: set<SendQ>)
    reads sqs
  {
    forall q :: q in sqs ==> SendQueueOk(q)
  }

  ghost function Indices(sqs: set<SendQ>): map<SendQ, SqIndex>
    reads sqs, set q | q in sqs :: q.wrid
    requires AllOk(sqs)
  {
    map q | q in sqs :: IndexOf(q)
  }

  class CompletionQueue {
    const cq: JettyQueue<Entry>
    var swDb: u32     // the software doorbell word

    constructor (q: JettyQueue<Entry>, db: u32)
      ensures cq == q && swDb == db
    {
      cq := q;
      swDb := db;
    }

    ghost predicate Valid()
      reads cq
    {
      cq.Shaped(Exp(cq)) && Exp(cq) <= 30
    }

    ghost function Value(): Cq<SendQ>
      reads this, cq, cq.qbuf
      requires Valid()
    {
      Cq(Exp(cq), cq.qbuf[..], cq.ci, swDb)
    }

    /** The send queues are in order, and the next n polls follow references to these only. */
    ghost predicate Linked(sqs: set<SendQ>, n: nat)
      reads this, cq, cq.qbuf, sqs
      requires Valid()
    {
      AllOk(sqs) && NamesOnly(Value(), sqs, n)
    }

    lemma MaskedIndex(n: u32)
      requires Valid()
      ensures And(n, cq.baseblkMask) == n % Pow2(Exp(cq)) < cq.qbuf.Length
    {
      MaskIsMod(n, Exp(cq));
    }

    /** Slot of the entry at index n when it reads as new. */
    method GetNextCqe(n: u32) returns (slot: Option<nat>)
      requires Valid()
      ensures slot.Some? <==> NextCqe(Value(), n).Some?
      ensures slot.Some? ==> slot.value == n % Pow2(Exp(cq)) < cq.qbuf.Length
                             && cq.qbuf[slot.value] == NextCqe(Value(), n).value
    {
      hide Pow2, And, BitLength;
      MaskedIndex(n);
      var i := And(n, cq.baseblkMask);
      ShapeBound(Exp(cq));
      RoundupOfPow2(Exp(cq));
      var shift := AlignPower2(cq.baseblkCnt);
      var validOwner := cq.ci / Pow2(shift) % 2;
      assert At(Value().ring, n) == cq.qbuf[i];
      slot := if cq.qbuf[i].owner == validOwner then None else Some(i);
    }

    lemma ShapeBound(k: nat)
      requires k <= 30
      ensures Pow2(k) <= 0x8000_0000
    {
      Pow2Monotone(k, 31);
      Pow2Constants();
    }

    /** Steps past the entry at the consumer index, if it is new. */
    method TakeEntry() returns (e: Option<Entry>)
      requires Valid()
      modifies cq`ci
      ensures Valid() && e == NextCqe(old(Value()), old(Value()).ci)
      ensures Value() == (if e == None then old(Value()) else old(Value()).(ci := Add32(old(Value()).ci, 1)))
    {
      hide Pow2, NextCqe, BitLength;
      var slot := GetNextCqe(cq.ci);
      if slot == None {
        return None;
      }
      e := Some(cq.qbuf[slot.value]);
      cq.ci := Add32(cq.ci, 1);
    }

    /** Takes one entry: moves the index of the queue it names, then reports it. */
    method PollOne(ghost sqs: set<SendQ>) returns (state: PollState, cr: Option<Cr>)
      requires Valid() && Linked(sqs, 1)
      modifies cq`ci, sqs`ci, sqs`flushFlag
      ensures Valid() && AllOk(sqs) && Pollable(old(Value()), old(Indices(sqs)), 1)
      ensures var r := JfcPoll.PollOne(old(Value()), old(Indices(sqs)));
              state == r.state && cr == r.cr && Value() == r.cq && Indices(sqs) == r.sqs
    {
      hide Pow2, And, BitLength, StatusOf, ParseCqe, IndexOf, NextCqe, Value;
      LinkedValue(sqs, 1);
      ghost var v, m := Value(), Indices(sqs);
      var taken := TakeEntry();
      assert Indices(sqs) == m;
      if taken == None {
        return PollEmpty, None;
      }
      var e := taken.value;
      if e.queue == None {
        return PollErr, None;
      }
      cr := Deliver(e, e.queue.value, sqs);
      if cr == None {
        state := PollErr;
      } else if cr.value.status == WrFlushErrDone || cr.value.status == WrSuspendDone {
        state := PollEmpty;
      } else {
        state := PollOk;
      }
    }

    lemma LinkedValue(sqs: set<SendQ>, n: nat)
      requires Valid() && Linked(sqs, n)
      ensures Pollable(Value(), Indices(sqs), n)
    {
      hide NamesOnly;
      forall q | q in sqs
        ensures |Indices(sqs)[q].wrid| == Pow2(Indices(sqs)[q].k)
      {
        assert SendQueueOk(q);
      }
      assert Indices(sqs).Keys == sqs;
    }

    /** One poll whose record, if there is one, goes to slot i of `out`; n polls were meant to follow. */
    method PollInto(out: array<Cr>, i: nat, ghost sqs: set<SendQ>, ghost n: nat) returns (state: PollState)
      requires Valid() && Linked(sqs, n) && n > 0 && i < out.Length
      modifies cq`ci, sqs`ci, sqs`flushFlag, out
      ensures Valid() && AllOk(sqs) && Pollable(old(Value()), old(Indices(sqs)), 1)
      ensures state == PollOk ==> Linked(sqs, n - 1)
      ensures var r := JfcPoll.PollOne(old(Value()), old(Indices(sqs)));
              && state == r.state && Value() == r.cq && Indices(sqs) == r.sqs
              && out[..i] == old(out[..i]) && (r.cr.Some? ==> out[..i + 1] == old(out[..i]) + [r.cr.value])
    {
      hide Pow2, IndexOf, Indices, CeilLog2, AllOk, Value, NextCqe, JfcPoll.PollOne, NamesOnly, IndicesOk;
      SizedValue();
      NamesFirst(Value(), sqs, n);
      ghost var v := Value();
      LinkedValue(sqs, 1);
      var cr;
      state, cr := PollOne(sqs);
      if cr.Some? {
        out[i] := cr.value;
      }
      assert state == PollOk ==> Value() == v.(ci := Add32(v.ci, 1));
    }

    /** The polling loop: records go to the front of `out`. */
    method PollEntries(crCnt: u32, out: array<Cr>, ghost sqs: set<SendQ>) returns (state: PollState, npolled: nat)
      requires Valid() && Linked(sqs, crCnt) && crCnt <= out.Length
      modifies cq`ci, sqs`ci, sqs`flushFlag, out
      ensures Valid() && AllOk(sqs) && npolled <= crCnt
      ensures Pollable(old(Value()), old(Indices(sqs)), crCnt)
      ensures PollLoop(old(Value()), old(Indices(sqs)), crCnt) == Batch(state, Value(), Indices(sqs), out[..npolled])
    {
      hide Pow2, IndexOf, Indices, Value, NextCqe, JfcPoll.PollOne, PollLoop, NamesOnly, IndicesOk, AllOk;
      LinkedValue(sqs, crCnt);
      ghost var whole := PollLoop(Value(), Indices(sqs), crCnt);
      state := PollOk;
      npolled := 0;
      while npolled < crCnt
        modifies cq`ci, sqs`ci, sqs`flushFlag, out
        invariant npolled <= crCnt && state == PollOk
        invariant Valid() && Linked(sqs, crCnt - npolled) && Pollable(Value(), Indices(sqs), crCnt - npolled)
        invariant Prepend(out[..npolled], PollLoop(Value(), Indices(sqs), crCnt - npolled)) == whole
      {
        PrependTwice(out[..npolled], Value(), Indices(sqs), crCnt - npolled);
        state := PollInto(out, npolled, sqs, crCnt - npolled);
        if state != PollOk {
          return;
        }
        LinkedValue(sqs, crCnt - npolled - 1);
        npolled := npolled + 1;
      }
      NoPolls(Value(), Indices(sqs));
    }

    /** Polls up to crCnt completions into `out` and rings the doorbell if any was reported. */
    method PollJfc(crCnt: u32, out: array<Cr>, ghost sqs: set<SendQ>) returns (ret: int)
      requires Valid() && Linked(sqs, crCnt) && crCnt <= out.Length
      modifies `swDb, cq`ci, sqs`ci, sqs`flushFlag, out
      ensures Valid() && AllOk(sqs) && Pollable(old(Value()), old(Indices(sqs)), crCnt)
      ensures var b := JfcPoll.PollJfc(old(Value()), old(Indices(sqs)), crCnt);
              && Value() == b.cq && Indices(sqs) == b.sqs
              && ret == PollResult(b) && |b.crs| <= out.Length && out[..|b.crs|] == b.crs
    {
      hide Pow2, IndexOf, Indices, Value, NextCqe, JfcPoll.PollOne, PollLoop, NamesOnly, IndicesOk, Linked, CeilLog2, AllOk;
      var state, npolled := PollEntries(crCnt, out, sqs);
      Ring(npolled > 0);
      ret := if state == PollErr then -1 else npolled;
    }

    static ghost function Prepend(crs: seq<Cr>, b: Batch<SendQ>): Batch<SendQ> {
      b.(crs := crs + b.crs)
    }

    lemma PrependTwice(done: seq<Cr>, v: Cq<SendQ>, m: map<SendQ, SqIndex>, n: nat)
      requires Pollable(v, m, n) && n > 0
      ensures Pollable(v, m, 1)
      ensures var r := JfcPoll.PollOne(v, m);
              if r.state != PollOk then Prepend(done, PollLoop(v, m, n)) == Batch(r.state, r.cq, r.sqs, done)
              else
                && r.cr.Some? && Pollable(r.cq, r.sqs, n - 1)
                && Prepend(done, PollLoop(v, m, n)) == Prepend(done + [r.cr.value], PollLoop(r.cq, r.sqs, n - 1))
    {
      hide JfcPoll.PollOne, PollLoop, Pollable;
      PollLoopStep(v, m, n);
      assert done + [] == done;
    }

    lemma PollLoopStep(v: Cq<SendQ>, m: map<SendQ, SqIndex>, n: nat)
      requires Pollable(v, m, n) && n > 0
      ensures Pollable(v, m, 1)
      ensures var r := JfcPoll.PollOne(v, m);
              if r.state != PollOk then PollLoop(v, m, n) == Batch(r.state, r.cq, r.sqs, [])
              else
                && r.cr.Some? && Pollable(r.cq, r.sqs, n - 1)
                && var b := PollLoop(r.cq, r.sqs, n - 1);
                PollLoop(v, m, n) == b.(crs := [r.cr.value] + b.crs)
    {
      hide NextCqe, NamesOnly;
      NamesFirst(v, m.Keys, n);
    }

    lemma NoPolls(v: Cq<SendQ>, m: map<SendQ, SqIndex>)
      requires Pollable(v, m, 0)
      ensures PollLoop(v, m, 0) == Batch(PollOk, v, m, [])
    {
    }

    lemma SizedValue()
      requires Valid()
      ensures Sized(Value())
    {
    }

    /** Publishes the consumer index if there is reason to. */
    method Ring(due: bool)
      requires Valid()
      modifies `swDb
      ensures Valid()
      ensures Value() == if due then old(Value()).(swDb := old(Value()).ci % DB_CI_MODULUS) else old(Value())
    {
      DoorbellMask(cq.ci);
      if due {
        swDb := And(cq.ci, 0x3f_ffff);
      }
    }

    /** Length of the upward scan, or None when it would never stop. */
    method ScanEnd() returns (w: Option<nat>)
      requires Valid()
      ensures w == Scan(Value(), 0)
    {
      hide Pow2, NextCqe, BitLength, Scan;
      ghost var v := Value();
      var steps := 0;
      var pi := cq.ci;
      while true
        invariant steps <= TWO_32 && pi == Add32(v.ci, steps)
        invariant Scan(v, 0) == Scan(v, steps)
        decreases TWO_32 - steps
      {
        ScanUnfold(v, steps);
        var slot := GetNextCqe(pi);
        if slot == None || pi > Add32(cq.ci, cq.baseblkCnt) {
          return Some(steps);
        }
        if steps == TWO_32 {
          return None;
        }
        ModAdd(v.ci + steps, 1, TWO_32);
        pi := Add32(pi, 1);
        steps := steps + 1;
      }
    }

    lemma ScanUnfold(v: Cq<SendQ>, i: nat)
      requires |v.ring| == Pow2(v.k) && i <= TWO_32
      ensures Scan(v, i) ==
              if NextCqe(v, Add32(v.ci, i)) == None || Add32(v.ci, i) > Add32(v.ci, Pow2(v.k)) then Some(i)
              else if i == TWO_32 then None
              else Scan(v, i + 1)
    {
    }

    /**
      Removes the entries of queue j, c and p being the true consumer and producer positions.
      `hung` stands for a scan that would never end.
     */
    method CleanJfc(j: nat, ghost c: nat, ghost p: nat) returns (hung: bool)
      requires Valid() && Inv(Value(), c, p)
      modifies this, cq`ci, cq.qbuf
      ensures Valid() && cq.qbuf == old(cq.qbuf)
      ensures hung <==> Clean(old(Value()), j) == Diverges
      ensures Value() == if hung then old(Value()) else Clean(old(Value()), j).cq
      ensures hung <==> c % Pow2(old(Value()).k) + (p - c) == Pow2(old(Value()).k)
                        && old(Value()).ci + Pow2(old(Value()).k) + 1 == TWO_32
      ensures CleanFilters(old(Value()), c, p, j) <==> CleanSafe(old(Value()), c, p, j)
      ensures RemovesAll(old(Value()), c, p, j) <==> CleanComplete(old(Value()), c, p, j)
    {
      hide Pow2, NextCqe, BitLength, And, Inv, CleanFilters, CleanSafe, RemovesAll, CleanComplete;
      ghost var v := Value();
      CleanFiltersExactly(v, c, p, j);
      CleanRemovesAllExactly(v, c, p, j);
      CleanDivergesExactly(v, c, p, j);
      ScanBound(v, c, p);
      var w := ScanEnd();
      if w == None {
        return true;
      }
      var nfreed := Sweep(j, w.value);
      if nfreed > 0 {
        cq.ci := Add32(cq.ci, nfreed);
        DoorbellMask(cq.ci);
        swDb := And(cq.ci, 0x3f_ffff);
      }
      return false;
    }

    /** The downward pass over w entries, moving kept entries up over freed ones. */
    method Sweep(j: nat, w: nat) returns (nfreed: nat)
      requires Valid() && w <= 0x4000_0001
      modifies cq.qbuf
      ensures Valid() && |old(Value()).ring| > 0
      ensures Value() == old(Value()).(ring := cq.qbuf[..])
      ensures (cq.qbuf[..], nfreed) == Compact(old(Value()).ring, cq.ci, cq.ci + w, 0, j)
    {
      hide Pow2, BitLength, And, LocalId, Compact;
      nfreed := 0;
      var pi := Sub32(Add32(cq.ci, w), 1);
      ghost var i := w;
      LastIndex(cq.ci, i);
      while Signed32(Sub32(pi, cq.ci)) >= 0
        invariant 0 <= i <= w && nfreed <= w - i
        invariant pi == (cq.ci + i - 1) % TWO_32
        invariant Compact(cq.qbuf[..], cq.ci, cq.ci + i, nfreed, j) == Compact(old(Value()).ring, cq.ci, cq.ci + w, 0, j)
        decreases i
      {
        GuardMeansMore(cq.ci, i);
        nfreed := SweepOne(j, pi, nfreed, cq.ci, cq.ci + i - 1);
        i := i - 1;
        PreviousIndex(cq.ci, i);
        pi := Sub32(pi, 1);
      }
      GuardMeansMore(cq.ci, i);
      NothingLeft(cq.qbuf[..], cq.ci, nfreed, j);
    }

    /** One position of the downward pass: x is the true position of index pi. */
    method SweepOne(j: nat, pi: u32, nfreed: nat, ghost lo: nat, ghost x: nat) returns (freed: nat)
      requires Valid() && lo <= x && pi == x % TWO_32
      modifies cq.qbuf
      ensures Valid() && |old(Value()).ring| > 0 && nfreed <= freed <= nfreed + 1
      ensures Compact(cq.qbuf[..], lo, x, freed, j) == Compact(old(Value()).ring, lo, x + 1, nfreed, j)
    {
      hide Pow2, BitLength, And, Or, LocalId;
      SlotOfIndex(x);
      var e := cq.qbuf[And(pi, cq.baseblkMask)];
      ghost var before := cq.qbuf[..];
      assert e == At(before, x);
      freed := nfreed;
      LocalIdJoin(e);
      if Or(e.localNumH * 0x1_0000, e.localNumL) == j {
        freed := nfreed + 1;
      } else if nfreed > 0 {
        ModAdd(x, nfreed, TWO_32);
        SlotOfIndex(x + nfreed);
        var dest := And(Add32(pi, nfreed), cq.baseblkMask);
        cq.qbuf[dest] := e.(owner := cq.qbuf[dest].owner);
        assert cq.qbuf[..] == Put(before, x + nfreed, e.(owner := At(before, x + nfreed).owner));
      }
    }

    lemma NothingLeft(ring: seq<Entry>, lo: nat, f: nat, j: nat)
      requires |ring| > 0
      ensures Compact(ring, lo, lo, f, j) == (ring, f)
    {
    }

    lemma SlotOfIndex(x: nat)
      requires Valid()
      ensures And(x % TWO_32, cq.baseblkMask) == x % cq.qbuf.Length
    {
      hide Pow2, And;
      MaskIsMod(x % TWO_32, Exp(cq));
      TruncSlot(x, Exp(cq));
    }
  }

  /** Reading a 32-bit difference as a signed number. */
  function Signed32(x: u32): int {
    if x < 0x8000_0000 then x else x - TWO_32
  }

  lemma LastIndex(ci: u32, w: nat)
    ensures Sub32(Add32(ci, w), 1) == (ci + w - 1) % TWO_32
  {
  }

  lemma PreviousIndex(ci: u32, i: nat)
    ensures Sub32((ci + i) % TWO_32, 1) == (ci + i - 1) % TWO_32
  {
  }

  /** The signed test asks whether anything is left, as long as less than half the range is scanned. */
  lemma GuardMeansMore(ci: u32, i: nat)
    requires i <= 0x4000_0001
    ensures Signed32(Sub32((ci + i - 1) % TWO_32, ci)) >= 0 <==> i > 0
  {
    SubTrunc(ci + i - 1, ci);
  }

  lemma ScanBound(v: Cq<SendQ>, c: nat, p: nat)
    requires Inv(v, c, p)
    ensures Scan(v, 0).Some? ==> Scan(v, 0).value <= 0x4000_0001
  {
    hide Pow2, Scan;
    ScanResult(v, c, p);
    RingFits(v);
  }

  /** What zero-filled memory reads as. */
  const ZERO_ENTRY: Entry := Cqe(0, 0, 0, false, 0, 0, 0, 0, 0, 0, 0, 0, None, [])

  const MIN_JFC_DEPTH := 64

  /**
    Creates a completion queue of at least 64 entries. The doorbell word comes from a shared
    page and may hold anything.
   */
  method CreateJfc(depth: u32, cqeSize: u8, bufOk: bool, dbOk: bool, addr: nat, db: u32) returns (jfc: CompletionQueue?)
    requires depth >= 1 && cqeSize >= 2
    requires RoundupPow2(if depth < MIN_JFC_DEPTH then MIN_JFC_DEPTH else depth) * cqeSize <= 0x8000_0000
    ensures jfc == null <==> !bufOk || !dbOk
    ensures jfc != null ==>
              && fresh(jfc) && fresh(jfc.cq) && jfc.Valid() && Inv(jfc.Value(), 0, 0) && Pending(jfc.Value(), 0, 0) == []
              && jfc.cq.baseblkCnt >= depth && jfc.cq.baseblkCnt >= 64
              && jfc.cq.qbufSize == BufferBytes(if depth < 64 then 64 else depth, cqeSize, 4096)
  {
    hide Pow2, RoundupPow2, CeilLog2, BitLength, BufferBytes;
    assert IsPow2(4096) by {
      Pow2Small();
    }
    var q := new JettyQueue<Entry>.Zeroed();
    var n := if depth < MIN_JFC_DEPTH then MIN_JFC_DEPTH else depth;
    var r := q.AllocQueueBuf(n, cqeSize, 4096, false, ZERO_ENTRY, true, bufOk, addr);
    if r != 0 {
      return null;
    }
    if !dbOk {
      return null;
    }
    EntriesBound(Exp(q), q.baseblkShift, cqeSize, q.qbufSize);
    jfc := new CompletionQueue(q, db);
    InitialRing(jfc.Value());
  }

  /** Entries of two bytes or more leave room for at most 2^30 of them. */
  lemma EntriesBound(k: nat, s: nat, size: u8, bytes: u32)
    requires s == CeilLog2(size) && size >= 2 && Pow2(k) * Pow2(s) == bytes
    ensures k <= 30
  {
    hide Pow2, BitLength;
    RoundupIsLeast(size, 0);
    Pow2Add(k, s);
    Pow2Constants();
    if k + s > 31 {
      Pow2Monotone(32, k + s);
    }
  }

  /** Rebuilds the consumer index, looks up the user context, and steps past an ordinary completion. */
  method ParseEntry(e: Entry, q: SendQ) returns (cr: Option<Cr>)
    requires SendQueueOk(q)
    modifies q`ci, q`flushFlag
    ensures SendQueueOk(q) && (IndexOf(q), cr) == ParseCqe(e, old(IndexOf(q)))
  {
    hide Pow2, And, Or, BitLength, StatusOf, LocalId;
    ghost var k := Exp(q);
    if !e.fd {
      MaskIsMod(Sub32(e.entryIdx, q.ci), k);
      q.ci := Add32(q.ci, And(Sub32(e.entryIdx, q.ci), q.baseblkMask));
    }
    MaskIsMod(q.ci, k);
    var ctx := q.wrid[And(q.ci, q.baseblkMask)];
    var status := StatusOf(e.status, e.substatus);
    if status == None {
      return None;
    }
    if e.fd {
      q.flushFlag := true;
    } else {
      q.ci := Add32(q.ci, 1);
    }
    LocalIdJoin(e);
    var localId := Or(e.localNumH * 0x1_0000, e.localNumL);
    return Some(Cr(if e.fd then WrFlushErrDone else status.value, ctx, e.sR, e.isJetty, e.byteCnt, localId, e.rmtIdx, e.tpn));
  }

  /** The same for a queue among several: the others stay as they are. */
  method Deliver(e: Entry, q: SendQ, ghost sqs: set<SendQ>) returns (cr: Option<Cr>)
    requires AllOk(sqs) && q in sqs
    modifies q`ci, q`flushFlag
    ensures AllOk(sqs)
    ensures |IndexOf(q).wrid| == Pow2(Exp(q))
    ensures var r := ParseCqe(e, old(Indices(sqs)[q])); cr == r.1 && Indices(sqs) == old(Indices(sqs))[q := r.0]
  {
    hide Pow2, BitLength, ParseCqe;
    cr := ParseEntry(e, q);
    assert forall o :: o in sqs && o != q ==> IndexOf(o) == old(IndexOf(o));
  }
}
