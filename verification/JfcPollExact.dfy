/**
  What a polling call answers, told from the pending entries: its return value, the context
  and status of every record it hands out, and what it does to the send queues.
 */
module JfcPollExact {
  import opened Bits
  import opened Common
  import opened CompletionRing
  import opened JfcPoll

  /* The kinds of entries. */

  /** The pairs of status and substatus that mean something. */
  predicate InTable(status: u8, substatus: u8) {
    || (status in {0, 1, 4, 5, 6} && substatus == 0)
    || (status == 2 && 1 <= substatus <= 4)
    || (status == 3 && substatus in {1, 2, 4})
  }

  lemma TableExactly(status: u8, substatus: u8)
    ensures StatusOf(status, substatus).Some? <==> InTable(status, substatus)
    ensures StatusOf(status, substatus) == Some(Success) <==> status == 0 && substatus == 0
    ensures StatusOf(status, substatus) != Some(WrFlushErrDone) && StatusOf(status, substatus) != Some(WrSuspendDone)
  {
  }

  /** The number of a status in the interface. */
  function Code(s: CrStatus): nat {
    match s
    case Success => 0
    case UnsupportedOpcodeErr => 1
    case LocLenErr => 2
    case LocOperationErr => 3
    case LocAccessErr => 4
    case RemRespLenErr => 5
    case RemUnsupportedReqErr => 6
    case RemOperationErr => 7
    case RemAccessAbortErr => 8
    case AckTimeoutErr => 9
    case RnrRetryCntExcErr => 10
    case WrFlushErr => 11
    case WrSuspendDone => 12
    case WrFlushErrDone => 13
    case WrUnhandled => 14
    case LocDataPoison => 15
    case RemDataPoison => 16
  }

  /** Rows by status, columns by substatus; minus one where the pair means nothing. */
  const TABLE: seq<seq<int>> := [
    [0, -1, -1, -1, -1], [1, -1, -1, -1, -1], [-1, 2, 4, 5, 15], [-1, 6, 8, -1, 16],
    [10, -1, -1, -1, -1], [9, -1, -1, -1, -1], [11, -1, -1, -1, -1]]

  /** Looking the pair up in the array, with the range checks, gives the same numbers. */
  lemma TableLookup(status: u8, substatus: u8)
    ensures |TABLE| == 7 && forall i :: 0 <= i < 7 ==> |TABLE[i]| == 5
    ensures StatusOf(status, substatus).Some? <==> status < 7 && substatus < 5 && TABLE[status][substatus] >= 0
    ensures StatusOf(status, substatus).Some? ==> Code(StatusOf(status, substatus).value) == TABLE[status][substatus]
  {
  }

  /** Different entries of the table are different statuses. */
  lemma TableInjective(a: u8, b: u8, x: u8, y: u8)
    requires InTable(a, b) && StatusOf(a, b) == StatusOf(x, y)
    ensures a == x && b == y
  {
    TableExactly(a, b);
    TableExactly(x, y);
  }

  predicate Faulty<Q>(e: Cqe<Q>) {
    e.queue.None? || !InTable(e.status, e.substatus)
  }

  predicate Flushed<Q>(e: Cqe<Q>) {
    !Faulty(e) && e.fd
  }

  predicate Ordinary<Q>(e: Cqe<Q>) {
    !Faulty(e) && !e.fd
  }

  /* One poll. */

  /** What a poll of each kind of entry says, and what the ones that report no block do to the queues. */
  ghost predicate PolledAs<Q>(e: Cqe<Q>, sqs: map<Q, SqIndex>, r: Polled<Q>)
    requires e.queue.Some? ==> e.queue.value in sqs && |sqs[e.queue.value].wrid| == Pow2(sqs[e.queue.value].k)
  {
    && (Faulty(e) ==> r.state == PollErr && r.cr.None?)
    && (e.queue.None? || (e.fd && Faulty(e)) ==> r.sqs == sqs)
    && (Ordinary(e) ==> r.state == PollOk && r.cr.Some?)
    && (Flushed(e) ==>
          var sq := sqs[e.queue.value];
          && r.state == PollEmpty && r.cr.Some? && r.cr.value.status == WrFlushErrDone
          && r.cr.value.userCtx == sq.wrid[sq.ci % Pow2(sq.k)]
          && r.sqs == sqs[e.queue.value := sq.(flushFlag := true)])
  }

  /** The head entry, as the poll finds it. */
  lemma HeadIs<Q>(cq: Cq<Q>, c: nat, p: nat) returns (e: Cqe<Q>)
    requires Inv(cq, c, p) && c < p
    ensures NextCqe(cq, cq.ci) == Some(e) && Payload(e) == Pending(cq, c, p)[0]
    ensures e.queue == Payload(e).queue && Faulty(e) == Faulty(Payload(e)) && e.fd == Payload(e).fd
    ensures e.entryIdx == Payload(e).entryIdx
  {
    hide Pow2, NextCqe, SlotOwner, Pending;
    HeadIsPending(cq, c, p);
    e := NextCqe(cq, cq.ci).value;
  }

  lemma PollOneKinds<Q>(cq: Cq<Q>, sqs: map<Q, SqIndex>, c: nat, p: nat)
    requires Inv(cq, c, p) && c < p && Pollable(cq, sqs, 1)
    ensures var e := Pending(cq, c, p)[0];
            && (e.queue.Some? ==> e.queue.value in sqs && |sqs[e.queue.value].wrid| == Pow2(sqs[e.queue.value].k))
            && PolledAs(e, sqs, PollOne(cq, sqs))
  {
    hide Pow2, NextCqe, SlotOwner, Pending, StatusOf, Inv;
    var e := HeadIs(cq, c, p);
    TableExactly(e.status, e.substatus);
    assert InTable(e.status, e.substatus) == InTable(Payload(e).status, Payload(e).substatus);
    if e.queue.Some? {
      var q := e.queue.value;
      assert sqs[q := sqs[q]] == sqs;
    }
  }

  /**
    A poll says "empty" with a record exactly for a flush marker, "error" exactly for an entry
    that names no queue or has a status outside the table, and "ok" exactly for the others.
   */
  lemma PollOneSays<Q>(cq: Cq<Q>, sqs: map<Q, SqIndex>, c: nat, p: nat)
    requires Inv(cq, c, p) && Pollable(cq, sqs, 1)
    ensures c <= p
    ensures var r := PollOne(cq, sqs);
            && (r.state == PollEmpty && r.cr.Some? <==> c < p && Flushed(Pending(cq, c, p)[0]))
            && (r.state == PollEmpty && r.cr.None? <==> c == p)
            && (r.state == PollErr <==> c < p && Faulty(Pending(cq, c, p)[0]))
            && (r.state == PollOk <==> c < p && Ordinary(Pending(cq, c, p)[0]))
  {
    hide Pow2, NextCqe, SlotOwner, Pending, StatusOf, Inv, PollOne, Pollable, Faulty;
    PollOneTakesHead(cq, sqs, c, p) by {
      PollableParts(cq, sqs, 1);
    }
    if c < p {
      PollOneKinds(cq, sqs, c, p);
    }
  }

  lemma PollableParts<Q>(cq: Cq<Q>, sqs: map<Q, SqIndex>, n: nat)
    requires Pollable(cq, sqs, n)
    ensures Sized(cq) && IndicesOk(sqs) && NamesOnly(cq, sqs.Keys, n)
  {
  }

  /**
    A poll of an entry that reports block s of queue q, whose true consumer position is sc. A
    valid one hands out the context stored for s and leaves the index just past s; one with a
    status outside the table leaves the index at s. Nothing else changes.
   */
  lemma PollOneReportsBlock<Q>(cq: Cq<Q>, sqs: map<Q, SqIndex>, c: nat, p: nat, q: Q, sc: nat, s: nat)
    requires Inv(cq, c, p) && c < p && Pollable(cq, sqs, 1)
    requires var e := Pending(cq, c, p)[0]; e.queue == Some(q) && !e.fd && e.entryIdx == s % 0x1_0000
    requires q in sqs && sqs[q].k <= 16 && sqs[q].ci == sc % TWO_32 && sc <= s < sc + Pow2(sqs[q].k)
    ensures |sqs[q].wrid| == Pow2(sqs[q].k)
    ensures var e, r := Pending(cq, c, p)[0], PollOne(cq, sqs);
            if Faulty(e) then
              r.state == PollErr && r.cr == None && r.sqs == sqs[q := sqs[q].(ci := s % TWO_32)]
            else
              && r.state == PollOk && r.cr.Some? && r.cr.value.userCtx == sqs[q].wrid[s % Pow2(sqs[q].k)]
              && r.sqs == sqs[q := sqs[q].(ci := (s + 1) % TWO_32)]
  {
    hide Pow2, NextCqe, SlotOwner, Pending, StatusOf, Inv, Add32, Sub32;
    var e := HeadIs(cq, c, p);
    TableExactly(e.status, e.substatus);
    assert InTable(e.status, e.substatus) == InTable(Payload(e).status, Payload(e).substatus);
    IndexRebuilt(sc, s, sqs[q].k);
    TruncSlot(s, sqs[q].k);
    NextIndex(s);
  }

  lemma NextIndex(s: nat)
    ensures Add32(s % TWO_32, 1) == (s + 1) % TWO_32
  {
    ModAdd(s, 1, TWO_32);
  }

  /* A polling call. */

  /** How many ordinary entries there are in front, up to n. */
  function Lead<Q>(pend: seq<Cqe<Q>>, n: nat): nat
    decreases n
  {
    if n == 0 || pend == [] || !Ordinary(pend[0]) then 0 else 1 + Lead(pend[1..], n - 1)
  }

  lemma {:induction false} LeadIs<Q>(pend: seq<Cqe<Q>>, n: nat)
    ensures Lead(pend, n) <= n && Lead(pend, n) <= |pend|
    ensures forall i :: 0 <= i < Lead(pend, n) ==> Ordinary(pend[i])
    ensures Lead(pend, n) < n && Lead(pend, n) < |pend| ==> !Ordinary(pend[Lead(pend, n)])
    decreases n
  {
    hide Ordinary;
    if n > 0 && pend != [] && Ordinary(pend[0]) {
      LeadIs(pend[1..], n - 1);
    }
  }

  /** The loop reports the ordinary entries in front, and ends as the next entry says. */
  lemma {:induction false} LoopEnds<Q>(cq: Cq<Q>, sqs: map<Q, SqIndex>, c: nat, p: nat, n: nat)
    requires Inv(cq, c, p) && Pollable(cq, sqs, n)
    ensures var b := PollLoop(cq, sqs, n);
            var pend := Pending(cq, c, p);
            var l := Lead(pend, n);
            && |b.crs| == l <= |pend|
            && b.state == if l == n then PollOk
                          else if l < |pend| && Faulty(pend[l]) then PollErr
                          else PollEmpty
    decreases n
  {
    hide Pow2, SlotOwner, PollOne, Window, NextCqe, Inv, Ordinary, Faulty, Flushed, Pollable, Pending;
    LeadIs(Pending(cq, c, p), n);
    if n > 0 {
      PollableNext(cq, sqs, n);
      var r := PollOne(cq, sqs);
      PollOneSays(cq, sqs, c, p);
      PollOneTakesHead(cq, sqs, c, p) by {
        PollableParts(cq, sqs, 1);
      }
      KindsSplit(cq, c, p);
      if r.state == PollOk {
        LoopEnds(r.cq, r.sqs, c + 1, p, n - 1);
      }
    }
  }

  /** Any entry is of just one kind. */
  lemma KindsSplit<Q>(cq: Cq<Q>, c: nat, p: nat)
    requires Inv(cq, c, p)
    ensures c <= p && |Pending(cq, c, p)| == p - c
    ensures c < p ==> var e := Pending(cq, c, p)[0]; Ordinary(e) <==> !Faulty(e) && !Flushed(e)
  {
  }

  /** After an ordinary poll the rest of the batch can go on. */
  lemma PollableNext<Q>(cq: Cq<Q>, sqs: map<Q, SqIndex>, n: nat)
    requires Pollable(cq, sqs, n) && n > 0
    ensures Pollable(cq, sqs, 1)
    ensures PollOne(cq, sqs).state == PollOk ==> Pollable(PollOne(cq, sqs).cq, PollOne(cq, sqs).sqs, n - 1)
  {
    hide Pow2, NextCqe, NamesOnly;
    NamesFirst(cq, sqs.Keys, n);
    var r := PollOne(cq, sqs);
    assert r.state == PollOk ==> r.cq == cq.(ci := Add32(cq.ci, 1));
  }

  /**
    The return value of the polling call. If the first min(n, p - c) pending entries are ordinary
    it is their number, zero for an empty ring; else the first other entry decides: -1 if it names
    no queue or has a status outside the table, and for a flush marker the number of entries
    before it.
   */
  lemma PollAnswers<Q>(cq: Cq<Q>, sqs: map<Q, SqIndex>, c: nat, p: nat, n: nat)
    requires Inv(cq, c, p) && Pollable(cq, sqs, n)
    ensures c <= p
    ensures var pend, ret := Pending(cq, c, p), PollResult(PollJfc(cq, sqs, n));
            var m := if n < p - c then n else p - c;
            && |pend| == p - c
            && ((forall i :: 0 <= i < m ==> Ordinary(pend[i])) ==> ret == m)
            && (forall i :: 0 <= i < m && !Ordinary(pend[i]) && (forall j :: 0 <= j < i ==> Ordinary(pend[j])) ==>
                  ret == if Faulty(pend[i]) then -1 else i)
  {
    hide Pow2, Inv, Pending, PollLoop, Ordinary, Faulty, Lead, Pollable;
    KindsSplit(cq, c, p);
    LoopEnds(cq, sqs, c, p, n);
    LeadIs(Pending(cq, c, p), n);
  }

  /* The contexts of a whole batch. */

  /** The 32-bit indices of the queues are the truncations of these true positions. */
  ghost predicate Tracks<Q>(sqs: map<Q, SqIndex>, base: map<Q, nat>) {
    && sqs.Keys == base.Keys
    && forall q :: q in sqs ==>
         sqs[q].k <= 16 && |sqs[q].wrid| == Pow2(sqs[q].k) && sqs[q].ci == base[q] % TWO_32
  }

  /** Both entries report blocks, of the same queue. */
  predicate SameBlockQueue<Q(==)>(a: Cqe<Q>, b: Cqe<Q>) {
    a.queue.Some? && a.queue == b.queue && !a.fd && !b.fd
  }

  /** Entry i reports block at[i] of its queue, within one ring of the consumer position and in order. */
  ghost predicate Reported<Q>(pend: seq<Cqe<Q>>, at: seq<nat>, sqs: map<Q, SqIndex>, base: map<Q, nat>)
    requires Tracks(sqs, base)
  {
    && |at| == |pend|
    && (forall i :: 0 <= i < |pend| && pend[i].queue.Some? && !pend[i].fd ==>
          && pend[i].queue.value in sqs && pend[i].entryIdx == at[i] % 0x1_0000
          && base[pend[i].queue.value] <= at[i] < base[pend[i].queue.value] + Pow2(sqs[pend[i].queue.value].k))
    && forall i, j :: 0 <= i < j < |pend| && SameBlockQueue(pend[i], pend[j]) ==> at[i] < at[j]
  }

  /** The true positions once an entry that reports block s has been polled. */
  function Moved<Q>(base: map<Q, nat>, e: Cqe<Q>, s: nat): map<Q, nat> {
    if e.queue.None? || e.fd then base
    else base[e.queue.value := if Faulty(e) then s else s + 1]
  }

  function MovedAll<Q>(base: map<Q, nat>, pend: seq<Cqe<Q>>, at: seq<nat>, t: nat): map<Q, nat>
    requires t <= |pend| == |at|
    decreases t
  {
    if t == 0 then base else MovedAll(Moved(base, pend[0], at[0]), pend[1..], at[1..], t - 1)
  }

  /** Polling changes no ring and no context of any send queue. */
  ghost predicate SameRings<Q>(a: map<Q, SqIndex>, b: map<Q, SqIndex>) {
    a.Keys == b.Keys && forall q :: q in a ==> a[q].k == b[q].k && a[q].wrid == b[q].wrid
  }

  /** A flag is up if it was before, or if the last of the first t entries is a flush marker of its queue. */
  ghost predicate FlagsAfter<Q>(a: map<Q, SqIndex>, b: map<Q, SqIndex>, pend: seq<Cqe<Q>>, t: nat) {
    && t <= |pend| && a.Keys == b.Keys
    && forall q :: q in a ==>
         (b[q].flushFlag <==> a[q].flushFlag || (t > 0 && Flushed(pend[t - 1]) && pend[t - 1].queue == Some(q)))
  }

  lemma FlagsChain<Q>(a: map<Q, SqIndex>, b: map<Q, SqIndex>, d: map<Q, SqIndex>, pend: seq<Cqe<Q>>, u: nat)
    requires pend != [] && Ordinary(pend[0]) && FlagsAfter(a, b, pend, 1) && FlagsAfter(b, d, pend[1..], u)
    ensures FlagsAfter(a, d, pend, u + 1)
  {
    hide Faulty;
  }

  lemma FlagsNone<Q>(a: map<Q, SqIndex>, pend: seq<Cqe<Q>>)
    ensures FlagsAfter(a, a, pend, 0)
  {
  }

  /** One poll among several queues. */
  lemma PollOneTracks<Q>(cq: Cq<Q>, sqs: map<Q, SqIndex>, c: nat, p: nat, at: seq<nat>, base: map<Q, nat>)
    requires Inv(cq, c, p) && c < p && Pollable(cq, sqs, 1)
    requires Tracks(sqs, base) && Reported(Pending(cq, c, p), at, sqs, base)
    ensures var e, r := Pending(cq, c, p)[0], PollOne(cq, sqs);
            && |at| > 0 && Tracks(r.sqs, Moved(base, e, at[0])) && SameRings(sqs, r.sqs)
            && FlagsAfter(sqs, r.sqs, Pending(cq, c, p), 1)
            && (Ordinary(e) ==> r.cr.Some? && HandsOut([r.cr.value], Pending(cq, c, p), at, sqs))
  {
    hide Pow2, NextCqe, SlotOwner, Pending, Inv, PollOne, Pollable, InTable, NamesOnly;
    KindsSplit(cq, c, p);
    var e := Pending(cq, c, p)[0];
    PollOneKinds(cq, sqs, c, p);
    if e.queue.Some? && !e.fd {
      PollOneReportsBlock(cq, sqs, c, p, e.queue.value, base[e.queue.value], at[0]);
    }
  }

  lemma ReportedTail<Q>(pend: seq<Cqe<Q>>, at: seq<nat>, sqs: map<Q, SqIndex>, base: map<Q, nat>, sqs': map<Q, SqIndex>)
    requires pend != [] && Tracks(sqs, base) && Reported(pend, at, sqs, base) && Ordinary(pend[0])
    requires Tracks(sqs', Moved(base, pend[0], at[0])) && SameRings(sqs, sqs')
    ensures Reported(pend[1..], at[1..], sqs', Moved(base, pend[0], at[0]))
  {
    hide Pow2, InTable;
    var base' := Moved(base, pend[0], at[0]);
    var rest, at' := pend[1..], at[1..];
    forall i | 0 <= i < |rest| && rest[i].queue.Some? && !rest[i].fd
      ensures rest[i].queue.value in sqs' && rest[i].entryIdx == at'[i] % 0x1_0000
      ensures base'[rest[i].queue.value] <= at'[i] < base'[rest[i].queue.value] + Pow2(sqs'[rest[i].queue.value].k)
    {
      assert rest[i] == pend[i + 1] && at'[i] == at[i + 1];
    }
  }

  /** Record i hands out the context of block at[i]. */
  ghost predicate HandsOut<Q>(crs: seq<Cr>, pend: seq<Cqe<Q>>, at: seq<nat>, sqs: map<Q, SqIndex>) {
    && |crs| <= |pend| == |at|
    && forall i :: 0 <= i < |crs| ==>
         && pend[i].queue.Some? && pend[i].queue.value in sqs
         && |sqs[pend[i].queue.value].wrid| == Pow2(sqs[pend[i].queue.value].k)
         && crs[i].userCtx == sqs[pend[i].queue.value].wrid[at[i] % Pow2(sqs[pend[i].queue.value].k)]
  }

  lemma BatchGrows<Q>(pend: seq<Cqe<Q>>, at: seq<nat>, sqs: map<Q, SqIndex>, sqs': map<Q, SqIndex>, cr: Cr, crs: seq<Cr>)
    requires pend != [] && |at| == |pend| && SameRings(sqs, sqs') && HandsOut(crs, pend[1..], at[1..], sqs')
    requires HandsOut([cr], pend, at, sqs)
    ensures HandsOut([cr] + crs, pend, at, sqs)
  {
    hide Pow2;
    var all := [cr] + crs;
    forall i | 0 <= i < |all|
      ensures pend[i].queue.Some? && pend[i].queue.value in sqs
      ensures |sqs[pend[i].queue.value].wrid| == Pow2(sqs[pend[i].queue.value].k)
      ensures all[i].userCtx == sqs[pend[i].queue.value].wrid[at[i] % Pow2(sqs[pend[i].queue.value].k)]
    {
      if i == 0 {
        assert all[0] == [cr][0];
      } else {
        assert all[i] == crs[i - 1] && pend[i] == pend[1..][i - 1] && at[i] == at[1..][i - 1];
      }
    }
  }

  /**
    Every record of a batch hands out the context stored for the block its entry reports, however
    many queues the entries belong to, and the index of each queue ends where the entries taken
    say. A flush flag goes up exactly when the last entry taken is a flush marker of its queue.
   */
  lemma {:induction false} LoopReportsBlocks<Q>(cq: Cq<Q>, sqs: map<Q, SqIndex>, c: nat, p: nat, n: nat, at: seq<nat>,
                                               base: map<Q, nat>) returns (t: nat)
    requires Inv(cq, c, p) && Pollable(cq, sqs, n)
    requires Tracks(sqs, base) && Reported(Pending(cq, c, p), at, sqs, base)
    ensures var b := PollLoop(cq, sqs, n);
            var pend := Pending(cq, c, p);
            && |b.crs| <= t <= |b.crs| + 1 && t <= |pend| == |at| && c + t <= p && Inv(b.cq, c + t, p)
            && HandsOut(b.crs, pend, at, sqs)
            && Tracks(b.sqs, MovedAll(base, pend, at, t)) && SameRings(sqs, b.sqs)
            && FlagsAfter(sqs, b.sqs, pend, t)
    decreases n
  {
    hide Pow2, SlotOwner, PollOne, NextCqe, Inv, Ordinary, Faulty, Flushed, Pollable, Pending, Tracks, Reported, SameRings, Moved, HandsOut, FlagsAfter;
    KindsSplit(cq, c, p);
    LengthsAgree(Pending(cq, c, p), at, sqs, base);
    SameRingsRefl(sqs);
    HandsOutNone(Pending(cq, c, p), at, sqs);
    FlagsNone(sqs, Pending(cq, c, p));
    t := 0;
    if n > 0 {
      PollableNext(cq, sqs, n);
      var r := PollOne(cq, sqs);
      var pend := Pending(cq, c, p);
      PollOneSays(cq, sqs, c, p);
      PollOneTakesHead(cq, sqs, c, p) by {
        PollableParts(cq, sqs, 1);
      }
      if c < p {
        t := 1;
        PollOneTracks(cq, sqs, c, p, at, base);
        assert MovedAll(base, pend, at, 1) == Moved(base, pend[0], at[0]);
        if r.state == PollOk {
          ReportedTail(pend, at, sqs, base, r.sqs);
          var u := LoopReportsBlocks(r.cq, r.sqs, c + 1, p, n - 1, at[1..], Moved(base, pend[0], at[0]));
          t := u + 1;
          BatchGrows(pend, at, sqs, r.sqs, r.cr.value, PollLoop(r.cq, r.sqs, n - 1).crs);
          FlagsChain(sqs, r.sqs, PollLoop(r.cq, r.sqs, n - 1).sqs, pend, u);
          SameRingsTrans(sqs, r.sqs, PollLoop(r.cq, r.sqs, n - 1).sqs);
        }
      }
    }
  }

  lemma LengthsAgree<Q>(pend: seq<Cqe<Q>>, at: seq<nat>, sqs: map<Q, SqIndex>, base: map<Q, nat>)
    requires Tracks(sqs, base) && Reported(pend, at, sqs, base)
    ensures |pend| == |at|
  {
  }

  lemma HandsOutNone<Q>(pend: seq<Cqe<Q>>, at: seq<nat>, sqs: map<Q, SqIndex>)
    requires |pend| == |at|
    ensures HandsOut([], pend, at, sqs)
  {
  }

  lemma SameRingsRefl<Q>(a: map<Q, SqIndex>)
    ensures SameRings(a, a)
  {
  }

  lemma SameRingsTrans<Q>(a: map<Q, SqIndex>, b: map<Q, SqIndex>, d: map<Q, SqIndex>)
    requires SameRings(a, b) && SameRings(b, d)
    ensures SameRings(a, d)
  {
  }
}
