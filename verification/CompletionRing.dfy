/**
  The completion ring as values: entries, the phase (owner) bit that says which entries
  are new, and the FIFO the ring stands for. Positions are unbounded; the ring itself
  only keeps a 32-bit consumer index.
 */
module CompletionRing {
  import opened Bits
  import opened Common

  const DB_CI_MODULUS: int := 0x40_0000    // the doorbell carries 22 bits

  /**
    A completion entry. Q names the send queue the entry points at; `rest` stands for the
    words that consumers copy but never read.
   */
  datatype Cqe<Q> = Cqe(
    owner: bit, sR: bit, isJetty: bit, fd: bool, substatus: u8, status: u8,
    entryIdx: u16, localNumL: u16, localNumH: u4, rmtIdx: nat, tpn: nat, byteCnt: u32,
    queue: Option<Q>, rest: seq<u32>)

  /** The mask of 22 bits is the doorbell modulus. */
  lemma DoorbellMask(ci: u32)
    ensures And(ci, 0x3f_ffff) == ci % DB_CI_MODULUS && DB_CI_MODULUS == Pow2(22)
  {
    hide And, Pow2;
    Pow2Constants();
    MaskIsMod(ci, 22);
  }

  /** The queue number, split over two fields of 16 and 4 bits. */
  function LocalId<Q>(e: Cqe<Q>): nat {
    e.localNumH * 0x1_0000 + e.localNumL
  }

  /** Whether an entry carries queue number j, told from its two number fields. */
  predicate Numbered<Q>(e: Cqe<Q>, j: nat) {
    e.localNumH == j / 0x1_0000 && e.localNumL == j % 0x1_0000
  }

  /** Both fields count: two numbers that agree in the low sixteen bits are different queues. */
  lemma LocalIdFields<Q>(e: Cqe<Q>, j: nat)
    ensures LocalId(e) == j <==> Numbered(e, j)
    ensures LocalId(e) < 0x10_0000
  {
  }

  /** Joining the shifted high part and the low part gives the number. */
  lemma LocalIdJoin<Q>(e: Cqe<Q>)
    ensures Or(e.localNumH * 0x1_0000, e.localNumL) == LocalId(e)
  {
    assert Pow2(16) == 0x1_0000 by {
      Pow2Small();
    }
    OrShift(e.localNumH, e.localNumL, 16);
  }

  /** What an entry says, apart from the phase bit of the slot it sits in. */
  function Payload<Q>(e: Cqe<Q>): Cqe<Q> {
    e.(owner := 0)
  }

  /** The payload keeps everything but the phase bit. */
  lemma PayloadKeeps<Q>(a: Cqe<Q>, b: Cqe<Q>)
    ensures Payload(a) == Payload(b) <==> a == b.(owner := a.owner)
  {
  }

  /** A completion ring of 2^k entries with its 32-bit consumer index and software doorbell. */
  datatype Cq<Q> = Cq(k: nat, ring: seq<Cqe<Q>>, ci: u32, swDb: u32)

  ghost predicate Sized<Q>(cq: Cq<Q>) {
    cq.k <= 30 && |cq.ring| == Pow2(cq.k)
  }

  function At<Q>(ring: seq<Cqe<Q>>, pos: nat): Cqe<Q>
    requires |ring| > 0
  {
    ring[pos % |ring|]
  }

  function Put<Q>(ring: seq<Cqe<Q>>, pos: nat, e: Cqe<Q>): (r: seq<Cqe<Q>>)
    requires |ring| > 0
  {
    ring[pos % |ring| := e]
  }

  lemma PutAt<Q>(ring: seq<Cqe<Q>>, pos: nat, e: Cqe<Q>, lo: nat, x: nat)
    requires |ring| > 0 && lo <= pos < lo + |ring| && lo <= x < lo + |ring|
    ensures At(Put(ring, pos, e), x) == if x == pos then e else At(ring, x)
  {
    if x < pos {
      SlotsDistinct(x, pos, |ring|);
    } else if pos < x {
      SlotsDistinct(pos, x, |ring|);
    }
  }

  /** The payloads at the positions lo, lo + 1, ..., hi - 1. */
  function Window<Q>(ring: seq<Cqe<Q>>, lo: nat, hi: nat): (w: seq<Cqe<Q>>)
    requires |ring| > 0 && lo <= hi
    ensures |w| == hi - lo
    ensures forall x {:trigger At(ring, x)} :: lo <= x < hi ==> w[x - lo] == Payload(At(ring, x))
  {
    seq(hi - lo, i requires 0 <= i < hi - lo => Payload(At(ring, lo + i)))
  }

  lemma WindowIs<Q>(ring: seq<Cqe<Q>>, lo: nat, hi: nat, s: seq<Cqe<Q>>)
    requires |ring| > 0 && lo <= hi && |s| == hi - lo
    requires forall x {:trigger At(ring, x)} :: lo <= x < hi ==> Payload(At(ring, x)) == s[x - lo]
    ensures Window(ring, lo, hi) == s
  {
    forall i | 0 <= i < |s|
      ensures Window(ring, lo, hi)[i] == s[i]
    {
      assert Payload(At(ring, lo + i)) == s[lo + i - lo];
    }
  }

  /** The entry at index n when its phase bit differs from the one of the current lap. */
  function NextCqe<Q>(cq: Cq<Q>, n: u32): Option<Cqe<Q>>
    requires |cq.ring| == Pow2(cq.k)
  {
    var e := At(cq.ring, n);
    if e.owner == cq.ci / Pow2(cq.k) % 2 then None else Some(e)
  }

  /** The phase bit that the device writes at a position: it flips on each lap, starting with 1. */
  function LapOwner(pos: nat, k: nat): bit {
    1 - pos / Pow2(k) % 2
  }

  /** The phase bit of slot j after p entries have been produced in all. */
  function SlotOwner(p: nat, j: nat, k: nat): bit {
    if j < p % Pow2(k) then 1 - p / Pow2(k) % 2 else p / Pow2(k) % 2
  }

  /**
    The ring invariant, for c entries consumed and p produced: at most one lap is
    outstanding, the 32-bit index is the truncated c, and every phase bit is the one the
    last write to its slot left there (zero before the first).
   */
  ghost predicate Inv<Q>(cq: Cq<Q>, c: nat, p: nat) {
    && Sized(cq)
    && c <= p <= c + Pow2(cq.k)
    && cq.ci == c % TWO_32
    && forall j :: 0 <= j < |cq.ring| ==> cq.ring[j].owner == SlotOwner(p, j, cq.k)
  }

  /** The FIFO a ring stands for. */
  ghost function Pending<Q>(cq: Cq<Q>, c: nat, p: nat): seq<Cqe<Q>>
    requires Inv(cq, c, p)
  {
    Window(cq.ring, c, p)
  }

  /** The device writes its next entry, with the phase of its lap. */
  function Produce<Q>(cq: Cq<Q>, p: nat, e: Cqe<Q>): Cq<Q>
    requires |cq.ring| == Pow2(cq.k)
  {
    cq.(ring := Put(cq.ring, p, e.(owner := LapOwner(p, cq.k))))
  }

  lemma InitialRing<Q>(cq: Cq<Q>)
    requires Sized(cq) && cq.ci == 0
    requires forall j :: 0 <= j < |cq.ring| ==> cq.ring[j].owner == 0
    ensures Inv(cq, 0, 0) && Pending(cq, 0, 0) == []
  {
  }

  /**
    Whether the slot of position c + i reads as new. The test compares with the lap of the
    consumer index and not with the lap of the position, so it also answers for slots that
    were consumed or not yet written.
   */
  predicate ReadsAsNew(c: nat, p: nat, i: nat, cnt: nat)
    requires cnt > 0
  {
    if p / cnt == c / cnt then (c + i) % cnt < p % cnt else (c + i) % cnt >= p % cnt
  }

  lemma OwnerAgainstLap(c: nat, p: nat, j: nat, k: nat)
    requires c <= p <= c + Pow2(k)
    ensures SlotOwner(p, j, k) != c / Pow2(k) % 2 <==>
            if p / Pow2(k) == c / Pow2(k) then j < p % Pow2(k) else j >= p % Pow2(k)
  {
    hide Pow2;
    SlotOffset(c, p - c, Pow2(k));
    LapParity(c / Pow2(k));
  }

  lemma PhaseTest<Q>(cq: Cq<Q>, c: nat, p: nat, i: nat)
    requires Inv(cq, c, p)
    ensures NextCqe(cq, Add32(cq.ci, i)) ==
            if ReadsAsNew(c, p, i, Pow2(cq.k)) then Some(At(cq.ring, c + i)) else None
  {
    hide Pow2, SlotOwner;
    ModAdd(c, i, TWO_32);
    TruncSlot(c + i, cq.k);
    TruncLap(c, cq.k);
    OwnerAgainstLap(c, p, (c + i) % Pow2(cq.k), cq.k);
  }

  /** Position by position: new up to the outstanding count, within the lap of the consumer. */
  lemma NewWithinLap(c: nat, p: nat, i: nat, cnt: nat)
    requires cnt > 0 && c <= p <= c + cnt && i <= cnt
    ensures var o, m := c % cnt, p - c;
            && (o + m < cnt && i <= m ==> (ReadsAsNew(c, p, i, cnt) <==> i < m))
            && (o + m > cnt && i <= cnt - o ==> (ReadsAsNew(c, p, i, cnt) <==> i < cnt - o))
            && (o + m == cnt ==> ReadsAsNew(c, p, i, cnt))
  {
    SlotOffset(c, i, cnt);
    SlotOffset(c, p - c, cnt);
  }

  lemma LapParity(q: nat)
    ensures (q + 1) % 2 == 1 - q % 2
  {
  }

  /** The test a poll makes answers "new" exactly when something is pending, and then shows its head. */
  lemma HeadIsPending<Q>(cq: Cq<Q>, c: nat, p: nat)
    requires Inv(cq, c, p)
    ensures NextCqe(cq, cq.ci).Some? <==> c < p
    ensures c < p ==> Payload(NextCqe(cq, cq.ci).value) == Pending(cq, c, p)[0]
  {
    hide Pow2, SlotOwner, ReadsAsNew, NextCqe, At;
    PhaseTest(cq, c, p, 0);
    SmallIndex(cq.ci);
    NewWithinLap(c, p, 0, Pow2(cq.k));
  }

  lemma SmallIndex(x: u32)
    ensures Add32(x, 0) == x
  {
  }

  lemma ConsumeOne<Q>(cq: Cq<Q>, c: nat, p: nat, db: u32)
    requires Inv(cq, c, p) && c < p
    ensures var cq' := cq.(ci := Add32(cq.ci, 1), swDb := db);
            Inv(cq', c + 1, p) && Pending(cq', c + 1, p) == Pending(cq, c, p)[1..]
  {
    ModAdd(c, 1, TWO_32);
  }

  lemma OwnerAfterWrite(p: nat, j: nat, k: nat)
    requires j < Pow2(k)
    ensures SlotOwner(p + 1, j, k) == if j == p % Pow2(k) then LapOwner(p, k) else SlotOwner(p, j, k)
  {
    hide Pow2;
    SlotOffset(p, 1, Pow2(k));
    LapParity(p / Pow2(k));
  }

  /** A device write appends to the FIFO and leaves everything else as it was. */
  lemma ProduceAppends<Q>(cq: Cq<Q>, c: nat, p: nat, e: Cqe<Q>)
    requires Inv(cq, c, p) && p < c + Pow2(cq.k)
    ensures Inv(Produce(cq, p, e), c, p + 1)
    ensures Pending(Produce(cq, p, e), c, p + 1) == Pending(cq, c, p) + [Payload(e)]
  {
    hide Pow2, SlotOwner, At, Put, LapOwner;
    var cq' := Produce(cq, p, e);
    var w := e.(owner := LapOwner(p, cq.k));
    WriteSlot(cq.ring, p, w);
    forall j | 0 <= j < |cq'.ring|
      ensures cq'.ring[j].owner == SlotOwner(p + 1, j, cq.k)
    {
      OwnerAfterWrite(p, j, cq.k);
    }
    var s := Pending(cq, c, p) + [Payload(e)];
    forall x {:trigger At(cq'.ring, x)} | c <= x < p + 1
      ensures Payload(At(cq'.ring, x)) == s[x - c]
    {
      PutAt(cq.ring, p, w, c, x);
    }
    WindowIs(cq'.ring, c, p + 1, s);
  }

  lemma WriteSlot<Q>(ring: seq<Cqe<Q>>, pos: nat, e: Cqe<Q>)
    requires |ring| > 0
    ensures |Put(ring, pos, e)| == |ring|
    ensures forall j :: 0 <= j < |ring| ==> Put(ring, pos, e)[j] == if j == pos % |ring| then e else ring[j]
  {
  }

  /* Removing the entries of given queues from a sequence. */

  function Drop<Q>(s: seq<Cqe<Q>>, ids: set<nat>): (r: seq<Cqe<Q>>)
    ensures |r| <= |s|
    ensures forall e :: e in r ==> e in s && LocalId(e) !in ids
  {
    if s == [] then [] else (if LocalId(s[0]) in ids then [] else [s[0]]) + Drop(s[1..], ids)
  }

  lemma DropOfNone<Q>(ids: set<nat>)
    ensures Drop<Q>([], ids) == []
  {
  }

  lemma DropStep<Q>(e: Cqe<Q>, s: seq<Cqe<Q>>, ids: set<nat>)
    ensures Drop([e] + s, ids) == (if LocalId(e) in ids then [] else [e]) + Drop(s, ids)
  {
    hide LocalId;
    assert ([e] + s)[1..] == s;
  }

  lemma {:induction false} DropConcat<Q>(a: seq<Cqe<Q>>, b: seq<Cqe<Q>>, ids: set<nat>)
    ensures Drop(a + b, ids) == Drop(a, ids) + Drop(b, ids)
  {
    hide Drop, LocalId;
    if a == [] {
      assert a + b == b;
      DropOfNone<Q>(ids);
    } else {
      assert a + b == [a[0]] + (a[1..] + b);
      assert a == [a[0]] + a[1..];
      DropStep(a[0], a[1..] + b, ids);
      DropStep(a[0], a[1..], ids);
      DropConcat(a[1..], b, ids);
    }
  }

  lemma {:induction false} DropTwice<Q>(s: seq<Cqe<Q>>, few: set<nat>, many: set<nat>)
    requires few <= many
    ensures Drop(Drop(s, few), many) == Drop(s, many)
  {
    if s != [] {
      DropTwice(s[1..], few, many);
      var h := if LocalId(s[0]) in few then [] else [s[0]];
      DropConcat(h, Drop(s[1..], few), many);
    }
  }

  lemma {:induction false} DropNothing<Q>(s: seq<Cqe<Q>>, ids: set<nat>)
    ensures (forall e :: e in s ==> LocalId(e) !in ids) <==> Drop(s, ids) == s
    ensures (forall e :: e in s ==> LocalId(e) !in ids) <==> |Drop(s, ids)| == |s|
  {
    if s != [] {
      DropNothing(s[1..], ids);
      assert s == [s[0]] + s[1..];
      if LocalId(s[0]) in ids {
        assert s[0] in s;
      }
    }
  }

  /** The entries of other queues, told from the number fields, from the last one back. */
  function Others<Q>(s: seq<Cqe<Q>>, j: nat): seq<Cqe<Q>>
    decreases |s|
  {
    if s == [] then []
    else
      var last := s[|s| - 1];
      Others(s[..|s| - 1], j) + if Numbered(last, j) then [] else [last]
  }

  lemma {:induction false} OthersIsDrop<Q>(s: seq<Cqe<Q>>, j: nat)
    ensures Others(s, j) == Drop(s, {j})
    decreases |s|
  {
    hide LocalId, Numbered, Drop;
    if s == [] {
      DropOfNone<Q>({j});
    } else {
      var front, last := s[..|s| - 1], s[|s| - 1];
      OthersIsDrop(front, j);
      assert s == front + [last];
      DropConcat(front, [last], {j});
      assert [last] == [last] + [];
      DropStep(last, [], {j});
      DropOfNone<Q>({j});
      LocalIdFields(last, j);
    }
  }
}
