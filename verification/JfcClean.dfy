/**
  Removing one queue's entries from the completion ring in place: the upward scan by the
  phase test, the downward compaction, and exactly when the two together are a stable
  filter of the outstanding FIFO.
 */
module JfcClean {
  import opened Bits
  import opened Common
  import opened CompletionRing

  /* The upward scan. */

  /**
    Steps the scan takes from `i` on, or None when it never stops: after 2^32 steps the
    32-bit index is back where it was with nothing changed.
   */
  function Scan<Q>(cq: Cq<Q>, i: nat): Option<nat>
    requires |cq.ring| == Pow2(cq.k) && i <= TWO_32
    decreases TWO_32 - i
  {
    var pi := Add32(cq.ci, i);
    if NextCqe(cq, pi) == None || pi > Add32(cq.ci, Pow2(cq.k)) then Some(i)
    else if i == TWO_32 then None
    else Scan(cq, i + 1)
  }

  lemma {:induction false} ScanPassesOver<Q>(cq: Cq<Q>, i: nat, j: nat)
    requires |cq.ring| == Pow2(cq.k) && i <= j <= TWO_32
    requires forall x :: i <= x < j ==> NextCqe(cq, Add32(cq.ci, x)) != None && Add32(cq.ci, x) <= Add32(cq.ci, Pow2(cq.k))
    ensures Scan(cq, i) == Scan(cq, j)
    decreases j - i
  {
    if i < j {
      ScanPassesOver(cq, i + 1, j);
    }
  }

  /** The index limit of the scan, which wraps with the 32-bit index. */
  predicate LimitWraps<Q>(cq: Cq<Q>) {
    cq.ci + Pow2(cq.k) >= TWO_32
  }

  lemma NoWrap(a: nat, i: nat)
    requires a < TWO_32 && i < TWO_32
    ensures Add32(a, i) == if a + i < TWO_32 then a + i else a + i - TWO_32
  {
  }

  /** Exactly how far the scan goes, for every ring state. */
  lemma ScanResult<Q>(cq: Cq<Q>, c: nat, p: nat)
    requires Inv(cq, c, p)
    ensures var cnt := Pow2(cq.k);
            var o, m := c % cnt, p - c;
            Scan(cq, 0) ==
              if LimitWraps(cq) then Some(0)
              else if o + m < cnt then Some(m)
              else if o + m > cnt then Some(cnt - o)
              else if cq.ci + cnt + 1 == TWO_32 then None
              else Some(cnt + 1)
  {
    hide Pow2, NextCqe, ReadsAsNew;
    var cnt := Pow2(cq.k);
    var o, m := c % cnt, p - c;
    RingFits(cq);
    NoWrap(cq.ci, 0);
    NoWrap(cq.ci, cnt);
    PhaseTest(cq, c, p, 0);
    NewWithinLap(c, p, 0, cnt);
    if LimitWraps(cq) {
    } else if o + m == cnt {
      ScanAllNew(cq, c, p);
    } else {
      var w := if o + m < cnt then m else cnt - o;
      forall x | 0 <= x <= w
        ensures NextCqe(cq, Add32(cq.ci, x)) != None <==> x < w
        ensures Add32(cq.ci, x) <= Add32(cq.ci, cnt)
      {
        PhaseTest(cq, c, p, x);
        NewWithinLap(c, p, x, cnt);
        NoWrap(cq.ci, x);
      }
      ScanPassesOver(cq, 0, w);
    }
  }

  lemma RingFits<Q>(cq: Cq<Q>)
    requires Sized(cq)
    ensures 1 <= Pow2(cq.k) <= 0x4000_0000
  {
    Pow2Monotone(cq.k, 30);
    Pow2Constants();
    assert Pow2(31) == 2 * Pow2(30);
  }

  /** When every slot reads as new, only the index limit can stop the scan. */
  lemma ScanAllNew<Q>(cq: Cq<Q>, c: nat, p: nat)
    requires Inv(cq, c, p) && !LimitWraps(cq)
    requires c % Pow2(cq.k) + (p - c) == Pow2(cq.k)
    ensures Scan(cq, 0) == if cq.ci + Pow2(cq.k) + 1 == TWO_32 then None else Some(Pow2(cq.k) + 1)
  {
    hide Pow2, NextCqe, ReadsAsNew;
    var cnt := Pow2(cq.k);
    RingFits(cq);
    NoWrap(cq.ci, cnt);
    forall x: nat
      ensures NextCqe(cq, Add32(cq.ci, x)) != None
    {
      AllNew(cq, c, p, x);
    }
    if cq.ci + cnt + 1 == TWO_32 {
      ScanPassesOver(cq, 0, TWO_32);
    } else {
      forall x | 0 <= x <= cnt + 1
        ensures Add32(cq.ci, x) == cq.ci + x
      {
        NoWrap(cq.ci, x);
      }
      ScanPassesOver(cq, 0, cnt + 1);
    }
  }

  lemma AllNew<Q>(cq: Cq<Q>, c: nat, p: nat, i: nat)
    requires Inv(cq, c, p) && c % Pow2(cq.k) + (p - c) == Pow2(cq.k)
    ensures NextCqe(cq, Add32(cq.ci, i)) != None
  {
    hide Pow2, NextCqe;
    PhaseTest(cq, c, p, i);
    SlotOffset(c, p - c, Pow2(cq.k));
  }

  /* The downward compaction. */

  /**
    Visits the positions i - 1, i - 2, ..., lo. Entries of queue j are counted in f; any
    other entry moves up by f, while the phase bit of the slot it lands in stays.
   */
  function Compact<Q>(ring: seq<Cqe<Q>>, lo: nat, i: nat, f: nat, j: nat): (seq<Cqe<Q>>, nat)
    requires |ring| > 0 && lo <= i
    decreases i
  {
    if i == lo then (ring, f)
    else
      var e := At(ring, i - 1);
      if LocalId(e) == j then Compact(ring, lo, i - 1, f + 1, j)
      else if f > 0 then
        Compact(Put(ring, i - 1 + f, e.(owner := At(ring, i - 1 + f).owner)), lo, i - 1, f, j)
      else Compact(ring, lo, i - 1, f, j)
  }

  /**
    What the compaction has achieved when it has visited i .. hi - 1: the kept payloads sit
    right-aligned below hi in their old order, no other slot has changed, no phase bit has.
   */
  ghost predicate Compacted<Q>(orig: seq<Cqe<Q>>, ring: seq<Cqe<Q>>, lo: nat, i: nat, hi: nat, f: nat, j: nat)
    requires |orig| > 0
  {
    && |ring| == |orig| && lo <= i <= hi <= lo + |orig|
    && var kept := Drop(Window(orig, i, hi), {j});
    && f == hi - i - |kept|
    && (forall x {:trigger At(ring, x)} :: i + f <= x < hi ==> Payload(At(ring, x)) == kept[x - (i + f)])
    && (forall x {:trigger At(ring, x)} :: lo <= x < i + f || hi <= x < lo + |ring| ==> At(ring, x) == At(orig, x))
    && SameOwners(orig, ring)
  }

  ghost predicate SameOwners<Q>(orig: seq<Cqe<Q>>, ring: seq<Cqe<Q>>) {
    |ring| == |orig| && forall s :: 0 <= s < |ring| ==> ring[s].owner == orig[s].owner
  }

  lemma WindowStep<Q>(ring: seq<Cqe<Q>>, i: nat, hi: nat)
    requires |ring| > 0 && 0 < i <= hi
    ensures Window(ring, i - 1, hi) == [Payload(At(ring, i - 1))] + Window(ring, i, hi)
  {
  }

  lemma CompactOne<Q>(orig: seq<Cqe<Q>>, ring: seq<Cqe<Q>>, lo: nat, i: nat, hi: nat, f: nat, j: nat)
    requires |orig| > 0 && Compacted(orig, ring, lo, i, hi, f, j) && lo < i
    ensures var e := At(ring, i - 1);
            if LocalId(e) == j then Compacted(orig, ring, lo, i - 1, hi, f + 1, j)
            else if f > 0 then
              Compacted(orig, Put(ring, i - 1 + f, e.(owner := At(ring, i - 1 + f).owner)), lo, i - 1, hi, f, j)
            else Compacted(orig, ring, lo, i - 1, hi, f, j)
  {
    hide At, Put, Drop, Window;
    var e := At(ring, i - 1);
    assert e == At(orig, i - 1);
    WindowStep(orig, i, hi);
    DropStep(Payload(e), Window(orig, i, hi), {j});
    assert LocalId(Payload(e)) == LocalId(e);
    if LocalId(e) != j && f > 0 {
      var w := e.(owner := At(ring, i - 1 + f).owner);
      WriteOwnerKept(ring, i - 1 + f, w);
      var ring' := Put(ring, i - 1 + f, w);
      forall x {:trigger At(ring', x)} | lo <= x < lo + |ring|
        ensures At(ring', x) == if x == i - 1 + f then w else At(ring, x)
      {
        PutAt(ring, i - 1 + f, w, lo, x);
      }
      var kept, kept' := Drop(Window(orig, i, hi), {j}), Drop(Window(orig, i - 1, hi), {j});
      assert kept' == [Payload(e)] + kept;
      assert f == hi - (i - 1) - |kept'|;
      forall x {:trigger At(ring', x)} | i - 1 + f <= x < hi
        ensures Payload(At(ring', x)) == kept'[x - (i - 1 + f)]
      {
        if x == i - 1 + f {
          assert Payload(w) == Payload(e);
        }
      }
      assert forall x {:trigger At(ring', x)} :: lo <= x < i - 1 + f || hi <= x < lo + |ring| ==> At(ring', x) == At(orig, x);
      assert SameOwners(orig, ring');
    }
  }

  lemma WriteOwnerKept<Q>(ring: seq<Cqe<Q>>, pos: nat, w: Cqe<Q>)
    requires |ring| > 0 && w.owner == At(ring, pos).owner
    ensures SameOwners(ring, Put(ring, pos, w))
  {
  }

  lemma {:induction false} CompactRest<Q>(orig: seq<Cqe<Q>>, ring: seq<Cqe<Q>>, lo: nat, i: nat, hi: nat, f: nat, j: nat)
    requires |orig| > 0 && Compacted(orig, ring, lo, i, hi, f, j)
    ensures var (ring', f') := Compact(ring, lo, i, f, j); Compacted(orig, ring', lo, lo, hi, f', j)
    decreases i
  {
    hide At, Put, Window, Drop, LocalId;
    if lo < i {
      CompactOne(orig, ring, lo, i, hi, f, j);
      var e := At(ring, i - 1);
      if LocalId(e) == j {
        CompactRest(orig, ring, lo, i - 1, hi, f + 1, j);
      } else if f > 0 {
        CompactRest(orig, Put(ring, i - 1 + f, e.(owner := At(ring, i - 1 + f).owner)), lo, i - 1, hi, f, j);
      } else {
        CompactRest(orig, ring, lo, i - 1, hi, f, j);
      }
    }
  }

  /** Compacting at most one lap is a stable in-place filter. */
  lemma CompactFilters<Q>(ring: seq<Cqe<Q>>, lo: nat, hi: nat, j: nat)
    requires 0 <= hi - lo <= |ring| && |ring| > 0
    ensures var (ring', f) := Compact(ring, lo, hi, 0, j); Compacted(ring, ring', lo, lo, hi, f, j)
    ensures Drop(Window(ring, lo, hi), {j}) == Others(Window(ring, lo, hi), j)
  {
    OthersIsDrop(Window(ring, lo, hi), j);
    assert Window(ring, hi, hi) == [];
    assert Compacted(ring, ring, lo, hi, hi, 0, j);
    CompactRest(ring, ring, lo, hi, hi, 0, j);
  }

  /** The compaction only depends on where positions fall in the ring. */
  lemma {:induction false} CompactShift<Q>(ring: seq<Cqe<Q>>, lo: nat, i: nat, f: nat, j: nat, d: nat)
    requires |ring| > 0 && lo <= i && d % |ring| == 0
    ensures Compact(ring, lo, i, f, j) == Compact(ring, lo + d, i + d, f, j)
    decreases i
  {
    hide LocalId;
    if lo < i {
      ShiftLap(i - 1, d, |ring|);
      ShiftLap(i - 1 + f, d, |ring|);
      var e := At(ring, i - 1);
      if LocalId(e) == j {
        CompactShift(ring, lo, i - 1, f + 1, j, d);
      } else if f > 0 {
        CompactShift(Put(ring, i - 1 + f, e.(owner := At(ring, i - 1 + f).owner)), lo, i - 1, f, j, d);
      } else {
        CompactShift(ring, lo, i - 1, f, j, d);
      }
    }
  }

  lemma ShiftLap(x: nat, d: nat, n: nat)
    requires n > 0 && d % n == 0
    ensures (x + d) % n == x % n
  {
    ModAdd(d, x, n);
  }

  /* The whole operation. */

  datatype CleanOut<Q> = Diverges | Done(cq: Cq<Q>)

  function Clean<Q>(cq: Cq<Q>, j: nat): CleanOut<Q>
    requires |cq.ring| == Pow2(cq.k)
  {
    match Scan(cq, 0)
    case None => Diverges
    case Some(w) =>
      var (ring, f) := Compact(cq.ring, cq.ci, cq.ci + w, 0, j);
      Done(if f > 0 then Cq(cq.k, ring, Add32(cq.ci, f), Add32(cq.ci, f) % DB_CI_MODULUS) else cq.(ring := ring))
  }

  /** How much of the outstanding window the operation looks at. */
  function Scanned<Q>(cq: Cq<Q>, c: nat, p: nat): nat
    requires c <= p
  {
    if LimitWraps(cq) then 0
    else if c % Pow2(cq.k) + (p - c) <= Pow2(cq.k) then p - c
    else Pow2(cq.k) - c % Pow2(cq.k)
  }

  /**
    Nothing is lost: of the scanned part exactly the entries of queue j are gone and the rest
    keep their order, the unscanned part is untouched, the consumer index has advanced by the
    number removed, the ring invariant holds, and the doorbell was rung if anything was freed.
    Entries of queue j beyond the scanned part may still be pending.
   */
  ghost predicate CleanFilters<Q>(cq: Cq<Q>, c: nat, p: nat, j: nat)
    requires Inv(cq, c, p)
  {
    var w := Scanned(cq, c, p);
    ScannedBound(cq, c, p);
    var kept := Drop(Window(cq.ring, c, c + w), {j});
    var f := w - |kept|;
    && Clean(cq, j).Done?
    && var cq' := Clean(cq, j).cq;
    && cq'.ci == Add32(cq.ci, f)
    && Inv(cq', c + f, p)
    && Pending(cq', c + f, p) == kept + Window(cq.ring, c + w, p)
    && cq'.swDb == (if f > 0 then cq'.ci % DB_CI_MODULUS else cq.swDb)
  }

  lemma ScannedBound<Q>(cq: Cq<Q>, c: nat, p: nat)
    requires c <= p
    ensures Scanned(cq, c, p) <= p - c
  {
    assert Pow2(cq.k) > c % Pow2(cq.k);
  }

  /** The compaction, re-based from the 32-bit index to the unbounded position. */
  lemma CompactFromPosition<Q>(cq: Cq<Q>, c: nat, p: nat, w: nat, j: nat)
    requires Inv(cq, c, p)
    ensures |cq.ring| > 0
    ensures Compact(cq.ring, cq.ci, cq.ci + w, 0, j) == Compact(cq.ring, c, c + w, 0, j)
  {
    hide Pow2, Compact;
    var d := c - cq.ci;
    TruncSlot(c, cq.k);
    var n := Pow2(cq.k);
    SameRemainder(c, cq.ci, n);
    CompactShift(cq.ring, cq.ci, cq.ci + w, 0, j, d);
  }

  lemma SameRemainder(a: nat, b: nat, n: nat)
    requires n > 0 && a % n == b % n && b <= a
    ensures (a - b) % n == 0
  {
    Distribute(a / n, b / n, n);
    DivModUnique(a - b, n, a / n - b / n, 0);
  }

  /** Moving the consumer index past compacted entries keeps the ring invariant. */
  lemma AdvanceKeepsInv<Q>(cq: Cq<Q>, c: nat, p: nat, ring: seq<Cqe<Q>>, f: nat, db: u32)
    requires Inv(cq, c, p) && SameOwners(cq.ring, ring) && c + f <= p
    ensures Inv(Cq(cq.k, ring, Add32(cq.ci, f), db), c + f, p)
  {
    hide Pow2, SlotOwner;
    ModAdd(c, f, TWO_32);
  }

  /** Compaction of the first w outstanding entries, seen from the FIFO. */
  lemma CompactedWindow<Q>(orig: seq<Cqe<Q>>, ring: seq<Cqe<Q>>, c: nat, w: nat, p: nat, f: nat, j: nat)
    requires |orig| > 0 && c + w <= p <= c + |orig| && Compacted(orig, ring, c, c, c + w, f, j)
    ensures f == w - |Drop(Window(orig, c, c + w), {j})| && SameOwners(orig, ring)
    ensures Window(ring, c + f, p) == Drop(Window(orig, c, c + w), {j}) + Window(orig, c + w, p)
  {
    hide At, SameOwners, Payload, Drop;
    WindowIs(ring, c + f, p, Drop(Window(orig, c, c + w), {j}) + Window(orig, c + w, p));
  }

  /** A scan of exactly the intended part makes the compaction keep the promise. */
  lemma ScannedPartFiltered<Q>(cq: Cq<Q>, c: nat, p: nat, j: nat)
    requires Inv(cq, c, p) && Scan(cq, 0) == Some(Scanned(cq, c, p))
    ensures CleanFilters(cq, c, p, j)
  {
    hide Pow2, Compact, Compacted, Scan, At, SlotOwner, Window, Drop, Payload, SameOwners, Add32, Scanned;
    ScannedBound(cq, c, p);
    var w := Scanned(cq, c, p);
    CompactFromPosition(cq, c, p, w, j);
    CompactFilters(cq.ring, c, c + w, j);
    var (ring, f) := Compact(cq.ring, c, c + w, 0, j);
    CompactedWindow(cq.ring, ring, c, w, p, f, j);
    AdvanceKeepsInv(cq, c, p, ring, f, if f > 0 then Add32(cq.ci, f) % DB_CI_MODULUS else cq.swDb);
    SmallIndex(cq.ci);
  }

  /** Cleaning is a stable in-place filter unless the outstanding window ends exactly at the ring end. */
  lemma CleanFiltersAwayFromEnd<Q>(cq: Cq<Q>, c: nat, p: nat, j: nat)
    requires Inv(cq, c, p)
    requires LimitWraps(cq) || c % Pow2(cq.k) + (p - c) != Pow2(cq.k)
    ensures CleanFilters(cq, c, p, j)
  {
    hide Pow2, Scan, SlotOwner, CleanFilters, LimitWraps, Inv;
    ScanResult(cq, c, p);
    ScannedPartFiltered(cq, c, p, j);
  }
}
