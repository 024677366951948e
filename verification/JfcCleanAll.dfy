/**
  What a caller of the clean wants: no entry of the cleaned queue is left to be polled, and
  nothing else is lost. Exactly when that is so, and the ring states in which it is not.
 */
module JfcCleanAll {
  import opened Bits
  import opened Common
  import opened CompletionRing
  import opened JfcClean
  import opened JfcCleanExact

  lemma OthersBound<Q>(s: seq<Cqe<Q>>, j: nat)
    ensures |Others(s, j)| <= |s|
  {
    OthersIsDrop(s, j);
  }

  /**
    The whole promise: the pending entries whose number fields say j are gone, the others are
    still there in their order, and index, ring and doorbell are as they should be.
   */
  ghost predicate RemovesAll<Q>(cq: Cq<Q>, c: nat, p: nat, j: nat)
    requires Inv(cq, c, p)
  {
    OthersBound(Pending(cq, c, p), j);
    var kept := Others(Pending(cq, c, p), j);
    var f := p - c - |kept|;
    && Clean(cq, j).Done?
    && var cq' := Clean(cq, j).cq;
    && cq'.ci == Add32(cq.ci, f)
    && Inv(cq', c + f, p)
    && Pending(cq', c + f, p) == kept
    && cq'.swDb == (if f > 0 then cq'.ci % DB_CI_MODULUS else cq.swDb)
  }

  /**
    When a clean is complete, by the state of the ring: with a wrapped limit nothing is scanned;
    a window inside the lap is scanned whole; of one that wraps only the part up to the ring end
    is; and one that ends there makes the scan overrun.
   */
  ghost predicate CleanComplete<Q>(cq: Cq<Q>, c: nat, p: nat, j: nat)
    requires Inv(cq, c, p)
  {
    var cnt := Pow2(cq.k);
    var o, m := c % cnt, p - c;
    if LimitWraps(cq) then NoneOf(cq.ring, c, p, j)
    else if o + m < cnt then true
    else if o + m > cnt then NoneOf(cq.ring, c + (cnt - o), p, j)
    else OverrunHarmless(cq, c, p, j)
  }

  lemma CompleteIsSafe<Q>(cq: Cq<Q>, c: nat, p: nat, j: nat)
    requires Inv(cq, c, p) && CleanComplete(cq, c, p, j)
    ensures CleanSafe(cq, c, p, j)
  {
  }

  /** The kept entries, split where the scan stopped. */
  lemma KeptParts<Q>(cq: Cq<Q>, c: nat, p: nat, j: nat)
    requires Inv(cq, c, p)
    ensures Scanned(cq, c, p) <= p - c
    ensures var m := c + Scanned(cq, c, p);
            && Drop(Pending(cq, c, p), {j}) == Drop(Window(cq.ring, c, m), {j}) + Drop(Window(cq.ring, m, p), {j})
            && (NoneOf(cq.ring, m, p, j) <==> Drop(Window(cq.ring, m, p), {j}) == Window(cq.ring, m, p))
            && (NoneOf(cq.ring, m, p, j) <==> |Drop(Window(cq.ring, m, p), {j})| == p - m)
  {
    hide Pow2, Scanned, Window, Drop, At, NoneOf, SlotOwner;
    ScannedBound(cq, c, p);
    var m := c + Scanned(cq, c, p);
    WindowSplit(cq.ring, c, m, p);
    DropConcat(Window(cq.ring, c, m), Window(cq.ring, m, p), {j});
    NoneStale(cq.ring, m, p, j);
  }

  /** Where nothing was lost, everything was removed exactly when the unscanned part held nothing of j. */
  lemma FilterRemovesAll<Q>(cq: Cq<Q>, c: nat, p: nat, j: nat)
    requires Inv(cq, c, p) && CleanFilters(cq, c, p, j)
    ensures RemovesAll(cq, c, p, j) <==> NoneOf(cq.ring, c + Scanned(cq, c, p), p, j)
  {
    hide Pow2, Scanned, Window, Drop, Others, At, NoneOf, SlotOwner, Clean;
    KeptParts(cq, c, p, j);
    OthersIsDrop(Pending(cq, c, p), j);
    RingFits(cq);
    var w := Scanned(cq, c, p);
    FreedCount(cq, w - |Drop(Window(cq.ring, c, c + w), {j})|, p - c - |Drop(Pending(cq, c, p), {j})|);
  }

  /** With the whole window scanned the two promises are the same. */
  lemma WholeWindow<Q>(cq: Cq<Q>, c: nat, p: nat, j: nat)
    requires Inv(cq, c, p) && Scanned(cq, c, p) == p - c
    ensures RemovesAll(cq, c, p, j) <==> CleanFilters(cq, c, p, j)
  {
    hide Pow2, Scanned, Window, Drop, Others, At, SlotOwner, Clean;
    OthersIsDrop(Pending(cq, c, p), j);
    EmptyWindow(cq.ring, p);
  }

  lemma ScannedByState<Q>(cq: Cq<Q>, c: nat, p: nat)
    requires Inv(cq, c, p)
    ensures var cnt := Pow2(cq.k);
            var o, m := c % cnt, p - c;
            Scanned(cq, c, p) == if LimitWraps(cq) then 0 else if o + m <= cnt then m else cnt - o
  {
  }

  /**
    Exactly when no pending entry of the cleaned queue is left and nothing else is lost. The
    second form: the clean is safe, and what it did not scan holds nothing of queue j.
   */
  lemma CleanRemovesAllExactly<Q>(cq: Cq<Q>, c: nat, p: nat, j: nat)
    requires Inv(cq, c, p)
    ensures RemovesAll(cq, c, p, j) <==> CleanComplete(cq, c, p, j)
    ensures RemovesAll(cq, c, p, j) <==> CleanSafe(cq, c, p, j) && NoneOf(cq.ring, c + Scanned(cq, c, p), p, j)
  {
    hide Pow2, Scanned, Inv, At, LimitWraps, OverrunHarmless, RemovesAll, CleanFilters;
    CleanFiltersExactly(cq, c, p, j);
    ScannedByState(cq, c, p);
    if CleanFilters(cq, c, p, j) {
      FilterRemovesAll(cq, c, p, j);
    } else {
      WholeWindow(cq, c, p, j);
    }
  }

  /** What was not scanned is pending as before, entries of queue j included. */
  lemma UnscannedStays<Q>(cq: Cq<Q>, c: nat, p: nat, j: nat) returns (c': nat)
    requires Inv(cq, c, p) && (LimitWraps(cq) || c % Pow2(cq.k) + (p - c) != Pow2(cq.k))
    ensures c <= c' <= c + Scanned(cq, c, p) <= p
    ensures Clean(cq, j).Done? && Inv(Clean(cq, j).cq, c', p)
    ensures var m := c + Scanned(cq, c, p);
            Pending(Clean(cq, j).cq, c', p)[m - c'..] == Window(cq.ring, m, p)
  {
    hide Pow2, Scanned, Clean, At, SlotOwner, Drop;
    CleanFiltersAwayFromEnd(cq, c, p, j);
    ScannedBound(cq, c, p);
    c' := c + Scanned(cq, c, p) - |Drop(Window(cq.ring, c, c + Scanned(cq, c, p)), {j})|;
  }

  /* Rings, as creation makes them, in which cleaning fails. */

  /** A ring at the end of its first lap, given what slot 0 and the other slots hold. */
  function FirstLap(zero: Cqe<bool>, others: Cqe<bool>, last: Cqe<bool>, k: nat): Cq<bool>
    requires k <= 30
  {
    ShortRing(k);
    Cq(k, seq(Pow2(k), i => if i == Pow2(k) - 1 then last else if i == 0 then zero else others), Pow2(k) - 1, 0)
  }

  lemma ShortRing(k: nat)
    requires k <= 30
    ensures 1 <= Pow2(k) <= 0x4000_0000 && (k > 0 ==> Pow2(k) >= 2)
  {
    Pow2Monotone(k, 30);
    Pow2Constants();
    assert Pow2(31) == 2 * Pow2(30);
  }

  lemma LapEnd(n: nat)
    requires n >= 2
    ensures (n - 1) % n == n - 1 && n % n == 0 && n / n == 1 && (n + 1) % n == 1 && (n + 1) / n == 1
  {
    DivModUnique(n - 1, n, 0, n - 1);
    DivModUnique(n, n, 1, 0);
    DivModUnique(n + 1, n, 1, 1);
  }

  /** A window of two entries that wraps between them: only the first is scanned. */
  lemma SecondStays<Q>(cq: Cq<Q>, c: nat, j: nat)
    requires Inv(cq, c, c + 2) && !LimitWraps(cq) && c % Pow2(cq.k) == Pow2(cq.k) - 1 && cq.k > 0
    requires LocalId(At(cq.ring, c)) != j && LocalId(At(cq.ring, c + 1)) == j
    ensures Clean(cq, j).Done? && Clean(cq, j).cq.ci == cq.ci
    ensures Inv(Clean(cq, j).cq, c, c + 2) && Pending(Clean(cq, j).cq, c, c + 2) == Pending(cq, c, c + 2)
    ensures !RemovesAll(cq, c, c + 2, j)
  {
    hide Pow2, Clean, LocalId, Drop, At, SlotOwner, Payload, Window;
    CleanFiltersAwayFromEnd(cq, c, c + 2, j);
    CleanRemovesAllExactly(cq, c, c + 2, j);
    WindowOne(cq.ring, c);
    WindowSplit(cq.ring, c, c + 1, c + 2);
    SameId(At(cq.ring, c));
    DropOne(Payload(At(cq.ring, c)), j);
    SmallIndex(cq.ci);
  }

  /**
    A window that wraps: `first` in the last slot, then `last`, of queue j, in slot 0 of the next
    lap. The clean for j leaves both pending.
   */
  lemma WrapKeepsAnEntry(first: Cqe<bool>, last: Cqe<bool>, j: nat, k: nat) returns (cq: Cq<bool>, c: nat)
    requires 1 <= k <= 30 && LocalId(first) != j && LocalId(last) == j && first.owner == 1 && last.owner == 0
    ensures cq.k == k && c == Pow2(k) - 1
    ensures Inv(cq, c, c + 2) && Pending(cq, c, c + 2) == [Payload(first), Payload(last)]
    ensures Clean(cq, j).Done? && Clean(cq, j).cq.ci == cq.ci
    ensures Inv(Clean(cq, j).cq, c, c + 2) && Pending(Clean(cq, j).cq, c, c + 2) == Pending(cq, c, c + 2)
    ensures !RemovesAll(cq, c, c + 2, j)
  {
    hide Pow2, Clean, LocalId, RemovesAll, Payload;
    cq, c := FirstLap(last, first, first, k), Pow2(k) - 1;
    ShortRing(k);
    LapEnd(Pow2(k));
    assert At(cq.ring, c) == first && At(cq.ring, c + 1) == last;
    assert Pending(cq, c, c + 2) == [Payload(first), Payload(last)];
    SecondStays(cq, c, j);
  }

  lemma {:induction false} DropAll<Q>(s: seq<Cqe<Q>>, j: nat)
    requires forall i :: 0 <= i < |s| ==> LocalId(s[i]) == j
    ensures Drop(s, {j}) == []
  {
    hide LocalId;
    if s != [] {
      DropAll(s[1..], j);
    }
  }

  /**
    One outstanding entry, of another queue, in the last slot, and consumed entries of queue j in
    all the others: the overrun counts those as freed, and the index runs past the producer.
   */
  lemma OverrunRunsPast<Q>(cq: Cq<Q>, c: nat, j: nat)
    requires Inv(cq, c, c + 1) && !LimitWraps(cq) && cq.ci + Pow2(cq.k) + 1 != TWO_32
    requires c % Pow2(cq.k) == Pow2(cq.k) - 1 && LocalId(At(cq.ring, c)) != j
    requires forall x {:trigger At(cq.ring, x)} :: c < x < c + Pow2(cq.k) ==> LocalId(At(cq.ring, x)) == j
    ensures Clean(cq, j).Done? && Clean(cq, j).cq.ci == Add32(cq.ci, Pow2(cq.k) - 1)
  {
    hide Pow2, Scan, Compact, Drop, Window, At, LocalId, SlotOwner, SameOwners, Payload;
    var n := Pow2(cq.k);
    RingFits(cq);
    ScanResult(cq, c, c + 1);
    CompactFromPosition(cq, c, c + 1, n + 1, j);
    CompactOverrun(cq.ring, c, j);
    LapParts(cq.ring, c, c + 1, j);
    EmptyWindow(cq.ring, c + 1);
    var stale := Window(cq.ring, c + 1, c + n);
    forall i | 0 <= i < |stale|
      ensures LocalId(stale[i]) == j
    {
      assert stale[c + 1 + i - (c + 1)] == Payload(At(cq.ring, c + 1 + i));
      SameId(At(cq.ring, c + 1 + i));
    }
    DropAll(stale, j);
    DropAll(Window(cq.ring, c + 1, c + 1), j);
    SameId(At(cq.ring, c));
    SmallIndex(cq.ci);
  }

  /**
    The same on a ring in its first lap, with p == c + 1 entries produced. The outstanding entry
    of the other queue is lost, and on more than two slots the consumer index is left beyond the
    producer.
   */
  lemma OverrunLosesAnEntry(used: Cqe<bool>, left: Cqe<bool>, j: nat, k: nat) returns (cq: Cq<bool>, c: nat)
    requires 1 <= k <= 30 && LocalId(used) == j && LocalId(left) != j && used.owner == left.owner == 1
    ensures cq.k == k && c == Pow2(k) - 1
    ensures Inv(cq, c, c + 1) && Pending(cq, c, c + 1) == [Payload(left)]
    ensures Clean(cq, j).Done? && Clean(cq, j).cq.ci == 2 * c && !CleanFilters(cq, c, c + 1, j)
    ensures k > 1 ==> Clean(cq, j).cq.ci > c + 1
  {
    hide Pow2, Clean, LocalId, CleanFilters, CleanSafe, At, Inv, Pending, Payload, LimitWraps;
    cq, c := FirstLap(used, used, left, k), Pow2(k) - 1;
    OverrunRing(used, left, j, k);
    OverrunRunsPast(cq, c, j);
    CleanFiltersExactly(cq, c, c + 1, j);
    OverrunUnsafe(cq, c, j);
    FourSlots(k);
  }

  lemma OverrunRing(used: Cqe<bool>, left: Cqe<bool>, j: nat, k: nat)
    requires 1 <= k <= 30 && LocalId(used) == j && LocalId(left) != j && used.owner == left.owner == 1
    ensures 2 <= Pow2(k) <= 0x4000_0000
    ensures var cq, c := FirstLap(used, used, left, k), Pow2(k) - 1;
            && Inv(cq, c, c + 1) && Pending(cq, c, c + 1) == [Payload(left)] && !LimitWraps(cq)
            && c % Pow2(k) == c && At(cq.ring, c) == left
            && forall x {:trigger At(cq.ring, x)} :: c < x < c + Pow2(k) ==> At(cq.ring, x) == used
  {
    hide Pow2, Payload, LocalId;
    var n := Pow2(k);
    var cq, c := FirstLap(used, used, left, k), Pow2(k) - 1;
    ShortRing(k);
    LapEnd(n);
    assert At(cq.ring, c) == left;
    assert Pending(cq, c, c + 1) == [Payload(left)];
    forall x {:trigger At(cq.ring, x)} | c < x < c + n
      ensures At(cq.ring, x) == used
    {
      SlotOffset(c, x - c, n);
    }
  }

  lemma OverrunUnsafe<Q>(cq: Cq<Q>, c: nat, j: nat)
    requires Inv(cq, c, c + 1) && !LimitWraps(cq) && cq.k > 0 && c % Pow2(cq.k) == Pow2(cq.k) - 1
    requires forall x {:trigger At(cq.ring, x)} :: c < x < c + Pow2(cq.k) ==> LocalId(At(cq.ring, x)) == j
    ensures !CleanSafe(cq, c, c + 1, j)
  {
    hide LocalId, At, SlotOwner;
    assert Pow2(cq.k) >= 2;
    assert LocalId(At(cq.ring, c + 1)) == j;
  }

  lemma FourSlots(k: nat)
    ensures k > 1 ==> Pow2(k) >= 4
  {
  }

  /** A ring of 64 slots, the least that creation makes. */
  lemma OverrunOf64(used: Cqe<bool>, left: Cqe<bool>) returns (cq: Cq<bool>)
    requires LocalId(used) == 5 && LocalId(left) == 3 && used.owner == left.owner == 1
    ensures cq.k == 6 && Inv(cq, 63, 64) && Pending(cq, 63, 64) == [Payload(left)]
    ensures Clean(cq, 5).Done? && Clean(cq, 5).cq.ci == 126
  {
    hide Inv, Pending, Clean, LocalId, Pow2;
    Pow2Small();
    var c;
    cq, c := OverrunLosesAnEntry(used, left, 5, 6);
  }
}
