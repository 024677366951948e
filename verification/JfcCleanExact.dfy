/**
  The one family of states in which cleaning a completion ring can go wrong: the
  outstanding window ends exactly at the end of the ring, every slot reads as new, and the
  scan runs on into entries that were consumed already. What the operation then does, and
  for which of these states it still filters what it scanned.
 */
module JfcCleanExact {
  import opened Bits
  import opened Common
  import opened CompletionRing
  import opened JfcClean

  /** The last position visited can be left for the end. */
  lemma {:induction false} CompactSplit<Q>(ring: seq<Cqe<Q>>, lo: nat, i: nat, f: nat, j: nat)
    requires |ring| > 0 && lo < i
    ensures var (r, g) := Compact(ring, lo + 1, i, f, j);
            |r| > 0 && Compact(ring, lo, i, f, j) == Compact(r, lo, lo + 1, g, j)
    decreases i
  {
    hide LocalId;
    if lo + 1 < i {
      var e := At(ring, i - 1);
      if LocalId(e) == j {
        CompactSplit(ring, lo, i - 1, f + 1, j);
      } else if f > 0 {
        CompactSplit(Put(ring, i - 1 + f, e.(owner := At(ring, i - 1 + f).owner)), lo, i - 1, f, j);
      } else {
        CompactSplit(ring, lo, i - 1, f, j);
      }
    }
  }

  lemma NextLap<Q>(ring: seq<Cqe<Q>>, pos: nat)
    requires |ring| > 0
    ensures At(ring, pos + |ring|) == At(ring, pos)
  {
    SlotOffset(pos, |ring|, |ring|);
  }

  lemma DropEmpty<Q>(s: seq<Cqe<Q>>, j: nat, i: nat)
    requires i < |s| && Drop(s, {j}) == []
    ensures LocalId(s[i]) == j
  {
    hide Drop, LocalId;
    assert s == s[..i] + ([s[i]] + s[i + 1..]);
    DropConcat(s[..i], [s[i]] + s[i + 1..], {j});
    DropStep(s[i], s[i + 1..], {j});
  }

  /**
    A compaction of one slot more than the ring has: the first slot is visited again last,
    after the topmost kept entry was moved into it.
   */
  lemma CompactOverrun<Q>(ring: seq<Cqe<Q>>, c: nat, j: nat)
    requires |ring| > 0
    ensures var g := Drop(Window(ring, c + 1, c + |ring| + 1), {j});
            var (r, f) := Compact(ring, c, c + |ring| + 1, 0, j);
            && |g| <= |ring|
            && (g == [] ==> f == |ring| + 1)
            && (g != [] ==>
                  (&& f == |ring| - |g| && SameOwners(ring, r)
                   && Payload(At(r, c + f)) == g[|g| - 1]
                   && forall x {:trigger At(r, x)} :: c + f < x < c + |ring| ==> Payload(At(r, x)) == g[x - (c + f) - 1]))
  {
    hide At, Put, Drop, Others, Window, Compact, LocalId, Numbered;
    var n := |ring|;
    CompactSplit(ring, c, c + n + 1, 0, j);
    CompactFilters(ring, c + 1, c + n + 1, j);
    var (r1, t) := Compact(ring, c + 1, c + n + 1, 0, j);
    var g := Drop(Window(ring, c + 1, c + n + 1), {j});
    NextLap(ring, c);
    NextLap(r1, c);
    LastVisit(r1, c, t, j);
    if g == [] {
      DropEmpty(Window(ring, c + 1, c + n + 1), j, n - 1);
      assert LocalId(Payload(At(ring, c + n))) == j;
      SameId(At(ring, c + n));
    } else {
      assert Payload(At(r1, c + n)) == g[n - t - 1];
      assert g[|g| - 1] in g;
      SameId(At(r1, c + n));
      var w := At(r1, c).(owner := At(r1, c + t).owner);
      if t > 0 {
        WriteOwnerKept(r1, c + t, w);
        var r := Put(r1, c + t, w);
        forall x {:trigger At(r, x)} | c + t <= x < c + n
          ensures At(r, x) == if x == c + t then w else At(r1, x)
        {
          PutAt(r1, c + t, w, c, x);
        }
        SamePayload(At(r1, c), w);
      }
    }
  }

  lemma SameId<Q>(e: Cqe<Q>)
    ensures LocalId(Payload(e)) == LocalId(e)
  {
  }

  lemma SamePayload<Q>(e: Cqe<Q>, w: Cqe<Q>)
    requires w == e.(owner := w.owner)
    ensures Payload(w) == Payload(e)
  {
  }

  lemma LastVisit<Q>(r: seq<Cqe<Q>>, c: nat, t: nat, j: nat)
    requires |r| > 0
    ensures Compact(r, c, c + 1, t, j) ==
            if LocalId(At(r, c)) == j then (r, t + 1)
            else if t > 0 then (Put(r, c + t, At(r, c).(owner := At(r, c + t).owner)), t)
            else (r, t)
  {
  }

  /** The positions a .. b - 1 hold no entry of queue j. */
  ghost predicate NoneOf<Q>(ring: seq<Cqe<Q>>, a: nat, b: nat, j: nat)
    requires |ring| > 0
  {
    forall x {:trigger At(ring, x)} :: a <= x < b ==> LocalId(At(ring, x)) != j
  }

  /**
    If the first outstanding entry is of queue j, the entry that an overrun moves into its slot
    cannot be told from any outstanding entry that is to stay.
   */
  ghost predicate RotationHidden<Q>(ring: seq<Cqe<Q>>, c: nat, p: nat, j: nat)
    requires |ring| > 0 && c < p <= c + |ring|
  {
    LocalId(At(ring, c)) == j ==>
      var stay := Drop(Window(ring, c + 1, c + |ring|), {j});
      var kept := Drop(Window(ring, c + 1, p), {j});
      stay != [] && forall i :: 0 <= i < |kept| ==> kept[i] == stay[|stay| - 1]
  }

  /**
    When an overrun does no harm: the limit stops the scan, no consumed entry still lying in the
    ring belongs to queue j, and if the first outstanding entry does, then the entry that the
    overrun moves into its slot cannot be told from any outstanding entry that is to stay.
   */
  ghost predicate OverrunHarmless<Q>(cq: Cq<Q>, c: nat, p: nat, j: nat)
    requires Inv(cq, c, p)
  {
    var cnt := Pow2(cq.k);
    && cq.ci + cnt + 1 != TWO_32
    && NoneOf(cq.ring, p, c + cnt, j)
    && (c < p ==> RotationHidden(cq.ring, c, p, j))
  }

  /**
    When a clean loses nothing. A caller can decide it from the ring: either the outstanding
    window does not end at the end of the ring (or the index limit has wrapped and the clean
    does nothing), or the overrun is harmless.
   */
  ghost predicate CleanSafe<Q>(cq: Cq<Q>, c: nat, p: nat, j: nat)
    requires Inv(cq, c, p)
  {
    LimitWraps(cq) || c % Pow2(cq.k) + (p - c) != Pow2(cq.k) || OverrunHarmless(cq, c, p, j)
  }

  lemma {:induction false} RotationFixed<T>(x: T, s: seq<T>)
    requires |s| > 0
    ensures [x] + s[..|s| - 1] == s <==> forall i :: 0 <= i < |s| ==> s[i] == x
  {
    var r := [x] + s[..|s| - 1];
    if r == s {
      forall i | 0 <= i < |s|
        ensures s[i] == x
      {
        ConstantFrom(x, s, i);
      }
    }
  }

  lemma {:induction false} ConstantFrom<T>(x: T, s: seq<T>, i: nat)
    requires i < |s| && [x] + s[..|s| - 1] == s
    ensures s[i] == x
  {
    var r := [x] + s[..|s| - 1];
    assert s[i] == r[i];
    if i > 0 {
      ConstantFrom(x, s, i - 1);
    }
  }

  lemma WindowSplit<Q>(ring: seq<Cqe<Q>>, a: nat, b: nat, d: nat)
    requires |ring| > 0 && a <= b <= d
    ensures Window(ring, a, d) == Window(ring, a, b) + Window(ring, b, d)
  {
  }

  lemma WindowOne<Q>(ring: seq<Cqe<Q>>, a: nat)
    requires |ring| > 0
    ensures Window(ring, a, a + 1) == [Payload(At(ring, a))]
  {
  }

  lemma DropOne<Q>(e: Cqe<Q>, j: nat)
    ensures Drop([e], {j}) == if LocalId(e) == j then [] else [e]
  {
  }

  lemma NoneStale<Q>(ring: seq<Cqe<Q>>, a: nat, b: nat, j: nat)
    requires |ring| > 0 && a <= b
    ensures NoneOf(ring, a, b, j) <==> Drop(Window(ring, a, b), {j}) == Window(ring, a, b)
    ensures Drop(Window(ring, a, b), {j}) == Window(ring, a, b) <==> |Drop(Window(ring, a, b), {j})| == b - a
  {
    hide At, Window, LocalId;
    var s := Window(ring, a, b);
    DropNothing(s, {j});
    if exists e :: e in s && LocalId(e) in {j} {
      var e :| e in s && LocalId(e) in {j};
      var i :| 0 <= i < |s| && s[i] == e;
      assert s[a + i - a] == Payload(At(ring, a + i));
      SameId(At(ring, a + i));
    } else {
      forall x {:trigger At(ring, x)} | a <= x < b
        ensures LocalId(At(ring, x)) != j
      {
        assert s[x - a] in s;
        SameId(At(ring, x));
      }
    }
  }

  /** The parts of one lap: kept outstanding entries, kept stale ones, and the first entry. */
  lemma LapParts<Q>(ring: seq<Cqe<Q>>, c: nat, p: nat, j: nat)
    requires |ring| > 0 && c < p <= c + |ring|
    ensures var kept, used := Drop(Window(ring, c + 1, p), {j}), Drop(Window(ring, p, c + |ring|), {j});
            var e := Payload(At(ring, c));
            var first := if LocalId(e) == j then [] else [e];
            && Drop(Window(ring, c + 1, c + |ring|), {j}) == kept + used
            && Drop(Window(ring, c + 1, c + |ring| + 1), {j}) == kept + used + first
            && Drop(Window(ring, c, p), {j}) == first + kept
  {
    hide At, Window, Drop, LocalId;
    var n := |ring|;
    WindowSplit(ring, c + 1, p, c + n);
    WindowSplit(ring, c + 1, c + n, c + n + 1);
    WindowSplit(ring, c, c + 1, p);
    WindowOne(ring, c);
    WindowOne(ring, c + n);
    NextLap(ring, c);
    DropConcat(Window(ring, c + 1, p), Window(ring, p, c + n), {j});
    DropConcat(Window(ring, c + 1, c + n), Window(ring, c + n, c + n + 1), {j});
    DropConcat(Window(ring, c, c + 1), Window(ring, c + 1, p), {j});
    DropOne(Payload(At(ring, c)), j);
  }

  /** The pollable entries after an overrun clean that freed no consumed entry. */
  lemma OverrunPending<Q>(ring: seq<Cqe<Q>>, r: seq<Cqe<Q>>, c: nat, f: nat, p: nat, g: seq<Cqe<Q>>)
    requires |ring| > 0 && |r| == |ring| && c + f < p <= c + |ring| && |g| == |ring| - f
    requires Payload(At(r, c + f)) == g[|g| - 1]
    requires forall x {:trigger At(r, x)} :: c + f < x < c + |ring| ==> Payload(At(r, x)) == g[x - (c + f) - 1]
    ensures Window(r, c + f, p) == [g[|g| - 1]] + g[..p - c - f - 1]
  {
    hide At;
    WindowIs(r, c + f, p, [g[|g| - 1]] + g[..p - c - f - 1]);
  }

  /** What the overrun leaves pollable is what was promised exactly when the rotation is invisible. */
  lemma OverrunIsFilter<Q>(ring: seq<Cqe<Q>>, r: seq<Cqe<Q>>, c: nat, f: nat, p: nat, j: nat)
    requires |ring| > 0 && |r| == |ring| && c < p <= c + |ring|
    requires var g := Drop(Window(ring, c + 1, c + |ring| + 1), {j});
             && g != [] && f == |ring| - |g|
             && Payload(At(r, c + f)) == g[|g| - 1]
             && forall x {:trigger At(r, x)} :: c + f < x < c + |ring| ==> Payload(At(r, x)) == g[x - (c + f) - 1]
    requires Drop(Window(ring, p, c + |ring|), {j}) == Window(ring, p, c + |ring|)
    ensures f == p - c - |Drop(Window(ring, c, p), {j})| && f <= p - c
    ensures Window(r, c + f, p) == Drop(Window(ring, c, p), {j}) <==> RotationHidden(ring, c, p, j)
  {
    hide At, Window, Drop, LocalId;
    LapParts(ring, c, p, j);
    SameId(At(ring, c));
    var g := Drop(Window(ring, c + 1, c + |ring| + 1), {j});
    var kept := Drop(Window(ring, c + 1, p), {j});
    var n := |kept|;
    if c + f < p {
      OverrunPending(ring, r, c, f, p, g);
      if LocalId(At(ring, c)) == j {
        assert g[..n - 1] == kept[..n - 1];
        RotationFixed(g[|g| - 1], kept);
      } else {
        assert g[..n] == kept;
      }
    }
  }

  /** Cleaning loses nothing, and filters what it scanned, exactly in the safe states. */
  lemma CleanFiltersExactly<Q>(cq: Cq<Q>, c: nat, p: nat, j: nat)
    requires Inv(cq, c, p)
    ensures CleanFilters(cq, c, p, j) <==> CleanSafe(cq, c, p, j)
  {
    hide Pow2, Compact, Scan, NextCqe, At, SlotOwner, Window, Drop, LocalId;
    var cnt := Pow2(cq.k);
    if LimitWraps(cq) || c % cnt + (p - c) != cnt {
      CleanFiltersAwayFromEnd(cq, c, p, j);
    } else {
      ScanResult(cq, c, p);
      RingFits(cq);
      if cq.ci + cnt + 1 != TWO_32 {
        OverrunExactly(cq, c, p, j);
      }
    }
  }

  lemma OverrunExactly<Q>(cq: Cq<Q>, c: nat, p: nat, j: nat)
    requires Inv(cq, c, p) && !LimitWraps(cq)
    requires c % Pow2(cq.k) + (p - c) == Pow2(cq.k) && cq.ci + Pow2(cq.k) + 1 != TWO_32
    requires Scan(cq, 0) == Some(Pow2(cq.k) + 1)
    ensures CleanFilters(cq, c, p, j) <==> CleanSafe(cq, c, p, j)
  {
    hide Pow2, Compact, Scan, NextCqe, At, SlotOwner, Window, Drop, LocalId, CleanFilters, Payload, Scanned, SameOwners,
         RotationHidden, NoneOf, Others;
    var cnt := Pow2(cq.k);
    CompactOverrun(cq.ring, c, j);
    LapParts(cq.ring, c, p, j);
    NoneStale(cq.ring, p, c + cnt, j);
    SameId(At(cq.ring, c));
    var (r, f) := Compact(cq.ring, c, c + cnt + 1, 0, j);
    var g := Drop(Window(cq.ring, c + 1, c + cnt + 1), {j});
    OverrunMeans(cq, c, p, j, r, f);
    if g == [] {
      NothingKept(cq.ring, c, p, j);
    }
    if g != [] && |Drop(Window(cq.ring, p, c + cnt), {j})| == c + cnt - p {
      assert |r| == |cq.ring| by {
        OwnersLength(cq.ring, r);
      }
      OverrunIsFilter(cq.ring, r, c, f, p, j);
    }
  }

  /** With nothing kept in the whole lap the first entry has nothing to be replaced by. */
  lemma NothingKept<Q>(ring: seq<Cqe<Q>>, c: nat, p: nat, j: nat)
    requires |ring| > 0 && c < p <= c + |ring| && Drop(Window(ring, c + 1, c + |ring| + 1), {j}) == []
    ensures !RotationHidden(ring, c, p, j)
  {
    hide At, Window, Drop, LocalId;
    LapParts(ring, c, p, j);
    SameId(At(ring, c));
  }

  lemma OwnersLength<Q>(ring: seq<Cqe<Q>>, r: seq<Cqe<Q>>)
    requires SameOwners(ring, r)
    ensures |r| == |ring|
  {
  }

  /** What keeping the promise comes to after an overrun. */
  lemma OverrunMeans<Q>(cq: Cq<Q>, c: nat, p: nat, j: nat, r: seq<Cqe<Q>>, f: nat)
    requires Inv(cq, c, p) && !LimitWraps(cq)
    requires c % Pow2(cq.k) + (p - c) == Pow2(cq.k)
    requires Scan(cq, 0) == Some(Pow2(cq.k) + 1)
    requires (r, f) == Compact(cq.ring, c, c + Pow2(cq.k) + 1, 0, j) && f <= Pow2(cq.k) + 1
    ensures var w := p - c - |Drop(Window(cq.ring, c, p), {j})|;
            && (f != w ==> !CleanFilters(cq, c, p, j))
            && (f == w && SameOwners(cq.ring, r) ==>
                  (CleanFilters(cq, c, p, j) <==> Window(r, c + f, p) == Drop(Window(cq.ring, c, p), {j})))
  {
    hide Pow2, Compact, Scan, NextCqe, At, SlotOwner, Window, Drop, LocalId, Payload, Clean, SameOwners, CleanFilters;
    RingFits(cq);
    CleanAfterScan(cq, c, p, Pow2(cq.k) + 1, j);
    WholeFilter(cq, c, p, j, r, f);
  }

  /** A whole window scanned: the new state is what was promised exactly when the freed count and the pending entries are. */
  lemma WholeFilter<Q>(cq: Cq<Q>, c: nat, p: nat, j: nat, r: seq<Cqe<Q>>, f: nat)
    requires Inv(cq, c, p) && Scanned(cq, c, p) == p - c && f <= 0x4000_0001
    requires Clean(cq, j) ==
             Done(Cq(cq.k, r, Add32(cq.ci, f), if f > 0 then Add32(cq.ci, f) % DB_CI_MODULUS else cq.swDb))
    ensures var w := p - c - |Drop(Window(cq.ring, c, p), {j})|;
            && (f != w ==> !CleanFilters(cq, c, p, j))
            && (f == w && SameOwners(cq.ring, r) ==>
                  (CleanFilters(cq, c, p, j) <==> Window(r, c + f, p) == Drop(Window(cq.ring, c, p), {j})))
  {
    hide Pow2, NextCqe, At, SlotOwner, Window, Drop, LocalId, Payload, Clean, SameOwners, Scanned, Add32;
    RingFits(cq);
    FreedCount(cq, f, p - c - |Drop(Window(cq.ring, c, p), {j})|);
    EmptyWindow(cq.ring, p);
    if f <= p - c && SameOwners(cq.ring, r) {
      AdvanceKeepsInv(cq, c, p, r, f, if f > 0 then Add32(cq.ci, f) % DB_CI_MODULUS else cq.swDb);
    }
  }

  /** The whole operation, once the length of the scan is known, on true positions. */
  lemma CleanAfterScan<Q>(cq: Cq<Q>, c: nat, p: nat, w: nat, j: nat)
    requires Inv(cq, c, p) && Scan(cq, 0) == Some(w)
    ensures |cq.ring| > 0
    ensures var (r, f) := Compact(cq.ring, c, c + w, 0, j);
            Clean(cq, j) == Done(Cq(cq.k, r, Add32(cq.ci, f), if f > 0 then Add32(cq.ci, f) % DB_CI_MODULUS else cq.swDb))
  {
    hide Pow2, Compact, Scan, Inv;
    CompactFromPosition(cq, c, p, w, j);
    SmallIndex(cq.ci);
  }

  lemma EmptyWindow<Q>(ring: seq<Cqe<Q>>, p: nat)
    requires |ring| > 0
    ensures Window(ring, p, p) == []
  {
  }

  lemma FreedCount<Q>(cq: Cq<Q>, f: nat, w: nat)
    requires f <= 0x4000_0001 && w <= 0x4000_0001
    ensures Add32(cq.ci, f) == Add32(cq.ci, w) <==> f == w
    ensures Add32(cq.ci, 0) == cq.ci
  {
    NoWrapOrOnce(cq.ci, f);
    NoWrapOrOnce(cq.ci, w);
  }

  lemma NoWrapOrOnce(a: nat, i: nat)
    requires a < TWO_32 && i < TWO_32
    ensures Add32(a, i) == a + i || Add32(a, i) == a + i - TWO_32
  {
    NoWrap(a, i);
  }

  /** The scan never stops in just one kind of state, the one that puts the limit at the largest index. */
  lemma CleanDivergesExactly<Q>(cq: Cq<Q>, c: nat, p: nat, j: nat)
    requires Inv(cq, c, p)
    ensures Clean(cq, j) == Diverges <==>
            c % Pow2(cq.k) + (p - c) == Pow2(cq.k) && cq.ci + Pow2(cq.k) + 1 == TWO_32
  {
    hide Pow2, Compact, Scan, Inv;
    ScanResult(cq, c, p);
  }
}
