/**
  Whole runs of a completion ring: device writes, polling calls, cleans and deletions of
  queues in any order. In every run no completion is lost, repeated, reordered or read before
  it was written, and no poll follows a reference to a queue that was deleted.
 */
module JfcRuns {
  import opened Bits
  import opened Common
  import opened CompletionRing
  import opened JfcClean
  import opened JfcCleanExact
  import opened JfcCleanAll
  import opened JfcPoll

  /** Deleting queue q, whose number is j, cleans the ring for j and then frees q. */
  datatype Event<Q> = DeviceWrites(e: Cqe<Q>) | Polls(n: nat) | Cleans(j: nat) | Deletes(j: nat, q: Q)

  /**
    The ring with the bookkeeping a run is judged by: positions consumed and produced,
    everything the device ever wrote, and everything polls ever took.
   */
  datatype World<Q> = World(cq: Cq<Q>, sqs: map<Q, SqIndex>, c: nat, p: nat,
                            written: seq<Cqe<Q>>, taken: seq<Cqe<Q>>)

  /** Every entry that names a queue names one of qs. */
  ghost predicate AllNamed<Q>(s: seq<Cqe<Q>>, qs: set<Q>) {
    forall i :: 0 <= i < |s| && s[i].queue.Some? ==> s[i].queue.value in qs
  }

  /** No entry is of queue number j. */
  ghost predicate Free<Q>(s: seq<Cqe<Q>>, j: nat) {
    forall i :: 0 <= i < |s| ==> LocalId(s[i]) != j
  }

  /** Pending entries name only queues that exist; what consumed slots still hold does not matter. */
  ghost predicate Good<Q>(w: World<Q>) {
    Inv(w.cq, w.c, w.p) && IndicesOk(w.sqs) && AllNamed(Pending(w.cq, w.c, w.p), w.sqs.Keys)
  }

  ghost function Waiting<Q>(w: World<Q>): seq<Cqe<Q>>
    requires Good(w)
  {
    Pending(w.cq, w.c, w.p)
  }

  lemma {:induction false} PendingNamed<Q>(cq: Cq<Q>, c: nat, p: nat, qs: set<Q>, n: nat)
    requires Inv(cq, c, p) && AllNamed(Pending(cq, c, p), qs)
    ensures NamesOnly(cq, qs, n)
    decreases n
  {
    hide Pow2, SlotOwner, NextCqe, At, Window;
    if n > 0 {
      HeadIsPending(cq, c, p);
      if c < p {
        var e := NextCqe(cq, cq.ci).value;
        assert Payload(e).queue == e.queue;
        ConsumeOne(cq, c, p, cq.swDb);
        PendingNamed(cq.(ci := Add32(cq.ci, 1)), c + 1, p, qs, n - 1);
      }
    }
  }

  /** A clean that never ends changes nothing. */
  ghost function Cleaned<Q>(w: World<Q>, j: nat): World<Q>
    requires Good(w)
  {
    match Clean(w.cq, j)
    case Diverges => w
    case Done(cq) => w.(cq := cq, c := w.c + Sub32(cq.ci, w.cq.ci))
  }

  ghost function Polled<Q>(w: World<Q>, n: nat): Batch<Q>
    requires Good(w)
  {
    PendingNamed(w.cq, w.c, w.p, w.sqs.Keys, n);
    PollJfc(w.cq, w.sqs, n)
  }

  /** The device writes only into a ring with room, and only entries of existing queues. */
  ghost function Step<Q>(w: World<Q>, ev: Event<Q>): World<Q> {
    if !Good(w) then w else
    match ev
    case DeviceWrites(e) =>
      if w.p < w.c + Pow2(w.cq.k) && (e.queue.Some? ==> e.queue.value in w.sqs) then
        w.(cq := Produce(w.cq, w.p, e), p := w.p + 1, written := w.written + [Payload(e)])
      else w
    case Polls(n) =>
      var b := Polled(w, n);
      var t := Taken(w.cq, b);
      w.(cq := b.cq, sqs := b.sqs, c := w.c + t, taken := w.taken + Window(w.cq.ring, w.c, w.c + t))
    case Cleans(j) => Cleaned(w, j)
    case Deletes(j, q) => var w' := Cleaned(w, j); w'.(sqs := w'.sqs - {q})
  }

  ghost function Run<Q>(w: World<Q>, evs: seq<Event<Q>>): World<Q>
    decreases |evs|
  {
    if evs == [] then w else Run(Step(w, evs[0]), evs[1..])
  }

  /**
    What a run may do at a moment: clean in a safe state, and delete when the clean is complete
    and the pending entries that name the queue carry its number. All cleaned numbers are in
    `gone`.
   */
  ghost predicate May<Q>(w: World<Q>, ev: Event<Q>, gone: set<nat>)
    requires Good(w)
  {
    match ev
    case DeviceWrites(_) => true
    case Polls(_) => true
    case Cleans(j) => j in gone && CleanSafe(w.cq, w.c, w.p, j)
    case Deletes(j, q) =>
      && j in gone && CleanComplete(w.cq, w.c, w.p, j)
      && forall i :: 0 <= i < |Waiting(w)| && Waiting(w)[i].queue == Some(q) ==> LocalId(Waiting(w)[i]) == j
  }

  ghost predicate Admissible<Q>(w: World<Q>, evs: seq<Event<Q>>, gone: set<nat>)
    decreases |evs|
  {
    evs != [] ==> (Good(w) ==> May(w, evs[0], gone)) && Admissible(Step(w, evs[0]), evs[1..], gone)
  }

  /** Taken so far, then still pending, is what was written, entry by entry and in order. */
  ghost predicate Conserves<Q>(w: World<Q>, gone: set<nat>)
    requires Good(w)
  {
    Drop(w.taken, gone) + Drop(Waiting(w), gone) == Drop(w.written, gone)
  }

  /* The software doorbell. */

  /** The events that ring the doorbell: a poll that reports something, a clean that frees something. */
  ghost predicate Rings<Q>(w: World<Q>, ev: Event<Q>)
    requires Good(w)
  {
    match ev
    case DeviceWrites(_) => false
    case Polls(n) => |Polled(w, n).crs| > 0
    case Cleans(j) => Cleaned(w, j).cq.ci != w.cq.ci
    case Deletes(j, _) => Cleaned(w, j).cq.ci != w.cq.ci
  }

  /** The consumer position right after the last event of a run that rang the doorbell; None if none did. */
  ghost function Rung<Q>(w: World<Q>, evs: seq<Event<Q>>): Option<nat>
    decreases |evs|
  {
    if evs == [] then None
    else
      match Rung(Step(w, evs[0]), evs[1..])
      case Some(x) => Some(x)
      case None => if Good(w) && Rings(w, evs[0]) then Some(Step(w, evs[0]).c) else None
  }

  lemma DoorbellOf(c: nat)
    ensures c % TWO_32 % DB_CI_MODULUS == c % DB_CI_MODULUS
  {
    Pow2Constants();
    TruncSlot(c, 22);
  }

  lemma ShortAdvance(ci: u32, t: nat)
    requires t < TWO_32
    ensures Sub32(Add32(ci, t), ci) == t
  {
  }

  lemma AdvanceIs<Q>(cq: Cq<Q>, c: nat, p: nat, cq': Cq<Q>, t: nat)
    requires Inv(cq, c, p) && Inv(cq', c + t, p)
    ensures Sub32(cq'.ci, cq.ci) == t
    ensures cq'.ci == cq.ci <==> t == 0
  {
    hide SlotOwner;
    RingFits(cq);
    ModAdd(c, t, TWO_32);
    ShortAdvance(cq.ci, t);
  }

  /* What each event does to the pending entries. */

  /** A step: a good world again, the pending entries, and the doorbell, rung or not. */
  ghost predicate StepsTo<Q>(w: World<Q>, ev: Event<Q>, waiting: seq<Cqe<Q>>)
    requires Good(w)
  {
    var w' := Step(w, ev);
    && Good(w') && Waiting(w') == waiting && w.c <= w'.c && w'.sqs.Keys <= w.sqs.Keys
    && w'.cq.swDb == if Rings(w, ev) then w'.c % DB_CI_MODULUS else w.cq.swDb
  }

  /** A polling call takes a prefix of the pending entries and rings if it reported any. */
  lemma PollStep<Q>(w: World<Q>, n: nat) returns (t: nat)
    requires Good(w)
    ensures t <= |Waiting(w)| && StepsTo(w, Polls(n), Waiting(w)[t..])
    ensures var w' := Step(w, Polls(n));
            w'.taken == w.taken + Waiting(w)[..t] && w'.written == w.written && w'.sqs.Keys == w.sqs.Keys
  {
    hide Pow2, SlotOwner, PollLoop, IndicesOk, Reports, Window, NamesOnly;
    PendingNamed(w.cq, w.c, w.p, w.sqs.Keys, n);
    t := PollLoopTakesPrefix(w.cq, w.sqs, w.c, w.p, n);
    var b := Polled(w, n);
    SameButDoorbell(PollLoop(w.cq, w.sqs, n).cq, b.cq, w.c + t, w.p);
    AdvanceIs(w.cq, w.c, w.p, b.cq, t);
    DoorbellOf(w.c + t);
    WindowSplit(w.cq.ring, w.c, w.c + t, w.p);
    assert Waiting(w)[..t] == Window(w.cq.ring, w.c, w.c + t);
  }

  lemma SameButDoorbell<Q>(a: Cq<Q>, b: Cq<Q>, c: nat, p: nat)
    requires Inv(a, c, p) && b == a.(swDb := b.swDb)
    ensures Inv(b, c, p) && Pending(b, c, p) == Pending(a, c, p)
  {
  }

  ghost predicate Accepts<Q>(w: World<Q>, e: Cqe<Q>) {
    w.p < w.c + Pow2(w.cq.k) && (e.queue.Some? ==> e.queue.value in w.sqs)
  }

  lemma WriteStep<Q>(w: World<Q>, e: Cqe<Q>)
    requires Good(w)
    ensures var news := if Accepts(w, e) then [Payload(e)] else [];
            var w' := Step(w, DeviceWrites(e));
            && StepsTo(w, DeviceWrites(e), Waiting(w) + news)
            && w'.written == w.written + news && w'.taken == w.taken && w'.sqs == w.sqs && w'.c == w.c
  {
    hide Pow2, SlotOwner, Window, LapOwner, At;
    if Accepts(w, e) {
      ProduceAppends(w.cq, w.c, w.p, e);
    } else {
      assert Waiting(w) + [] == Waiting(w);
    }
  }

  /** A safe clean drops the entries of queue j from the first m pending ones. */
  lemma CleanMoves<Q>(w: World<Q>, j: nat) returns (m: nat)
    requires Good(w) && CleanSafe(w.cq, w.c, w.p, j)
    ensures m == Scanned(w.cq, w.c, w.p) <= |Waiting(w)|
    ensures StepsTo(w, Cleans(j), Drop(Waiting(w)[..m], {j}) + Waiting(w)[m..])
    ensures var w' := Cleaned(w, j); w'.taken == w.taken && w'.written == w.written && w'.sqs == w.sqs
  {
    hide Pow2, SlotOwner, Drop, Window, Clean, CleanSafe, Scanned, IndicesOk;
    CleanFiltersExactly(w.cq, w.c, w.p, j);
    ScannedBound(w.cq, w.c, w.p);
    m := Scanned(w.cq, w.c, w.p);
    var head := Window(w.cq.ring, w.c, w.c + m);
    var f := m - |Drop(head, {j})|;
    AdvanceIs(w.cq, w.c, w.p, Clean(w.cq, j).cq, f);
    DoorbellOf(w.c + f);
    WindowSplit(w.cq.ring, w.c, w.c + m, w.p);
    assert Waiting(w)[..m] == head && Waiting(w)[m..] == Window(w.cq.ring, w.c + m, w.p);
    DropNamed(Waiting(w)[..m], {j}, w.sqs.Keys);
  }

  lemma DropNamed<Q>(s: seq<Cqe<Q>>, ids: set<nat>, qs: set<Q>)
    requires AllNamed(s, qs)
    ensures AllNamed(Drop(s, ids), qs)
  {
    hide Drop, LocalId;
    forall i | 0 <= i < |Drop(s, ids)| && Drop(s, ids)[i].queue.Some?
      ensures Drop(s, ids)[i].queue.value in qs
    {
      assert Drop(s, ids)[i] in s;
    }
  }

  /** A complete clean leaves no pending entry of queue j, and the others as they were. */
  lemma CompleteClean<Q>(w: World<Q>, j: nat)
    requires Good(w) && CleanComplete(w.cq, w.c, w.p, j)
    ensures StepsTo(w, Cleans(j), Drop(Waiting(w), {j})) && Free(Drop(Waiting(w), {j}), j)
  {
    hide Pow2, SlotOwner, Drop, Window, Clean, CleanComplete, CleanSafe, IndicesOk;
    CompleteIsSafe(w.cq, w.c, w.p, j);
    var m := CleanMoves(w, j);
    CleanRemovesAllExactly(w.cq, w.c, w.p, j);
    OthersIsDrop(Waiting(w), j);
    var kept := Drop(Waiting(w), {j});
    AdvanceIs(w.cq, w.c, w.p, Clean(w.cq, j).cq, w.p - w.c - |kept|);
    forall i | 0 <= i < |kept|
      ensures LocalId(kept[i]) != j
    {
      assert kept[i] in kept;
    }
  }

  /** Among safe cleans, exactly the complete ones leave no pending entry of queue j. */
  lemma CleanFreesExactly<Q>(w: World<Q>, j: nat)
    requires Good(w) && CleanSafe(w.cq, w.c, w.p, j)
    ensures Good(Step(w, Cleans(j)))
    ensures Free(Waiting(Step(w, Cleans(j))), j) <==> CleanComplete(w.cq, w.c, w.p, j)
  {
    hide Pow2, Drop, Window, Clean, CleanComplete, CleanSafe, Scanned, LocalId, Cleaned, Inv;
    if CleanComplete(w.cq, w.c, w.p, j) {
      CompleteClean(w, j);
    } else {
      var m := CleanMoves(w, j);
      CleanRemovesAllExactly(w.cq, w.c, w.p, j);
      var rest := Waiting(w)[m..];
      RestWindow(w, m);
      NoneStale(w.cq.ring, w.c + m, w.p, j);
      DropNothing(rest, {j});
      var e :| e in rest && LocalId(e) in {j};
      var i :| 0 <= i < |rest| && rest[i] == e;
      var kept := Drop(Waiting(w)[..m], {j});
      assert (kept + rest)[|kept| + i] == e;
    }
  }

  lemma RestWindow<Q>(w: World<Q>, m: nat)
    requires Good(w) && m <= |Waiting(w)|
    ensures |w.cq.ring| > 0 && w.c + m <= w.p && Waiting(w)[m..] == Window(w.cq.ring, w.c + m, w.p)
  {
    hide Pow2, IndicesOk;
    WindowSplit(w.cq.ring, w.c, w.c + m, w.p);
  }

  /** Deleting a queue leaves a world in which nothing pending names it. */
  lemma DeleteStep<Q>(w: World<Q>, j: nat, q: Q, gone: set<nat>)
    requires Good(w) && May(w, Deletes(j, q), gone)
    ensures StepsTo(w, Deletes(j, q), Drop(Waiting(w), {j})) && q !in Step(w, Deletes(j, q)).sqs
    ensures Step(w, Deletes(j, q)) == Cleaned(w, j).(sqs := w.sqs - {q})
  {
    hide Pow2, SlotOwner, Drop, Window, Clean, CleanComplete, LocalId;
    CompleteClean(w, j);
    DropUnnamed(Waiting(w), j, w.sqs.Keys, q);
  }

  /** Dropping number j drops every entry that names q, if those all carry it. */
  lemma DropUnnamed<Q>(s: seq<Cqe<Q>>, j: nat, qs: set<Q>, q: Q)
    requires AllNamed(s, qs) && forall i :: 0 <= i < |s| && s[i].queue == Some(q) ==> LocalId(s[i]) == j
    ensures AllNamed(Drop(s, {j}), qs - {q})
  {
    hide Drop, LocalId;
    var kept := Drop(s, {j});
    forall i | 0 <= i < |kept| && kept[i].queue.Some?
      ensures kept[i].queue.value in qs - {q}
    {
      assert kept[i] in s && LocalId(kept[i]) !in {j};
    }
  }

  /* Conservation. */

  lemma PollConserves<Q>(w: World<Q>, n: nat, gone: set<nat>)
    requires Good(w) && Conserves(w, gone)
    ensures Good(Step(w, Polls(n))) && Conserves(Step(w, Polls(n)), gone)
  {
    hide Step, Drop, Waiting, Good;
    var t := PollStep(w, n);
    var s := Waiting(w);
    assert s == s[..t] + s[t..];
    DropConcat(w.taken, s[..t], gone);
    DropConcat(s[..t], s[t..], gone);
  }

  lemma WriteConserves<Q>(w: World<Q>, e: Cqe<Q>, gone: set<nat>)
    requires Good(w) && Conserves(w, gone)
    ensures Good(Step(w, DeviceWrites(e))) && Conserves(Step(w, DeviceWrites(e)), gone)
  {
    hide Step, Drop, Waiting, Good, Accepts;
    WriteStep(w, e);
    var news := if Accepts(w, e) then [Payload(e)] else [];
    DropConcat(Waiting(w), news, gone);
    DropConcat(w.written, news, gone);
  }

  lemma CleanConserves<Q>(w: World<Q>, j: nat, gone: set<nat>)
    requires Good(w) && Conserves(w, gone) && j in gone && CleanSafe(w.cq, w.c, w.p, j)
    ensures Good(Step(w, Cleans(j))) && Conserves(Step(w, Cleans(j)), gone)
  {
    hide Cleaned, Drop, Waiting, Good, CleanSafe;
    var m := CleanMoves(w, j);
    var s := Waiting(w);
    assert s == s[..m] + s[m..];
    DropConcat(s[..m], s[m..], gone);
    DropConcat(Drop(s[..m], {j}), s[m..], gone);
    DropTwice(s[..m], {j}, gone);
  }

  lemma DeleteConserves<Q>(w: World<Q>, j: nat, q: Q, gone: set<nat>)
    requires Good(w) && Conserves(w, gone) && May(w, Deletes(j, q), gone)
    ensures Good(Step(w, Deletes(j, q))) && Conserves(Step(w, Deletes(j, q)), gone)
  {
    hide Drop, CleanComplete, CleanSafe, Clean;
    DeleteStep(w, j, q, gone);
    DropTwice(Waiting(w), {j}, gone);
  }

  /** Any one event: goodness, conservation, and the doorbell. */
  lemma StepConserves<Q>(w: World<Q>, ev: Event<Q>, gone: set<nat>)
    requires Good(w) && Conserves(w, gone) && May(w, ev, gone)
    ensures var w' := Step(w, ev);
            && Good(w') && Conserves(w', gone) && w.c <= w'.c
            && w'.cq.swDb == if Rings(w, ev) then w'.c % DB_CI_MODULUS else w.cq.swDb
  {
    hide Step, Good, Conserves, Rings, Waiting, CleanSafe, CleanComplete;
    match ev
    case DeviceWrites(e) => WriteConserves(w, e, gone); WriteStep(w, e);
    case Polls(n) => PollConserves(w, n, gone); var t := PollStep(w, n);
    case Cleans(j) => CleanConserves(w, j, gone); var m := CleanMoves(w, j);
    case Deletes(j, q) => DeleteConserves(w, j, q, gone); DeleteStep(w, j, q, gone);
  }

  /**
    FIFO over whole runs. However device writes, polls, safe cleans and deletions interleave,
    the entries taken and then the entries pending are, for every queue that was not cleaned,
    exactly the entries written, each once and in production order. The doorbell word is the
    one the run started with as long as nothing rang it; afterwards it is the truncated consumer
    position right after the last ring, which is never ahead of the present one.
   */
  lemma {:induction false} RunConserves<Q>(w: World<Q>, evs: seq<Event<Q>>, gone: set<nat>)
    requires Good(w) && Admissible(w, evs, gone) && Conserves(w, gone)
    ensures var r := Run(w, evs);
            && Good(r) && Conserves(r, gone) && w.c <= r.c
            && match Rung(w, evs)
               case None => r.cq.swDb == w.cq.swDb
               case Some(x) => w.c <= x <= r.c && r.cq.swDb == x % DB_CI_MODULUS
    decreases |evs|
  {
    hide Pow2, Step, May, Conserves, Good, Rings;
    if evs != [] {
      StepConserves(w, evs[0], gone);
      RunConserves(Step(w, evs[0]), evs[1..], gone);
    }
  }

  lemma DropNone<Q>(s: seq<Cqe<Q>>)
    ensures Drop(s, {}) == s
  {
    DropNothing(s, {});
  }

  /** With no cleans at all: taken then pending is exactly what was written. */
  lemma RunIsFifo<Q>(w: World<Q>, evs: seq<Event<Q>>)
    requires Good(w) && w.c == w.p == 0 && w.written == w.taken == [] && Admissible(w, evs, {})
    ensures var r := Run(w, evs); Good(r) && r.taken + Waiting(r) == r.written
  {
    hide Pow2, Step, Admissible, Run, IndicesOk, SlotOwner, Drop, Window, Rung;
    EmptyWindow(w.cq.ring, 0);
    DropNone(w.taken);
    DropNone(Waiting(w));
    RunConserves(w, evs, {});
    var r := Run(w, evs);
    DropNone(r.taken);
    DropNone(r.written);
    DropNone(Waiting(r));
  }

  /* Queues that are gone. */

  ghost predicate NoWritesOf<Q>(evs: seq<Event<Q>>, j: nat) {
    forall i :: 0 <= i < |evs| && evs[i].DeviceWrites? ==> LocalId(evs[i].e) != j
  }

  /** What polls have taken since a world was w. */
  ghost predicate TakesOn<Q>(w: World<Q>, r: World<Q>, j: nat, free: bool)
    requires Good(r)
  {
    && w.taken <= r.taken && r.sqs.Keys <= w.sqs.Keys
    && AllNamed(r.taken[|w.taken|..], w.sqs.Keys)
    && (free ==> Free(r.taken[|w.taken|..], j) && Free(Waiting(r), j))
  }

  lemma TakesPoll<Q>(w: World<Q>, n: nat, j: nat)
    requires Good(w)
    ensures Good(Step(w, Polls(n))) && TakesOn(w, Step(w, Polls(n)), j, Free(Waiting(w), j))
  {
    hide Step, LocalId, IndicesOk, Inv, Window;
    var t := PollStep(w, n);
    assert (w.taken + Waiting(w)[..t])[|w.taken|..] == Waiting(w)[..t];
  }

  /** A step that takes nothing. */
  lemma TakesNothing<Q>(w: World<Q>, r: World<Q>, j: nat, free: bool)
    requires Good(r) && r.taken == w.taken && r.sqs.Keys <= w.sqs.Keys && (free ==> Free(Waiting(r), j))
    ensures TakesOn(w, r, j, free)
  {
    hide Good, LocalId, Waiting;
    assert r.taken[|w.taken|..] == [];
  }

  lemma TakesWrite<Q>(w: World<Q>, e: Cqe<Q>, j: nat)
    requires Good(w)
    ensures Good(Step(w, DeviceWrites(e)))
    ensures TakesOn(w, Step(w, DeviceWrites(e)), j, Free(Waiting(w), j) && LocalId(e) != j)
  {
    hide Step, Good, Waiting, LocalId, TakesOn, Rings;
    WriteStep(w, e);
    SameId(e);
    TakesNothing(w, Step(w, DeviceWrites(e)), j, Free(Waiting(w), j) && LocalId(e) != j);
  }

  lemma TakesClean<Q>(w: World<Q>, i: nat, j: nat)
    requires Good(w) && CleanSafe(w.cq, w.c, w.p, i)
    ensures Good(Step(w, Cleans(i))) && TakesOn(w, Step(w, Cleans(i)), j, Free(Waiting(w), j))
  {
    hide Cleaned, Good, Waiting, LocalId, Drop, CleanSafe, TakesOn, Rings;
    var m := CleanMoves(w, i);
    DropFree(Waiting(w)[..m], {i}, j);
    TakesNothing(w, Step(w, Cleans(i)), j, Free(Waiting(w), j));
  }

  lemma TakesDelete<Q>(w: World<Q>, i: nat, q: Q, gone: set<nat>, j: nat)
    requires Good(w) && May(w, Deletes(i, q), gone)
    ensures Good(Step(w, Deletes(i, q))) && TakesOn(w, Step(w, Deletes(i, q)), j, Free(Waiting(w), j))
  {
    hide Good, Waiting, LocalId, Drop, CleanComplete, TakesOn, Rings, Clean, May;
    DeleteStep(w, i, q, gone);
    DropFree(Waiting(w), {i}, j);
    TakesNothing(w, Step(w, Deletes(i, q)), j, Free(Waiting(w), j));
  }

  lemma TakesStep<Q>(w: World<Q>, ev: Event<Q>, gone: set<nat>, j: nat)
    requires Good(w) && May(w, ev, gone)
    ensures Good(Step(w, ev))
    ensures TakesOn(w, Step(w, ev), j, Free(Waiting(w), j) && (ev.DeviceWrites? ==> LocalId(ev.e) != j))
  {
    hide Step, Good, Waiting, LocalId, Free, TakesOn, CleanSafe, CleanComplete;
    match ev
    case DeviceWrites(e) => TakesWrite(w, e, j);
    case Polls(n) => TakesPoll(w, n, j);
    case Cleans(i) => TakesClean(w, i, j);
    case Deletes(i, q) => TakesDelete(w, i, q, gone, j);
  }

  lemma DropFree<Q>(s: seq<Cqe<Q>>, ids: set<nat>, j: nat)
    ensures Free(s, j) ==> Free(Drop(s, ids), j)
  {
    hide Drop, LocalId;
    if Free(s, j) {
      forall i | 0 <= i < |Drop(s, ids)|
        ensures LocalId(Drop(s, ids)[i]) != j
      {
        assert Drop(s, ids)[i] in s;
      }
    }
  }

  /**
    Over whole runs: polls only ever take entries of queues that exist; and once no pending entry
    is of queue j and the device writes none, no poll takes one.
   */
  lemma {:induction false} RunTakes<Q>(w: World<Q>, evs: seq<Event<Q>>, gone: set<nat>, j: nat)
    requires Good(w) && Admissible(w, evs, gone)
    ensures Good(Run(w, evs)) && TakesOn(w, Run(w, evs), j, Free(Waiting(w), j) && NoWritesOf(evs, j))
    decreases |evs|
  {
    hide Step, May, Good, LocalId, Waiting;
    if evs == [] {
      assert w.taken[|w.taken|..] == [];
    } else {
      var w1 := Step(w, evs[0]);
      TakesStep(w, evs[0], gone, j);
      RunTakes(w1, evs[1..], gone, j);
      var r := Run(w1, evs[1..]);
      TakesChain(w, w1, r, j, Free(Waiting(w), j) && NoWritesOf(evs, j));
    }
  }

  lemma TakesChain<Q>(w: World<Q>, w1: World<Q>, r: World<Q>, j: nat, free: bool)
    requires Good(w1) && Good(r)
    requires TakesOn(w, w1, j, free) && TakesOn(w1, r, j, free)
    ensures TakesOn(w, r, j, free)
  {
    hide Good, LocalId, Waiting;
    assert r.taken[|w.taken|..] == w1.taken[|w.taken|..] + r.taken[|w1.taken|..];
  }

  /**
    After a complete clean of queue j, and as long as the device writes no entry of j, no poll
    takes an entry of j, whatever else happens.
   */
  lemma CleanedIsNeverPolled<Q>(w: World<Q>, j: nat, evs: seq<Event<Q>>, gone: set<nat>)
    requires Good(w) && CleanComplete(w.cq, w.c, w.p, j)
    requires Admissible(Step(w, Cleans(j)), evs, gone) && NoWritesOf(evs, j)
    ensures var w1 := Step(w, Cleans(j));
            var r := Run(w1, evs);
            && Good(r) && |w1.taken| <= |r.taken|
            && Free(r.taken[|w1.taken|..], j) && Free(Waiting(r), j)
  {
    hide Step, Run, Admissible, CleanComplete, LocalId, Drop;
    CompleteClean(w, j);
    RunTakes(Step(w, Cleans(j)), evs, gone, j);
  }

  /** After a queue is deleted no poll follows a reference to it, in any run. */
  lemma DeletedIsNeverFollowed<Q>(w: World<Q>, j: nat, q: Q, evs: seq<Event<Q>>, gone: set<nat>)
    requires Good(w) && Admissible(w, [Deletes(j, q)] + evs, gone)
    ensures var w1 := Step(w, Deletes(j, q));
            var r := Run(w1, evs);
            && Good(r) && |w1.taken| <= |r.taken| && q !in r.sqs
            && forall i :: |w1.taken| <= i < |r.taken| ==> r.taken[i].queue != Some(q)
  {
    hide Step, Run, May, Good, LocalId, Drop, Rings, Waiting;
    assert ([Deletes(j, q)] + evs)[1..] == evs;
    DeleteStep(w, j, q, gone);
    var w1 := Step(w, Deletes(j, q));
    RunTakes(w1, evs, gone, j);
    var r := Run(w1, evs);
    forall i | |w1.taken| <= i < |r.taken|
      ensures r.taken[i].queue != Some(q)
    {
      assert r.taken[i] == r.taken[|w1.taken|..][i - |w1.taken|];
    }
  }
}
