/**
  The poster, the device and the poller as interleaved steps on one submission ring and one
  completion ring. Poster and poller hold different locks, so the consumer index of the
  submission ring may move between any two steps of the poster.
 */
module QueueRuns {
  import opened Bits
  import opened Common
  import CR = CompletionRing
  import opened JfcPoll
  import JfcPollExact
  import opened Sqe
  import opened SqeStream
  import opened SendQueue
  import opened SendQueueProps

  /**
    Where the poster is within a posting call: between requests; after loading the consumer
    index for the room test; after copying the blocks; after moving the pointer and filling the
    contexts; done with the list; decided how to announce.
   */
  datatype Stage = Ready | Seen(ci: u32, c: nat) | Copied | Marked | Closing | Chosen(direct: bool)

  datatype Poster = Idle | Busy(todo: seq<Wr>, count: nat, flag: bool, at: nat, stage: Stage)

  /**
    The registers and rings, then the bookkeeping: true consumer position, log of accepted
    requests, announced position, consumed and produced completions, the block positions that
    pending completions report, the next position the device may report, and every (position,
    context) pair that was handed to the caller. An entry names this queue by Some(true).
   */
  datatype Sys = Sys(
    sq: Sq, cq: CR.Cq<bool>, enabled: bool, poster: Poster, bump: bool,
    c: nat, reqs: seq<Req>, announced: nat, cc: nat, cp: nat, due: seq<nat>, next: nat, told: seq<(nat, u64)>)

  datatype Act =
    | Submit(wrs: seq<Wr>) | LoadIndex | Copy | Mark | Commit | Choose | Tell
    | DeviceReports(e: CR.Cqe<bool>, pos: nat) | PollMoves | PollBumps

  /** An entry that reports a block of this queue. */
  predicate Ordinary(e: CR.Cqe<bool>) {
    e.queue == Some(true) && !e.fd
  }

  function IndexOf(sq: Sq): SqIndex {
    SqIndex(sq.k, sq.ci, sq.wrid, false)
  }

  function Position(sq: Sq, x: nat): nat {
    sq.addr + x % Pow2(sq.k) * Pow2(BLOCK_SHIFT)
  }

  /* The steps of the poster. */

  ghost function LoadStep(s: Sys): Sys
    requires s.poster.Busy? && SqSized(s.sq) && AllPostable(s.poster.todo, s.sq.maxSge)
  {
    var p := s.poster;
    if p.todo == [] || !Accepted(p.todo[0], s.sq.maxSge) then s.(poster := p.(stage := Closing))
    else
      s.(poster := p.(stage := Seen(s.sq.ci, s.c), flag := p.flag || WantsDirect(p.todo[0], s.sq.maxSge, s.enabled)))
  }

  ghost function CopyStep(s: Sys): Sys
    requires s.poster.Busy? && s.poster.stage.Seen? && SqSized(s.sq)
    requires s.poster.todo != [] && Printable(ReqFor(s.sq, s.poster.todo[0]))
  {
    var p, r := s.poster, ReqFor(s.sq, s.poster.todo[0]);
    RoomForFour(s.sq);
    BlockBound(r);
    if Overflows(s.sq.pi, p.stage.ci, |BlocksOf(r)|, s.sq.k) then s.(poster := p.(stage := Closing))
    else
      s.(sq := s.sq.(ring := Overlay(s.sq.ring, s.sq.pi % Pow2(s.sq.k), BlocksOf(r))), poster := p.(stage := Copied))
  }

  /** The pointer moved past a request, and its contexts filled in. */
  ghost function Filling(sq: Sq, r: Req): (t: Sq)
    requires SqSized(sq) && Printable(r)
  {
    hide Pow2, BlocksOf, Printable;
    RoomForFour(sq);
    BlockBound(r);
    var n := |BlocksOf(r)|;
    sq.(curr := UpdatePtr(sq.curr, n * Pow2(BLOCK_SHIFT), sq.addr, sq.addr + Pow2(sq.k) * Pow2(BLOCK_SHIFT)),
        wrid := Overlay(sq.wrid, sq.pi % Pow2(sq.k), Repeat(r.wr.userCtx, n)))
  }

  ghost function MarkStep(s: Sys): Sys
    requires s.poster.Busy? && SqSized(s.sq)
    requires s.poster.todo != [] && Printable(ReqFor(s.sq, s.poster.todo[0]))
  {
    s.(sq := Filling(s.sq, ReqFor(s.sq, s.poster.todo[0])), poster := s.poster.(at := s.sq.curr, stage := Marked))
  }

  ghost function CommitStep(s: Sys): Sys
    requires s.poster.Busy?
    requires s.poster.todo != [] && Printable(ReqFor(s.sq, s.poster.todo[0]))
  {
    var p, r := s.poster, ReqFor(s.sq, s.poster.todo[0]);
    s.(sq := s.sq.(pi := Add32(s.sq.pi, |BlocksOf(r)|)), reqs := s.reqs + [r],
       poster := p.(todo := p.todo[1..], count := p.count + 1, stage := Ready))
  }

  ghost function ChooseStep(s: Sys): Sys
    requires s.poster.Busy?
  {
    var p := s.poster;
    if p.count == 0 then s.(poster := Idle)
    else s.(poster := p.(stage := Chosen(ChoosesDirect(s.sq, p.count, p.flag))))
  }

  /** The device learns the producer position, from the doorbell or from the block itself. */
  ghost function TellStep(s: Sys): Sys
    requires s.poster.Busy? && s.poster.stage.Chosen? && AllPrintable(s.reqs)
    requires s.poster.stage.direct ==>
               && 0 <= SlotOf(s.sq, s.poster.at) < |s.sq.ring| && s.reqs != []
               && AllPrintable(Repatched(s.reqs, s.sq.pi))
  {
    if s.poster.stage.direct then
      var i := SlotOf(s.sq, s.poster.at);
      var log := Repatched(s.reqs, s.sq.pi);
      s.(sq := s.sq.(ring := s.sq.ring[i := Patched(s.sq.ring[i], s.sq.pi)]), reqs := log,
         announced := |Print(log)|, poster := Idle)
    else s.(announced := |Print(s.reqs)|, poster := Idle)
  }

  /* The steps of the device and the poller. */

  /** The device reports announced blocks in increasing order; entries for other queues come in between. */
  ghost predicate MayReport(s: Sys, e: CR.Cqe<bool>, pos: nat) {
    && s.cp < s.cc + Pow2(s.cq.k)
    && (Ordinary(e) ==> s.next <= pos < s.announced && e.entryIdx == pos % 0x1_0000)
  }

  ghost function ReportStep(s: Sys, e: CR.Cqe<bool>, pos: nat): Sys
    requires |s.cq.ring| == Pow2(s.cq.k)
  {
    s.(cq := CR.Produce(s.cq, s.cp, e), cp := s.cp + 1, due := s.due + [pos],
       next := if Ordinary(e) then pos + 1 else s.next)
  }

  /** First half of a poll: take an entry and move the consumer index of the queue it names. */
  ghost function MoveStep(s: Sys): Sys
    requires |s.cq.ring| == Pow2(s.cq.k) && |s.sq.wrid| == Pow2(s.sq.k) && s.due != []
  {
    match CR.NextCqe(s.cq, s.cq.ci)
    case None => s
    case Some(e) =>
      var t := s.(cq := s.cq.(ci := Add32(s.cq.ci, 1)), cc := s.cc + 1, due := s.due[1..]);
      if !Ordinary(e) then t
      else
        var ci := MovedIndex(e, IndexOf(s.sq));
        var moved := t.(sq := s.sq.(ci := ci), c := s.due[0]);
        if StatusOf(e.status, e.substatus).None? then moved
        else moved.(bump := true, told := s.told + [(s.due[0], s.sq.wrid[ci % Pow2(s.sq.k)])])
  }

  ghost function BumpStep(s: Sys): Sys {
    s.(sq := s.sq.(ci := Add32(s.sq.ci, 1)), c := s.c + 1, bump := false)
  }

  /* The invariant. */

  /** The ring with the pointer where it was before the request in flight. */
  function Settled(sq: Sq, p: Poster): Sq {
    if p.Busy? && p.stage.Marked? then sq.(curr := p.at) else sq
  }

  /** The poster's next request passed the checks. */
  ghost predicate Checked(sq: Sq, todo: seq<Wr>) {
    todo != [] && Postable(todo[0], sq.maxSge) && Accepted(todo[0], sq.maxSge) && Printable(ReqFor(sq, todo[0]))
  }

  /** A request that also passed the room test is in flight, its blocks beyond the producer position. */
  ghost predicate InFlight(sq: Sq, todo: seq<Wr>, c: nat, reqs: seq<Req>)
    requires AllPrintable(reqs) && |sq.ring| > 0
  {
    && Checked(sq, todo)
    && var b := BlocksOf(ReqFor(sq, todo[0]));
    && |Print(reqs)| + |b| <= c + Pow2(sq.k)
    && Mirrors(sq.ring, c, |Print(reqs)| + |b|, Print(reqs) + b)
  }

  /** Its contexts are filled in and the pointer has moved past it. */
  ghost predicate Filled(sq: Sq, todo: seq<Wr>, c: nat, reqs: seq<Req>)
    requires AllPrintable(reqs) && |sq.wrid| > 0 && Checked(sq, todo)
  {
    var b := BlocksOf(ReqFor(sq, todo[0]));
    && Mirrors(sq.wrid, c, |Print(reqs)| + |b|, Tags(reqs) + Repeat(todo[0].userCtx, |b|))
    && sq.curr == Position(sq, |Print(reqs)| + |b|)
  }

  /** A consumer index loaded some steps ago, from a position no later than the present one. */
  ghost predicate Loaded(ci: u32, seen: nat, c: nat, p: nat, cnt: nat) {
    ci == seen % TWO_32 && seen <= c && p <= seen + cnt
  }

  ghost predicate StageInv(p: Poster, sq: Sq, c: nat, reqs: seq<Req>, announced: nat)
    requires AllPrintable(reqs) && |sq.ring| > 0 && |sq.wrid| > 0
  {
    p.Busy? ==>
      && AllPostable(p.todo, sq.maxSge)
      && match p.stage
         case Ready => true
         case Closing => true
         case Seen(ci, seen) => Checked(sq, p.todo) && Loaded(ci, seen, c, |Print(reqs)|, Pow2(sq.k))
         case Copied => InFlight(sq, p.todo, c, reqs)
         case Marked => InFlight(sq, p.todo, c, reqs) && Filled(sq, p.todo, c, reqs)
         case Chosen(direct) => p.count > 0 && (direct ==> p.count == 1 && |Print(reqs)| == c + 1 && announced == c)
  }

  /** The requests of the current call are exactly the ones not announced yet. */
  ghost predicate BatchInv(p: Poster, addr: nat, k: nat, reqs: seq<Req>, announced: nat)
    requires AllPrintable(reqs)
  {
    if p.Idle? then announced == |Print(reqs)|
    else
      && p.count <= |reqs| && announced == Start(reqs, |reqs| - p.count)
      && (p.count > 0 && !p.stage.Marked? ==>
            p.at == addr + Start(reqs, |reqs| - 1) % Pow2(k) * Pow2(BLOCK_SHIFT))
  }

  /** Pending reports of this queue name announced blocks from `low` on, in increasing order. */
  ghost predicate DueInv(pend: seq<CR.Cqe<bool>>, due: seq<nat>, low: nat, next: nat, announced: nat) {
    && |due| == |pend| && low <= next <= announced
    && (forall i :: 0 <= i < |pend| && Ordinary(pend[i]) ==>
          pend[i].entryIdx == due[i] % 0x1_0000 && low <= due[i] < next)
    && (forall i, j :: 0 <= i < j < |pend| && Ordinary(pend[i]) && Ordinary(pend[j]) ==> due[i] < due[j])
  }

  /**
    Every context handed out is the one posted with the block that was reported; blocks are
    reported in order, each at most once, and lie before `low`.
   */
  ghost predicate ToldInv(told: seq<(nat, u64)>, tags: seq<u64>, low: nat) {
    && (forall i :: 0 <= i < |told| ==> told[i].0 < low && told[i].0 < |tags| && told[i].1 == tags[told[i].0])
    && forall i, j :: 0 <= i < j < |told| ==> told[i].0 < told[j].0
  }

  function Low(s: Sys): nat {
    if s.bump then s.c + 1 else s.c
  }

  ghost predicate SysInv(s: Sys) {
    && SqInv(Settled(s.sq, s.poster), s.c, s.reqs) && 6 <= s.sq.k <= 16 && |s.sq.ring| > 0 && |s.sq.wrid| > 0
    && s.c <= s.announced <= |Print(s.reqs)|
    && StageInv(s.poster, s.sq, s.c, s.reqs, s.announced)
    && BatchInv(s.poster, s.sq.addr, s.sq.k, s.reqs, s.announced)
    && CR.Inv(s.cq, s.cc, s.cp)
    && DueInv(CR.Pending(s.cq, s.cc, s.cp), s.due, Low(s), s.next, s.announced)
    && ToldInv(s.told, Tags(s.reqs), Low(s))
  }

  ghost function Step(s: Sys, a: Act): Sys
    requires SysInv(s)
  {
    match a
    case Submit(wrs) =>
      if s.poster.Idle? && AllPostable(wrs, s.sq.maxSge) then s.(poster := Busy(wrs, 0, false, s.sq.addr, Ready)) else s
    case LoadIndex => if s.poster.Busy? && s.poster.stage.Ready? then LoadStep(s) else s
    case Copy =>
      if s.poster.Busy? && s.poster.stage.Seen? then CopyStep(s) else s
    case Mark => if s.poster.Busy? && s.poster.stage.Copied? then MarkStep(s) else s
    case Commit => if s.poster.Busy? && s.poster.stage.Marked? then CommitStep(s) else s
    case Choose => if s.poster.Busy? && s.poster.stage.Closing? then ChooseStep(s) else s
    case Tell => if s.poster.Busy? && s.poster.stage.Chosen? then TellReady(s); TellStep(s) else s
    case DeviceReports(e, pos) => if MayReport(s, e, pos) then ReportStep(s, e, pos) else s
    case PollMoves => if !s.bump && s.due != [] then MoveStep(s) else s
    case PollBumps => if s.bump then BumpStep(s) else s
  }

  /** When the direct path was chosen, the remembered slot is that of the one outstanding block. */
  lemma TellReady(s: Sys)
    requires SysInv(s) && s.poster.Busy? && s.poster.stage.Chosen?
    ensures s.reqs != [] && |s.sq.ring| > 0
    ensures s.poster.stage.direct ==>
              && |BlocksOf(s.reqs[|s.reqs| - 1])| == 1
              && SlotOf(s.sq, s.poster.at) == (|Print(s.reqs)| - 1) % |s.sq.ring|
              && AllPrintable(Repatched(s.reqs, s.sq.pi))
  {
    hide Pow2, Printable, BlocksOf, Print, Tags, SqInv, DueInv, ToldInv, CR.Inv, CR.Pending, SlotOf;
    InvCounters(s.sq, s.c, s.reqs);
    if s.poster.stage.direct {
      LastRequest(s.reqs);
      assert s.reqs[..|s.reqs| - 1] == s.reqs[..|s.reqs| - s.poster.count];
      SlotAt(s.sq, s.c);
      RepatchedLog(s.reqs, s.sq.pi);
    }
    RoomForFour(s.sq);
  }

  /* Each step keeps the invariant. */

  lemma MirrorsPart<T>(ring: seq<T>, lo: nat, hi: nat, log: seq<T>, lo': nat, hi': nat, log': seq<T>)
    requires |ring| > 0 && Mirrors(ring, lo, hi, log) && lo <= lo' && hi' <= hi
    requires hi' <= |log'| <= |log| && log' == log[..|log'|]
    ensures Mirrors(ring, lo', hi', log')
  {
    forall x {:trigger Cell(ring, x)} | lo' <= x < hi'
      ensures Cell(ring, x) == log'[x]
    {
      assert Cell(ring, x) == log[x];
    }
  }

  lemma LoadKeeps(s: Sys)
    requires SysInv(s) && s.poster.Busy? && s.poster.stage.Ready?
    ensures SysInv(LoadStep(s))
  {
    hide Pow2, Printable, Print, Tags, SqInv, DueInv, ToldInv, CR.Inv, CR.Pending, Accepted, WellFormed, WantsDirect, Start;
    InvCounters(s.sq, s.c, s.reqs);
    if s.poster.todo != [] && Accepted(s.poster.todo[0], s.sq.maxSge) {
      AcceptedIsPrintable(s.sq, s.poster.todo[0]);
    }
  }

  lemma InvCounters(sq: Sq, c: nat, reqs: seq<Req>)
    requires SqInv(sq, c, reqs)
    ensures AllPrintable(reqs) && Counters(sq, c, |Print(reqs)|)
  {
  }

  /** The copy writes the blocks beyond the producer position and nowhere else. */
  lemma CopyWrites(sq: Sq, todo: seq<Wr>, ci: u32, seen: nat, c: nat, reqs: seq<Req>)
    requires SqInv(sq, c, reqs) && SqSized(sq) && Checked(sq, todo)
    requires Loaded(ci, seen, c, |Print(reqs)|, Pow2(sq.k)) && seen <= |Print(reqs)|
    requires !Overflows(sq.pi, ci, |BlocksOf(ReqFor(sq, todo[0]))|, sq.k)
    ensures |BlocksOf(ReqFor(sq, todo[0]))| <= |sq.ring| && |sq.ring| > 0
    ensures var sq' := sq.(ring := Overlay(sq.ring, sq.pi % Pow2(sq.k), BlocksOf(ReqFor(sq, todo[0]))));
            SqInv(sq', c, reqs) && InFlight(sq', todo, c, reqs)
  {
    hide Pow2, Printable, BlocksOf, Print, Tags, Mirrors, OwnersRight, AllAccepted, Accepted, WellFormed, Postable, Overlay, OwnerBit;
    var p, b := |Print(reqs)|, BlocksOf(ReqFor(sq, todo[0]));
    BlockBound(ReqFor(sq, todo[0]));
    RoomForFour(sq);
    OverflowIsExact(seen, p, |b|, sq.k);
    TruncSlot(p, sq.k);
    OverlayMirrors(sq.ring, c, p, Print(reqs), b);
    var ring := Overlay(sq.ring, p % |sq.ring|, b);
    MirrorsPart(ring, c, p + |b|, Print(reqs) + b, c, p, Print(reqs));
    assert ReqFor(sq.(ring := ring), todo[0]) == ReqFor(sq, todo[0]);
  }

  lemma CopyKeeps(s: Sys)
    requires SysInv(s) && s.poster.Busy? && s.poster.stage.Seen?
    ensures Printable(ReqFor(s.sq, s.poster.todo[0])) && SysInv(CopyStep(s))
  {
    hide Pow2, Printable, BlocksOf, Print, Tags, SqInv, DueInv, ToldInv, CR.Inv, CR.Pending, Accepted, WellFormed, Postable,
         Overflows, Overlay, Start, InFlight, Loaded;
    InvCounters(s.sq, s.c, s.reqs);
    var p := s.poster;
    var b := BlocksOf(ReqFor(s.sq, p.todo[0]));
    RoomForFour(s.sq);
    BlockBound(ReqFor(s.sq, p.todo[0]));
    if !Overflows(s.sq.pi, p.stage.ci, |b|, s.sq.k) {
      LoadedBefore(p.stage.ci, p.stage.c, s.c, |Print(s.reqs)|, Pow2(s.sq.k));
      CopyWrites(s.sq, p.todo, p.stage.ci, p.stage.c, s.c, s.reqs);
    }
  }

  lemma LoadedBefore(ci: u32, seen: nat, c: nat, p: nat, cnt: nat)
    requires Loaded(ci, seen, c, p, cnt)
    ensures seen <= c
  {
  }

  /** Filling the contexts and moving the pointer. */
  lemma MarkWrites(sq: Sq, todo: seq<Wr>, c: nat, reqs: seq<Req>)
    requires SqInv(sq, c, reqs) && SqSized(sq) && |sq.ring| > 0 && InFlight(sq, todo, c, reqs)
    ensures var sq' := Filling(sq, ReqFor(sq, todo[0]));
            && |sq'.wrid| > 0 && |sq'.ring| > 0 && sq'.pi == sq.pi && sq'.ci == sq.ci && sq'.k == sq.k
            && SqInv(sq'.(curr := sq.curr), c, reqs) && InFlight(sq', todo, c, reqs) && Filled(sq', todo, c, reqs)
  {
    hide Pow2, Printable, BlocksOf, Print, Tags, Mirrors, OwnersRight, AllAccepted, Accepted, WellFormed, Postable, Overlay, OwnerBit,
         UpdatePtr;
    var p, b := |Print(reqs)|, BlocksOf(ReqFor(sq, todo[0]));
    var t := Repeat(todo[0].userCtx, |b|);
    BlockBound(ReqFor(sq, todo[0]));
    RoomForFour(sq);
    TruncSlot(p, sq.k);
    OverlayMirrors(sq.wrid, c, p, Tags(reqs), t);
    MirrorsPart(Overlay(sq.wrid, p % |sq.wrid|, t), c, p + |b|, Tags(reqs) + t, c, p, Tags(reqs));
    PtrFollowsIndex(sq.addr, p, |b|, sq.k, BLOCK_SHIFT);
  }

  lemma MarkKeeps(s: Sys)
    requires SysInv(s) && s.poster.Busy? && s.poster.stage.Copied?
    ensures Printable(ReqFor(s.sq, s.poster.todo[0])) && SysInv(MarkStep(s))
  {
    hide Pow2, Printable, BlocksOf, Print, Tags, SqInv, DueInv, ToldInv, CR.Inv, CR.Pending, Accepted, WellFormed, Postable,
         Overlay, Start, InFlight, Filled, UpdatePtr;
    InvCounters(s.sq, s.c, s.reqs);
    assert Checked(s.sq, s.poster.todo) by {
      FlightChecked(s);
    }
    RoomForFour(s.sq);
    BlockBound(ReqFor(s.sq, s.poster.todo[0]));
    MarkWrites(s.sq, s.poster.todo, s.c, s.reqs);
  }

  lemma FlightChecked(s: Sys)
    requires SysInv(s) && s.poster.Busy? && (s.poster.stage.Copied? || s.poster.stage.Marked?)
    ensures Checked(s.sq, s.poster.todo)
  {
    hide SqInv, DueInv, ToldInv, BatchInv, CR.Inv;
  }

  /** Moving the producer index past the filled request makes it part of the log. */
  lemma CommitLogs(sq: Sq, todo: seq<Wr>, at: nat, c: nat, reqs: seq<Req>)
    requires SqInv(sq.(curr := at), c, reqs) && |sq.ring| > 0 && |sq.wrid| > 0
    requires InFlight(sq, todo, c, reqs) && Filled(sq, todo, c, reqs)
    ensures var r := ReqFor(sq, todo[0]); SqInv(sq.(pi := Add32(sq.pi, |BlocksOf(r)|)), c, reqs + [r])
  {
    hide Pow2, Printable, BlocksOf, Print, Tags, Mirrors, OwnersRight, Accepted, WellFormed, OwnerBit, AllAccepted,
         Counters, SqSized;
    var r := ReqFor(sq, todo[0]);
    LogAppend(reqs, r);
    CommitCounters(sq.(curr := at), c, |Print(reqs)|, |BlocksOf(r)|);
    CommitOwners(sq.(curr := at), c, reqs, r);
    CommitAccepted(reqs, r, sq.maxSge);
    SameCounters(sq.(curr := at, pi := Add32(sq.pi, |BlocksOf(r)|)), sq.curr, c, |Print(reqs)| + |BlocksOf(r)|);
  }

  lemma CommitCounters(sq: Sq, c: nat, p: nat, n: nat)
    requires Counters(sq, c, p) && p + n <= c + Pow2(sq.k)
    ensures Counters(sq.(pi := Add32(sq.pi, n)), c, p + n)
  {
    hide Pow2;
    ModAdd(p, n, TWO_32);
  }

  lemma SameCounters(sq: Sq, curr: nat, c: nat, p: nat)
    requires Counters(sq, c, p)
    ensures Counters(sq.(curr := curr), c, p)
  {
  }

  lemma CommitOwners(sq: Sq, c: nat, reqs: seq<Req>, r: Req)
    requires AllPrintable(reqs) && Printable(r) && OwnersRight(reqs, sq.k)
    requires Counters(sq, c, |Print(reqs)|) && r.owner == OwnerBit(sq.pi, sq.k)
    ensures AllPrintable(reqs + [r]) && OwnersRight(reqs + [r], sq.k)
  {
    hide Printable, Print, OwnersRight, OwnerBit, Pow2;
    OwnerIsLapParity(|Print(reqs)|, sq.k);
    OwnersAppend(reqs, r, sq.k);
  }

  lemma CommitAccepted(reqs: seq<Req>, r: Req, maxSge: u8)
    requires AllAccepted(reqs, maxSge) && WellFormed(r.wr) && Accepted(r.wr, maxSge)
    ensures AllAccepted(reqs + [r], maxSge)
  {
    hide WellFormed, Accepted;
  }

  lemma CommitKeeps(s: Sys)
    requires SysInv(s) && s.poster.Busy? && s.poster.stage.Marked?
    ensures Printable(ReqFor(s.sq, s.poster.todo[0])) && SysInv(CommitStep(s))
  {
    hide Pow2, Printable, BlocksOf, Print, Tags, SqInv, DueInv, CR.Inv, CR.Pending, Accepted, WellFormed, Postable, InFlight, Filled;
    FlightChecked(s);
    var r := ReqFor(s.sq, s.poster.todo[0]);
    InvCounters(Settled(s.sq, s.poster), s.c, s.reqs);
    CommitLogs(s.sq, s.poster.todo, s.poster.at, s.c, s.reqs);
    LogAppend(s.reqs, r);
    InvCurr(s.sq.(curr := s.poster.at), s.c, s.reqs);
    CommitBatch(s.reqs, r, s.poster.count);
  }

  lemma InvCurr(sq: Sq, c: nat, reqs: seq<Req>)
    requires SqInv(sq, c, reqs)
    ensures sq.curr == Position(sq, |Print(reqs)|)
  {
  }

  lemma CommitBatch(reqs: seq<Req>, r: Req, count: nat)
    requires AllPrintable(reqs) && Printable(r) && count <= |reqs|
    ensures AllPrintable(reqs + [r])
    ensures Start(reqs + [r], |reqs|) == |Print(reqs)|
    ensures Start(reqs + [r], |reqs| - count) == Start(reqs, |reqs| - count)
  {
    hide Printable, Print;
    assert (reqs + [r])[..|reqs|] == reqs;
    assert (reqs + [r])[..|reqs| - count] == reqs[..|reqs| - count];
  }

  lemma ChooseKeeps(s: Sys)
    requires SysInv(s) && s.poster.Busy? && s.poster.stage.Closing?
    ensures SysInv(ChooseStep(s))
  {
    hide Pow2, Printable, BlocksOf, Print, Tags, SqInv, DueInv, ToldInv, CR.Inv, CR.Pending, Accepted, WellFormed, Postable;
    InvCounters(s.sq, s.c, s.reqs);
    WithinLap(s.sq, s.c, s.reqs);
    assert s.reqs[..|s.reqs|] == s.reqs;
    if s.poster.count == 1 {
      LastRequest(s.reqs);
      BlockBound(s.reqs[|s.reqs| - 1]);
    }
  }

  lemma TellKeeps(s: Sys)
    requires SysInv(s) && s.poster.Busy? && s.poster.stage.Chosen?
    ensures s.poster.stage.direct ==>
              && 0 <= SlotOf(s.sq, s.poster.at) < |s.sq.ring| && s.reqs != []
              && AllPrintable(Repatched(s.reqs, s.sq.pi))
    ensures SysInv(TellStep(s))
  {
    hide Pow2, Printable, BlocksOf, Print, Tags, SqInv, CR.Inv, CR.Pending, Accepted, WellFormed, Postable, SlotOf, Patched, ToldInv;
    TellReady(s);
    InvCounters(s.sq, s.c, s.reqs);
    if s.poster.stage.direct {
      RepatchedLog(s.reqs, s.sq.pi);
      PatchKeeps(s.sq, s.c, s.reqs);
    }
  }

  lemma ReportKeeps(s: Sys, e: CR.Cqe<bool>, pos: nat)
    requires SysInv(s) && MayReport(s, e, pos)
    ensures SysInv(ReportStep(s, e, pos))
  {
    hide Pow2, Printable, Print, Tags, SqInv, CR.Inv, CR.Pending, CR.Produce, BatchInv, StageInv, ToldInv;
    RingSizedAs(s.cq, s.cc, s.cp);
    CR.ProduceAppends(s.cq, s.cc, s.cp, e);
    var pend := CR.Pending(s.cq, s.cc, s.cp);
    assert Ordinary(CR.Payload(e)) == Ordinary(e);
    assert CR.Payload(e).entryIdx == e.entryIdx;
  }

  lemma RingSizedAs(cq: CR.Cq<bool>, c: nat, p: nat)
    requires CR.Inv(cq, c, p)
    ensures |cq.ring| == Pow2(cq.k) && c <= p && |CR.Pending(cq, c, p)| == p - c
  {
  }

  /** Retiring blocks keeps the ring invariant. */
  lemma AdvanceKeeps(sq: Sq, c: nat, c': nat, reqs: seq<Req>)
    requires SqInv(sq, c, reqs) && c <= c' <= |Print(reqs)|
    ensures SqInv(sq.(ci := c' % TWO_32), c', reqs)
  {
    hide Pow2, Printable, Print, Tags, OwnersRight, AllAccepted;
  }

  /** Retiring blocks does not disturb the poster, whatever it is doing. */
  lemma StageAdvances(p: Poster, sq: Sq, c: nat, c': nat, reqs: seq<Req>, announced: nat, ci: u32)
    requires AllPrintable(reqs) && |sq.ring| > 0 && |sq.wrid| > 0
    requires StageInv(p, sq, c, reqs, announced) && c <= c' <= announced
    ensures StageInv(p, sq.(ci := ci), c', reqs, announced)
  {
    hide Pow2, Printable, Print, Tags, Accepted, WellFormed, Postable, BlocksOf;
    if p.Busy? && p.todo != [] {
      assert ReqFor(sq.(ci := ci), p.todo[0]) == ReqFor(sq, p.todo[0]);
    }
  }

  /** The head of the pending reports, as the poll finds it. */
  lemma HeadReport(s: Sys) returns (e: CR.Cqe<bool>)
    requires SysInv(s) && s.due != []
    ensures CR.NextCqe(s.cq, s.cq.ci) == Some(e)
    ensures CR.Inv(s.cq.(ci := Add32(s.cq.ci, 1)), s.cc + 1, s.cp)
    ensures CR.Pending(s.cq.(ci := Add32(s.cq.ci, 1)), s.cc + 1, s.cp) == CR.Pending(s.cq, s.cc, s.cp)[1..]
    ensures CR.Pending(s.cq, s.cc, s.cp) != [] && CR.Payload(e) == CR.Pending(s.cq, s.cc, s.cp)[0]
  {
    hide Pow2, SqInv, StageInv, BatchInv, ToldInv, CR.Inv, CR.NextCqe, CR.Pending;
    RingSizedAs(s.cq, s.cc, s.cp);
    CR.HeadIsPending(s.cq, s.cc, s.cp);
    CR.ConsumeOne(s.cq, s.cc, s.cp, s.cq.swDb);
    e := CR.NextCqe(s.cq, s.cq.ci).value;
  }

  lemma DueTail(pend: seq<CR.Cqe<bool>>, due: seq<nat>, low: nat, next: nat, announced: nat, low': nat)
    requires DueInv(pend, due, low, next, announced) && due != []
    requires low' <= (if Ordinary(pend[0]) then due[0] + 1 else low)
    ensures DueInv(pend[1..], due[1..], low', next, announced)
  {
  }

  /** Moving to a reported block: the index becomes exactly its position, and its slot holds its context. */
  lemma MoveReaches(sq: Sq, c: nat, reqs: seq<Req>, e: CR.Cqe<bool>, pos: nat)
    requires SqInv(sq, c, reqs) && sq.k <= 16 && |sq.wrid| == Pow2(sq.k)
    requires c <= pos < |Print(reqs)| && !e.fd && e.entryIdx == pos % 0x1_0000
    ensures MovedIndex(e, IndexOf(sq)) == pos % TWO_32
    ensures SqInv(sq.(ci := pos % TWO_32), pos, reqs)
    ensures sq.wrid[pos % TWO_32 % Pow2(sq.k)] == Tags(reqs)[pos]
  {
    hide Pow2, Printable, Print, Tags, OwnersRight, AllAccepted;
    IndexRebuilt(c, pos, sq.k);
    AdvanceKeeps(sq, c, pos, reqs);
    TruncSlot(pos, sq.k);
    assert Cell(sq.wrid, pos) == Tags(reqs)[pos];
  }

  lemma MoveKeeps(s: Sys)
    requires SysInv(s) && !s.bump && s.due != []
    ensures |s.cq.ring| == Pow2(s.cq.k) && |s.sq.wrid| == Pow2(s.sq.k) && SysInv(MoveStep(s))
  {
    hide Pow2, Printable, Print, Tags, SqInv, StageInv, BatchInv, CR.Inv, CR.Pending, CR.NextCqe, MovedIndex, StatusOf, DueInv;
    RingSizedAs(s.cq, s.cc, s.cp);
    var quiet := Settled(s.sq, s.poster);
    InvCounters(quiet, s.c, s.reqs);
    var e := HeadReport(s);
    var pend := CR.Pending(s.cq, s.cc, s.cp);
    assert Ordinary(CR.Payload(e)) == Ordinary(e);
    if Ordinary(e) {
      HeadBounds(pend, s.due, s.c, s.next, s.announced);
      var pos := s.due[0];
      MoveReaches(quiet, s.c, s.reqs, e, pos);
      StageAdvances(s.poster, s.sq, s.c, pos, s.reqs, s.announced, pos % TWO_32);
      DueTail(pend, s.due, s.c, s.next, s.announced, if StatusOf(e.status, e.substatus).None? then pos else pos + 1);
    } else {
      DueTail(pend, s.due, s.c, s.next, s.announced, s.c);
    }
  }

  lemma HeadBounds(pend: seq<CR.Cqe<bool>>, due: seq<nat>, low: nat, next: nat, announced: nat)
    requires DueInv(pend, due, low, next, announced) && due != [] && Ordinary(pend[0])
    ensures low <= due[0] < next <= announced && pend[0].entryIdx == due[0] % 0x1_0000
  {
  }

  lemma BumpKeeps(s: Sys)
    requires SysInv(s) && s.bump
    ensures SysInv(BumpStep(s))
  {
    hide Pow2, Printable, Print, Tags, SqInv, StageInv, BatchInv, CR.Inv, CR.Pending;
    var quiet := Settled(s.sq, s.poster);
    InvCounters(quiet, s.c, s.reqs);
    ModAdd(s.c, 1, TWO_32);
    AdvanceKeeps(quiet, s.c, s.c + 1, s.reqs);
    StageAdvances(s.poster, s.sq, s.c, s.c + 1, s.reqs, s.announced, Add32(s.sq.ci, 1));
  }

  lemma SubmitKeeps(s: Sys, wrs: seq<Wr>)
    requires SysInv(s) && s.poster.Idle? && AllPostable(wrs, s.sq.maxSge)
    ensures SysInv(s.(poster := Busy(wrs, 0, false, s.sq.addr, Ready)))
  {
    hide Pow2, Printable, Print, Tags, SqInv, DueInv, CR.Inv, CR.Pending, WellFormed, Postable;
    assert s.reqs[..|s.reqs|] == s.reqs;
  }

  /** Every step of every party keeps the whole invariant. */
  lemma StepKeeps(s: Sys, a: Act)
    requires SysInv(s)
    ensures SysInv(Step(s, a))
  {
    hide Pow2, SysInv, LoadStep, CopyStep, MarkStep, CommitStep, ChooseStep, TellStep, ReportStep, MoveStep, BumpStep, MayReport;
    match a
    case Submit(wrs) => if s.poster.Idle? && AllPostable(wrs, s.sq.maxSge) { SubmitKeeps(s, wrs); }
    case LoadIndex => if s.poster.Busy? && s.poster.stage.Ready? { LoadKeeps(s); }
    case Copy => if s.poster.Busy? && s.poster.stage.Seen? { CopyKeeps(s); }
    case Mark => if s.poster.Busy? && s.poster.stage.Copied? { MarkKeeps(s); }
    case Commit => if s.poster.Busy? && s.poster.stage.Marked? { CommitKeeps(s); }
    case Choose => if s.poster.Busy? && s.poster.stage.Closing? { ChooseKeeps(s); }
    case Tell => if s.poster.Busy? && s.poster.stage.Chosen? { TellKeeps(s); }
    case DeviceReports(e, pos) => if MayReport(s, e, pos) { ReportKeeps(s, e, pos); }
    case PollMoves => if !s.bump && s.due != [] { MoveKeeps(s); }
    case PollBumps => if s.bump { BumpKeeps(s); }
  }

  ghost function Run(s: Sys, acts: seq<Act>): Sys
    requires SysInv(s)
    ensures SysInv(Run(s, acts))
    decreases |acts|
  {
    hide SysInv, Step;
    if acts == [] then s
    else
      StepKeeps(s, acts[0]);
      Run(Step(s, acts[0]), acts[1..])
  }

  /** A fresh pair of queues. */
  ghost predicate Fresh(s: Sys) {
    && SqSized(s.sq) && s.sq.k <= 16 && s.sq.pi == s.sq.ci == 0 && s.sq.curr == s.sq.addr
    && CR.Sized(s.cq) && s.cq.ci == 0 && (forall j :: 0 <= j < |s.cq.ring| ==> s.cq.ring[j].owner == 0)
    && s.poster == Idle && !s.bump && s.reqs == [] && s.due == [] && s.told == []
    && s.c == s.announced == s.cc == s.cp == s.next == 0
  }

  lemma FreshIsGood(s: Sys)
    requires Fresh(s)
    ensures SysInv(s)
  {
    hide CR.Pending, CR.Inv, CR.Sized, Pow2;
    RoomForFour(s.sq);
    PrintEmpty();
    CR.InitialRing(s.cq);
    DivModUnique(0, Pow2(s.sq.k), 0, 0);
  }

  /**
    What the queues promise at any moment: the counters are in order and at most one ring is
    outstanding; every outstanding slot holds the block and the context of its request; the
    device can read the accepted requests back from any outstanding boundary; nothing accepted
    stays unannounced once a call is over; every reported context is the one of its block.
   */
  ghost predicate Safe(t: Sys) {
    && AllPrintable(t.reqs) && SqSized(t.sq)
    && t.c <= t.announced <= |Print(t.reqs)| <= t.c + Pow2(t.sq.k)
    && t.sq.pi == |Print(t.reqs)| % TWO_32 && t.sq.ci == t.c % TWO_32
    && |t.sq.ring| > 0 && |t.sq.wrid| > 0
    && Mirrors(t.sq.ring, t.c, |Print(t.reqs)|, Print(t.reqs))
    && Mirrors(t.sq.wrid, t.c, |Print(t.reqs)|, Tags(t.reqs))
    && (t.poster.Idle? ==> t.announced == |Print(t.reqs)|)
    && ToldInv(t.told, Tags(t.reqs), Low(t))
    && forall i {:trigger Start(t.reqs, i)} :: 0 <= i <= |t.reqs| && t.c <= Start(t.reqs, i) ==> ReadsBack(t.sq, t.reqs, i)
  }

  /** The device-side parser, run from the start of request i, finds exactly the requests from i on. */
  ghost predicate ReadsBack(sq: Sq, reqs: seq<Req>, i: nat)
    requires AllPrintable(reqs) && i <= |reqs| && |sq.ring| > 0
  {
    && Start(reqs, i) <= |Print(reqs)| && AllPrintable(reqs[i..])
    && ParseAll(Stretch(sq.ring, Start(reqs, i), |Print(reqs)|)) == Some(Meanings(reqs[i..]))
  }

  lemma GoodIsSafe(t: Sys)
    requires SysInv(t)
    ensures Safe(t)
  {
    hide Pow2, Printable, Print, Tags, OwnersRight, AllAccepted, DueInv, ToldInv, StageInv, CR.Inv, CR.Pending, Mirrors,
         ParseAll, Stretch, Meanings, Start;
    var quiet := Settled(t.sq, t.poster);
    InvCounters(quiet, t.c, t.reqs);
    forall i {:trigger Start(t.reqs, i)} | 0 <= i <= |t.reqs| && t.c <= Start(t.reqs, i)
      ensures ReadsBack(t.sq, t.reqs, i)
    {
      RingParses(quiet, t.c, t.reqs, i);
    }
  }

  /** Safety in every run, whatever the interleaving. */
  lemma RunIsSafe(s: Sys, acts: seq<Act>)
    requires Fresh(s)
    ensures SysInv(s) && Safe(Run(s, acts))
  {
    hide SysInv, Safe, Fresh, Run;
    FreshIsGood(s);
    GoodIsSafe(Run(s, acts));
  }

  /**
    No step overwrites an outstanding slot, even when the poster works with a consumer index it
    loaded long ago: contexts stay, and blocks stay except for the producer index that the
    direct path writes into the low half of the first word of the newest one.
   */
  lemma StepProtects(s: Sys, a: Act, x: nat)
    requires SysInv(s) && s.c <= x < |Print(s.reqs)|
    ensures var t := Step(s, a);
            && |t.sq.ring| > 0 && |t.sq.wrid| > 0
            && Cell(t.sq.wrid, x) == Cell(s.sq.wrid, x)
            && (Cell(t.sq.ring, x) == Cell(s.sq.ring, x)
                || (a == Tell && Cell(t.sq.ring, x) == Patched(Cell(s.sq.ring, x), s.sq.pi)))
  {
    hide Pow2, Printable, BlocksOf, Print, Tags, OwnersRight, AllAccepted, DueInv, ToldInv, CR.Inv, CR.Pending, BatchInv,
         Accepted, WellFormed, Overlay, Patched, SlotOf, Overflows, CR.NextCqe, MovedIndex, StatusOf, Mirrors, WantsDirect;
    var p := |Print(s.reqs)|;
    InvCounters(Settled(s.sq, s.poster), s.c, s.reqs);
    RoomForFour(s.sq);
    TruncSlot(p, s.sq.k);
    if a.Copy? && s.poster.Busy? && s.poster.stage.Seen? {
      CopyProtects(s, x);
    } else if a.Mark? && s.poster.Busy? && s.poster.stage.Copied? {
      MarkProtects(s, x);
    } else if a.Tell? && s.poster.Busy? && s.poster.stage.Chosen? {
      TellReady(s);
    }
  }

  lemma MarkProtects(s: Sys, x: nat)
    requires SysInv(s) && s.c <= x < |Print(s.reqs)| && s.poster.Busy? && s.poster.stage.Copied?
    ensures Checked(s.sq, s.poster.todo)
    ensures var t := MarkStep(s);
            |t.sq.wrid| > 0 && t.sq.ring == s.sq.ring && Cell(t.sq.wrid, x) == Cell(s.sq.wrid, x)
  {
    hide Pow2, Printable, BlocksOf, Print, Tags, DueInv, ToldInv, CR.Inv, CR.Pending, BatchInv, Accepted, Postable, Overlay,
         SqInv, Mirrors, UpdatePtr;
    InvCounters(s.sq, s.c, s.reqs);
    FlightChecked(s);
    RoomForFour(s.sq);
    var p, b := |Print(s.reqs)|, BlocksOf(ReqFor(s.sq, s.poster.todo[0]));
    TruncSlot(p, s.sq.k);
    BlockBound(ReqFor(s.sq, s.poster.todo[0]));
    OverlayAt(s.sq.wrid, p, Repeat(s.poster.todo[0].userCtx, |b|), x);
  }

  lemma CopyProtects(s: Sys, x: nat)
    requires SysInv(s) && s.c <= x < |Print(s.reqs)| && s.poster.Busy? && s.poster.stage.Seen?
    ensures var t := CopyStep(s);
            |t.sq.ring| > 0 && t.sq.wrid == s.sq.wrid && Cell(t.sq.ring, x) == Cell(s.sq.ring, x)
  {
    hide Pow2, Printable, BlocksOf, Print, Tags, DueInv, ToldInv, CR.Inv, CR.Pending, BatchInv, Accepted, WellFormed, Postable, Overlay, SqInv;
    InvCounters(s.sq, s.c, s.reqs);
    var p, b := |Print(s.reqs)|, BlocksOf(ReqFor(s.sq, s.poster.todo[0]));
    RoomForFour(s.sq);
    TruncSlot(p, s.sq.k);
    BlockBound(ReqFor(s.sq, s.poster.todo[0]));
    OverflowIsExact(s.poster.stage.c, p, |b|, s.sq.k);
    if !Overflows(s.sq.pi, s.poster.stage.ci, |b|, s.sq.k) {
      OverlayAt(s.sq.ring, p, b, x);
    }
  }

  /** The copy, the filling and the index update add up to what the sequential post does at once. */
  lemma StepsMakePost(sq: Sq, r: Req)
    requires SqSized(sq) && Printable(r)
    ensures |BlocksOf(r)| <= |sq.ring| && sq.pi % Pow2(sq.k) < |sq.ring|
    ensures var copied := sq.(ring := Overlay(sq.ring, sq.pi % Pow2(sq.k), BlocksOf(r)));
            SqSized(copied) && Filling(copied, r).(pi := Add32(sq.pi, |BlocksOf(r)|)) == WithRequest(sq, r)
  {
    hide Pow2, Printable, BlocksOf, Overlay, UpdatePtr;
    RoomForFour(sq);
    BlockBound(r);
  }

  /** Whatever was handed out for a block is the context that the caller gave for its request. */
  lemma ToldIsPosted(t: Sys, n: nat, i: nat)
    requires Safe(t) && n < |t.told| && i < |t.reqs|
    requires Start(t.reqs, i) <= t.told[n].0 < Start(t.reqs, i) + |BlocksOf(t.reqs[i])|
    ensures t.told[n].1 == t.reqs[i].wr.userCtx
  {
    hide Pow2, Print, BlocksOf, Printable, Mirrors, Start, ReadsBack;
    TagIsContext(t.reqs, i, t.told[n].0);
  }

  /** The two halves of a poll, run one after the other. */
  ghost function PollSteps(s: Sys): Sys
    requires |s.cq.ring| == Pow2(s.cq.k) && |s.sq.wrid| == Pow2(s.sq.k) && s.due != []
  {
    var t := MoveStep(s);
    if t.bump then BumpStep(t) else t
  }

  /** The two halves and the poll, for the entry e at the consumer index. */
  lemma PollOfEntry(s: Sys, e: CR.Cqe<bool>, sqs: map<bool, SqIndex>)
    requires |s.cq.ring| == Pow2(s.cq.k) && |s.sq.wrid| == Pow2(s.sq.k) && s.due != [] && !s.bump
    requires CR.NextCqe(s.cq, s.cq.ci) == Some(e)
    requires Pollable(s.cq, sqs, 1) && true in sqs && sqs[true] == IndexOf(s.sq)
    ensures var t, r := PollSteps(s), PollOne(s.cq, sqs);
            && t.cq == r.cq && t.sq.ci == r.sqs[true].ci && t.sq.wrid == r.sqs[true].wrid
            && (if r.state == PollOk && e.queue == Some(true) then
                  r.cr.Some? && t.told == s.told + [(s.due[0], r.cr.value.userCtx)]
                else t.told == s.told)
  {
    hide Pow2, CR.NextCqe, StatusOf, Sub32, NamesOnly;
    JfcPollExact.TableExactly(e.status, e.substatus);
  }

  /**
    When nothing comes in between, they are the poll of the completion queue: the same ring, the
    same index of the send queue, and the same context handed out, for the same entries.
   */
  lemma StepsMakePoll(s: Sys, sqs: map<bool, SqIndex>)
    requires SysInv(s) && !s.bump && s.due != []
    requires Pollable(s.cq, sqs, 1) && true in sqs && sqs[true] == IndexOf(s.sq)
    ensures |s.cq.ring| == Pow2(s.cq.k) && |s.sq.wrid| == Pow2(s.sq.k) && CR.Pending(s.cq, s.cc, s.cp) != []
    ensures var t, r, e := PollSteps(s), PollOne(s.cq, sqs), CR.Pending(s.cq, s.cc, s.cp)[0];
            && t.cq == r.cq && t.sq.ci == r.sqs[true].ci && t.sq.wrid == r.sqs[true].wrid
            && (if r.state == PollOk && e.queue == Some(true) then
                  r.cr.Some? && t.told == s.told + [(s.due[0], r.cr.value.userCtx)]
                else t.told == s.told)
  {
    hide Pow2, Printable, Print, Tags, SqInv, StageInv, BatchInv, CR.Inv, CR.Pending, CR.NextCqe, DueInv, ToldInv, PollOne,
         PollSteps, Pollable;
    RingSizedAs(s.cq, s.cc, s.cp);
    InvCounters(Settled(s.sq, s.poster), s.c, s.reqs);
    var e := HeadReport(s);
    assert e.queue == CR.Payload(e).queue;
    PollOfEntry(s, e, sqs);
  }
}
