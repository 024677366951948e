/**
  The submission ring as values: overflow check, the copy that may be split at the ring end,
  the parallel array of user contexts, and the log of requests that a ring stands for.
 */
module SendQueue {
  import opened Bits
  import opened Common
  import opened Sqe
  import opened SqeStream

  const BLOCK_SHIFT := 6

  /** A ring of 2^k blocks, its contexts, its 32-bit indices, and the running block pointer. */
  datatype Sq = Sq(k: nat, ring: seq<Wqebb>, wrid: seq<u64>, pi: u32, ci: u32, addr: nat, curr: nat, maxSge: u8)

  /** A ring fills at least one 4 KiB page, so it has no fewer than 64 blocks. */
  ghost predicate SqSized(sq: Sq) {
    && 6 <= sq.k <= 31 && |sq.ring| == |sq.wrid| == Pow2(sq.k)
  }

  /** More blocks than fit between the indices, in 32-bit arithmetic. */
  predicate Overflows(pi: u32, ci: u32, n: u32, k: nat) {
    Add32(Sub32(pi, ci), n) > Pow2(k)
  }

  /** On true counters the wrapping test is the exact one. */
  lemma OverflowIsExact(c: nat, p: nat, n: u32, k: nat)
    requires k <= 31 && c <= p <= c + Pow2(k) && n <= MAX_SQE_BB_NUM
    ensures Overflows(p % TWO_32, c % TWO_32, n, k) <==> p + n > c + Pow2(k)
  {
    hide Pow2, Sub32;
    assert Pow2(k) <= 0x8000_0000 by {
      Pow2Monotone(k, 31);
      Pow2Constants();
    }
    Distance(c, p);
  }

  lemma Distance(c: nat, p: nat)
    requires c <= p < c + TWO_32
    ensures Sub32(p % TWO_32, c % TWO_32) == p - c
  {
    SubTrunc(p, c);
  }

  /** The owner bit of a request that starts at index pi: set on even laps. */
  function OwnerBit(pi: u32, k: nat): bit {
    if And(pi, Pow2(k)) == 0 then 1 else 0
  }

  lemma OwnerIsLapParity(p: nat, k: nat)
    requires k <= 31
    ensures OwnerBit(p % TWO_32, k) == 1 - p / Pow2(k) % 2
  {
    hide Pow2, And;
    AndPow2(p % TWO_32, k);
    TruncLap(p, k);
  }

  /* Writing a run of items into a ring. */

  /** The ring with items written from slot s on, folding at the end. */
  function Overlay<T>(ring: seq<T>, s: nat, items: seq<T>): (r: seq<T>)
    requires |items| <= |ring| && s < |ring|
    ensures |r| == |ring|
  {
    seq(|ring|, i requires 0 <= i < |ring| =>
      if s <= i < s + |items| then items[i - s]
      else if i + |ring| < s + |items| then items[i + |ring| - s]
      else ring[i])
  }

  /** Position by position: the items sit where they should, and nothing else within a lap changed. */
  lemma OverlayAt<T>(ring: seq<T>, p: nat, items: seq<T>, x: nat)
    requires |ring| > 0 && |items| <= |ring|
    requires p <= x < p + |items| || p + |items| <= x + |ring| < p + |ring|
    ensures Overlay(ring, p % |ring|, items)[x % |ring|] == if p <= x then items[x - p] else ring[x % |ring|]
  {
    if p <= x {
      SlotOffset(p, x - p, |ring|);
    } else {
      SlotOffset(x, p - x, |ring|);
    }
  }

  /* The log of requests. */

  function Repeat(x: u64, n: nat): (r: seq<u64>)
    ensures |r| == n
  {
    seq(n, _ => x)
  }

  ghost function Tags(reqs: seq<Req>): (t: seq<u64>)
    requires AllPrintable(reqs)
    ensures |t| == |Print(reqs)|
  {
    if reqs == [] then [] else Repeat(reqs[0].wr.userCtx, |BlocksOf(reqs[0])|) + Tags(reqs[1..])
  }

  /** Each block of a request is tagged with the context the caller gave for it. */
  lemma {:induction false} TagIsContext(reqs: seq<Req>, i: nat, x: nat)
    requires AllPrintable(reqs) && i < |reqs| && Start(reqs, i) <= x < Start(reqs, i) + |BlocksOf(reqs[i])|
    ensures x < |Tags(reqs)| && Tags(reqs)[x] == reqs[i].wr.userCtx
  {
    hide BlocksOf, Printable, Print;
    var b := |BlocksOf(reqs[0])|;
    StartStep(reqs, i);
    if i > 0 {
      TagIsContext(reqs[1..], i - 1, x - b);
    }
  }

  lemma StartStep(reqs: seq<Req>, i: nat)
    requires AllPrintable(reqs) && i < |reqs|
    ensures Start(reqs, 0) == 0
    ensures i > 0 ==> AllPrintable(reqs[1..]) && Start(reqs, i) == |BlocksOf(reqs[0])| + Start(reqs[1..], i - 1)
  {
    hide BlocksOf, Printable;
    assert reqs[..0] == [];
    if i > 0 {
      assert reqs[..i][1..] == reqs[1..][..i - 1];
    }
  }

  lemma {:induction false} TagsConcat(a: seq<Req>, b: seq<Req>)
    requires AllPrintable(a) && AllPrintable(b)
    ensures AllPrintable(a + b) && Tags(a + b) == Tags(a) + Tags(b)
  {
    hide BlocksOf, Printable, Repeat, Print;
    if a == [] {
      assert a + b == b;
    } else {
      assert (a + b)[1..] == a[1..] + b;
      TagsConcat(a[1..], b);
    }
  }

  /** Appending one request appends its blocks and as many copies of its context. */
  lemma LogAppend(reqs: seq<Req>, r: Req)
    requires AllPrintable(reqs) && Printable(r)
    ensures AllPrintable(reqs + [r])
    ensures Print(reqs + [r]) == Print(reqs) + BlocksOf(r)
    ensures Tags(reqs + [r]) == Tags(reqs) + Repeat(r.wr.userCtx, |BlocksOf(r)|)
  {
    hide BlocksOf, Printable;
    PrintConcat(reqs, [r]);
    TagsConcat(reqs, [r]);
    assert Print([r]) == BlocksOf(r) + Print([]);
    assert [r][1..] == [];
    assert Tags([r]) == Repeat(r.wr.userCtx, |BlocksOf(r)|) + Tags([]);
  }

  /** Where request i starts. */
  ghost function Start(reqs: seq<Req>, i: nat): nat
    requires AllPrintable(reqs) && i <= |reqs|
  {
    |Print(reqs[..i])|
  }

  ghost predicate OwnersRight(reqs: seq<Req>, k: nat)
    requires AllPrintable(reqs)
  {
    forall i :: 0 <= i < |reqs| ==> reqs[i].owner == 1 - Start(reqs, i) / Pow2(k) % 2
  }

  /** The slot of a ring that position x falls on. */
  function Cell<T>(ring: seq<T>, x: nat): T
    requires |ring| > 0
  {
    ring[x % |ring|]
  }

  /** The slots of the positions lo .. hi - 1 hold those positions of a log. */
  ghost predicate Mirrors<T>(ring: seq<T>, lo: nat, hi: nat, log: seq<T>)
    requires |ring| > 0
  {
    hi <= |log| && forall x {:trigger Cell(ring, x)} :: lo <= x < hi ==> Cell(ring, x) == log[x]
  }

  /** Every logged request passed the checks of this queue. */
  ghost predicate AllAccepted(reqs: seq<Req>, maxSge: u8) {
    forall i :: 0 <= i < |reqs| ==> WellFormed(reqs[i].wr) && Accepted(reqs[i].wr, maxSge)
  }

  /** Indices are the truncated counters, and no more than one lap is outstanding. */
  ghost predicate Counters(sq: Sq, c: nat, p: nat) {
    && SqSized(sq) && sq.pi == p % TWO_32 && sq.ci == c % TWO_32 && c <= p <= c + Pow2(sq.k)
  }

  /** The ring invariant, for c blocks retired and the requests accepted so far. */
  ghost predicate SqInv(sq: Sq, c: nat, reqs: seq<Req>) {
    && AllPrintable(reqs) && Counters(sq, c, |Print(reqs)|)
    && sq.curr == sq.addr + |Print(reqs)| % Pow2(sq.k) * Pow2(BLOCK_SHIFT)
    && Mirrors(sq.ring, c, |Print(reqs)|, Print(reqs)) && Mirrors(sq.wrid, c, |Print(reqs)|, Tags(reqs))
    && OwnersRight(reqs, sq.k) && AllAccepted(reqs, sq.maxSge)
  }

  /* Posting one request. */

  datatype Posted = Refused(code: int) | Taken(sq: Sq, req: Req, at: nat)

  /** The accepted request, as logged. */
  function ReqFor(sq: Sq, wr: Wr): Req {
    Req(wr, OwnerBit(sq.pi, sq.k), 0)
  }

  lemma AcceptedIsPrintable(sq: Sq, wr: Wr)
    requires Postable(wr, sq.maxSge) && Accepted(wr, sq.maxSge)
    ensures Printable(ReqFor(sq, wr))
  {
  }

  lemma RoomForFour(sq: Sq)
    requires SqSized(sq)
    ensures MAX_SQE_BB_NUM <= |sq.ring| == |sq.wrid| == Pow2(sq.k)
  {
    Pow2Monotone(6, sq.k);
    Pow2Small();
  }

  lemma BlockBound(r: Req)
    requires Printable(r)
    ensures 1 <= |BlocksOf(r)| <= MAX_SQE_BB_NUM
  {
    PrintableFits(r);
  }

  /** The queue with a request's blocks and contexts in place and pointer and index moved past them. */
  ghost function WithRequest(sq: Sq, r: Req): Sq
    requires SqSized(sq) && Printable(r)
  {
    hide Pow2, BlocksOf, Printable;
    RoomForFour(sq);
    BlockBound(r);
    var b, s := BlocksOf(r), sq.pi % Pow2(sq.k);
    sq.(ring := Overlay(sq.ring, s, b), wrid := Overlay(sq.wrid, s, Repeat(r.wr.userCtx, |b|)),
        pi := Add32(sq.pi, |b|),
        curr := UpdatePtr(sq.curr, |b| * Pow2(BLOCK_SHIFT), sq.addr, sq.addr + Pow2(sq.k) * Pow2(BLOCK_SHIFT)))
  }

  /** Checks, then the room test, then blocks, contexts, pointer and index, in the order of the source. */
  ghost function PostOne(sq: Sq, wr: Wr): Posted
    requires SqSized(sq) && Postable(wr, sq.maxSge)
  {
    if !Accepted(wr, sq.maxSge) then Refused(EINVAL)
    else
      AcceptedIsPrintable(sq, wr);
      var r := ReqFor(sq, wr);
      if Overflows(sq.pi, sq.ci, |BlocksOf(r)|, sq.k) then Refused(ENOMEM)
      else Taken(WithRequest(sq, r), r, sq.curr)
  }

  lemma StartOfOld(reqs: seq<Req>, r: Req, i: nat)
    requires AllPrintable(reqs) && Printable(r) && i <= |reqs|
    ensures AllPrintable(reqs + [r]) && Start(reqs + [r], i) == Start(reqs, i)
  {
    assert (reqs + [r])[..i] == reqs[..i];
  }

  lemma OwnersAppend(reqs: seq<Req>, r: Req, k: nat)
    requires AllPrintable(reqs) && Printable(r) && OwnersRight(reqs, k)
    requires r.owner == 1 - |Print(reqs)| / Pow2(k) % 2
    ensures AllPrintable(reqs + [r]) && OwnersRight(reqs + [r], k)
  {
    hide Printable, Print, Pow2;
    var all := reqs + [r];
    assert AllPrintable(all);
    forall i | 0 <= i < |all|
      ensures all[i].owner == 1 - Start(all, i) / Pow2(k) % 2
    {
      StartOfOld(reqs, r, i);
      if i == |reqs| {
        assert reqs[..i] == reqs;
      }
    }
  }

  /** Items written beyond the producer position leave the outstanding slots alone and extend what is mirrored. */
  lemma OverlayMirrors<T>(ring: seq<T>, c: nat, p: nat, log: seq<T>, items: seq<T>)
    requires |ring| > 0 && c <= p == |log| && p + |items| <= c + |ring| && |items| <= |ring|
    requires Mirrors(ring, c, p, log)
    ensures Mirrors(Overlay(ring, p % |ring|, items), c, p + |items|, log + items)
  {
    hide Overlay;
    var ring' := Overlay(ring, p % |ring|, items);
    forall x {:trigger Cell(ring', x)} | c <= x < p + |items|
      ensures Cell(ring', x) == (log + items)[x]
    {
      OverlayAt(ring, p, items, x);
      assert x < p ==> Cell(ring, x) == log[x];
    }
  }

  /** Writing a request that fits at the producer position keeps the invariant and extends the log by it. */
  lemma WithRequestKeeps(sq: Sq, c: nat, reqs: seq<Req>, r: Req)
    requires SqInv(sq, c, reqs) && Printable(r) && WellFormed(r.wr) && Accepted(r.wr, sq.maxSge)
    requires r.owner == OwnerBit(sq.pi, sq.k) && |Print(reqs)| + |BlocksOf(r)| <= c + Pow2(sq.k)
    ensures SqInv(WithRequest(sq, r), c, reqs + [r])
  {
    hide Pow2, Overlay, BlocksOf, Printable, Print, Tags, UpdatePtr, OwnerBit, OwnersRight, Mirrors, Accepted, WellFormed, Postable;
    var b, p := BlocksOf(r), |Print(reqs)|;
    RoomForFour(sq);
    BlockBound(r);
    TruncSlot(p, sq.k);
    OwnerIsLapParity(p, sq.k);
    LogAppend(reqs, r);
    OwnersAppend(reqs, r, sq.k);
    PtrFollowsIndex(sq.addr, p, |b|, sq.k, BLOCK_SHIFT);
    ModAdd(p, |b|, TWO_32);
    OverlayMirrors(sq.ring, c, p, Print(reqs), b);
    OverlayMirrors(sq.wrid, c, p, Tags(reqs), Repeat(r.wr.userCtx, |b|));
  }

  /** A post that is taken keeps the invariant and logs exactly the request. */
  lemma PostOneKeeps(sq: Sq, c: nat, reqs: seq<Req>, wr: Wr)
    requires SqInv(sq, c, reqs) && Postable(wr, sq.maxSge) && PostOne(sq, wr).Taken?
    ensures var t := PostOne(sq, wr);
            && SqInv(t.sq, c, reqs + [t.req]) && t.req == ReqFor(sq, wr)
            && t.at == sq.addr + |Print(reqs)| % Pow2(sq.k) * Pow2(BLOCK_SHIFT)
            && t.sq.k == sq.k && t.sq.ci == sq.ci && t.sq.addr == sq.addr && t.sq.maxSge == sq.maxSge
  {
    hide Pow2, Overlay, BlocksOf, Printable, Accepted, Print, Tags, UpdatePtr, OwnerBit, Mirrors, OwnersRight;
    AcceptedIsPrintable(sq, wr);
    var r := ReqFor(sq, wr);
    BlockBound(r);
    OverflowIsExact(c, |Print(reqs)|, |BlocksOf(r)|, sq.k);
    WithRequestKeeps(sq, c, reqs, r);
  }

  /** A refused post is refused for one of two reasons, and the room test is exact. */
  lemma RefusedExactly(sq: Sq, c: nat, reqs: seq<Req>, wr: Wr)
    requires SqInv(sq, c, reqs) && Postable(wr, sq.maxSge)
    ensures PostOne(sq, wr) == Refused(-22) <==> !Accepted(wr, sq.maxSge)
    ensures Accepted(wr, sq.maxSge) ==>
              (PostOne(sq, wr) == Refused(-12) <==>
               |Print(reqs)| + BlockCount(wr) > c + Pow2(sq.k))
  {
    hide Pow2, Overlay, BlocksOf, Printable, Accepted, Print, Tags, UpdatePtr, OwnerBit, Mirrors, OwnersRight, BlockCount;
    if Accepted(wr, sq.maxSge) {
      AcceptedIsPrintable(sq, wr);
      var r := ReqFor(sq, wr);
      BlockBound(r);
      OverflowIsExact(c, |Print(reqs)|, |BlocksOf(r)|, sq.k);
    }
  }

  /* Posting a list. */

  /** How far a list gets, and what it leaves behind: the requests before the first that is refused. */
  datatype Listed = Listed(sq: Sq, log: seq<Req>, count: nat, ret: int, at: nat, flag: bool)

  predicate AllPostable(wrs: seq<Wr>, maxSge: u8) {
    forall i :: 0 <= i < |wrs| ==> Postable(wrs[i], maxSge)
  }

  /** A request that asks for the direct path: valid, one block, and the device offers it. */
  predicate WantsDirect(wr: Wr, maxSge: u8, enabled: bool)
    requires WellFormed(wr)
  {
    enabled && Accepted(wr, maxSge) && SgeNum(wr) < 0x100 && BlockCount(wr) == 1
  }

  /** The flag for the direct path is raised before the room test, also by a request that then fails. */
  ghost function PostPrefix(sq: Sq, wrs: seq<Wr>, n: nat, enabled: bool): Listed
    requires SqSized(sq) && n <= |wrs| && AllPostable(wrs, sq.maxSge)
    ensures SqSized(PostPrefix(sq, wrs, n, enabled).sq) && PostPrefix(sq, wrs, n, enabled).sq.maxSge == sq.maxSge
  {
    if n == 0 then Listed(sq, [], 0, 0, sq.addr, false)
    else
      var l := PostPrefix(sq, wrs, n - 1, enabled);
      if l.ret != 0 then l
      else
        var flag := l.flag || WantsDirect(wrs[n - 1], l.sq.maxSge, enabled);
        match PostOne(l.sq, wrs[n - 1])
        case Refused(code) => l.(ret := code, flag := flag)
        case Taken(sq', r, at) => Listed(sq', l.log + [r], l.count + 1, 0, at, flag)
  }

  lemma NothingPosted(sq: Sq, wrs: seq<Wr>, enabled: bool)
    requires SqSized(sq) && AllPostable(wrs, sq.maxSge)
    ensures PostPrefix(sq, wrs, 0, enabled) == Listed(sq, [], 0, 0, sq.addr, false)
  {
  }

  lemma PrefixStopped(sq: Sq, wrs: seq<Wr>, n: nat, enabled: bool)
    requires SqSized(sq) && 0 < n <= |wrs| && AllPostable(wrs, sq.maxSge)
    requires PostPrefix(sq, wrs, n - 1, enabled).ret != 0
    ensures PostPrefix(sq, wrs, n, enabled) == PostPrefix(sq, wrs, n - 1, enabled)
  {
    hide PostOne, SqSized, WellFormed, Postable, WantsDirect;
  }

  /** One more request of the list. */
  lemma PrefixNext(sq: Sq, wrs: seq<Wr>, i: nat, enabled: bool)
    requires SqSized(sq) && i < |wrs| && AllPostable(wrs, sq.maxSge)
    requires PostPrefix(sq, wrs, i, enabled).ret == 0
    ensures var l := PostPrefix(sq, wrs, i, enabled);
            var flag := l.flag || WantsDirect(wrs[i], l.sq.maxSge, enabled);
            PostPrefix(sq, wrs, i + 1, enabled) ==
              match PostOne(l.sq, wrs[i])
              case Refused(code) => l.(ret := code, flag := flag)
              case Taken(sq', r, at) => Listed(sq', l.log + [r], l.count + 1, 0, at, flag)
  {
    hide PostOne, SqSized, WellFormed, Postable, WantsDirect;
  }

  /**
    Prefix atomicity: the log has grown by exactly the requests before the first refused one,
    in order; the refused one left no trace, and `at` is where the last taken one starts.
   */
  ghost predicate PrefixPosted(sq: Sq, c: nat, reqs: seq<Req>, wrs: seq<Wr>, n: nat, l: Listed)
    requires AllPostable(wrs, sq.maxSge)
  {
    && SqInv(l.sq, c, reqs + l.log) && |l.log| == l.count <= n <= |wrs|
    && l.sq.k == sq.k && l.sq.ci == sq.ci && l.sq.addr == sq.addr && l.sq.maxSge == sq.maxSge
    && (forall i :: 0 <= i < l.count ==> l.log[i].wr == wrs[i] && l.log[i].idx == 0)
    && (l.ret == 0 ==> l.count == n)
    && (l.ret != 0 ==> l.count < n && PostOne(l.sq, wrs[l.count]) == Refused(l.ret))
    && (l.count > 0 ==> l.at == sq.addr + Start(reqs + l.log, |reqs| + l.count - 1) % Pow2(sq.k) * Pow2(BLOCK_SHIFT))
  }

  lemma PrefixStep(sq: Sq, c: nat, reqs: seq<Req>, wrs: seq<Wr>, n: nat, l: Listed, flag: bool)
    requires AllPostable(wrs, sq.maxSge)
    requires n < |wrs| && PrefixPosted(sq, c, reqs, wrs, n, l) && l.ret == 0
    requires PostOne(l.sq, wrs[n]).Taken?
    ensures var t := PostOne(l.sq, wrs[n]);
            PrefixPosted(sq, c, reqs, wrs, n + 1, Listed(t.sq, l.log + [t.req], l.count + 1, 0, t.at, flag))
  {
    hide Pow2, BlocksOf, Printable, Print, WithRequest, Accepted, WellFormed, Postable, Mirrors, OwnersRight, PostOne, AllAccepted, Tags;
    var t := PostOne(l.sq, wrs[n]);
    PostOneKeeps(l.sq, c, reqs + l.log, wrs[n]);
    assert reqs + l.log + [t.req] == reqs + (l.log + [t.req]);
    assert (reqs + (l.log + [t.req]))[..|reqs| + l.count] == reqs + l.log;
  }

  lemma RefusalCode(sq: Sq, wr: Wr)
    requires SqSized(sq) && Postable(wr, sq.maxSge) && PostOne(sq, wr).Refused?
    ensures PostOne(sq, wr).code != 0
  {
  }

  /** A refused request, or the rest of a list that has stopped, changes nothing. */
  lemma PrefixHolds(sq: Sq, c: nat, reqs: seq<Req>, wrs: seq<Wr>, n: nat, l: Listed, l': Listed)
    requires AllPostable(wrs, sq.maxSge) && n < |wrs| && PrefixPosted(sq, c, reqs, wrs, n, l)
    requires l'.ret != 0 && (l' == l || (l.ret == 0 && l' == l.(ret := l'.ret, flag := l'.flag)
                                         && SqSized(l.sq) && PostOne(l.sq, wrs[n]) == Refused(l'.ret)))
    ensures PrefixPosted(sq, c, reqs, wrs, n + 1, l')
  {
    hide Pow2, BlocksOf, Printable, Print, PostOne, Postable, SqInv, SqSized;
  }

  /** One more request keeps prefix atomicity. */
  lemma PrefixGrows(sq: Sq, c: nat, reqs: seq<Req>, wrs: seq<Wr>, n: nat, enabled: bool)
    requires SqSized(sq) && n < |wrs| && AllPostable(wrs, sq.maxSge)
    requires PrefixPosted(sq, c, reqs, wrs, n, PostPrefix(sq, wrs, n, enabled))
    ensures PrefixPosted(sq, c, reqs, wrs, n + 1, PostPrefix(sq, wrs, n + 1, enabled))
  {
    hide Pow2, PostOne, Postable, SqInv, SqSized, WantsDirect, PrefixPosted, PostPrefix;
    var l, l' := PostPrefix(sq, wrs, n, enabled), PostPrefix(sq, wrs, n + 1, enabled);
    if l.ret != 0 {
      PrefixStopped(sq, wrs, n + 1, enabled);
      PrefixHolds(sq, c, reqs, wrs, n, l, l);
    } else {
      PrefixNext(sq, wrs, n, enabled);
      if PostOne(l.sq, wrs[n]).Taken? {
        PrefixStep(sq, c, reqs, wrs, n, l, l'.flag);
      } else {
        RefusalCode(l.sq, wrs[n]);
        PrefixHolds(sq, c, reqs, wrs, n, l, l');
      }
    }
  }

  lemma PrefixOfNone(sq: Sq, c: nat, reqs: seq<Req>, wrs: seq<Wr>)
    requires SqInv(sq, c, reqs) && AllPostable(wrs, sq.maxSge)
    ensures PrefixPosted(sq, c, reqs, wrs, 0, Listed(sq, [], 0, 0, sq.addr, false))
  {
    hide Pow2, Printable, Print, SqInv, Postable;
    assert reqs + [] == reqs;
  }

  lemma {:induction false} PostPrefixLogs(sq: Sq, c: nat, reqs: seq<Req>, wrs: seq<Wr>, n: nat, enabled: bool)
    requires SqInv(sq, c, reqs) && SqSized(sq) && n <= |wrs| && AllPostable(wrs, sq.maxSge)
    ensures PrefixPosted(sq, c, reqs, wrs, n, PostPrefix(sq, wrs, n, enabled))
  {
    hide Pow2, Postable, SqInv, SqSized, PrefixPosted, PostPrefix;
    if n == 0 {
      NothingPosted(sq, wrs, enabled);
      PrefixOfNone(sq, c, reqs, wrs);
    } else {
      PostPrefixLogs(sq, c, reqs, wrs, n - 1, enabled);
      PrefixGrows(sq, c, reqs, wrs, n - 1, enabled);
    }
  }
}
