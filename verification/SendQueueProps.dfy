/**
  What posting guarantees: the device recovers the accepted requests from the ring, the
  direct path is only taken where it is sound, and depth is honoured.
 */
module SendQueueProps {
  import opened Bits
  import opened Common
  import opened Sqe
  import opened SqeStream
  import opened SendQueue

  /* Reading the ring back. */

  /** The blocks at the positions a .. b - 1, as a device reads them around the ring. */
  function Stretch(ring: seq<Wqebb>, a: nat, b: nat): (s: seq<Wqebb>)
    requires |ring| > 0 && a <= b
    ensures |s| == b - a
  {
    seq(b - a, i requires 0 <= i < b - a => Cell(ring, a + i))
  }

  lemma StretchOfMirror(ring: seq<Wqebb>, c: nat, a: nat, log: seq<Wqebb>)
    requires |ring| > 0 && c <= a <= |log| && Mirrors(ring, c, |log|, log)
    ensures Stretch(ring, a, |log|) == log[a..]
  {
  }

  lemma PrintFrom(reqs: seq<Req>, i: nat)
    requires AllPrintable(reqs) && i <= |reqs|
    ensures AllPrintable(reqs[i..]) && Start(reqs, i) <= |Print(reqs)|
    ensures Print(reqs)[Start(reqs, i)..] == Print(reqs[i..])
  {
    hide Printable, Print;
    assert reqs == reqs[..i] + reqs[i..];
    PrintConcat(reqs[..i], reqs[i..]);
  }

  /**
    From any request boundary that is still outstanding to the producer position, the
    device-side parser recovers exactly the accepted requests, ring end or not.
   */
  lemma RingParses(sq: Sq, c: nat, reqs: seq<Req>, i: nat)
    requires SqInv(sq, c, reqs) && i <= |reqs| && c <= Start(reqs, i)
    ensures Start(reqs, i) <= |Print(reqs)| && AllPrintable(reqs[i..]) && |sq.ring| > 0
    ensures ParseAll(Stretch(sq.ring, Start(reqs, i), |Print(reqs)|)) == Some(Meanings(reqs[i..]))
  {
    hide Printable, Print, ParseAll, Mirrors, Meanings, OwnersRight, Pow2;
    PrintFrom(reqs, i);
    StretchOfMirror(sq.ring, c, Start(reqs, i), Print(reqs));
    ParseInvertsPrint(reqs[i..]);
  }

  /* Announcing. */

  datatype Notice = Quiet | Doorbell(pi: u32) | Direct(block: Wqebb)

  /** The choice made once a list has been posted. */
  predicate ChoosesDirect(sq: Sq, count: nat, flag: bool) {
    count == 1 && flag && Sub32(sq.pi, sq.ci) == 1
  }

  /** The block the direct path sends, at the remembered pointer. */
  function SlotOf(sq: Sq, at: nat): int {
    (at - sq.addr) / Pow2(BLOCK_SHIFT)
  }

  /** The direct path writes the producer index into the block and sends the block itself. */
  function Announce(sq: Sq, count: nat, flag: bool, at: nat): (Sq, Notice)
    requires 0 <= SlotOf(sq, at) < |sq.ring|
  {
    if count == 0 then (sq, Quiet)
    else if ChoosesDirect(sq, count, flag) then
      var b := Patched(sq.ring[SlotOf(sq, at)], sq.pi);
      (sq.(ring := sq.ring[SlotOf(sq, at) := b]), Direct(b))
    else (sq, Doorbell(sq.pi))
  }

  lemma SlotAt(sq: Sq, x: nat)
    requires SqSized(sq)
    ensures |sq.ring| > 0 && SlotOf(sq, sq.addr + x % Pow2(sq.k) * Pow2(BLOCK_SHIFT)) == x % |sq.ring|
  {
    hide Pow2;
    var u := Pow2(BLOCK_SHIFT);
    DivModUnique(x % Pow2(sq.k) * u, u, x % Pow2(sq.k), 0);
  }

  /** The log with the producer index patched into its last request. */
  function Repatched(reqs: seq<Req>, idx: u32): seq<Req>
    requires reqs != []
  {
    reqs[..|reqs| - 1] + [reqs[|reqs| - 1].(idx := idx)]
  }

  lemma LastSplit(reqs: seq<Req>)
    requires reqs != []
    ensures reqs == reqs[..|reqs| - 1] + [reqs[|reqs| - 1]]
  {
  }

  lemma LastRequest(reqs: seq<Req>)
    requires AllPrintable(reqs) && reqs != []
    ensures var r := reqs[|reqs| - 1];
            && AllPrintable(reqs[..|reqs| - 1]) && Printable(r)
            && Print(reqs) == Print(reqs[..|reqs| - 1]) + BlocksOf(r)
            && Tags(reqs) == Tags(reqs[..|reqs| - 1]) + Repeat(r.wr.userCtx, |BlocksOf(r)|)
  {
    hide Printable, BlocksOf, Print, Tags, Repeat;
    LastSplit(reqs);
    LogAppend(reqs[..|reqs| - 1], reqs[|reqs| - 1]);
  }

  lemma PatchedBlocks(r: Req, idx: u32)
    requires Printable(r)
    ensures Printable(r.(idx := idx)) && |BlocksOf(r.(idx := idx))| == |BlocksOf(r)|
    ensures BlocksOf(r.(idx := idx)) == BlocksOf(r)[0 := Patched(BlocksOf(r)[0], idx)]
  {
    PatchTwice(Blocks(r.wr, r.owner)[0], r.idx, idx) by {
      PrintableFits(r);
    }
    PrintableFits(r);
    assert Printable(r.(idx := idx)) by {
      var m: u8 :| Postable(r.wr, m) && Accepted(r.wr, m);
      assert Accepted(r.(idx := idx).wr, m);
    }
  }

  lemma PatchTwice(w: Wqebb, a: u32, b: u32)
    ensures Patched(Patched(w, a), b) == Patched(w, b)
  {
    var x := w[0] - w[0] % 0x1_0000;
    DivModUnique(x + a % 0x1_0000, 0x1_0000, w[0] / 0x1_0000, a % 0x1_0000);
  }

  /** Patching the last request changes one logged block and nothing else. */
  lemma RepatchedLog(reqs: seq<Req>, idx: u32)
    requires AllPrintable(reqs) && reqs != [] && |BlocksOf(reqs[|reqs| - 1])| == 1
    ensures AllPrintable(Repatched(reqs, idx)) && |Print(reqs)| >= 1
    ensures var p := |Print(reqs)|;
            Print(Repatched(reqs, idx)) == Print(reqs)[p - 1 := Patched(Print(reqs)[p - 1], idx)]
    ensures Tags(Repatched(reqs, idx)) == Tags(reqs)
    ensures forall i :: 0 <= i < |reqs| ==> Start(Repatched(reqs, idx), i) == Start(reqs, i)
  {
    hide Printable, BlocksOf, Print, Tags, Repeat;
    var n := |reqs| - 1;
    LastRequest(reqs);
    PatchedBlocks(reqs[n], idx);
    LogAppend(reqs[..n], reqs[n].(idx := idx));
    forall i | 0 <= i < |reqs|
      ensures Start(Repatched(reqs, idx), i) == Start(reqs, i)
    {
      assert Repatched(reqs, idx)[..i] == reqs[..i];
    }
  }

  lemma RepatchedMeanings(reqs: seq<Req>, idx: u32)
    requires AllPrintable(reqs) && reqs != [] && AllPrintable(Repatched(reqs, idx))
    ensures Meanings(Repatched(reqs, idx)) == Meanings(reqs)
  {
    hide Printable;
  }

  lemma PatchMirror(ring: seq<Wqebb>, c: nat, p: nat, log: seq<Wqebb>, w: Wqebb)
    requires |ring| > 0 && c < p == |log| <= c + |ring| && Mirrors(ring, c, p, log)
    ensures Mirrors(ring[(p - 1) % |ring| := w], c, p, log[p - 1 := w])
  {
    var ring' := ring[(p - 1) % |ring| := w];
    forall x {:trigger Cell(ring', x)} | c <= x < p
      ensures Cell(ring', x) == log[p - 1 := w][x]
    {
      if x < p - 1 {
        SlotsDistinct(x, p - 1, |ring|);
        assert Cell(ring, x) == log[x];
      }
    }
  }

  /** Writing the producer index into the last outstanding one-block request keeps the invariant. */
  lemma PatchKeeps(sq: Sq, c: nat, reqs: seq<Req>)
    requires SqInv(sq, c, reqs) && reqs != [] && |BlocksOf(reqs[|reqs| - 1])| == 1 && c < |Print(reqs)|
    requires |sq.ring| > 0
    ensures var s := (|Print(reqs)| - 1) % |sq.ring|;
            SqInv(sq.(ring := sq.ring[s := Patched(sq.ring[s], sq.pi)]), c, Repatched(reqs, sq.pi))
  {
    hide Pow2, Printable, BlocksOf, Print, Tags, Repeat, Start, Accepted, WellFormed, Postable;
    var p := |Print(reqs)|;
    RepatchedLog(reqs, sq.pi);
    assert Cell(sq.ring, p - 1) == Print(reqs)[p - 1];
    PatchMirror(sq.ring, c, p, Print(reqs), Patched(Print(reqs)[p - 1], sq.pi));
  }

  /**
    What makes the direct path sound: exactly one request of the list was accepted, it takes
    exactly one block, that block is the only outstanding one, and the remembered pointer is
    at its slot.
   */
  ghost predicate DirectSound(c: nat, reqs: seq<Req>, l: Listed) {
    var log := reqs + l.log;
    && |l.log| == 1 && AllPrintable(log) && Printable(l.log[0]) && |BlocksOf(l.log[0])| == 1
    && |Print(log)| == c + 1 && |l.sq.ring| > 0
    && SlotOf(l.sq, l.at) == c % |l.sq.ring|
  }

  /** The direct path is only chosen where it is sound, whichever request raised the flag. */
  lemma DirectIsSound(sq: Sq, c: nat, reqs: seq<Req>, wrs: seq<Wr>, enabled: bool, l: Listed)
    requires SqInv(sq, c, reqs) && SqSized(sq) && AllPostable(wrs, sq.maxSge)
    requires l == PostPrefix(sq, wrs, |wrs|, enabled) && ChoosesDirect(l.sq, l.count, l.flag)
    ensures DirectSound(c, reqs, l)
  {
    hide Pow2, Printable, BlocksOf, Print, PostPrefix, Accepted, WellFormed, Postable, Mirrors, OwnersRight, AllAccepted, SlotOf;
    PostPrefixLogs(sq, c, reqs, wrs, |wrs|, enabled);
    var log := reqs + l.log;
    assert log[|log| - 1] == l.log[0] && log[..|log| - 1] == reqs;
    LastRequest(log);
    BlockBound(l.log[0]);
    WithinLap(l.sq, c, log);
    RoomForFour(l.sq);
    SlotAt(l.sq, c);
  }

  /** The requests a list call looked at: the accepted ones and the refused one, if any. */
  function Seen(l: Listed): nat {
    l.count + if l.ret != 0 then 1 else 0
  }

  /** A plain write or read with at most one entry that moves data. */
  predicate FitsOneBlock(wr: Wr)
    requires WellFormed(wr)
  {
    (wr.opcode == 0x00 && |Transfers(wr.body.src)| <= 1) || (wr.opcode == 0x10 && |Transfers(wr.body.dst)| <= 1)
  }

  /** These are the accepted requests of one block, and the device must offer the path too. */
  lemma WantsDirectExactly(wr: Wr, maxSge: u8, enabled: bool)
    requires WellFormed(wr)
    ensures WantsDirect(wr, maxSge, enabled) <==> enabled && Accepted(wr, maxSge) && FitsOneBlock(wr)
    ensures Accepted(wr, maxSge) ==>
              (FitsOneBlock(wr) <==>
               (CtlLen(wr.opcode) + 16 * (SgeNum(wr) + if IsAtomic(wr.opcode) then 1 else 0) + 63) / 64 == 1)
  {
    hide Kept, Transfers;
    if Accepted(wr, maxSge) {
      BlockCountIsCeiling(CtlLen(wr.opcode), if IsAtomic(wr.opcode) then 2 else SgeNum(wr));
      if wr.body.Rw? {
        TransfersAreKept(wr.body.src);
        TransfersAreKept(wr.body.dst);
      }
    }
  }

  ghost predicate SomeFitsOneBlock(wrs: seq<Wr>, n: nat, maxSge: u8)
    requires n <= |wrs| && AllPostable(wrs, maxSge)
  {
    exists i :: 0 <= i < n && Accepted(wrs[i], maxSge) && FitsOneBlock(wrs[i])
  }

  lemma NoneFits(wrs: seq<Wr>, maxSge: u8)
    requires AllPostable(wrs, maxSge)
    ensures !SomeFitsOneBlock(wrs, 0, maxSge)
  {
  }

  lemma SomeFitsStep(wrs: seq<Wr>, n: nat, maxSge: u8)
    requires 0 < n <= |wrs| && AllPostable(wrs, maxSge)
    ensures SomeFitsOneBlock(wrs, n, maxSge) <==>
            SomeFitsOneBlock(wrs, n - 1, maxSge) || (Accepted(wrs[n - 1], maxSge) && FitsOneBlock(wrs[n - 1]))
  {
    hide Accepted, FitsOneBlock;
  }

  /**
    The flag is raised exactly when the device offers the path and some request that was looked
    at, taken or refused for lack of room, passed the checks and fits one block.
   */
  lemma {:induction false} FlagMeans(sq: Sq, c: nat, reqs: seq<Req>, wrs: seq<Wr>, n: nat, enabled: bool)
    requires SqInv(sq, c, reqs) && SqSized(sq) && n <= |wrs| && AllPostable(wrs, sq.maxSge)
    ensures var l := PostPrefix(sq, wrs, n, enabled);
            Seen(l) <= n && (l.ret == 0 ==> Seen(l) == n) && (l.flag <==> enabled && SomeFitsOneBlock(wrs, Seen(l), sq.maxSge))
  {
    hide Pow2, PostPrefix, WantsDirect, SqInv, SqSized, PostOne, Accepted, FitsOneBlock, SomeFitsOneBlock;
    PrefixFacts(sq, c, reqs, wrs, n, enabled);
    if n == 0 {
      NothingPosted(sq, wrs, enabled);
      assert !SomeFitsOneBlock(wrs, 0, sq.maxSge) by {
        NoneFits(wrs, sq.maxSge);
      }
    } else {
      FlagMeans(sq, c, reqs, wrs, n - 1, enabled);
      PrefixFacts(sq, c, reqs, wrs, n - 1, enabled);
      var l := PostPrefix(sq, wrs, n - 1, enabled);
      if l.ret != 0 {
        PrefixStopped(sq, wrs, n, enabled);
      } else {
        WantsDirectExactly(wrs[n - 1], sq.maxSge, enabled);
        SomeFitsStep(wrs, n, sq.maxSge);
        PrefixNext(sq, wrs, n - 1, enabled);
        if PostOne(l.sq, wrs[n - 1]).Refused? {
          RefusalCode(l.sq, wrs[n - 1]);
        }
      }
    }
  }

  lemma PrefixFacts(sq: Sq, c: nat, reqs: seq<Req>, wrs: seq<Wr>, n: nat, enabled: bool)
    requires SqInv(sq, c, reqs) && SqSized(sq) && n <= |wrs| && AllPostable(wrs, sq.maxSge)
    ensures var l := PostPrefix(sq, wrs, n, enabled);
            l.sq.maxSge == sq.maxSge && l.count <= n && (l.ret == 0 ==> l.count == n) && (l.ret != 0 ==> l.count < n)
  {
    hide Pow2, PostPrefix, WellFormed, Postable, WantsDirect, SqInv, SqSized, PostOne;
    PostPrefixLogs(sq, c, reqs, wrs, n, enabled);
  }

  lemma WithinLap(sq: Sq, c: nat, reqs: seq<Req>)
    requires SqInv(sq, c, reqs)
    ensures c <= |Print(reqs)| && Sub32(sq.pi, sq.ci) == |Print(reqs)| - c
  {
    hide Print, Mirrors, OwnersRight, AllAccepted;
    Pow2Monotone(sq.k, 31);
    Pow2Constants();
    Distance(c, |Print(reqs)|);
  }

  /**
    Exactly when the direct path is chosen, on the true counters: one request was accepted, one
    block is outstanding, the device offers the path, and some request looked at fits one block.
   */
  lemma DirectExactly(sq: Sq, c: nat, reqs: seq<Req>, wrs: seq<Wr>, enabled: bool)
    requires SqInv(sq, c, reqs) && SqSized(sq) && AllPostable(wrs, sq.maxSge)
    ensures var l := PostPrefix(sq, wrs, |wrs|, enabled);
            && Seen(l) <= |wrs| && AllPrintable(reqs + l.log)
            && (ChoosesDirect(l.sq, l.count, l.flag) <==>
                && l.count == 1 && |Print(reqs + l.log)| == c + 1
                && enabled && SomeFitsOneBlock(wrs, Seen(l), sq.maxSge))
  {
    hide Pow2, Printable, Print, PostPrefix, SqInv, SqSized, WellFormed, Postable, SomeFitsOneBlock, PostOne;
    var l := PostPrefix(sq, wrs, |wrs|, enabled);
    FlagMeans(sq, c, reqs, wrs, |wrs|, enabled);
    PostPrefixLogs(sq, c, reqs, wrs, |wrs|, enabled);
    InvPrintable(l.sq, c, reqs + l.log);
    WithinLap(l.sq, c, reqs + l.log);
  }

  /** A device that does not offer the path never gets a block directly. */
  lemma NeverDirectUnoffered(sq: Sq, c: nat, reqs: seq<Req>, wrs: seq<Wr>)
    requires SqInv(sq, c, reqs) && SqSized(sq) && AllPostable(wrs, sq.maxSge)
    ensures var l := PostPrefix(sq, wrs, |wrs|, false); !l.flag && !ChoosesDirect(l.sq, l.count, l.flag)
  {
    hide PostPrefix, SomeFitsOneBlock, SqInv, SqSized, Postable;
    FlagMeans(sq, c, reqs, wrs, |wrs|, false);
  }

  /** What the device is told, on the true counters. */
  lemma NoticeExactly(sq: Sq, c: nat, reqs: seq<Req>, wrs: seq<Wr>, enabled: bool)
    requires SqInv(sq, c, reqs) && SqSized(sq) && AllPostable(wrs, sq.maxSge)
    requires PostPrefix(sq, wrs, |wrs|, enabled).count > 0
    ensures var l := PostPrefix(sq, wrs, |wrs|, enabled);
            && Seen(l) <= |wrs| && AllPrintable(reqs + l.log) && 0 <= SlotOf(l.sq, l.at) < |l.sq.ring|
            && var (_, notice) := Announce(l.sq, l.count, l.flag, l.at);
            var p := |Print(reqs + l.log)|;
            && (notice.Direct? <==>
                enabled && l.count == 1 && p == c + 1 && SomeFitsOneBlock(wrs, Seen(l), sq.maxSge))
            && !notice.Quiet?
            && (notice.Doorbell? ==> notice.pi == p % TWO_32)
            && (notice.Direct? ==> notice.block[0] % 0x1_0000 == p % 0x1_0000)
  {
    hide Pow2, Printable, Print, PostPrefix, SqInv, SqSized, Postable, SomeFitsOneBlock, PostOne, SlotOf, Patched;
    var l := PostPrefix(sq, wrs, |wrs|, enabled);
    DirectExactly(sq, c, reqs, wrs, enabled);
    PostPrefixLogs(sq, c, reqs, wrs, |wrs|, enabled);
    InvPi(l.sq, c, reqs + l.log);
    SlotAt(l.sq, Start(reqs + l.log, |reqs| + l.count - 1)) by {
      InvSized(l.sq, c, reqs + l.log);
    }
    PatchedExactly(l.sq.ring[SlotOf(l.sq, l.at)], l.sq.pi);
  }

  lemma InvSized(sq: Sq, c: nat, reqs: seq<Req>)
    requires SqInv(sq, c, reqs)
    ensures SqSized(sq)
  {
  }

  lemma InvPi(sq: Sq, c: nat, reqs: seq<Req>)
    requires SqInv(sq, c, reqs)
    ensures AllPrintable(reqs) && sq.pi == |Print(reqs)| % TWO_32 && sq.pi % 0x1_0000 == |Print(reqs)| % 0x1_0000
    ensures |sq.ring| == Pow2(sq.k) > 0
  {
    hide Pow2, Print, Mirrors, OwnersRight, AllAccepted, Tags;
    LowHalf(|Print(reqs)|, sq.pi);
  }

  lemma LowHalf(p: nat, x: u32)
    requires x == p % TWO_32
    ensures x % 0x1_0000 == p % 0x1_0000
  {
    ModOfMod(p, 0x1_0000, 0x1_0000);
  }

  lemma InvPrintable(sq: Sq, c: nat, reqs: seq<Req>)
    requires SqInv(sq, c, reqs)
    ensures AllPrintable(reqs)
  {
  }

  /** The same requests, up to the block index patched into them. */
  ghost predicate SameRequests(a: seq<Req>, b: seq<Req>) {
    |a| == |b| && forall i :: 0 <= i < |a| ==> a[i].wr == b[i].wr && a[i].owner == b[i].owner
  }

  /** Announcing keeps the invariant and the meaning of every request, on either path. */
  lemma AnnounceKeeps(sq: Sq, c: nat, reqs: seq<Req>, wrs: seq<Wr>, enabled: bool) returns (log: seq<Req>)
    requires SqInv(sq, c, reqs) && SqSized(sq) && AllPostable(wrs, sq.maxSge)
    ensures var l := PostPrefix(sq, wrs, |wrs|, enabled);
            && AllPrintable(log) && AllPrintable(reqs + l.log) && SameRequests(log, reqs + l.log)
            && Meanings(log) == Meanings(reqs + l.log) && Tags(log) == Tags(reqs + l.log)
            && (l.count > 0 ==> 0 <= SlotOf(l.sq, l.at) < |l.sq.ring|)
            && (l.count > 0 ==>
                  var (sq', notice) := Announce(l.sq, l.count, l.flag, l.at);
                  && SqInv(sq', c, log)
                  && (notice == Doorbell(|Print(log)| % TWO_32)
                      || notice == Direct(Patched(Print(reqs + l.log)[|Print(log)| - 1], |Print(log)| % TWO_32))))
            && (l.count == 0 ==> SqInv(l.sq, c, reqs) && log == reqs)
  {
    hide Pow2, Printable, BlocksOf, Print, Tags, PostPrefix, Accepted, WellFormed, Postable, Mirrors, OwnersRight, AllAccepted;
    PostPrefixLogs(sq, c, reqs, wrs, |wrs|, enabled);
    var l := PostPrefix(sq, wrs, |wrs|, enabled);
    log := reqs + l.log;
    if l.count == 0 {
      assert log == reqs;
    } else {
      SlotAt(l.sq, Start(log, |log| - 1));
      if ChoosesDirect(l.sq, l.count, l.flag) {
        DirectIsSound(sq, c, reqs, wrs, enabled, l);
        DirectPatch(l.sq, c, log);
        log := Repatched(log, l.sq.pi);
      }
    }
  }

  /** What the direct path does to the log: the same requests, the index in the last one. */
  lemma DirectPatch(sq: Sq, c: nat, reqs: seq<Req>)
    requires SqInv(sq, c, reqs) && reqs != [] && |BlocksOf(reqs[|reqs| - 1])| == 1 && c < |Print(reqs)| && |sq.ring| > 0
    ensures var log := Repatched(reqs, sq.pi);
            var s := (|Print(reqs)| - 1) % |sq.ring|;
            && AllPrintable(log) && SameRequests(log, reqs) && Meanings(log) == Meanings(reqs) && Tags(log) == Tags(reqs)
            && |Print(log)| == |Print(reqs)| && sq.ring[s] == Print(reqs)[|Print(reqs)| - 1]
            && SqInv(sq.(ring := sq.ring[s := Patched(sq.ring[s], sq.pi)]), c, log)
  {
    hide Pow2, Printable, BlocksOf, Print, Tags, SqInv, Patched, Meanings, Repeat;
    InvPrintable(sq, c, reqs);
    RepatchedLog(reqs, sq.pi);
    RepatchedMeanings(reqs, sq.pi);
    PatchKeeps(sq, c, reqs);
    CellOfLast(sq, c, reqs);
  }

  lemma CellOfLast(sq: Sq, c: nat, reqs: seq<Req>)
    requires SqInv(sq, c, reqs) && c < |Print(reqs)| && |sq.ring| > 0
    ensures sq.ring[(|Print(reqs)| - 1) % |sq.ring|] == Print(reqs)[|Print(reqs)| - 1]
  {
    hide Print;
    assert Cell(sq.ring, |Print(reqs)| - 1) == Print(reqs)[|Print(reqs)| - 1];
  }

  /** The list call as a whole: what is left in the queue, and what the device was told. */
  function Outcome(l: Listed): (Sq, Notice)
    requires l.count > 0 ==> 0 <= SlotOf(l.sq, l.at) < |l.sq.ring|
  {
    if l.count > 0 then Announce(l.sq, l.count, l.flag, l.at) else (l.sq, Quiet)
  }

  /** The notice fits a log of p blocks in all, of which count requests are new. */
  ghost predicate Tells(notice: Notice, c: nat, p: nat, count: nat, wanted: bool) {
    && (notice.Quiet? <==> count == 0)
    && (notice.Direct? <==> wanted && count == 1 && p == c + 1)
    && (notice.Doorbell? ==> notice.pi == p % TWO_32)
    && (notice.Direct? ==> notice.block[0] % 0x1_0000 == p % 0x1_0000)
  }

  lemma OutcomeTells(sq: Sq, c: nat, reqs: seq<Req>, wrs: seq<Wr>, enabled: bool) returns (log: seq<Req>)
    requires SqInv(sq, c, reqs) && SqSized(sq) && AllPostable(wrs, sq.maxSge)
    ensures var l := PostPrefix(sq, wrs, |wrs|, enabled);
            && (l.count > 0 ==> 0 <= SlotOf(l.sq, l.at) < |l.sq.ring|)
            && AllPrintable(log) && |log| == |reqs| + l.count && Seen(l) <= |wrs|
            && var (sq', notice) := Outcome(l);
            && SqInv(sq', c, log)
            && Tells(notice, c, |Print(log)|, l.count, enabled && SomeFitsOneBlock(wrs, Seen(l), sq.maxSge))
    ensures forall i :: 0 <= i < |log| ==> i < |reqs| + |wrs| && log[i].wr == if i < |reqs| then reqs[i].wr else wrs[i - |reqs|]
  {
    hide Pow2, Printable, Print, PostPrefix, SqInv, SqSized, Postable, SomeFitsOneBlock, PostOne, SlotOf, Patched, Announce,
         Meanings, Tags, BlocksOf;
    var l := PostPrefix(sq, wrs, |wrs|, enabled);
    PostPrefixLogs(sq, c, reqs, wrs, |wrs|, enabled);
    FlagMeans(sq, c, reqs, wrs, |wrs|, enabled);
    log := AnnounceKeeps(sq, c, reqs, wrs, enabled);
    if l.count > 0 {
      NoticeExactly(sq, c, reqs, wrs, enabled);
      TagsLength(log);
      TagsLength(reqs + l.log);
    }
  }

  lemma TagsLength(reqs: seq<Req>)
    requires AllPrintable(reqs)
    ensures |Tags(reqs)| == |Print(reqs)|
  {
  }

  /* Depth. */

  /** Requests with a block that is not retired yet. */
  ghost function Outstanding(reqs: seq<Req>, c: nat): nat
    requires AllPrintable(reqs)
    decreases |reqs|
  {
    if reqs == [] then 0
    else (if |Print(reqs)| > c then 1 else 0) + Outstanding(reqs[..|reqs| - 1], c)
  }

  /** The most blocks one request can take, as computed when the queue is created. */
  function SqeBbCnt(maxSge: u8): u32 {
    var n := CalWqebbNum(NOTIFY_CTL_LEN, maxSge, 64);
    if n > MAX_SQE_BB_NUM then MAX_SQE_BB_NUM else n
  }

  ghost predicate NoLargerThan(reqs: seq<Req>, bb: nat)
    requires AllPrintable(reqs)
  {
    forall i :: 0 <= i < |reqs| ==> |BlocksOf(reqs[i])| <= bb
  }

  lemma {:induction false} OutstandingBound(reqs: seq<Req>, c: nat, bb: nat)
    requires AllPrintable(reqs) && NoLargerThan(reqs, bb)
    ensures |Print(reqs)| <= c + Outstanding(reqs, c) * bb
    decreases |reqs|
  {
    hide Printable, BlocksOf, Print;
    if reqs == [] {
      assert |Print(reqs)| == 0 by {
        PrintEmpty();
      }
    } else {
      var front := reqs[..|reqs| - 1];
      OutstandingBound(front, c, bb);
      LastRequest(reqs);
      OneMore(|Print(front)|, |BlocksOf(reqs[|reqs| - 1])|, c, Outstanding(front, c), bb);
    }
  }

  lemma OneMore(p: nat, b: nat, c: nat, o: nat, bb: nat)
    requires p <= c + o * bb && b <= bb
    ensures p + b <= c + (o + 1) * bb
    ensures p + b <= c ==> p + b <= c + o * bb
  {
    Distribute(o, 1, bb);
    ScaleMonotone(0, o, bb);
  }

  lemma PrintEmpty()
    ensures Print([]) == []
  {
  }

  lemma RequestBound(r: Req, maxSge: u8)
    requires Printable(r) && WellFormed(r.wr) && Accepted(r.wr, maxSge)
    ensures |BlocksOf(r)| <= SqeBbCnt(maxSge)
  {
    hide CalWqebbNum, Accepted, WellFormed;
    PrintableFits(r);
    RequestFits(r.wr, r.owner, maxSge);
  }

  lemma LogBound(reqs: seq<Req>, maxSge: u8)
    requires AllPrintable(reqs) && AllAccepted(reqs, maxSge)
    ensures NoLargerThan(reqs, SqeBbCnt(maxSge))
  {
    hide Printable, BlocksOf, SqeBbCnt, Accepted, WellFormed, Postable;
    forall i | 0 <= i < |reqs|
      ensures |BlocksOf(reqs[i])| <= SqeBbCnt(maxSge)
    {
      RequestBound(reqs[i], maxSge);
    }
  }

  lemma RoomLeft(p: nat, c: nat, o: nat, d: nat, bb: nat, cnt: nat, n: nat)
    requires p <= c + o * bb && o < d && bb * d <= cnt && n <= bb
    ensures p + n <= c + cnt
  {
    Distribute(o, 1, bb);
    ScaleMonotone(o + 1, d, bb);
  }

  /**
    Depth guarantee: while fewer than d requests are outstanding, a queue with room for d
    requests of the largest size never refuses a valid request for lack of space.
   */
  lemma DepthGuarantee(sq: Sq, c: nat, reqs: seq<Req>, wr: Wr, d: nat)
    requires SqInv(sq, c, reqs) && SqSized(sq) && Postable(wr, sq.maxSge) && Accepted(wr, sq.maxSge)
    requires SqeBbCnt(sq.maxSge) * d <= Pow2(sq.k) && Outstanding(reqs, c) < d
    ensures PostOne(sq, wr).Taken?
  {
    hide Pow2, Printable, BlocksOf, Print, Mirrors, OwnersRight, WithRequest, SqeBbCnt, Accepted, Accepted, Outstanding;
    AcceptedIsPrintable(sq, wr);
    var r := ReqFor(sq, wr);
    LogBound(reqs, sq.maxSge);
    OutstandingBound(reqs, c, SqeBbCnt(sq.maxSge));
    RequestBound(r, sq.maxSge);
    BlockBound(r);
    RoomLeft(|Print(reqs)|, c, Outstanding(reqs, c), d, SqeBbCnt(sq.maxSge), Pow2(sq.k), |BlocksOf(r)|);
    OverflowIsExact(c, |Print(reqs)|, |BlocksOf(r)|, sq.k);
  }
}
