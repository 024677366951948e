/**
  Streams of requests: from any request boundary on, the device-side parser recovers
  exactly the list of requests that were printed.
 */
module SqeStream {
  import opened Bits
  import opened Common
  import opened Sqe

  /** An accepted request with the owner bit it was printed with and the block index patched in (zero if none). */
  datatype Req = Req(wr: Wr, owner: bit, idx: u32)

  /** Requests that some queue lets through and that fit the four-block buffer. */
  ghost predicate Printable(r: Req) {
    exists maxSge: u8 :: Postable(r.wr, maxSge) && Accepted(r.wr, maxSge)
  }

  function PatchFirst(b: seq<Wqebb>, idx: u32): (r: seq<Wqebb>)
    requires |b| > 0
    ensures |r| == |b|
  {
    b[0 := Patched(b[0], idx)]
  }

  lemma PrintableFits(r: Req)
    requires Printable(r)
    ensures ParseOpcode(r.wr.opcode) != OP_INVALID && SgeNum(r.wr) <= MAX_SGE_BUFFER
    ensures IsAtomic(r.wr.opcode) ==> AtomicLenOk(r.wr.body.srcSge.len, r.wr.opcode)
    ensures 1 <= BlockCount(r.wr) <= MAX_SQE_BB_NUM && |Words(r.wr, r.owner)| <= 16 * BlockCount(r.wr)
    ensures BlockCount(r.wr) == (CtlLen(r.wr.opcode) + 16 * (SgeNum(r.wr) + if IsAtomic(r.wr.opcode) then 1 else 0) + 63) / 64
  {
    hide Words, CalWqebbNum, Kept;
    var maxSge: u8 :| Postable(r.wr, maxSge) && Accepted(r.wr, maxSge);
    RequestFits(r.wr, r.owner, maxSge);
  }

  /** The blocks of one request as they lie in the ring. */
  ghost function BlocksOf(r: Req): (b: seq<Wqebb>)
    requires Printable(r)
    ensures |b| == BlockCount(r.wr) >= 1
  {
    PrintableFits(r);
    PatchFirst(Blocks(r.wr, r.owner), r.idx)
  }

  ghost function MeaningOf(r: Req): Wire
    requires Printable(r)
  {
    PrintableFits(r);
    Meaning(r.wr, r.owner)
  }

  lemma FlattenChunks(buf: seq<u32>, b: seq<Wqebb>, n: nat)
    requires |buf| == 16 * n && |b| == n
    requires forall j :: 0 <= j < n ==> b[j] == buf[16 * j..16 * j + 16]
    ensures Flatten(b) == buf
  {
    forall i | 0 <= i < 16 * n
      ensures Flatten(b)[i] == buf[i]
    {
      assert b[i / 16] == buf[16 * (i / 16)..16 * (i / 16) + 16];
      assert buf[16 * (i / 16)..16 * (i / 16) + 16][i % 16] == buf[i];
    }
  }

  lemma FlattenPatched(b: seq<Wqebb>, idx: u32)
    requires |b| > 0
    ensures Flatten(PatchFirst(b, idx)) == Patched(Flatten(b), idx)
  {
  }

  /** The block count only reads the first block. */
  lemma CountReadsFirstBlock(b: seq<Wqebb>)
    requires |b| > 0
    ensures WireBlocks(Flatten(b)) == WireBlocks(b[0])
  {
    hide Field;
    assert Flatten(b)[1] == b[0][1] && Flatten(b)[2] == b[0][2];
  }

  /** One request, block index and all, decodes to its meaning. */
  lemma RequestDecodes(r: Req)
    requires Printable(r)
    ensures var b := BlocksOf(r);
            && WireBlocks(b[0]) == |b| && WireBlocks(Flatten(b)) == |b|
            && Decode(Flatten(b)) == Some(MeaningOf(r))
  {
    hide Field, Kept, FlatSges, RemoteSge, RemoteTarget, Hint, Tail, Meaning, DecodeOp, DecodeHdr, DecodeRemote,
         OpcodeField, SgeNumField, Patched, PatchFirst, Header, Flatten;
    PrintableFits(r);
    var wr := r.wr;
    var h := Header(wr, ParseOpcode(wr.opcode), r.owner, Hint(wr), SgeNum(wr), RemoteSge(wr));
    var z := Zeros(16 * BlockCount(wr) - |Words(wr, r.owner)|);
    var buf := h + Tail(wr) + z;
    FlattenChunks(buf, Blocks(wr, r.owner), BlockCount(wr));
    FlattenPatched(Blocks(wr, r.owner), r.idx);
    var w := Flatten(BlocksOf(r));
    assert w == Patched(buf, r.idx);
    assert buf == h + (Tail(wr) + z);
    HeaderDecodes(wr, r.owner, r.idx, Tail(wr) + z);
    TailAt(h, Tail(wr), z, r.idx);
    CountReadsFirstBlock(BlocksOf(r));
    assert |w| == 16 * WireBlocks(w);
    OpDecodes(w, wr, r.owner);
    MeaningParts(r);
    WholeMeaning(w, r);
  }

  lemma MeaningParts(r: Req)
    requires Printable(r) && ParseOpcode(r.wr.opcode) != OP_INVALID
    ensures var wr, m := r.wr, MeaningOf(r);
            && m.hdr == Hdr(wr.placeOrder, wr.compOrder, wr.fence, wr.solicited, wr.complete, r.owner, Hint(wr),
                            wr.tpn % 0x100_0000, wr.rmtEid)
            && m.remote == RemoteTarget(wr)
  {
  }

  /**
    The remote side as the device decodes it, opcode by opcode: the destination entry of an atomic
    request, the first source entry of a read, the first destination entry of a write or notify.
   */
  lemma RemoteDecodes(r: Req)
    requires Printable(r)
    ensures r.wr.opcode in {0x00, 0x02, 0x10, 0x20, 0x22}
    ensures var w, body := Flatten(BlocksOf(r)), r.wr.body;
            && |w| >= 12
            && (r.wr.opcode == 0x20 || r.wr.opcode == 0x22 ==> !body.Rw? && DecodeRemote(w) == RemoteEntry(body.dstSge))
            && (r.wr.opcode == 0x10 ==> body.Rw? && |body.src| > 0 && DecodeRemote(w) == RemoteEntry(body.src[0]))
            && (r.wr.opcode == 0x00 || r.wr.opcode == 0x02 ==>
                  body.Rw? && |body.dst| > 0 && DecodeRemote(w) == RemoteEntry(body.dst[0]))
  {
    hide Flatten, BlocksOf, DecodeOp, DecodeHdr, DecodeRemote, WireBlocks, Kept;
    RequestDecodes(r);
    MeaningParts(r) by {
      PrintableFits(r);
    }
    PrintableFits(r);
    DecodedParts(Flatten(BlocksOf(r)));
  }

  /** A memory entry as the header describes it, its token identifier cut to twenty bits. */
  function RemoteEntry(s: Sge): Remote {
    Remote(s.seg.tid % 0x10_0000, s.seg.tokenValid, s.seg.tokenValue, s.addr)
  }

  lemma DecodedParts(w: seq<u32>)
    requires |w| >= 12 && |w| == 16 * WireBlocks(w)
    ensures Decode(w).Some? ==> Decode(w).value.remote == DecodeRemote(w)
  {
    hide DecodeOp, DecodeHdr, DecodeRemote;
  }

  lemma WholeMeaning(w: seq<u32>, r: Req)
    requires Printable(r) && |w| >= 12 && |w| == 16 * WireBlocks(w)
    requires DecodeOp(w) == Some(MeaningOf(r).op)
    requires DecodeHdr(w) == MeaningOf(r).hdr && DecodeRemote(w) == MeaningOf(r).remote
    ensures Decode(w) == Some(MeaningOf(r))
  {
    hide DecodeOp, DecodeHdr, DecodeRemote, Meaning;
  }

  ghost predicate AllPrintable(reqs: seq<Req>) {
    forall i :: 0 <= i < |reqs| ==> Printable(reqs[i])
  }

  ghost function Print(reqs: seq<Req>): seq<Wqebb>
    requires AllPrintable(reqs)
  {
    if reqs == [] then [] else BlocksOf(reqs[0]) + Print(reqs[1..])
  }

  ghost function Meanings(reqs: seq<Req>): seq<Wire>
    requires AllPrintable(reqs)
  {
    seq(|reqs|, i requires 0 <= i < |reqs| => MeaningOf(reqs[i]))
  }

  /** The parser undoes the printer on whole streams. */
  lemma {:induction false} ParseInvertsPrint(reqs: seq<Req>)
    requires AllPrintable(reqs)
    ensures ParseAll(Print(reqs)) == Some(Meanings(reqs))
  {
    hide BlocksOf, MeaningOf, Decode, Flatten, WireBlocks, Printable;
    if reqs == [] {
      assert Meanings(reqs) == [];
    } else {
      ParseInvertsPrint(reqs[1..]);
      RequestDecodes(reqs[0]);
      var b, rest := BlocksOf(reqs[0]), Print(reqs[1..]);
      assert (b + rest)[..|b|] == b && (b + rest)[|b|..] == rest;
      assert Meanings(reqs) == [MeaningOf(reqs[0])] + Meanings(reqs[1..]);
    }
  }

  lemma {:induction false} PrintConcat(a: seq<Req>, b: seq<Req>)
    requires AllPrintable(a) && AllPrintable(b)
    ensures AllPrintable(a + b) && Print(a + b) == Print(a) + Print(b)
  {
    hide BlocksOf, Printable;
    if a == [] {
      assert a + b == b;
    } else {
      assert (a + b)[1..] == a[1..] + b;
      PrintConcat(a[1..], b);
      assert Print(a + b) == BlocksOf(a[0]) + (Print(a[1..]) + Print(b));
    }
  }
}
