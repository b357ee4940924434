/** The other half of safety: when the link delivers what the sender sends, the transfer completes. */
module Delivery {
  import opened Bytes
  import opened Geometry
  import opened Ranges
  import opened Wire
  import opened Slots
  import opened JournalCodec
  import opened Storage
  import opened Journals
  import opened Crc
  import opened ReceiverModel
  import opened Resting
  import opened Safety
  import opened SenderModel
  import opened System
  import opened Progress

  /** The final ACK has been sent. */
  predicate Delivered(cfg: Setting, w: World) { Ack(cfg.src, FINAL) in w.t.env.log }

  /** The transfer has come to its end. */
  predicate Over(cfg: Setting, w: World) { !w.r.active && Ended(w.t.env) }

  /** At its end the file is in place, and the final ACK has been sent unless the checksum covers the
      tail of an older, longer file. */
  lemma OverMeansFile(cfg: Setting, w: World)
    requires cfg.Valid() && Safe(cfg.src, w) && Over(cfg, w)
    ensures w.t.env.file == Some(cfg.src.Result()) == w.t.env.durable
    ensures Delivered(cfg, w) <==> cfg.src.Passes()
  {
    DiskNow(cfg.src, w.t);
  }

  /** The first `k` chunks are done. Others may be, and any chunk may be half received. */
  ghost predicate Has(cfg: Setting, w: World, k: nat)
    requires cfg.Valid()
  {
    && Safe(cfg.src, w) && w.r.active && k <= cfg.src.layout.Chunks() == |w.r.st.done|
    && forall i | 0 <= i < k :: w.r.st.done[i]
  }

  lemma HasExpects(cfg: Setting, w: World, k: u32)
    requires cfg.Valid() && Has(cfg, w, k) && k < cfg.src.layout.Chunks()
    ensures Expects(cfg, w, k)
  {
  }

  // ----- the packets of one chunk, in any order

  ghost predicate Occurs(ps: seq<u32>, p: nat) { exists i | 0 <= i < |ps| :: ps[i] == p }

  /** Packet `p` of chunk `k` is still to arrive, or is in its slot. */
  ghost predicate Slotted(r: Recv, k: u32, rest: seq<u32>, p: nat)
  {
    Occurs(rest, p) || (r.current == k && p < |r.slots| && r.slots[p].Good())
  }

  /** The packets `rest` of chunk `k` are still to arrive, and they are enough to get it acknowledged. */
  ghost predicate Gathers(cfg: Setting, w: World, k: u32, rest: seq<u32>)
    requires cfg.Valid() && k < cfg.src.layout.Chunks()
  {
    && Safe(cfg.src, w)
    && (!w.r.active ==> Over(cfg, w))
    && (w.r.active ==>
          && Has(cfg, w, k)
          && (w.r.st.done[k] ==> Ack(cfg.src, k) in w.t.env.log || Occurs(rest, 0))
          && (!w.r.st.done[k] ==> forall p: nat | p < cfg.src.layout.Packets(k) :: Slotted(w.r, k, rest, p)))
  }

  /** `b` records what `a` does, and perhaps chunk `k`. */
  predicate Plus(a: JournalState, b: JournalState, k: nat)
    requires k < |a.done|
  {
    b == a || b == a.(done := a.done[k := true])
  }

  lemma GatheredDone(cfg: Setting, w: World, k: u32, p: u32, rest: seq<u32>)
    requires cfg.Valid() && k < cfg.src.layout.Chunks() && Gathers(cfg, w, k, [p] + rest)
    requires p < cfg.src.layout.Packets(k) && w.r.active && w.r.st.done[k]
    ensures w.r.Ok()
    ensures var w' := Received(w, PacketBytes(cfg.job, k, p), cfg.dest, cfg.src.crc32);
            Gathers(cfg, w', k, rest) && w'.r.st == w.r.st
  {
    hide Received, PacketBytes, TrailOk, RecvOk;
    HasExpects(cfg, w, k);
    RepeatArrives(cfg, w, k, p);
    if p == 0 {
      var log := Acked(Seen(w, k), k).t.env.log;
      assert log[|log| - 1] == Send(AckReply(w.r.st.tid, k));
      SameId(cfg, w);
    } else if Ack(cfg.src, k) !in w.t.env.log {
      StillToCome(p, rest, 0);
    }
  }

  lemma SameId(cfg: Setting, w: World)
    requires cfg.Valid() && Safe(cfg.src, w) && w.r.active
    ensures w.r.st.tid == cfg.src.tid
  {
  }

  lemma StillToCome(p: u32, rest: seq<u32>, q: nat)
    requires p != q && Occurs([p] + rest, q)
    ensures Occurs(rest, q)
  {
    var i :| 0 <= i < |[p] + rest| && ([p] + rest)[i] == q;
    assert rest[i - 1] == q;
  }

  lemma GatheredNew(cfg: Setting, w: World, k: u32, p: u32, rest: seq<u32>)
    requires cfg.Valid() && k < cfg.src.layout.Chunks() && Gathers(cfg, w, k, [p] + rest)
    requires p < cfg.src.layout.Packets(k) && w.r.active && !w.r.st.done[k]
    ensures w.r.Ok()
    ensures var w' := Received(w, PacketBytes(cfg.job, k, p), cfg.dest, cfg.src.crc32);
            Gathers(cfg, w', k, rest) && Plus(w.r.st, w'.r.st, k)
  {
    HasExpects(cfg, w, k);
    AtLeastOnePacket(cfg.src.layout, k);
    PacketArrives(cfg, w, k, p);
    CountIsPackets(cfg.src, w.r.st, k);
    var w' := Received(w, PacketBytes(cfg.job, k, p), cfg.dest, cfg.src.crc32);
    if w'.r.active && !w'.r.st.done[k] {
      forall q: nat | q < cfg.src.layout.Packets(k)
        ensures Slotted(w'.r, k, rest, q)
      {
        assert Slotted(w.r, k, [p] + rest, q);
        if q != p && !(w.r.current == k && w.r.slots[q].Good()) {
          StillToCome(p, rest, q);
        }
      }
    }
  }

  /** One more packet, wanted or not. */
  lemma Gathered(cfg: Setting, w: World, k: u32, p: u32, rest: seq<u32>)
    requires cfg.Valid() && k < cfg.src.layout.Chunks() && Gathers(cfg, w, k, [p] + rest)
    requires p < cfg.src.layout.Packets(k) && k < |w.r.st.done|
    ensures w.r.Ok()
    ensures var w' := Received(w, PacketBytes(cfg.job, k, p), cfg.dest, cfg.src.crc32);
            Gathers(cfg, w', k, rest) && Plus(w.r.st, w'.r.st, k)
  {
    if !w.r.active {
      var d := JobData(cfg.job, k, p);
      ParseData(d, cfg.job.layout.packetSize - |d.data|);
    } else if w.r.st.done[k] {
      GatheredDone(cfg, w, k, p, rest);
    } else {
      GatheredNew(cfg, w, k, p, rest);
    }
  }

  lemma GathersOk(cfg: Setting, w: World, k: u32, rest: seq<u32>)
    requires cfg.Valid() && k < cfg.src.layout.Chunks() && Gathers(cfg, w, k, rest)
    ensures w.r.Ok()
  {
  }

  lemma {:induction false} AllGathered(cfg: Setting, w: World, k: u32, ps: seq<u32>, raws: seq<seq<byte>>)
    requires cfg.Valid() && k < cfg.src.layout.Chunks() && Gathers(cfg, w, k, ps) && k < |w.r.st.done|
    requires Carries(cfg.job, raws, k, ps)
    ensures w.r.Ok()
    ensures var w' := ReceivedAll(w, raws, cfg.dest, cfg.src.crc32);
            Gathers(cfg, w', k, []) && Plus(w.r.st, w'.r.st, k)
    decreases |ps|
  {
    hide Gathers, Received, PacketBytes;
    GathersOk(cfg, w, k, ps);
    if ps != [] {
      assert [ps[0]] + ps[1..] == ps;
      Gathered(cfg, w, k, ps[0], ps[1..]);
      AllGathered(cfg, Received(w, raws[0], cfg.dest, cfg.src.crc32), k, ps[1..], raws[1..]);
    }
  }

  /** Every packet of chunk `k` is among `ps`. */
  ghost predicate Covering(l: Layout, k: nat, ps: seq<u32>)
    requires l.chunkSize > 0 && l.packetSize > 0 && k < l.Chunks()
  {
    forall p: nat | p < l.Packets(k) :: Occurs(ps, p)
  }

  /** All packets of chunk `k`, in any order and any number of times, to a receiver that has the chunks before
      it: whatever the receiver held of this chunk or another, the chunk is done and acknowledged, no other
      chunk changes, or the transfer has come to its end. */
  lemma ChunkArrives(cfg: Setting, w: World, k: u32, ps: seq<u32>, raws: seq<seq<byte>>)
    requires cfg.Valid() && k < cfg.src.layout.Chunks() && Has(cfg, w, k)
    requires Covering(cfg.src.layout, k, ps) && Carries(cfg.job, raws, k, ps)
    ensures w.r.Ok()
    ensures var w' := ReceivedAll(w, raws, cfg.dest, cfg.src.crc32);
            && Safe(cfg.src, w') && Plus(w.r.st, w'.r.st, k)
            && (if w'.r.active
                then Has(cfg, w', k + 1) && Ack(cfg.src, k) in w'.t.env.log
                else Over(cfg, w'))
  {
    hide ReceivedAll, Safe, PacketBytes;
    AtLeastOnePacket(cfg.src.layout, k);
    forall p: nat | p < cfg.src.layout.Packets(k)
      ensures Slotted(w.r, k, ps, p)
    {
      assert Occurs(ps, p);
    }
    assert Occurs(ps, 0);
    AllGathered(cfg, w, k, ps, raws);
    AllSlotted(cfg, ReceivedAll(w, raws, cfg.dest, cfg.src.crc32), k);
  }

  /** A chunk none of whose packets is still to arrive is done. */
  lemma AllSlotted(cfg: Setting, w: World, k: u32)
    requires cfg.Valid() && k < cfg.src.layout.Chunks() && Gathers(cfg, w, k, [])
    ensures w.r.active ==> w.r.st.done[k] && Ack(cfg.src, k) in w.t.env.log
  {
    if w.r.active {
      OpenChunkLacks(cfg, w, k);
      assert !Occurs([], 0);
    }
  }

  lemma OpenChunkLacks(cfg: Setting, w: World, k: u32)
    requires cfg.Valid() && Safe(cfg.src, w) && w.r.active && k < cfg.src.layout.Chunks()
    ensures k < |w.r.st.done|
    ensures !w.r.st.done[k] ==> exists p: nat :: p < cfg.src.layout.Packets(k) && !Slotted(w.r, k, [], p)
  {
    AtLeastOnePacket(cfg.src.layout, k);
    CountIsPackets(cfg.src, w.r.st, k);
    if w.r.current == k {
      var p: nat :| p < |w.r.slots| && !w.r.slots[p].Good();
      assert !Slotted(w.r, k, [], p);
    } else {
      assert !Slotted(w.r, k, [], 0);
    }
  }

  // ----- chunk after chunk

  lemma {:induction false} ReceivedConcat(w: World, a: seq<seq<byte>>, b: seq<seq<byte>>, dest: seq<byte>,
                                          crc32: seq<byte> -> u32)
    requires w.r.Ok() && |dest| == PATH_BYTES
    ensures ReceivedAll(w, a, dest, crc32).r.Ok()
    ensures ReceivedAll(w, a + b, dest, crc32) == ReceivedAll(ReceivedAll(w, a, dest, crc32), b, dest, crc32)
    decreases |a|
  {
    if a == [] {
      assert a + b == b;
    } else {
      assert (a + b)[1..] == a[1..] + b;
      ReceivedConcat(Received(w, a[0], dest, crc32), a[1..], b, dest, crc32);
    }
  }

  /** EOF keeps the done chunks, and ends the transfer when all are done. */
  lemma EofArrives(cfg: Setting, w: World, k: nat)
    requires cfg.Valid() && Has(cfg, w, k)
    ensures w.r.Ok()
    ensures var w' := Received(w, JobEof(cfg.job), cfg.dest, cfg.src.crc32);
            && Safe(cfg.src, w')
            && (if w'.r.active then Has(cfg, w', k) && k < cfg.src.layout.Chunks() else Over(cfg, w'))
  {
    ParseEof(cfg.job.tid, cfg.job.checksum);
    ControlKeeps(cfg, w, JobEof(cfg.job));
    MarkedEofSafe(cfg.src, w);
    var w' := Received(w, JobEof(cfg.job), cfg.dest, cfg.src.crc32);
    assert w' == EofHandled(w, cfg.src.tid, cfg.src.crc32);
    assert w'.r.st.eof;
  }

  lemma InOrderCovers(cfg: Setting, k: u32) returns (ps: seq<u32>)
    requires cfg.Valid() && k < cfg.src.layout.Chunks()
    ensures Covering(cfg.src.layout, k, ps) && Carries(cfg.job, ChunkPdus(cfg.job, k), k, ps)
  {
    AtLeastOnePacket(cfg.src.layout, k);
    ps := seq(cfg.src.layout.Packets(k), i requires 0 <= i < cfg.src.layout.Packets(k) => i);
    forall p: nat | p < cfg.src.layout.Packets(k)
      ensures Occurs(ps, p)
    {
      assert ps[p] == p;
    }
  }

  /** One chunk and its EOF. */
  lemma ChunkThenEof(cfg: Setting, w: World, k: u32)
    requires cfg.Valid() && Has(cfg, w, k) && k < cfg.src.layout.Chunks()
    ensures w.r.Ok()
    ensures var w' := ReceivedAll(w, ChunkPdus(cfg.job, k) + [JobEof(cfg.job)], cfg.dest, cfg.src.crc32);
            && Safe(cfg.src, w')
            && (if w'.r.active
                then k + 1 < cfg.src.layout.Chunks() && Has(cfg, w', k + 1) && Ack(cfg.src, k) in w'.t.env.log
                else Over(cfg, w'))
  {
    hide Safe, JobEof, ChunkPdus, Has, Ended, Received;
    var ps := InOrderCovers(cfg, k);
    ChunkArrives(cfg, w, k, ps, ChunkPdus(cfg.job, k));
    var w1 := ReceivedAll(w, ChunkPdus(cfg.job, k), cfg.dest, cfg.src.crc32);
    ReceivedConcat(w, ChunkPdus(cfg.job, k), [JobEof(cfg.job)], cfg.dest, cfg.src.crc32);
    OneReceived(w1, JobEof(cfg.job), cfg.dest, cfg.src.crc32);
    EofAfterChunk(cfg, w1, k);
  }

  lemma EofAfterChunk(cfg: Setting, w: World, k: u32)
    requires cfg.Valid() && Safe(cfg.src, w) && k < cfg.src.layout.Chunks()
    requires if w.r.active then Has(cfg, w, k + 1) && Ack(cfg.src, k) in w.t.env.log else Over(cfg, w)
    ensures w.r.Ok()
    ensures var w' := Received(w, JobEof(cfg.job), cfg.dest, cfg.src.crc32);
            && Safe(cfg.src, w')
            && (if w'.r.active
                then k + 1 < cfg.src.layout.Chunks() && Has(cfg, w', k + 1) && Ack(cfg.src, k) in w'.t.env.log
                else Over(cfg, w'))
  {
    ParseEof(cfg.job.tid, cfg.job.checksum);
    if w.r.active {
      EofArrives(cfg, w, k + 1);
      EofLog(w, JobEof(cfg.job), cfg.dest, cfg.src.crc32);
    }
  }

  lemma EofLog(w: World, raw: seq<byte>, dest: seq<byte>, crc32: seq<byte> -> u32)
    requires w.r.Ok() && |dest| == PATH_BYTES && Parse(raw).Some? && Parse(raw).value.EofPdu?
    ensures w.t.env.log <= Received(w, raw, dest, crc32).t.env.log
  {
    if w.r.active && Parse(raw).value.tid == w.r.st.tid {
      assert w.t.env.log <= MarkedEof(w).t.env.log;
      CompletionLog(MarkedEof(w), crc32);
    }
  }

  lemma OneReceived(w: World, raw: seq<byte>, dest: seq<byte>, crc32: seq<byte> -> u32)
    requires w.r.Ok() && |dest| == PATH_BYTES
    ensures ReceivedAll(w, [raw], dest, crc32) == Received(w, raw, dest, crc32)
  {
    assert [raw][1..] == [];
  }

  /** What the sender puts on the link from chunk `k` on when every chunk is acknowledged at once. */
  function FromChunk(job: Job, k: nat): seq<seq<byte>>
    requires job.Valid()
    decreases job.layout.Chunks() - k
  {
    if k >= job.layout.Chunks() then []
    else (ChunkPdus(job, k) + [JobEof(job)]) + FromChunk(job, k + 1)
  }

  predicate DataOrEof(raw: seq<byte>)
  {
    match Parse(raw)
    case None => false
    case Some(MetadataPdu(_)) => false
    case Some(DataPdu(_)) => true
    case Some(EofPdu(_, _)) => true
    case Some(QueryPdu(_)) => false
  }

  predicate AllDataOrEof(raws: seq<seq<byte>>) { forall i | 0 <= i < |raws| :: DataOrEof(raws[i]) }

  /** A receiver whose transfer is over drops data and EOF. */
  lemma {:induction false} OverStays(cfg: Setting, w: World, raws: seq<seq<byte>>)
    requires cfg.Valid() && w.r.Ok() && !w.r.active && AllDataOrEof(raws)
    ensures ReceivedAll(w, raws, cfg.dest, cfg.src.crc32) == w
    decreases |raws|
  {
    if raws != [] {
      assert DataOrEof(raws[0]);
      assert Received(w, raws[0], cfg.dest, cfg.src.crc32) == w;
      OverStays(cfg, w, raws[1..]);
    }
  }

  lemma {:induction false} FromChunkKinds(cfg: Setting, k: nat)
    requires cfg.Valid()
    ensures AllDataOrEof(FromChunk(cfg.job, k))
    decreases cfg.job.layout.Chunks() - k
  {
    hide DataOrEof, ChunkPdus, JobEof;
    if k < cfg.job.layout.Chunks() {
      FromChunkKinds(cfg, k + 1);
      ChunkKinds(cfg, k);
    }
  }

  lemma ChunkKinds(cfg: Setting, k: u32)
    requires cfg.Valid() && k < cfg.job.layout.Chunks()
    ensures AllDataOrEof(ChunkPdus(cfg.job, k) + [JobEof(cfg.job)])
  {
    AtLeastOnePacket(cfg.job.layout, k);
    ParseEof(cfg.job.tid, cfg.job.checksum);
    var raws := ChunkPdus(cfg.job, k);
    forall i | 0 <= i < |raws|
      ensures DataOrEof(raws[i])
    {
      var d := JobData(cfg.job, k, i);
      ParseData(d, cfg.job.layout.packetSize - |d.data|);
      assert raws[i] == PacketBytes(cfg.job, k, i);
    }
  }

  lemma FirstChunkOf(cfg: Setting, w: World, k: u32) returns (w1: World)
    requires cfg.Valid() && Has(cfg, w, k) && k < cfg.src.layout.Chunks()
    ensures w.r.Ok() && w1.r.Ok() && Safe(cfg.src, w1)
    ensures if w1.r.active then k + 1 < cfg.src.layout.Chunks() && Has(cfg, w1, k + 1) else Over(cfg, w1)
    ensures ReceivedAll(w, FromChunk(cfg.job, k), cfg.dest, cfg.src.crc32)
         == ReceivedAll(w1, FromChunk(cfg.job, k + 1), cfg.dest, cfg.src.crc32)
  {
    var first := ChunkPdus(cfg.job, k) + [JobEof(cfg.job)];
    ChunkThenEof(cfg, w, k);
    ReceivedConcat(w, first, FromChunk(cfg.job, k + 1), cfg.dest, cfg.src.crc32);
    w1 := ReceivedAll(w, first, cfg.dest, cfg.src.crc32);
  }

  /** From any chunk on, the transfer is completed. */
  lemma {:induction false} FromChunkDelivers(cfg: Setting, w: World, k: nat)
    requires cfg.Valid() && Has(cfg, w, k) && k < cfg.src.layout.Chunks()
    ensures w.r.Ok()
    ensures var w' := ReceivedAll(w, FromChunk(cfg.job, k), cfg.dest, cfg.src.crc32);
            Over(cfg, w') && Safe(cfg.src, w')
    decreases cfg.job.layout.Chunks() - k
  {
    hide Safe, ReceivedAll, FromChunk, Ended;
    var w1 := FirstChunkOf(cfg, w, k);
    if w1.r.active {
      FromChunkDelivers(cfg, w1, k + 1);
    } else {
      FromChunkKinds(cfg, k + 1);
      OverStays(cfg, w1, FromChunk(cfg.job, k + 1));
    }
  }

  /** A receiver that has nothing of the file is sent Metadata and every chunk: the transfer comes to its end.
      The file name is one the receiver accepts, and the id has not been completed before. */
  lemma FreshTransferDelivers(cfg: Setting, w: World)
    requires cfg.Valid() && Safe(cfg.src, w) && !w.r.active && w.r.lastAcked == 0
    requires SafeName(cfg.job.filename)
    ensures w.r.Ok()
    ensures var raws := [MetadataPduBytes(cfg.job)] + FromChunk(cfg.job, 0);
            var w' := ReceivedAll(w, raws, cfg.dest, cfg.src.crc32);
            Over(cfg, w') && Safe(cfg.src, w')
  {
    MetadataStarts(cfg, w);
    PieceBounds(|cfg.src.layout.bytes|, cfg.src.layout.chunkSize, 0);
    ReceivedConcat(w, [MetadataPduBytes(cfg.job)], FromChunk(cfg.job, 0), cfg.dest, cfg.src.crc32);
    OneReceived(w, MetadataPduBytes(cfg.job), cfg.dest, cfg.src.crc32);
    FromChunkDelivers(cfg, Received(w, MetadataPduBytes(cfg.job), cfg.dest, cfg.src.crc32), 0);
  }

  lemma MetadataStarts(cfg: Setting, w: World)
    requires cfg.Valid() && Safe(cfg.src, w) && !w.r.active && w.r.lastAcked == 0
    requires SafeName(cfg.job.filename)
    ensures w.r.Ok() && Has(cfg, Received(w, MetadataPduBytes(cfg.job), cfg.dest, cfg.src.crc32), 0)
  {
    ParseMetadata(JobMetadata(cfg.job));
    MetadataSafe(cfg.src, w, JobMetadata(cfg.job), cfg.dest);
    PieceBounds(|cfg.src.layout.bytes|, cfg.src.layout.chunkSize, 0);
  }

  // ----- resuming

  /** What the sender sends after the resume reply `first` when every chunk is acknowledged at once. */
  function Resumed(job: Job, first: u32): seq<seq<byte>>
    requires job.Valid()
  {
    if first == ACK_FINAL then [JobEof(job)] else FromChunk(job, first)
  }

  lemma QueryAnswered(cfg: Setting, w: World)
    requires cfg.Valid() && Safe(cfg.src, w)
    ensures w.r.Ok()
    ensures var asked := Received(w, JobQuery(cfg.job), cfg.dest, cfg.src.crc32);
            && Safe(cfg.src, asked) && asked.r == w.r
            && asked.t.env == Apply(w.t.env, Send(InfoReply(cfg.src.tid, ResumeChunk(w.r, cfg.src.tid))))
  {
    ParseQuery(cfg.job.tid);
    HandledSafe(cfg.src, w, QueryPdu(cfg.src.tid), cfg.dest);
  }

  /** The chunk named in the reply is the first that is missing; if none is, every chunk is done. */
  lemma ResumeIsFirstMissing(cfg: Setting, w: World)
    requires cfg.Valid() && Safe(cfg.src, w) && w.r.active
    ensures w.r.Ok()
    ensures var first := ResumeChunk(w.r, cfg.src.tid);
            if first == FINAL then Has(cfg, w, cfg.src.layout.Chunks())
            else first < cfg.src.layout.Chunks() && Has(cfg, w, first) && !w.r.st.done[first]
  {
    var missing := w.r.st.Missing();
    RunsCanonical(missing);
    FirstIsLeast(Runs(missing), missing);
    NothingMissing(w.r.st);
    var first := ResumeChunk(w.r, cfg.src.tid);
    if first != FINAL {
      forall i | 0 <= i < first
        ensures w.r.st.done[i]
      {
        assert !missing[i];
      }
    }
  }

  /** A receiver in the middle of a transfer, whatever chunks are done and whatever chunk is half received,
      answers the resume query with the first missing chunk, and what the sender sends from there on brings
      the transfer to its end. */
  lemma ResumedTransferDelivers(cfg: Setting, w: World)
    requires cfg.Valid() && Safe(cfg.src, w) && w.r.active
    ensures w.r.Ok()
    ensures var first := ResumeChunk(w.r, cfg.src.tid);
            var asked := Received(w, JobQuery(cfg.job), cfg.dest, cfg.src.crc32);
            var w' := ReceivedAll(asked, Resumed(cfg.job, first), cfg.dest, cfg.src.crc32);
            && asked.t.env.log == w.t.env.log + [Send(InfoReply(cfg.src.tid, first))]
            && Over(cfg, w') && Safe(cfg.src, w')
            && w'.t.env.file == Some(cfg.src.Result()) == w'.t.env.durable
            && (Delivered(cfg, w') <==> cfg.src.Passes())
  {
    hide Safe, FromChunk, ResumeChunk;
    QueryAnswered(cfg, w);
    var asked := Received(w, JobQuery(cfg.job), cfg.dest, cfg.src.crc32);
    ResumeIsFirstMissing(cfg, asked);
    var first := ResumeChunk(w.r, cfg.src.tid);
    if first == FINAL {
      EofArrives(cfg, asked, cfg.src.layout.Chunks());
      OneReceived(asked, JobEof(cfg.job), cfg.dest, cfg.src.crc32);
    } else {
      FromChunkDelivers(cfg, asked, first);
    }
    OverMeansFile(cfg, ReceivedAll(asked, Resumed(cfg.job, first), cfg.dest, cfg.src.crc32));
  }

  /** From a cold start, whatever the destination held: after Metadata and all chunks the file is in place,
      cached and durable, and the final ACK has been sent if and only if the checksum passes. */
  lemma ColdStartDelivers(cfg: Setting, file: Option<seq<byte>>, tmp: Image, leftover: JournalState)
    requires cfg.Valid() && SafeName(cfg.job.filename) && |leftover.filename| == NAME_BYTES
    requires cfg.src.before == (match file case None => [] case Some(f) => f)
    ensures var w := Here(Started(leftover), Env(file, file, Absent, tmp, []));
            && w.r.Ok()
            && var booted := Booted(w, cfg.src.crc32);
               var raws := [MetadataPduBytes(cfg.job)] + FromChunk(cfg.job, 0);
               var w' := ReceivedAll(booted, raws, cfg.dest, cfg.src.crc32);
               && Over(cfg, w')
               && w'.t.env.file == Some(cfg.src.Result()) == w'.t.env.durable
               && (Delivered(cfg, w') <==> cfg.src.Passes())
  {
    var w := Here(Started(leftover), Env(file, file, Absent, tmp, []));
    BootedSafe(cfg.src, w);
    var booted := Booted(w, cfg.src.crc32);
    FreshTransferDelivers(cfg, booted);
    var raws := [MetadataPduBytes(cfg.job)] + FromChunk(cfg.job, 0);
    OverMeansFile(cfg, ReceivedAll(booted, raws, cfg.dest, cfg.src.crc32));
  }

  // ----- the sender's side of the same run

  /** The ACK of each chunk from `k` on, as soon as the sender waits for it. */
  function AckScript(job: Job, k: nat): seq<Input>
    requires job.Valid()
    decreases job.layout.Chunks() - k
  {
    if k >= job.layout.Chunks() then []
    else [Batch([ReplyBytes(AckReply(job.tid, k))])] + AckScript(job, k + 1)
  }

  /** Given those ACKs, the sender sends exactly the chunks from `k` on, each followed by EOF. */
  lemma {:induction false} AcknowledgedRun(job: Job, k: nat)
    requires job.Valid()
    ensures Begin(job, k).1 + Outputs(job, Begin(job, k).0, AckScript(job, k)) == FromChunk(job, k)
    decreases job.layout.Chunks() - k
  {
    if k < job.layout.Chunks() {
      AcknowledgedRun(job, k + 1);
      var script := AckScript(job, k);
      AckStep(job, k);
      assert script[1..] == AckScript(job, k + 1);
    }
  }

  lemma AckStep(job: Job, k: u32)
    requires job.Valid() && k < job.layout.Chunks()
    ensures Step(job, Sending(k), Batch([ReplyBytes(AckReply(job.tid, k))])) == Begin(job, k + 1)
  {
    var p := ReplyBytes(AckReply(job.tid, k));
    ReplyKinds(AckReply(job.tid, k), k);
    ReplyKinds(AckReply(job.tid, k), ACK_FINAL);
    assert IsAck([p][0], k);
  }

  /** Given the resume reply and then those ACKs, the sender sends exactly that. */
  lemma ResumedRun(job: Job, attempt: nat, first: u32)
    requires job.Valid() && job.layout.Chunks() < ACK_FINAL
    ensures var (next, out) := Step(job, Asking(attempt), Batch([ReplyBytes(InfoReply(job.tid, first))]));
            out + Outputs(job, next, if first == ACK_FINAL then [] else AckScript(job, first)) == Resumed(job, first)
  {
    var p := ReplyBytes(InfoReply(job.tid, first));
    InfoFields(job, InfoReply(job.tid, first));
    assert [p][0] == p;
    if first != ACK_FINAL {
      AcknowledgedRun(job, first);
    }
  }
}
