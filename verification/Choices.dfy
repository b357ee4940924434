/** What the sender makes of everything that can arrive in one batch, and of waiting in vain. */
module Choices {
  import opened Bytes
  import opened Geometry
  import opened Wire
  import opened Slots
  import opened JournalCodec
  import opened Storage
  import opened Journals
  import opened Crc
  import opened ReceiverModel
  import opened Resting
  import opened Safety
  import opened SenderModel
  import opened System
  import opened Progress
  import opened Delivery
  import opened Handlers
  import opened Limits

  // ----- batches of replies

  function Pack(rs: seq<Reply>): (pdus: seq<seq<byte>>)
    ensures |pdus| == |rs| && forall i | 0 <= i < |rs| :: pdus[i] == ReplyBytes(rs[i])
  {
    seq(|rs|, i requires 0 <= i < |rs| => ReplyBytes(rs[i]))
  }

  ghost predicate Acks(rs: seq<Reply>, c: u32)
  {
    exists i | 0 <= i < |rs| :: rs[i].AckReply? && rs[i].chunk == c
  }

  /** The NAK with the greatest index. */
  ghost predicate NewestNak(rs: seq<Reply>, i: nat)
  {
    i < |rs| && rs[i].NakReply? && forall j | i < j < |rs| :: !rs[j].NakReply?
  }

  lemma AcksArrive(rs: seq<Reply>, c: u32)
    ensures HasAck(Pack(rs), c) <==> Acks(rs, c)
  {
    hide IsAck, ReplyBytes;
    forall i | 0 <= i < |rs|
      ensures IsAck(Pack(rs)[i], c) <==> rs[i].AckReply? && rs[i].chunk == c
    {
      ReplyKinds(rs[i], c);
    }
    if Acks(rs, c) {
      var i :| 0 <= i < |rs| && rs[i].AckReply? && rs[i].chunk == c;
      assert IsAck(Pack(rs)[i], c);
    }
    if HasAck(Pack(rs), c) {
      var i :| 0 <= i < |rs| && IsAck(Pack(rs)[i], c);
      assert rs[i].AckReply? && rs[i].chunk == c;
    }
  }

  lemma {:induction false} NewestArrives(rs: seq<Reply>, i: nat)
    requires NewestNak(rs, i)
    ensures LatestNak(Pack(rs)) == Some(ReplyBytes(rs[i]))
    decreases |rs|
  {
    hide IsNak, ReplyBytes;
    var n := |rs| - 1;
    ReplyKinds(rs[n], 0);
    if i < n {
      NewestArrives(rs[..n], i);
      assert Pack(rs)[..n] == Pack(rs[..n]);
    }
  }

  lemma NoNakArrives(rs: seq<Reply>)
    requires forall i | 0 <= i < |rs| :: !rs[i].NakReply?
    ensures LatestNak(Pack(rs)) == None
  {
    hide IsNak, ReplyBytes;
    var latest := LatestNak(Pack(rs));
    if latest.Some? {
      var k :| 0 <= k < |rs| && Pack(rs)[k] == latest.value;
      ReplyKinds(rs[k], 0);
    }
  }

  /** What a sender at chunk `c` does with a batch: a final ACK anywhere in it ends the transfer, whatever else
      has come; without one, the ACK of the chunk takes it on; without that, the newest NAK is answered. */
  lemma SendingChoice(job: Job, c: u32, rs: seq<Reply>)
    requires job.Valid() && c < job.layout.Chunks()
    ensures var (next, out) := Step(job, Sending(c), Batch(Pack(rs)));
            && (next == Finished <==> Acks(rs, 0xFFFF_FFFF))
            && (Acks(rs, 0xFFFF_FFFF) ==> out == [])
            && (!Acks(rs, 0xFFFF_FFFF) && Acks(rs, c) ==>
                  if c + 1 < job.layout.Chunks()
                  then next == Sending(c + 1) && out == ChunkPdus(job, c + 1) + [JobEof(job)]
                  else next == Closing && out == [])
            && (!Acks(rs, 0xFFFF_FFFF) && !Acks(rs, c) ==>
                  && ((forall i | 0 <= i < |rs| :: !rs[i].NakReply?) ==> next == Sending(c) && out == [])
                  && (forall i: nat | NewestNak(rs, i) ::
                        var (answer, survives) := NakAnswer(job, ReplyBytes(rs[i]));
                        if survives then next == Sending(c) && out == answer + [JobEof(job)]
                        else next == Failed && out == answer))
  {
    hide IsAck, HasAck, LatestNak, ReplyBytes, NakAnswer, Acks, JobEof, ChunkPdus;
    AcksArrive(rs, ACK_FINAL);
    AcksArrive(rs, c);
    if forall i :: 0 <= i < |rs| ==> !rs[i].NakReply? {
      NoNakArrives(rs);
    }
    forall i: nat | NewestNak(rs, i)
      ensures LatestNak(Pack(rs)) == Some(ReplyBytes(rs[i]))
    {
      NewestArrives(rs, i);
    }
  }

  /** Any PDUs at all, when none acknowledges: the newest that begins like a NAK decides, and one that is too short
      stops the sender. */
  lemma NakDecides(job: Job, c: u32, pdus: seq<seq<byte>>, i: nat)
    requires job.Valid() && i < |pdus| && !HasAck(pdus, c) && !HasAck(pdus, 0xFFFF_FFFF)
    requires pdus[i] != [] && pdus[i][0] == 0x04
    requires forall k | i < k < |pdus| :: pdus[k] == [] || pdus[k][0] != 0x04
    ensures var (answer, survives) := NakAnswer(job, pdus[i]);
            Step(job, Sending(c), Batch(pdus))
            == if survives then (Sending(c), answer + [JobEof(job)]) else (Failed, answer)
    ensures |pdus[i]| < 9 ==> Step(job, Sending(c), Batch(pdus)) == (Failed, [])
  {
    NewestIs(pdus, i);
  }

  lemma {:induction false} NewestIs(pdus: seq<seq<byte>>, i: nat)
    requires i < |pdus| && pdus[i] != [] && pdus[i][0] == 0x04
    requires forall k | i < k < |pdus| :: pdus[k] == [] || pdus[k][0] != 0x04
    ensures LatestNak(pdus) == Some(pdus[i])
    decreases |pdus|
  {
    if i < |pdus| - 1 {
      NewestIs(pdus[..|pdus| - 1], i);
    }
  }

  /** The id in an acknowledgement is not looked at, nor is what follows it; one cut short is none. */
  lemma AckTaken(tid: u32, c: u32, d: u32, tail: seq<byte>, n: nat)
    ensures IsAck(ReplyBytes(AckReply(tid, c)) + tail, d) <==> c == d
    ensures n < 9 ==> !IsAck(ReplyBytes(AckReply(tid, c))[..n], d)
  {
    var raw := ReplyBytes(AckReply(tid, c));
    ShortReplyFields(AckReply(tid, c));
    assert (raw + tail)[5..9] == raw[5..9];
  }

  /** In resume information the id is looked at. */
  lemma InfoTaken(job: Job, tid: u32, first: u32, tail: seq<byte>, n: nat)
    ensures IsInfo(job, ReplyBytes(InfoReply(tid, first)) + tail) <==> tid == job.tid
    ensures n < 9 ==> !IsInfo(job, ReplyBytes(InfoReply(tid, first))[..n])
  {
    var raw := ReplyBytes(InfoReply(tid, first));
    ShortReplyFields(InfoReply(tid, first));
    assert (raw + tail)[1..5] == raw[1..5];
  }

  /** While it waits for the final ACK it takes notice of nothing else. */
  lemma ClosingChoice(job: Job, rs: seq<Reply>)
    requires job.Valid()
    ensures Step(job, Closing, Batch(Pack(rs))) == if Acks(rs, 0xFFFF_FFFF) then (Finished, []) else (Closing, [])
  {
    hide IsAck, HasAck, ReplyBytes, Acks;
    AcksArrive(rs, ACK_FINAL);
  }

  /** While it asks, only the first reply counts: a resume reply with its own id, or else the attempt is spent. */
  lemma AskingChoice(job: Job, attempt: nat, rs: seq<Reply>)
    requires job.Valid() && rs != []
    ensures Step(job, Asking(attempt), Batch(Pack(rs)))
         == if !(rs[0].InfoReply? && rs[0].tid == job.tid) then Step(job, Asking(attempt), Timeout)
            else if rs[0].first == 0xFFFF_FFFF then (Closing, [JobEof(job)])
            else if rs[0].first < job.layout.Chunks()
            then (Sending(rs[0].first), ChunkPdus(job, rs[0].first) + [JobEof(job)])
            else (Closing, [])
  {
    hide ReplyBytes, IsInfo, JobEof, ChunkPdus, AskAgain;
    InfoFields(job, rs[0]);
    InfoIsLong(rs[0]);
  }

  lemma InfoIsLong(r: Reply)
    ensures r.InfoReply? ==> |ReplyBytes(r)| == 9
  {
  }

  // ----- the opening

  /** The sender opens with Metadata and one query. An idle receiver begins the transfer on the first and answers
      the second with chunk 0; one that has the transfer active is not disturbed by the first. */
  lemma OpeningBegins(cfg: Setting, w: World)
    requires cfg.Valid() && Safe(cfg.src, w) && SafeName(cfg.job.filename)
    requires w.r.active || w.r.lastAcked == 0
    ensures |Opening(cfg.job)| == 2 && w.r.Ok()
    ensures var begun := Received(w, Opening(cfg.job)[0], cfg.dest, cfg.src.crc32);
            && begun.r.active && begun.r.st.tid == cfg.src.tid
            && (w.r.active ==> begun == w)
            && (!w.r.active ==>
                  && NoReply(w.t.env.log, begun.t.env.log)
                  && Received(begun, Opening(cfg.job)[1], cfg.dest, cfg.src.crc32)
                  == World(begun.r, Emit(begun.t, Send(InfoReply(cfg.src.tid, 0)))))
  {
    ParseMetadata(JobMetadata(cfg.job));
    PieceBounds(|cfg.src.layout.bytes|, cfg.src.layout.chunkSize, 0);
    if !w.r.active {
      BeginsAt(cfg, w);
    }
  }

  lemma BeginsAt(cfg: Setting, w: World)
    requires cfg.Valid() && w.r.Ok() && !w.r.active && w.r.lastAcked == 0 && Acceptable(JobMetadata(cfg.job))
    ensures var begun := TransferStarted(w, JobMetadata(cfg.job), cfg.dest);
            && NoReply(w.t.env.log, begun.t.env.log)
            && Received(begun, JobQuery(cfg.job), cfg.dest, cfg.src.crc32)
            == World(begun.r, Emit(begun.t, Send(InfoReply(cfg.src.tid, 0))))
  {
    hide SafeName, CopiedName;
    var begun := TransferStarted(w, JobMetadata(cfg.job), cfg.dest);
    QueryAnswer(begun, cfg.src.tid, cfg.dest, cfg.src.crc32);
    assert LeastMissing(begun.r.st, 0);
  }

  // ----- waiting in vain

  function Timeouts(n: nat): seq<Input> { if n == 0 then [] else [Timeout] + Timeouts(n - 1) }

  function PhaseAfter(job: Job, phase: Phase, script: seq<Input>): Phase
    requires job.Valid()
    decreases |script|
  {
    if script == [] then phase else PhaseAfter(job, Step(job, phase, script[0]).0, script[1..])
  }

  function Times(n: nat, pdus: seq<seq<byte>>): seq<seq<byte>>
  {
    if n == 0 then [] else pdus + Times(n - 1, pdus)
  }

  /** The first chunk and its EOF. */
  function FirstOffer(job: Job): seq<seq<byte>>
    requires job.Valid()
  {
    PieceBounds(|job.layout.bytes|, job.layout.chunkSize, 0);
    ChunkPdus(job, 0) + [JobEof(job)]
  }

  /** Three queries go unanswered, one of them sent at the start: the sender begins with chunk 0. */
  lemma UnansweredQueries(job: Job)
    requires job.Valid()
    ensures Outputs(job, Asking(0), Timeouts(3)) == [JobQuery(job), JobQuery(job)] + FirstOffer(job)
    ensures PhaseAfter(job, Asking(0), Timeouts(3)) == Sending(0)
  {
    hide JobQuery, JobEof, ChunkPdus;
    PieceBounds(|job.layout.bytes|, job.layout.chunkSize, 0);
    hide CeilDiv;
    assert Timeouts(3)[1..] == Timeouts(2) && Timeouts(2)[1..] == Timeouts(1) && Timeouts(1)[1..] == Timeouts(0);
    var begun := FirstOffer(job);
    assert Outputs(job, Sending(0), Timeouts(0)) == [];
    assert Outputs(job, Asking(2), Timeouts(1)) == begun + [];
    assert Outputs(job, Asking(1), Timeouts(2)) == [JobQuery(job)] + begun;
  }

  /** However long the sender waits for a chunk's ACK, it repeats Metadata and EOF and stays where it is. */
  lemma {:induction false} WaitingForChunk(job: Job, c: u32, n: nat)
    requires job.Valid()
    ensures Outputs(job, Sending(c), Timeouts(n)) == Times(n, [MetadataPduBytes(job), JobEof(job)])
    ensures PhaseAfter(job, Sending(c), Timeouts(n)) == Sending(c)
  {
    hide MetadataPduBytes, JobEof;
    if n > 0 {
      assert Timeouts(n)[1..] == Timeouts(n - 1);
      WaitingForChunk(job, c, n - 1);
    }
  }

  /** For the final ACK, it repeats EOF alone. */
  lemma {:induction false} WaitingForEnd(job: Job, n: nat)
    requires job.Valid()
    ensures Outputs(job, Closing, Timeouts(n)) == Times(n, [JobEof(job)])
    ensures PhaseAfter(job, Closing, Timeouts(n)) == Closing
  {
    hide JobEof;
    if n > 0 {
      assert Timeouts(n)[1..] == Timeouts(n - 1);
      WaitingForEnd(job, n - 1);
    }
  }

  // ----- the replies of a flush, and what the sender does with them

  /** The last outstanding packet of a chunk brings its ACK, and behind it the final ACK if EOF has been recorded,
      the chunk was the last of the file and the checksum passes; and nothing else. */
  lemma LastFlushReplies(cfg: Setting, w: World, c: u32, p: u32)
    requires cfg.Valid() && LastOne(cfg, w, c, p)
    ensures w.r.Ok()
    ensures Adds(w.t.env.log, Received(w, PacketBytes(cfg.job, c, p), cfg.dest, cfg.src.crc32).t.env.log,
                 FlushReplies(cfg, w, c))
  {
    hide Received, PacketBytes, Adds, DataHandled, Belongs, Completes, Safe, CheckAnswers, FlushReplies, Matches;
    LastOneBelongs(cfg, w, c, p);
    LastOneEnds(cfg, w, c, p);
    var d := JobData(cfg.job, c, p);
    var naks, checks := DataAnswer(w, d, cfg.src.crc32);
    var w' := DataHandled(w, d, cfg.src.crc32);
    LastChecks(cfg, w, w', c, checks);
    assert naks + ([AckReply(cfg.src.tid, c)] + checks) == FlushReplies(cfg, w, c);
  }

  function FlushReplies(cfg: Setting, w: World, c: u32): seq<Reply>
    requires cfg.src.layout.chunkSize > 0
  {
    [AckReply(cfg.src.tid, c)]
    + if w.r.st.eof && c + 1 == cfg.src.layout.Chunks() && cfg.src.Passes() then [AckReply(cfg.src.tid, 0xFFFF_FFFF)]
      else []
  }

  lemma LastOneBelongs(cfg: Setting, w: World, c: u32, p: u32)
    requires cfg.Valid() && LastOne(cfg, w, c, p)
    ensures w.r.Ok() && p < cfg.src.layout.Packets(c) && Rests(w) && w.r.active && Matches(w.r.st, cfg.src)
    ensures w.r.st.tid == cfg.src.tid
    ensures var d := JobData(cfg.job, c, p);
            && d.chunk < |w.r.st.done| && Belongs(w.r, d) && Completes(w.r, d) && d.chunk == c
            && Received(w, PacketBytes(cfg.job, c, p), cfg.dest, cfg.src.crc32) == DataHandled(w, d, cfg.src.crc32)
            && Safe(cfg.src, DataHandled(w, d, cfg.src.crc32))
  {
    hide TrailOk, Below, Completes, Received, PacketBytes, DataHandled, Lacking;
    var d := JobData(cfg.job, c, p);
    SlotsLacking(cfg, w, c);
    CountIsPackets(cfg.src, w.r.st, c);
    ExpectedCount(w.r.st, c);
    LastOneHandled(cfg, w, c, p);
    LastOneCompletes(w.r, d, SlotsOf(cfg, w, c));
  }

  lemma LastOneHandled(cfg: Setting, w: World, c: u32, p: u32)
    requires cfg.Valid() && InTurn(cfg, w, c) && p < cfg.src.layout.Packets(c) && w.r.Ok()
    ensures var d := JobData(cfg.job, c, p);
            && Received(w, PacketBytes(cfg.job, c, p), cfg.dest, cfg.src.crc32) == DataHandled(w, d, cfg.src.crc32)
            && Safe(cfg.src, DataHandled(w, d, cfg.src.crc32))
  {
    hide TrailOk, RecvOk, Below, DataBytes, Parse, DataHandled;
    var d := JobData(cfg.job, c, p);
    ParseData(d, cfg.job.layout.packetSize - |d.data|);
    TurnInOrder(cfg, w, d);
    DataSafe(cfg.src, w, d);
  }

  lemma TurnInOrder(cfg: Setting, w: World, d: Data)
    requires cfg.Valid() && InTurn(cfg, w, d.chunk)
    ensures DataInOrder(cfg.src, w.t.env, d)
  {
    assert LoadedFrom(w.t.env) == Some(w.r.st);
  }

  lemma LastOneEnds(cfg: Setting, w: World, c: u32, p: u32)
    requires cfg.Valid() && LastOne(cfg, w, c, p) && w.r.Ok() && p < cfg.src.layout.Packets(c)
    ensures var w' := Received(w, PacketBytes(cfg.job, c, p), cfg.dest, cfg.src.crc32);
            w'.r.active || Ended(w'.t.env)
  {
    hide Received, PacketBytes, Safe, Below;
    OnePacket(cfg, w, c, p);
  }

  lemma LastOneCompletes(r: Recv, d: Data, slots: seq<Slot>)
    requires slots == SlotsFor(r, d.chunk, d.total) && |slots| == d.total && d.packet < |slots|
    requires !slots[d.packet].Good() && Lacking(slots) == 1 && Crc8(d.data) == d.crc
    ensures Completes(r, d)
  {
    hide Crc8, Lacking, Completes;
    LackingOne(slots, d.packet, d.data);
    CompletesIff(r, d, Inserted(slots, d.packet, d.data, true));
  }

  lemma LastChecks(cfg: Setting, w: World, w': World, c: u32, checks: seq<Reply>)
    requires cfg.Valid() && InTurn(cfg, w, c) && !Ended(w.t.env) && Matches(w.r.st, cfg.src) && Safe(cfg.src, w')
    requires w'.r.st == w.r.st.(done := w.r.st.done[c := true]) && w'.r.maxSeen == Latest(w.r.maxSeen, c)
    requires Consistent(w'.r.st) && (w'.r.active <==> !(w'.r.st.eof && w'.r.st.AllDone()))
    requires if w.r.st.eof then CheckAnswers(w'.r, w'.t.env.file, checks, cfg.src.crc32) else checks == []
    requires w'.r.active || Ended(w'.t.env)
    ensures [AckReply(cfg.src.tid, c)] + checks == FlushReplies(cfg, w, c)
  {
    hide TrailOk, Rests;
    InTurnIsLatest(cfg, w, c);
    if c + 1 < cfg.src.layout.Chunks() {
      assert LeastMissing(w'.r.st, c + 1);
    } else {
      assert w'.r.st.AllDone();
      if w.r.st.eof {
        DiskNow(cfg.src, w'.t);
      }
    }
  }

  /** So the two ACKs of the last flush, arriving together, finish the sender, and in either order. */
  lemma LastFlushFinishes(cfg: Setting, w: World, c: u32, p: u32)
    requires cfg.Valid() && LastOne(cfg, w, c, p) && w.r.st.eof
    requires c + 1 == cfg.src.layout.Chunks() && cfg.src.Passes()
    ensures w.r.Ok()
    ensures var replies := [AckReply(cfg.src.tid, c), AckReply(cfg.src.tid, 0xFFFF_FFFF)];
            && Adds(w.t.env.log, Received(w, PacketBytes(cfg.job, c, p), cfg.dest, cfg.src.crc32).t.env.log, replies)
            && Step(cfg.job, Sending(c), Batch(Pack(replies))) == (Finished, [])
            && Step(cfg.job, Sending(c), Batch(Pack([replies[1], replies[0]]))) == (Finished, [])
  {
    hide Received, PacketBytes, Adds, Step;
    var replies := [AckReply(cfg.src.tid, c), AckReply(cfg.src.tid, 0xFFFF_FFFF)];
    LastFlushReplies(cfg, w, c, p);
    assert FlushReplies(cfg, w, c) == replies;
    assert replies[1].AckReply? && [replies[1], replies[0]][0].AckReply?;
    SendingChoice(cfg.job, c, replies);
    SendingChoice(cfg.job, c, [replies[1], replies[0]]);
  }
}
