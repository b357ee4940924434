/** Where the programs fall short of their documentation, and exactly when. */
module Limits {
  import opened Bytes
  import opened Geometry
  import opened Ranges
  import opened Wire
  import opened Slots
  import opened JournalCodec
  import opened Storage
  import opened Journals
  import opened Crc
  import opened ReceiverModel
  import opened Resting
  import opened Safety
  import opened SenderModel
  import opened System
  import opened Progress

  // ----- recovery of lost ACKs and mid-chunk reboots

  /** The first missing chunk lies beyond everything the receiver has seen since it started. */
  ghost predicate OutOfSight(r: Recv)
    requires r.Ok() && r.active
  {
    !r.st.AllDone() && forall c: u32 | c < r.st.totalChunks && c <= r.maxSeen :: r.st.done[c]
  }

  /** EOF only sets the EOF mark exactly when no chunk is in progress and the first missing chunk is out of sight. */
  lemma EofIgnoredIff(w: World, crc32: seq<byte> -> u32)
    requires Rests(w) && w.r.active
    ensures EofHandled(w, w.r.st.tid, crc32) == MarkedEof(w) <==> w.r.current == NO_CHUNK && OutOfSight(w.r)
  {
    EofMarkedActive(w);
    var m := MarkedEof(w);
    NothingMissing(m.r.st);
    FirstSeenIsLeast(m.r.st, m.r.maxSeen);
    if w.r.current != NO_CHUNK {
      MarkedAsks(m, w.r.current, crc32);
    } else {
      SeenOrNot(m.r);
    }
  }

  /** EOF is met with silence exactly when no chunk is in progress and the first missing chunk is out of sight,
      or when all chunks are done and the file fails its checksum. */
  lemma EofUnansweredIff(w: World, crc32: seq<byte> -> u32)
    requires Rests(w) && w.r.active
    ensures NoReply(w.t.env.log, EofHandled(w, w.r.st.tid, crc32).t.env.log) <==>
              || (w.r.current == NO_CHUNK && OutOfSight(w.r))
              || (w.r.st.AllDone() && FileCrc(crc32, w.t.env.file) != w.r.st.checksum)
  {
    EofMarkedActive(w);
    var m := MarkedEof(w);
    MarkedSilently(w);
    SilentCheckIff(m, crc32);
    SilentAfter(w.t.env.log, m.t.env.log, CompletionChecked(m, crc32).t.env.log);
  }

  /** The completion check sends nothing in these cases only. */
  lemma SilentCheckIff(w: World, crc32: seq<byte> -> u32)
    requires Active(w) && w.r.st.eof
    ensures w.t.env.log <= CompletionChecked(w, crc32).t.env.log
    ensures NoReply(w.t.env.log, CompletionChecked(w, crc32).t.env.log) <==>
              || (w.r.current == NO_CHUNK && OutOfSight(w.r))
              || (w.r.st.AllDone() && FileCrc(crc32, w.t.env.file) != w.r.st.checksum)
  {
    CompletionLog(w, crc32);
    NothingMissing(w.r.st);
    SeenOrNot(w.r);
    var log, log' := w.t.env.log, CompletionChecked(w, crc32).t.env.log;
    if w.r.current != NO_CHUNK {
      MarkedAsks(w, w.r.current, crc32);
      assert log'[|log|].Send?;
    } else if FirstSeen(Runs(w.r.st.Missing()), w.r.maxSeen).Some? {
      FirstSeenIsLeast(w.r.st, w.r.maxSeen);
      assert log'[|log|].Send?;
    } else if w.r.st.AllDone() && FileCrc(crc32, w.t.env.file) == w.r.st.checksum {
      assert log'[|log|].Send?;
    }
  }

  lemma SeenOrNot(r: Recv)
    requires r.Ok() && r.active
    ensures OutOfSight(r) <==> !r.st.AllDone() && FirstSeen(Runs(r.st.Missing()), r.maxSeen) == None
  {
    NothingMissing(r.st);
    FirstSeenIsLeast(r.st, r.maxSeen);
    var all, missing := Runs(r.st.Missing()), r.st.Missing();
    RunsCanonical(missing);
    FirstIsLeast(all, missing);
    if all != [] {
      assert missing[all[0].first];
      if all[0].first > r.maxSeen {
        forall c: u32 | c < r.st.totalChunks && c <= r.maxSeen
          ensures r.st.done[c]
        {
          assert !missing[c];
        }
      }
    }
  }

  /** In that situation nothing the sender does on a timeout has any effect: it repeats Metadata and
      EOF, the receiver stays exactly as it is and replies nothing, and the sender goes on waiting. */
  lemma TimeoutChangesNothing(cfg: Setting, w: World, c: u32)
    requires cfg.Valid() && Safe(cfg.src, w) && w.r.active && w.r.st.eof
    requires w.r.current == NO_CHUNK && OutOfSight(w.r)
    ensures w.r.Ok()
    ensures var (phase, out) := Step(cfg.job, Sending(c), Timeout);
            phase == Sending(c) && ReceivedAll(w, out, cfg.dest, cfg.src.crc32) == w
  {
    RepeatedMetadata(cfg, w);
    RepeatedEof(cfg, w);
    ReceivedTwo(w, MetadataPduBytes(cfg.job), JobEof(cfg.job), cfg.dest, cfg.src.crc32);
  }

  lemma ReceivedTwo(w: World, a: seq<byte>, b: seq<byte>, dest: seq<byte>, crc32: seq<byte> -> u32)
    requires w.r.Ok() && |dest| == PATH_BYTES
    ensures ReceivedAll(w, [a, b], dest, crc32) == Received(Received(w, a, dest, crc32), b, dest, crc32)
  {
    hide Received;
    var w1 := Received(w, a, dest, crc32);
    assert [a, b][1..] == [b] && [b][1..] == [];
    assert ReceivedAll(w1, [b], dest, crc32) == ReceivedAll(Received(w1, b, dest, crc32), [], dest, crc32);
  }

  lemma RepeatedMetadata(cfg: Setting, w: World)
    requires cfg.Valid() && w.r.Ok() && w.r.active && w.r.st.tid == cfg.src.tid
    ensures Received(w, MetadataPduBytes(cfg.job), cfg.dest, cfg.src.crc32) == w
  {
    ParseMetadata(JobMetadata(cfg.job));
  }

  lemma RepeatedEof(cfg: Setting, w: World)
    requires cfg.Valid() && Rests(w) && w.r.active && w.r.st.tid == cfg.src.tid && w.r.st.eof
    requires w.r.current == NO_CHUNK && OutOfSight(w.r)
    ensures Received(w, JobEof(cfg.job), cfg.dest, cfg.src.crc32) == w
  {
    EofIgnoredIff(w, cfg.src.crc32);
    ParseEof(cfg.job.tid, cfg.job.checksum);
  }

  /** A reboot puts the first missing chunk out of sight unless that is chunk 0. */
  lemma RebootOutOfSightIff(w: World, leftover: JournalState, crc32: seq<byte> -> u32)
    requires |leftover.filename| == NAME_BYTES && w.r == Started(leftover)
    requires LoadedFrom(w.t.env).Some? && Consistent(LoadedFrom(w.t.env).value)
    requires !LoadedFrom(w.t.env).value.AllDone()
    ensures var r := Booted(w, crc32).r;
            r.active && r.Ok() && r.current == NO_CHUNK && (OutOfSight(r) <==> r.st.done[0])
  {
    var st := LoadedFrom(w.t.env).value;
    NothingMissing(st);
  }

  // ----- the lost ACK of a chunk

  /** The last outstanding packet of the chunk in turn arrives, its first and only one perhaps, and the transfer
      has not ended before. */
  ghost predicate LastOne(cfg: Setting, w: World, c: u32, p: u32)
    requires cfg.Valid()
  {
    && InTurn(cfg, w, c) && !Ended(w.t.env)
    && p < |SlotsOf(cfg, w, c)| && !SlotsOf(cfg, w, c)[p].Good() && Lacking(SlotsOf(cfg, w, c)) == 1
  }

  /** Before the end, no chunk behind the one in turn has been seen or is done. */
  lemma InTurnIsLatest(cfg: Setting, w: World, c: u32)
    requires cfg.Valid() && InTurn(cfg, w, c) && !Ended(w.t.env)
    ensures c < cfg.src.layout.Chunks() == |w.r.st.done| && w.r.maxSeen <= c
    ensures forall i | 0 <= i < |w.r.st.done| :: w.r.st.done[i] <==> i < c
  {
    DiskNow(cfg.src, w.t);
    var loaded := LoadedFrom(w.t.env);
    assert loaded == Some(w.r.st);
    assert DonePrefix(loaded) && Below(loaded, w.r.maxSeen) && Below(loaded, c);
    assert !DoneIn(loaded, c);
    forall i: u32 | i < |w.r.st.done|
      ensures w.r.st.done[i] <==> i < c
    {
      if w.r.st.done[i] {
        assert DoneIn(loaded, i) && Below(loaded, i);
      } else {
        assert !DoneIn(loaded, i);
      }
    }
  }

  /** Chunk `c` is stored and acknowledged, and it is the latest chunk the receiver has seen. */
  ghost predicate LatestStored(cfg: Setting, w: World, c: u32)
    requires cfg.Valid()
  {
    && Safe(cfg.src, w) && w.r.Ok() && c < cfg.src.layout.Chunks() && Ack(cfg.src, c) in w.t.env.log
    && (if w.r.active
        then w.r.current == NO_CHUNK && w.r.maxSeen == c && |w.r.st.done| == cfg.src.layout.Chunks()
             && forall i | 0 <= i < |w.r.st.done| :: w.r.st.done[i] <==> i <= c
        else c + 1 == cfg.src.layout.Chunks() && (cfg.src.Passes() ==> w.r.lastAcked == cfg.src.tid))
  }

  /** So it is after its last packet. */
  lemma LastOneStored(cfg: Setting, w: World, c: u32, p: u32)
    requires cfg.Valid() && LastOne(cfg, w, c, p)
    ensures w.r.Ok() && LatestStored(cfg, Received(w, PacketBytes(cfg.job, c, p), cfg.dest, cfg.src.crc32), c)
  {
    hide Received, PacketBytes, TrailOk, Rests;
    OnePacket(cfg, w, c, p);
    InTurnIsLatest(cfg, w, c);
    var w1 := Received(w, PacketBytes(cfg.job, c, p), cfg.dest, cfg.src.crc32);
    SafeOk(cfg, w1);
    assert w1.r.st.done == w.r.st.done[c := true];
    if !w1.r.active {
      assert w1.r.st.done[|w1.r.st.done| - 1];
      EndedAcked(cfg, w.r.st, w1);
    }
  }

  lemma SafeOk(cfg: Setting, w: World)
    requires cfg.Valid() && Safe(cfg.src, w)
    ensures w.r.Ok()
  {
  }

  /** A transfer that has ended and passes is remembered by its id. */
  lemma EndedAcked(cfg: Setting, st: JournalState, w: World)
    requires cfg.Valid() && Safe(cfg.src, w) && Closed(w, cfg.src.crc32) && Matches(st, cfg.src)
    requires w.r.st == st.(done := w.r.st.done)
    ensures cfg.src.Passes() ==> w.r.lastAcked == cfg.src.tid
  {
    DiskNow(cfg.src, w.t);
  }

  /** If chunk `c` is not the last one, neither EOF nor the timeouts of a sender that has not seen its ACK bring
      any reply: the sender waits in vain. */
  lemma LostAckNotRecovered(cfg: Setting, w: World, c: u32)
    requires cfg.Valid() && LatestStored(cfg, w, c) && c + 1 < cfg.src.layout.Chunks()
    ensures var (phase, out) := Step(cfg.job, Sending(c), Timeout);
            var w' := ReceivedAll(w, out, cfg.dest, cfg.src.crc32);
            && phase == Sending(c)
            && NoReply(w.t.env.log, w'.t.env.log)
            && w'.r.Ok() && ReceivedAll(w', out, cfg.dest, cfg.src.crc32) == w'
  {
    hide ReceivedAll, TrailOk, JobEof, MetadataPduBytes;
    assert !w.r.st.done[c + 1];
    assert OutOfSight(w.r);
    RepeatedMetadata(cfg, w);
    MarkedRests(w);
    EofMarks(cfg, w);
    ReceivedTwo(w, MetadataPduBytes(cfg.job), JobEof(cfg.job), cfg.dest, cfg.src.crc32);
    MarkedSilently(w);
    MarkedEofSafe(cfg.src, w);
    TimeoutChangesNothing(cfg, MarkedEof(w), c);
  }

  lemma EofMarks(cfg: Setting, w: World)
    requires cfg.Valid() && Rests(w) && w.r.active && w.r.st.tid == cfg.src.tid
    requires w.r.current == NO_CHUNK && OutOfSight(w.r)
    ensures Received(w, JobEof(cfg.job), cfg.dest, cfg.src.crc32) == MarkedEof(w)
  {
    EofIgnoredIff(w, cfg.src.crc32);
    ParseEof(cfg.job.tid, cfg.job.checksum);
  }

  lemma MarkedRests(w: World)
    requires Rests(w) && w.r.active && !w.r.st.AllDone()
    ensures Rests(MarkedEof(w))
  {
    EofMarkedActive(w);
  }

  ghost predicate SentSince(before: seq<Event>, after: seq<Event>, e: Event)
  {
    before <= after && exists k | |before| <= k < |after| :: after[k] == e
  }

  /** If it is the last one, the next timeout brings the final ACK. */
  lemma LostAckRecovered(cfg: Setting, w: World, c: u32)
    requires cfg.Valid() && LatestStored(cfg, w, c) && c + 1 == cfg.src.layout.Chunks() && cfg.src.Passes()
    ensures var w' := ReceivedAll(w, Step(cfg.job, Sending(c), Timeout).1, cfg.dest, cfg.src.crc32);
            SentSince(w.t.env.log, w'.t.env.log, Ack(cfg.src, FINAL))
  {
    hide ReceivedAll, TrailOk, JobEof, MetadataPduBytes;
    ReceivedTwo(w, MetadataPduBytes(cfg.job), JobEof(cfg.job), cfg.dest, cfg.src.crc32);
    if w.r.active {
      RepeatedMetadata(cfg, w);
      EofFinishes(cfg, w);
    } else {
      FinalAckAgain(cfg, w);
    }
  }

  lemma EofFinishes(cfg: Setting, w: World)
    requires cfg.Valid() && Safe(cfg.src, w) && w.r.active && w.r.st.AllDone() && cfg.src.Passes()
    ensures w.r.Ok()
    ensures var w' := Received(w, JobEof(cfg.job), cfg.dest, cfg.src.crc32);
            SentSince(w.t.env.log, w'.t.env.log, Ack(cfg.src, FINAL))
  {
    hide Parse, EofBytes, TrailOk;
    ParseEof(cfg.job.tid, cfg.job.checksum);
    MarkedEofSafe(cfg.src, w);
    MarkedSilently(w);
    var m := MarkedEof(w);
    NothingMissing(m.r.st);
    SeenOrNot(m.r);
    ConcludedSafe(cfg.src, m);
    var log := CompletionChecked(m, cfg.src.crc32).t.env.log;
    assert log[|m.t.env.log|] == Ack(cfg.src, FINAL);
  }

  lemma FinalAckAgain(cfg: Setting, w: World)
    requires cfg.Valid() && w.r.Ok() && !w.r.active && w.r.lastAcked == cfg.src.tid && w.r.st.tid == cfg.src.tid
    ensures var w1 := Received(w, MetadataPduBytes(cfg.job), cfg.dest, cfg.src.crc32);
            var w' := Received(w1, JobEof(cfg.job), cfg.dest, cfg.src.crc32);
            SentSince(w.t.env.log, w'.t.env.log, Ack(cfg.src, FINAL))
  {
    ParseMetadata(JobMetadata(cfg.job));
    ParseEof(cfg.job.tid, cfg.job.checksum);
    var log := Acked(w, FINAL).t.env.log;
    assert log[|w.t.env.log|] == Ack(cfg.src, FINAL);
  }

  /** The ACK of the latest chunk is lost: the sender's next timeout makes up for it if and only if that was the
      last chunk, and the checksum passes. The final ACK then ends the sender's wait. */
  lemma LostAckRecoveredIff(cfg: Setting, w: World, c: u32)
    requires cfg.Valid() && LatestStored(cfg, w, c)
    ensures var w' := ReceivedAll(w, Step(cfg.job, Sending(c), Timeout).1, cfg.dest, cfg.src.crc32);
            SentSince(w.t.env.log, w'.t.env.log, Ack(cfg.src, FINAL))
            <==> c + 1 == cfg.src.layout.Chunks() && cfg.src.Passes()
    ensures Step(cfg.job, Sending(c), Batch([ReplyBytes(AckReply(cfg.src.tid, FINAL))])) == (Finished, [])
  {
    hide Safe, ReceivedAll, ReplyBytes, IsAck, LatestStored, JobEof, MetadataPduBytes;
    StoredFacts(cfg, w, c);
    var w' := ReceivedAll(w, Step(cfg.job, Sending(c), Timeout).1, cfg.dest, cfg.src.crc32);
    var r := AckReply(cfg.src.tid, FINAL);
    ReplyKinds(r, ACK_FINAL);
    assert [ReplyBytes(r)][0] == ReplyBytes(r);
    if c + 1 < cfg.src.layout.Chunks() {
      LostAckNotRecovered(cfg, w, c);
    } else if cfg.src.Passes() {
      LostAckRecovered(cfg, w, c);
    } else {
      TimeoutSafe(cfg, w, c);
      NoFinalAck(cfg, w');
    }
  }

  lemma StoredFacts(cfg: Setting, w: World, c: u32)
    requires cfg.Valid() && LatestStored(cfg, w, c)
    ensures c < cfg.src.layout.Chunks() && w.r.Ok() && Safe(cfg.src, w)
  {
  }

  lemma TimeoutSafe(cfg: Setting, w: World, c: u32)
    requires cfg.Valid() && Safe(cfg.src, w) && w.r.Ok()
    ensures Safe(cfg.src, ReceivedAll(w, Step(cfg.job, Sending(c), Timeout).1, cfg.dest, cfg.src.crc32))
  {
    hide ReceivedAll, Received, TrailOk, RecvOk, Rests, JobEof, MetadataPduBytes;
    MetadataNetOk(cfg, w.t.env);
    SentPduSafe(cfg, w, MetadataPduBytes(cfg.job));
    var w1 := Received(w, MetadataPduBytes(cfg.job), cfg.dest, cfg.src.crc32);
    EofNetOk(cfg, w1.t.env);
    SentPduSafe(cfg, w1, JobEof(cfg.job));
    ReceivedTwo(w, MetadataPduBytes(cfg.job), JobEof(cfg.job), cfg.dest, cfg.src.crc32);
  }

  lemma NoFinalAck(cfg: Setting, w: World)
    requires cfg.Valid() && Safe(cfg.src, w) && !cfg.src.Passes()
    ensures Ack(cfg.src, FINAL) !in w.t.env.log
  {
    DiskNow(cfg.src, w.t);
  }

  /** After the transfer the receiver answers only Metadata with the final ACK, and a sender waiting for it
      sends only EOF; a resume query is answered with chunk 0, as if nothing had arrived. */
  lemma LostFinalAck(cfg: Setting, w: World)
    requires cfg.Valid() && w.r.Ok() && !w.r.active && w.r.lastAcked == cfg.src.tid
    ensures var (phase, out) := Step(cfg.job, Closing, Timeout);
            phase == Closing && ReceivedAll(w, out, cfg.dest, cfg.src.crc32) == w
    ensures Received(w, MetadataPduBytes(cfg.job), cfg.dest, cfg.src.crc32) == Acked(w, FINAL)
    ensures Received(w, JobQuery(cfg.job), cfg.dest, cfg.src.crc32) == Replied(w, InfoReply(cfg.src.tid, 0))
  {
    hide Parse, MetadataBytes, EofBytes, QueryBytes;
    ParseMetadata(JobMetadata(cfg.job));
    ParseEof(cfg.job.tid, cfg.job.checksum);
    ParseQuery(cfg.job.tid);
    var out := [JobEof(cfg.job)];
    assert out[1..] == [];
    assert Received(w, out[0], cfg.dest, cfg.src.crc32) == w;
  }

  // ----- damaged header numbers

  /** A damaged id, chunk number beyond all legal ones, or packet count is refused. */
  lemma MisaddressedRefused(cfg: Setting, w: World, c: u32, p: u32, d: Data)
    requires cfg.Valid() && Safe(cfg.src, w) && w.r.active
    requires c < cfg.src.layout.Chunks() && p < cfg.src.layout.Packets(c)
    requires Misaddressed(JobData(cfg.job, c, p), d) && d != JobData(cfg.job, c, p) && d.packet == p
    ensures w.r.Ok() && DataHandled(w, d, cfg.src.crc32) == w
  {
    CountIsPackets(cfg.src, w.r.st, c);
  }

  /** `raw'` is `raw` with any change in the four bytes of the packet number. */
  ghost predicate Renumbered(raw: seq<byte>, raw': seq<byte>)
  {
    |raw'| == |raw| >= 22 && raw'[..9] == raw[..9] && raw'[13..] == raw[13..]
  }

  lemma RenumberedParse(d: Data, padding: nat, raw: seq<byte>)
    requires |d.data| <= MAX_PACKET && Renumbered(DataBytes(d, padding), raw)
    ensures Parse(raw) == Some(DataPdu(d.(packet := U32At(raw, 9))))
  {
    hide FromLE;
    var orig := DataBytes(d, padding);
    ParseData(d, padding);
    SlicesKept(orig, raw);
    assert raw[0] == raw[..9][0] == orig[..9][0] == orig[0];
    assert raw[21] == raw[13..][8] == orig[13..][8] == orig[21];
    TailKept(orig, raw, 22, 22 + |d.data|);
    TailKept(orig, raw, 17, 21);
    TailKept(orig, raw, 13, 17);
  }

  lemma SlicesKept(a: seq<byte>, b: seq<byte>)
    requires Renumbered(a, b)
    ensures b[1..5] == a[1..5] && b[5..9] == a[5..9]
  {
    assert b[1..5] == b[..9][1..5] && a[1..5] == a[..9][1..5];
    assert b[5..9] == b[..9][5..9] && a[5..9] == a[..9][5..9];
  }

  lemma TailKept(a: seq<byte>, b: seq<byte>, lo: nat, hi: nat)
    requires Renumbered(a, b) && 13 <= lo <= hi <= |a|
    ensures b[lo..hi] == a[lo..hi]
  {
    SliceOfSlice(a, 13, |a|, lo - 13, hi - 13);
    SliceOfSlice(b, 13, |b|, lo - 13, hi - 13);
  }

  /** What becomes of the payload of packet `p` when it arrives as packet `q` of chunk `c`. */
  ghost predicate StoredAs(l: Layout, w: World, w': World, tid: u32, c: u32, p: u32, q: u32)
    requires l.Valid() && c < l.Chunks() && p < l.Packets(c) == |w.r.slots|
  {
    if q >= |w.r.slots| then w' == w
    else
      var slots := w.r.slots[q := Slot(true, true, l.Packet(c, p))];
      if Complete(slots) then
        && Send(AckReply(tid, c)) in w'.t.env.log
        && ChunkWrite(l.chunkSize, c, slots) in w'.t.env.log
        && (Assembled(slots) == l.Chunk(c) <==> l.Packet(c, q) == l.Packet(c, p))
      else
        && w' == w.(r := w.r.(slots := slots))
        && (RightSlots(l, c, slots) <==> l.Packet(c, q) == l.Packet(c, p))
  }

  /** The slots are written at the place of chunk `c`. */
  function ChunkWrite(chunkSize: u32, c: u32, slots: seq<Slot>): Event
  {
    WriteFile(c * chunkSize, Assembled(slots))
  }

  /** The packet list set up for a packet of chunk `c`, whatever was in progress before. */
  lemma OpenedForPacket(cfg: Setting, w: World, c: u32, p: u32)
    requires cfg.Valid() && Safe(cfg.src, w) && w.r.active
    requires c < cfg.src.layout.Chunks() && p < cfg.src.layout.Packets(c) && c < |w.r.st.done| && !w.r.st.done[c]
    ensures w.r.Ok()
    ensures var d := JobData(cfg.job, c, p);
            var o := Opened(Seen(w, c), d);
            && Accepts(w.r, d) && o.r.current == c && o.r.st == w.r.st && Active(o)
            && c < o.r.st.totalChunks && o.r.st.chunkSize == cfg.src.layout.chunkSize && o.r.st.tid == cfg.src.tid
            && |o.r.slots| == cfg.src.layout.Packets(c) && RightSlots(cfg.src.layout, c, o.r.slots)
  {
    CountIsPackets(cfg.src, w.r.st, c);
    OpenedInProgress(Seen(w, c), JobData(cfg.job, c, p));
  }

  /** A damaged packet number `q` is refused exactly when it is beyond the packets of the chunk; otherwise the
      payload of packet `p` is stored as packet `q`, be it the first of its chunk or not. The slots then hold
      what they should if and only if the two packets are equal; and if it was the last one outstanding, the
      chunk is written and acknowledged, rightly if and only if they are equal. */
  lemma PacketNumberUnprotected(cfg: Setting, w: World, c: u32, p: u32, raw: seq<byte>)
    requires cfg.Valid() && Safe(cfg.src, w) && w.r.active
    requires c < cfg.src.layout.Chunks() && p < cfg.src.layout.Packets(c) && c < |w.r.st.done| && !w.r.st.done[c]
    requires Renumbered(PacketBytes(cfg.job, c, p), raw)
    ensures w.r.Ok()
    ensures var opening := Opened(Seen(w, c), JobData(cfg.job, c, p));
            && |opening.r.slots| == cfg.src.layout.Packets(c)
            && StoredAs(cfg.src.layout, opening, Received(w, raw, cfg.dest, cfg.src.crc32), cfg.src.tid, c, p,
                        U32At(raw, 9))
  {
    hide Received, PacketBytes, RightSlots, Opened, Flushed, Safe, Seen;
    var d, q := JobData(cfg.job, c, p), U32At(raw, 9);
    OpenedForPacket(cfg, w, c, p);
    RenumberedHandled(cfg, w, c, p, raw);
    MisplacedInto(cfg.src.layout, Opened(Seen(w, c), d), c, p, d.(packet := q), cfg.src.crc32);
  }

  /** The damaged packet goes through the same steps. */
  lemma RenumberedHandled(cfg: Setting, w: World, c: u32, p: u32, raw: seq<byte>)
    requires cfg.Valid() && Safe(cfg.src, w) && w.r.active
    requires c < cfg.src.layout.Chunks() && p < cfg.src.layout.Packets(c) && c < |w.r.st.done| && !w.r.st.done[c]
    requires Renumbered(PacketBytes(cfg.job, c, p), raw)
    ensures w.r.Ok() && Seen(w, c).r.Ok() && Sane(w.r.st) && c < w.r.st.totalChunks
    ensures var d := JobData(cfg.job, c, p);
            var stored := PacketStored(Opened(Seen(w, c), d), d.(packet := U32At(raw, 9)));
            Received(w, raw, cfg.dest, cfg.src.crc32)
            == if Complete(stored.r.slots) then Flushed(stored, c, cfg.src.crc32) else stored
  {
    hide Parse, DataBytes, TrailOk, Below, RightSlots, Opened, Flushed, InProgress;
    var d := JobData(cfg.job, c, p);
    OpenedForPacket(cfg, w, c, p);
    RenumberedParse(d, cfg.job.layout.packetSize - |d.data|, raw);
    OpenedAlike(Seen(w, c), d, U32At(raw, 9));
  }

  lemma MisplacedInto(l: Layout, o: World, c: u32, p: u32, d: Data, crc32: seq<byte> -> u32)
    requires l.Valid() && c < l.Chunks() && p < l.Packets(c) == |o.r.slots| && o.r.Ok()
    requires Active(o) && o.r.current == c == d.chunk < o.r.st.totalChunks && o.r.st.chunkSize == l.chunkSize
    requires RightSlots(l, c, o.r.slots) && d.data == l.Packet(c, p) && Crc8(d.data) == d.crc
    ensures var stored := PacketStored(o, d);
            StoredAs(l, o, if Complete(stored.r.slots) then Flushed(stored, c, crc32) else stored, o.r.st.tid, c, p,
                     d.packet)
  {
    hide RightSlots, Active, Crc8;
    var q := d.packet;
    if q < |o.r.slots| {
      var slots := o.r.slots[q := Slot(true, true, d.data)];
      if Complete(slots) {
        MisplacedStored(o, d, slots, crc32);
        AssembledIff(l, c, o.r.slots, q, d.data);
      } else {
        RightSlotsIff(l, c, o.r.slots, q, d.data);
      }
    } else {
      OpenIncomplete(o);
    }
  }

  lemma OpenIncomplete(o: World)
    requires Active(o) && o.r.current != NO_CHUNK
    ensures !Complete(o.r.slots)
  {
  }

  lemma OpenedAlike(w: World, d: Data, q: u32)
    requires w.r.Ok()
    ensures Opened(w, d.(packet := q)) == Opened(w, d)
  {
  }

  /** Nothing is stored for a chunk that is done. */
  lemma RenumberedRepeat(cfg: Setting, w: World, c: u32, p: u32, raw: seq<byte>)
    requires cfg.Valid() && Safe(cfg.src, w) && w.r.active
    requires c < cfg.src.layout.Chunks() && p < cfg.src.layout.Packets(c) && c < |w.r.st.done| && w.r.st.done[c]
    requires Renumbered(PacketBytes(cfg.job, c, p), raw)
    ensures w.r.Ok()
    ensures Received(w, raw, cfg.dest, cfg.src.crc32)
         == if U32At(raw, 9) == 0 then Acked(Seen(w, c), c) else Seen(w, c)
  {
    hide Parse, DataBytes, TrailOk;
    var d := JobData(cfg.job, c, p);
    CountIsPackets(cfg.src, w.r.st, c);
    RenumberedParse(d, cfg.job.layout.packetSize - |d.data|, raw);
  }

  lemma RightSlotsIff(l: Layout, c: nat, slots: seq<Slot>, q: nat, data: seq<byte>)
    requires l.Valid() && c < l.Chunks() && q < |slots| == l.Packets(c) && RightSlots(l, c, slots)
    ensures RightSlots(l, c, slots[q := Slot(true, true, data)]) <==> l.Packet(c, q) == data
  {
    assert slots[q := Slot(true, true, data)][q].Good();
  }

  lemma AssembledIff(l: Layout, c: nat, slots: seq<Slot>, q: nat, data: seq<byte>)
    requires l.Valid() && c < l.Chunks() && q < |slots| == l.Packets(c) && RightSlots(l, c, slots)
    requires Complete(slots[q := Slot(true, true, data)])
    ensures Assembled(slots[q := Slot(true, true, data)]) == l.Chunk(c) <==> l.Packet(c, q) == data
  {
    var filled, right := slots[q := Slot(true, true, data)], l.Payloads(c);
    forall p | 0 <= p < |slots| && p != q
      ensures Payloads(filled)[p] == right[p]
    {
      assert filled[p].Good() && filled[p] == slots[p];
    }
    assert Payloads(filled) == right[q := data];
    ConcatPieces(l.Chunk(c), l.packetSize);
    ConcatDiffers(right, q, data);
  }

  /** Exchanging one part changes the whole. */
  lemma {:induction false} ConcatDiffers(parts: seq<seq<byte>>, q: nat, data: seq<byte>)
    requires q < |parts|
    ensures Concat(parts[q := data]) == Concat(parts) <==> data == parts[q]
    decreases |parts|
  {
    var n := |parts| - 1;
    var other := parts[q := data];
    if q == n {
      assert other[..n] == parts[..n];
      SameFront(Concat(parts[..n]), data, parts[n]);
    } else {
      ConcatDiffers(parts[..n], q, data);
      assert other[..n] == parts[..n][q := data] && other[n] == parts[n];
      SameBack(Concat(other[..n]), Concat(parts[..n]), parts[n]);
    }
  }

  lemma SameFront(a: seq<byte>, x: seq<byte>, y: seq<byte>)
    ensures a + x == a + y <==> x == y
  {
    if a + x == a + y {
      assert x == (a + x)[|a|..] && y == (a + y)[|a|..];
    }
  }

  lemma SameBack(x: seq<byte>, y: seq<byte>, b: seq<byte>)
    ensures x + b == y + b <==> x == y
  {
    if x + b == y + b {
      assert |x + b| == |y + b|;
      assert x == (x + b)[..|x|] && y == (y + b)[..|y|];
    }
  }

  /** A packet that completes the list of its chunk, whatever it holds, has the chunk written and acknowledged. */
  lemma MisplacedStored(o: World, d: Data, slots: seq<Slot>, crc32: seq<byte> -> u32)
    requires o.r.Ok() && Crc8(d.data) == d.crc && slots == Inserted(o.r.slots, d.packet, d.data, true)
    requires Complete(slots) && Active(o) && o.r.current == d.chunk < o.r.st.totalChunks
    ensures var log := Flushed(PacketStored(o, d), d.chunk, crc32).t.env.log;
            && Send(AckReply(o.r.st.tid, d.chunk)) in log
            && ChunkWrite(o.r.st.chunkSize, d.chunk, slots) in log
  {
    var stored := PacketStored(o, d);
    assert ReadyToFlush(stored, d.chunk);
    FlushAcks(stored, d.chunk, crc32);
    FlushWrites(stored, d.chunk, crc32);
  }

  lemma FlushWrites(w: World, c: u32, crc32: seq<byte> -> u32)
    requires ReadyToFlush(w, c)
    ensures ChunkWrite(w.r.st.chunkSize, c, w.r.slots) in Flushed(w, c, crc32).t.env.log
  {
    hide Assembled;
    FlushedShape(w, c, crc32);
    var ready := w.(t := Allocated(w.t, w.r.st.fileSize));
    var e := ChunkWrite(w.r.st.chunkSize, c, w.r.slots);
    var log := ChunkWritten(ready, c).env.log;
    assert log[|log| - 2] == e;
    LoggedStays(ready, c, e);
    var idle := Idled(Acked(ChunkStored(ready, c), c));
    if idle.r.st.eof {
      CompletionLog(idle, crc32);
    }
  }

  lemma LoggedStays(w: World, c: u32, e: Event)
    requires ReadyToFlush(w, c) && e in ChunkWritten(w, c).env.log
    ensures e in Idled(Acked(ChunkStored(w, c), c)).t.env.log
  {
    hide Assembled;
  }
}
