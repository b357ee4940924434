/** Sender and receiver joined by a link that loses, repeats, reorders and damages, with crashes
    and restarts on both sides at any point. */
module System {
  import opened ByteValues
  import opened Bytes
  import opened Geometry
  import opened Ranges
  import opened Wire
  import opened Slots
  import opened JournalCodec
  import opened Storage
  import opened Journals
  import opened Crc
  import opened ReceiverModel
  import opened Resting
  import opened Safety
  import opened SenderModel

  /** What does not change during a run. */
  datatype Setting = Setting(src: Source, job: Job, dest: seq<byte>)
  {
    /** The sender sends the source, stop-and-wait. */
    ghost predicate Valid()
    {
      && src.Valid() && src.ordered
      && job.Valid()
      && job.tid == src.tid && job.layout == src.layout && job.checksum == src.crc32(src.layout.bytes)
      && |dest| == PATH_BYTES
    }
  }

  /** `up` is the receiver process, if it runs; `phase` the sender process, if it runs; `net` is
      every PDU any sender process has ever put on the link. */
  datatype Sys = Sys(up: Option<Recv>, env: Env, phase: Option<Phase>, net: seq<seq<byte>>)

  /** The receiver with its surroundings at the start of a step. */
  function Here(r: Recv, env: Env): World { World(r, Trail(env, [env])) }

  // ----- the link

  /** The payload or the checksum byte was damaged, and the two no longer agree. */
  predicate Spoiled(d: Data, d': Data)
  {
    d' == d.(data := d'.data, crc := d'.crc) && Crc8(d'.data) != d'.crc
  }

  /** Header numbers were damaged: the id and the packet count in any way, the chunk number beyond
      every legal chunk, the packet number beyond the packets of the chunk. */
  predicate Misaddressed(d: Data, d': Data)
  {
    && d' == d.(tid := d'.tid, chunk := d'.chunk, packet := d'.packet, total := d'.total)
    && (d'.chunk == d.chunk || d'.chunk >= 0x10_0000)
    && (d'.packet == d.packet || d'.packet >= d.total)
  }

  /** `raw` is a data packet of the sender damaged in one of these ways. */
  predicate Damaged(orig: seq<byte>, raw: seq<byte>)
  {
    && Parse(orig).Some? && Parse(orig).value.DataPdu?
    && Parse(raw).Some? && Parse(raw).value.DataPdu?
    && (Spoiled(Parse(orig).value.d, Parse(raw).value.d) || Misaddressed(Parse(orig).value.d, Parse(raw).value.d))
  }

  /** Bytes that the receiver drops, or that carry no data. */
  predicate Harmless(raw: seq<byte>)
  {
    match Parse(raw)
    case None => true
    case Some(MetadataPdu(_)) => false
    case Some(DataPdu(_)) => false
    case Some(EofPdu(_, _)) => true
    case Some(QueryPdu(_)) => true
  }

  /** What may arrive at the receiver: anything ever sent, any number of times and in any order,
      damaged data packets, and bytes that are no metadata and no data. */
  ghost predicate Deliverable(net: seq<seq<byte>>, raw: seq<byte>)
  {
    || Harmless(raw)
    || exists orig | orig in net :: Parse(raw) == Parse(orig) || Damaged(orig, raw)
  }

  /** What may arrive at the sender: nothing, or replies the receiver has ever sent. */
  ghost predicate Arrives(env: Env, input: Input)
  {
    input.Batch? ==>
      && input.pdus != []
      && forall k | 0 <= k < |input.pdus| :: exists r :: Send(r) in env.log && input.pdus[k] == ReplyBytes(r)
  }

  // ----- steps

  datatype Action =
    | Deliver(raw: seq<byte>)
    | StopIn(raw: seq<byte>, k: nat, after: Env)
    | Stop(after: Env)
    | Boot(leftover: JournalState)
    | StopInBoot(leftover: JournalState, k: nat, after: Env)
    | SenderStart
    | SenderInput(input: Input)
    | SenderStop

  /** The surroundings when a handler has come to entry `k` of its trail, or is inside the next effect. */
  ghost predicate Reached(past: seq<Env>, k: nat, mid: Env)
    requires k < |past|
  {
    mid == past[k] || (k + 1 < |past| && PartlyWritten(past[k], past[k + 1], mid))
  }

  /** What the receiver may leave behind when it stops: a process that dies leaves everything as it is,
      cached bytes included; when the power fails these are torn. */
  ghost predicate Leaves(before: Env, after: Env)
  {
    after == before || Crashed(before, after)
  }

  /** A handler is stopped at entry `k` or inside the effect after it. */
  ghost predicate StopsAt(past: seq<Env>, k: nat, after: Env)
  {
    k < |past| && exists mid :: Reached(past, k, mid) && Leaves(mid, after)
  }

  /** A process starts with an arbitrary state record and runs `on_boot`. */
  ghost predicate BootsTo(cfg: Setting, env: Env, leftover: JournalState, w: World)
  {
    && var w0 := Here(Started(leftover), env);
       && w0.r.Ok() && (LoadedFrom(env).Some? ==> Sane(LoadedFrom(env).value))
       && w == Booted(w0, cfg.src.crc32)
  }

  ghost predicate Next(cfg: Setting, s: Sys, s': Sys, action: Action)
  {
    match action
    case Deliver(raw) =>
      && s.up.Some? && s.up.value.Ok() && |cfg.dest| == PATH_BYTES && Deliverable(s.net, raw)
      && var w := Received(Here(s.up.value, s.env), raw, cfg.dest, cfg.src.crc32);
         s' == s.(up := if w.r.alive then Some(w.r) else None, env := w.t.env)
    case StopIn(raw, k, after) =>
      && s.up.Some? && s.up.value.Ok() && |cfg.dest| == PATH_BYTES && Deliverable(s.net, raw)
      && var w := Received(Here(s.up.value, s.env), raw, cfg.dest, cfg.src.crc32);
         StopsAt(w.t.past, k, after) && s' == s.(up := None, env := after)
    case Stop(after) =>
      Leaves(s.env, after) && s' == s.(up := None, env := after)
    case Boot(leftover) =>
      && s.up.None?
      && exists w :: BootsTo(cfg, s.env, leftover, w) && s' == s.(up := Some(w.r), env := w.t.env)
    case StopInBoot(leftover, k, after) =>
      && s.up.None?
      && exists w :: BootsTo(cfg, s.env, leftover, w) && StopsAt(w.t.past, k, after) && s' == s.(env := after)
    case SenderStart =>
      cfg.job.Valid() && s' == s.(phase := Some(Asking(0)), net := s.net + Opening(cfg.job))
    case SenderInput(input) =>
      && cfg.job.Valid() && s.phase.Some? && Arrives(s.env, input)
      && var (next, out) := Step(cfg.job, s.phase.value, input);
         s' == s.(phase := Some(next), net := s.net + out)
    case SenderStop =>
      s' == s.(phase := None)
  }

  ghost predicate Init(cfg: Setting, s: Sys)
  {
    && s.up.None? && s.phase.None? && s.net == []
    && s.env.log == [] && s.env.journal.Absent?
    && s.env.durable == s.env.file
    && cfg.src.before == (match s.env.file case None => [] case Some(f) => f)
  }

  // ----- the invariant

  /** A PDU of the sender is honest and not ahead of the chunks that are done. */
  ghost predicate NetOk(src: Source, env: Env, raw: seq<byte>)
    requires src.Valid()
  {
    && Parse(raw).Some? && Honest(src, env, Parse(raw).value)
    && (Parse(raw).value.DataPdu? ==> Addressed(src, Parse(raw).value.d))
  }

  /** The packet carries the id of the transfer and the packet count of its chunk. */
  ghost predicate Addressed(src: Source, d: Data)
    requires src.Valid()
  {
    d.tid == src.tid && (d.chunk < src.layout.Chunks() ==> d.total == src.layout.Packets(d.chunk))
  }

  ghost predicate PhaseOk(src: Source, env: Env, phase: Phase)
    requires src.Valid()
  {
    && (phase.Finished? ==> Ack(src, FINAL) in env.log)
    && (phase.Sending? ==> phase.chunk < src.layout.Chunks())
    && (!Ended(env) ==>
          && !phase.Failed?
          && (phase.Sending? ==> Below(LoadedFrom(env), phase.chunk))
          && (phase.Closing? ==> Below(LoadedFrom(env), src.layout.Chunks())))
  }

  ghost predicate Inv(cfg: Setting, s: Sys)
    requires cfg.Valid()
  {
    && (match s.up
        case Some(r) => Safe(cfg.src, Here(r, s.env))
        case None => DiskOk(cfg.src, s.env))
    && (forall raw | raw in s.net :: NetOk(cfg.src, s.env, raw))
    && (s.phase.Some? ==> PhaseOk(cfg.src, s.env, s.phase.value))
  }

  // ----- what later surroundings keep

  /** `b` comes after `a`: replies stay sent, and done chunks stay done until the transfer ends. */
  ghost predicate After(a: Env, b: Env)
  {
    && a.log <= b.log
    && (!Ended(b) ==> Grows(LoadedFrom(a), LoadedFrom(b)))
  }

  lemma FollowsAfter(a: Env, b: Env)
    requires Follows(a, b)
    ensures After(a, b)
  {
  }

  lemma AfterTransitive(a: Env, b: Env, c: Env)
    requires After(a, b) && After(b, c)
    ensures After(a, c)
  {
    if Ended(b) {
      assert Ended(c);
    }
  }

  lemma {:induction false} PastAfter(src: Source, t: Trail, k: nat)
    requires src.Valid() && TrailOk(src, t) && k < |t.past|
    ensures After(t.past[0], t.past[k])
  {
    if k > 0 {
      PastAfter(src, t, k - 1);
      FollowsAfter(t.past[k - 1], t.past[k]);
      AfterTransitive(t.past[0], t.past[k - 1], t.past[k]);
    }
  }

  lemma BelowAfter(a: Env, b: Env, c: nat)
    requires After(a, b) && !Ended(b) && Below(LoadedFrom(a), c)
    ensures Below(LoadedFrom(b), c) && !Ended(a)
  {
  }

  lemma NetAfter(src: Source, a: Env, b: Env, raw: seq<byte>)
    requires src.Valid() && After(a, b) && NetOk(src, a, raw)
    ensures NetOk(src, b, raw)
  {
    var pdu := Parse(raw).value;
    if pdu.DataPdu? && src.ordered && !Ended(b) {
      assert Ended(a) ==> Ended(b);
      if pdu.d.tid == src.tid && pdu.d.chunk < src.layout.Chunks() {
        BelowAfter(a, b, pdu.d.chunk);
      }
    }
  }

  lemma PhaseAfter(src: Source, a: Env, b: Env, phase: Phase)
    requires src.Valid() && After(a, b) && PhaseOk(src, a, phase)
    ensures PhaseOk(src, b, phase)
  {
    if !Ended(b) {
      assert Ended(a) ==> Ended(b);
      if phase.Sending? {
        BelowAfter(a, b, phase.chunk);
      } else if phase.Closing? {
        BelowAfter(a, b, src.layout.Chunks());
      }
    }
  }

  /** Link and sender stay consistent with any later surroundings. */
  lemma OthersAfter(cfg: Setting, s: Sys, b: Env)
    requires cfg.Valid() && After(s.env, b)
    requires forall raw | raw in s.net :: NetOk(cfg.src, s.env, raw)
    requires s.phase.Some? ==> PhaseOk(cfg.src, s.env, s.phase.value)
    ensures forall raw | raw in s.net :: NetOk(cfg.src, b, raw)
    ensures s.phase.Some? ==> PhaseOk(cfg.src, b, s.phase.value)
  {
    forall raw | raw in s.net
      ensures NetOk(cfg.src, b, raw)
    {
      NetAfter(cfg.src, s.env, b, raw);
    }
    if s.phase.Some? {
      PhaseAfter(cfg.src, s.env, b, s.phase.value);
    }
  }

  // ----- the receiver's steps

  /** Everything deliverable is honest. */
  lemma DeliverableHonest(cfg: Setting, s: Sys, raw: seq<byte>)
    requires cfg.Valid() && Inv(cfg, s) && Deliverable(s.net, raw)
    ensures Parse(raw).Some? ==> Honest(cfg.src, s.env, Parse(raw).value)
  {
    if !Harmless(raw) {
      var orig :| orig in s.net && (Parse(raw) == Parse(orig) || Damaged(orig, raw));
      assert NetOk(cfg.src, s.env, orig);
      if Parse(raw) != Parse(orig) {
        DamagedHonest(cfg.src, s.env, Parse(orig).value.d, Parse(raw).value.d);
      }
    }
  }

  lemma DamagedHonest(src: Source, env: Env, d: Data, d': Data)
    requires src.Valid() && Honest(src, env, DataPdu(d)) && Addressed(src, d)
    requires Spoiled(d, d') || Misaddressed(d, d')
    ensures Honest(src, env, DataPdu(d'))
  {
  }

  /** A receiver stays safe when a PDU of the sender arrives. */
  lemma SentPduSafe(cfg: Setting, w: World, raw: seq<byte>)
    requires cfg.Valid() && Safe(cfg.src, w) && NetOk(cfg.src, w.t.env, raw)
    ensures w.r.Ok() && Safe(cfg.src, Received(w, raw, cfg.dest, cfg.src.crc32))
  {
    HandledSafe(cfg.src, w, Parse(raw).value, cfg.dest);
  }

  lemma ReceivedSafe(cfg: Setting, s: Sys, raw: seq<byte>)
    requires cfg.Valid() && Inv(cfg, s) && s.up.Some? && Deliverable(s.net, raw)
    ensures s.up.value.Ok()
    ensures var w := Received(Here(s.up.value, s.env), raw, cfg.dest, cfg.src.crc32);
            && Safe(cfg.src, w) && w.t.past != [] && w.t.past[0] == s.env
            && forall k | 0 <= k < |w.t.past| :: After(s.env, w.t.past[k])
  {
    var w := Here(s.up.value, s.env);
    DeliverableHonest(cfg, s, raw);
    if Parse(raw).Some? {
      HandledSafe(cfg.src, w, Parse(raw).value, cfg.dest);
    }
    var w' := Received(w, raw, cfg.dest, cfg.src.crc32);
    StartsHere(w, raw, cfg.dest, cfg.src.crc32);
    forall k | 0 <= k < |w'.t.past|
      ensures After(s.env, w'.t.past[k])
    {
      PastAfter(cfg.src, w'.t, k);
    }
  }

  // ----- handlers only add to the trail

  predicate Extends(t: Trail, t': Trail) { t.past <= t'.past }

  lemma CompletionExtends(w: World, crc32: seq<byte> -> u32)
    requires w.r.Ok() && Sane(w.r.st)
    ensures Extends(w.t, CompletionChecked(w, crc32).t)
  {
  }

  lemma ChunkStoredExtends(w: World, c: u32)
    requires w.r.Ok() && Sane(w.r.st) && c < w.r.st.totalChunks
    ensures Extends(w.t, ChunkStored(w, c).t)
  {
    assert Extends(w.t, ChunkWritten(w, c));
  }

  lemma FlushedExtends(w: World, c: u32, crc32: seq<byte> -> u32)
    requires w.r.Ok() && Sane(w.r.st) && c < w.r.st.totalChunks
    ensures Extends(w.t, Flushed(w, c, crc32).t)
  {
    var t := Allocated(w.t, w.r.st.fileSize);
    assert Extends(w.t, t);
    if t.env.file.Some? {
      ChunkStoredExtends(w.(t := t), c);
      var idle := Idled(Acked(ChunkStored(w.(t := t), c), c));
      assert Extends(t, idle.t);
      if idle.r.st.eof {
        CompletionExtends(idle, crc32);
      }
    }
  }

  lemma DataExtends(w: World, d: Data, crc32: seq<byte> -> u32)
    requires w.r.Ok()
    ensures Extends(w.t, DataHandled(w, d, crc32).t)
  {
    if Accepts(w.r, d) && !w.r.st.done[d.chunk] {
      var stored := PacketStored(Opened(Seen(w, d.chunk), d), d);
      assert Extends(w.t, stored.t);
      if Complete(stored.r.slots) {
        FlushedExtends(stored, d.chunk, crc32);
      }
    }
  }

  lemma EofExtends(w: World, tid: u32, crc32: seq<byte> -> u32)
    requires w.r.Ok()
    ensures Extends(w.t, EofHandled(w, tid, crc32).t)
  {
    if w.r.active && tid == w.r.st.tid {
      assert Extends(w.t, MarkedEof(w).t);
      CompletionExtends(MarkedEof(w), crc32);
    }
  }

  lemma StartsHere(w: World, raw: seq<byte>, dest: seq<byte>, crc32: seq<byte> -> u32)
    requires w.r.Ok() && |dest| == PATH_BYTES
    ensures Extends(w.t, Received(w, raw, dest, crc32).t)
  {
    match Parse(raw)
    case None =>
    case Some(MetadataPdu(m)) => assert Extends(w.t, MetadataHandled(w, m, dest).t);
    case Some(DataPdu(d)) => DataExtends(w, d, crc32);
    case Some(EofPdu(tid, _)) => EofExtends(w, tid, crc32);
    case Some(QueryPdu(tid)) =>
  }

  lemma BootExtends(w: World, crc32: seq<byte> -> u32)
    requires w.r.Ok() && (LoadedFrom(w.t.env).Some? ==> Sane(LoadedFrom(w.t.env).value))
    ensures Extends(w.t, Booted(w, crc32).t)
  {
    if LoadedFrom(w.t.env).Some? {
      var st := LoadedFrom(w.t.env).value;
      CompletionExtends(w.(r := w.r.(st := st, active := true, current := NO_CHUNK, maxSeen := 0, slots := [])), crc32);
    }
  }

  // ----- the sender's steps

  /** A packet of the sender is honest, and in order when its chunk is the sender's turn. */
  lemma PacketNetOk(cfg: Setting, env: Env, c: u32, p: u32)
    requires cfg.Valid() && c < cfg.src.layout.Chunks() && p < cfg.src.layout.Packets(c)
    requires Ended(env) || Below(LoadedFrom(env), c)
    ensures NetOk(cfg.src, env, PacketBytes(cfg.job, c, p))
  {
    var d := JobData(cfg.job, c, p);
    ParseData(d, cfg.job.layout.packetSize - |d.data|);
  }

  lemma MetadataNetOk(cfg: Setting, env: Env)
    requires cfg.Valid()
    ensures NetOk(cfg.src, env, MetadataPduBytes(cfg.job))
  {
    ParseMetadata(JobMetadata(cfg.job));
  }

  lemma EofNetOk(cfg: Setting, env: Env)
    requires cfg.Valid()
    ensures NetOk(cfg.src, env, JobEof(cfg.job)) && NetOk(cfg.src, env, JobQuery(cfg.job))
  {
    ParseEof(cfg.job.tid, cfg.job.checksum);
    ParseQuery(cfg.job.tid);
  }

  ghost predicate AllNetOk(cfg: Setting, env: Env, out: seq<seq<byte>>)
    requires cfg.Valid()
  {
    forall raw | raw in out :: NetOk(cfg.src, env, raw)
  }

  lemma BeginOk(cfg: Setting, env: Env, c: nat)
    requires cfg.Valid() && c <= cfg.src.layout.Chunks() && (Ended(env) || Below(LoadedFrom(env), c))
    ensures PhaseOk(cfg.src, env, Begin(cfg.job, c).0) && AllNetOk(cfg, env, Begin(cfg.job, c).1)
  {
    if c < cfg.src.layout.Chunks() {
      var pdus := ChunkPdus(cfg.job, c);
      forall raw | raw in pdus
        ensures NetOk(cfg.src, env, raw)
      {
        var p :| 0 <= p < |pdus| && pdus[p] == raw;
        AtLeastOnePacket(cfg.src.layout, c);
        PacketNetOk(cfg, env, c, p);
      }
      EofNetOk(cfg, env);
    }
  }

  // ----- what the sender reads in a reply

  lemma ReplyKinds(r: Reply, c: u32)
    ensures IsAck(ReplyBytes(r), c) <==> r.AckReply? && r.chunk == c
    ensures IsNak(ReplyBytes(r)) <==> r.NakReply?
  {
    if !r.NakReply? {
      ShortReplyFields(r);
    }
  }

  lemma InfoFields(job: Job, r: Reply)
    ensures IsInfo(job, ReplyBytes(r)) <==> r.InfoReply? && r.tid == job.tid
    ensures r.InfoReply? ==> U32At(ReplyBytes(r), 5) == r.first
  {
    if !r.NakReply? {
      ShortReplyFields(r);
    }
  }

  lemma AckArrived(env: Env, input: Input, c: u32) returns (r: Reply)
    requires Arrives(env, input) && input.Batch? && HasAck(input.pdus, c)
    ensures r.AckReply? && r.chunk == c && Send(r) in env.log
  {
    var k :| 0 <= k < |input.pdus| && IsAck(input.pdus[k], c);
    r :| Send(r) in env.log && input.pdus[k] == ReplyBytes(r);
    ReplyKinds(r, c);
  }

  lemma NakArrived(env: Env, input: Input) returns (r: Reply)
    requires Arrives(env, input) && input.Batch? && LatestNak(input.pdus).Some?
    ensures r.NakReply? && Send(r) in env.log && LatestNak(input.pdus).value == ReplyBytes(r)
  {
    var nak := LatestNak(input.pdus).value;
    var k :| 0 <= k < |input.pdus| && input.pdus[k] == nak;
    r :| Send(r) in env.log && input.pdus[k] == ReplyBytes(r);
    ReplyKinds(r, 0);
  }

  /** A NAK that is in order is answered with packets of the file, none ahead of the done chunks. */
  lemma NakInOrderAnswered(cfg: Setting, loaded: Loaded, r: Reply)
    requires cfg.Valid() && r.NakReply? && ReplyInOrder(cfg.src, loaded, r)
    ensures forall k | 0 <= k < |r.ranges| :: InFile(cfg.job, r.ranges[k]) && Below(loaded, r.ranges[k].chunk)
    ensures NakAnswer(cfg.job, ReplyBytes(r)) == (Retransmission(cfg.job, r.ranges), true)
  {
    hide NakAnswer, Retransmission, NakBytes, ParseNak, InFile;
    NakRoundTrip(r.tid, r.ranges);
    forall k | 0 <= k < |r.ranges|
      ensures InFile(cfg.job, r.ranges[k]) && Below(loaded, r.ranges[k].chunk)
    {
      RangeInFile(cfg, loaded, r.ranges[k]);
      assert RangeInOrder(cfg.src, loaded, r.ranges[k]);
    }
    NakAnsweredInFile(cfg.job, ReplyBytes(r));
  }

  lemma RangeInFile(cfg: Setting, loaded: Loaded, r: NakRange)
    requires cfg.Valid()
    ensures RangeInOrder(cfg.src, loaded, r) ==> InFile(cfg.job, r)
  {
  }

  /** Any packet the sender can pack is honest once the transfer has ended. */
  lemma SendableNetOk(cfg: Setting, env: Env, c: u32, p: u32)
    requires cfg.Valid() && Sendable(cfg.job, c, p) && Ended(env)
    ensures NetOk(cfg.src, env, SendableBytes(cfg.job, c, p))
  {
    var d := SendableData(cfg.job, c, p);
    ParseData(d, cfg.job.layout.packetSize - |d.data|);
    if c < cfg.src.layout.Chunks() {
      PieceBounds(|cfg.src.layout.bytes|, cfg.src.layout.chunkSize, c);
      if p < cfg.src.layout.Packets(c) {
        InFileSendable(cfg.job, c, p);
        PacketNetOk(cfg, env, c, p);
      }
    }
  }

  lemma {:induction false} AttemptedNetOk(cfg: Setting, env: Env, c: u32, first: nat, end: nat)
    requires cfg.Valid() && end <= 0x1_0000_0000 && Ended(env)
    ensures AllNetOk(cfg, env, Attempted(cfg.job, c, first, end).0)
    decreases end
  {
    hide Sendable, SendableBytes, NetOk;
    if first < end {
      AttemptedNetOk(cfg, env, c, first, end - 1);
      if Sendable(cfg.job, c, end - 1) {
        SendableNetOk(cfg, env, c, end - 1);
      }
    }
  }

  lemma {:induction false} AnsweredFirstNetOk(cfg: Setting, env: Env, nak: seq<byte>, n: nat)
    requires cfg.Valid() && Ended(env)
    ensures AllNetOk(cfg, env, AnsweredFirst(cfg.job, nak, n).0)
  {
    hide Attempted, RangeAt, NetOk;
    if n > 0 {
      AnsweredFirstNetOk(cfg, env, nak, n - 1);
      var r := Unpacked(nak, n - 1);
      if r.Some? {
        AttemptedNetOk(cfg, env, r.value.chunk, r.value.first, r.value.last + 1);
      }
    }
  }

  lemma AnsweredPacketOk(cfg: Setting, env: Env, rs: seq<NakRange>, i: nat)
    requires cfg.Valid()
    requires forall k | 0 <= k < |rs| :: InFile(cfg.job, rs[k])
    requires Ended(env) || forall k | 0 <= k < |rs| :: Below(LoadedFrom(env), rs[k].chunk)
    requires i < |Retransmission(cfg.job, rs)|
    ensures NetOk(cfg.src, env, Retransmission(cfg.job, rs)[i])
  {
    RetransmissionLength(cfg.job, rs);
    RetransmissionIs(cfg.job, rs, i);
    var (c, p) := Requested(rs)[i];
    assert (c, p) in Requested(rs);
    RequestedExactly(rs, c, p);
    var k :| 0 <= k < |rs| && InRange(rs[k], c, p);
    PacketNetOk(cfg, env, c, p);
  }

  lemma AnswerNetOk(cfg: Setting, env: Env, rs: seq<NakRange>)
    requires cfg.Valid()
    requires forall k | 0 <= k < |rs| :: InFile(cfg.job, rs[k])
    requires Ended(env) || forall k | 0 <= k < |rs| :: Below(LoadedFrom(env), rs[k].chunk)
    ensures AllNetOk(cfg, env, Retransmission(cfg.job, rs))
  {
    var out := Retransmission(cfg.job, rs);
    forall raw | raw in out
      ensures NetOk(cfg.src, env, raw)
    {
      var i :| 0 <= i < |out| && out[i] == raw;
      AnsweredPacketOk(cfg, env, rs, i);
    }
  }

  lemma AskingOk(cfg: Setting, env: Env, attempt: nat, input: Input)
    requires cfg.Valid() && DiskOk(cfg.src, env) && Arrives(env, input)
    ensures var (next, out) := Step(cfg.job, Asking(attempt), input);
            PhaseOk(cfg.src, env, next) && AllNetOk(cfg, env, out)
  {
    EofNetOk(cfg, env);
    BeginOk(cfg, env, 0);
    if input.Batch? && IsInfo(cfg.job, input.pdus[0]) {
      var r :| Send(r) in env.log && input.pdus[0] == ReplyBytes(r);
      InfoFields(cfg.job, r);
      assert !Ended(env) ==> ReplyInOrder(cfg.src, LoadedFrom(env), r);
      if r.first != ACK_FINAL {
        if r.first <= cfg.src.layout.Chunks() {
          BeginOk(cfg, env, r.first);
        }
      }
    }
  }

  lemma SendingOk(cfg: Setting, env: Env, c: u32, input: Input)
    requires cfg.Valid() && DiskOk(cfg.src, env) && Arrives(env, input) && PhaseOk(cfg.src, env, Sending(c))
    requires c < cfg.src.layout.Chunks()
    ensures var (next, out) := Step(cfg.job, Sending(c), input);
            PhaseOk(cfg.src, env, next) && AllNetOk(cfg, env, out)
  {
    EofNetOk(cfg, env);
    MetadataNetOk(cfg, env);
    if input.Batch? {
      if HasAck(input.pdus, ACK_FINAL) {
        var r := AckArrived(env, input, ACK_FINAL);
        assert r == AckReply(cfg.src.tid, FINAL);
      } else if HasAck(input.pdus, c) {
        var r := AckArrived(env, input, c);
        assert r == AckReply(cfg.src.tid, c);
        assert Ack(cfg.src, c) in env.log;
        BeginOk(cfg, env, c + 1);
      } else if LatestNak(input.pdus).Some? {
        NakStepOk(cfg, env, input);
      }
    }
  }

  lemma NakStepOk(cfg: Setting, env: Env, input: Input)
    requires cfg.Valid() && DiskOk(cfg.src, env) && Arrives(env, input)
    requires input.Batch? && LatestNak(input.pdus).Some?
    ensures var answer := NakAnswer(cfg.job, LatestNak(input.pdus).value);
            (Ended(env) || answer.1) && AllNetOk(cfg, env, answer.0)
  {
    hide AnsweredFirst, Retransmission, NetOk;
    var r := NakArrived(env, input);
    var nak := LatestNak(input.pdus).value;
    if !Ended(env) {
      assert ReplyInOrder(cfg.src, LoadedFrom(env), r);
      NakInOrderAnswered(cfg, LoadedFrom(env), r);
      AnswerNetOk(cfg, env, r.ranges);
    } else if |nak| >= 9 {
      AnsweredFirstNetOk(cfg, env, nak, U32At(nak, 5));
    }
  }

  lemma ClosingOk(cfg: Setting, env: Env, phase: Phase, input: Input)
    requires cfg.Valid() && DiskOk(cfg.src, env) && Arrives(env, input) && PhaseOk(cfg.src, env, phase)
    requires !phase.Asking? && !phase.Sending?
    ensures var (next, out) := Step(cfg.job, phase, input);
            PhaseOk(cfg.src, env, next) && AllNetOk(cfg, env, out)
  {
    EofNetOk(cfg, env);
    if phase.Closing? && input.Batch? && HasAck(input.pdus, ACK_FINAL) {
      var r := AckArrived(env, input, ACK_FINAL);
      assert r == AckReply(cfg.src.tid, FINAL);
    }
  }

  // ----- every step keeps the invariant

  lemma SenderInputInv(cfg: Setting, s: Sys, s': Sys, input: Input)
    requires cfg.Valid() && Inv(cfg, s) && Next(cfg, s, s', SenderInput(input))
    ensures Inv(cfg, s')
  {
    DiskHere(cfg, s);
    match s.phase.value
    case Asking(attempt) => AskingOk(cfg, s.env, attempt, input);
    case Sending(c) => SendingOk(cfg, s.env, c, input);
    case Closing => ClosingOk(cfg, s.env, s.phase.value, input);
    case Finished => ClosingOk(cfg, s.env, s.phase.value, input);
    case Failed => ClosingOk(cfg, s.env, s.phase.value, input);
  }

  lemma DiskHere(cfg: Setting, s: Sys)
    requires cfg.Valid() && Inv(cfg, s)
    ensures DiskOk(cfg.src, s.env)
  {
    if s.up.Some? {
      DiskNow(cfg.src, Here(s.up.value, s.env).t);
    }
  }

  lemma LeftAfter(before: Env, after: Env)
    requires Leaves(before, after)
    ensures After(before, after)
  {
  }

  lemma DeliverInv(cfg: Setting, s: Sys, s': Sys, raw: seq<byte>)
    requires cfg.Valid() && Inv(cfg, s) && Next(cfg, s, s', Deliver(raw))
    ensures Inv(cfg, s')
  {
    ReceivedSafe(cfg, s, raw);
    var w := Received(Here(s.up.value, s.env), raw, cfg.dest, cfg.src.crc32);
    SafeHere(cfg.src, w);
    assert w.t.past[|w.t.past| - 1] == w.t.env;
    OthersAfter(cfg, s, w.t.env);
  }

  lemma SafeHere(src: Source, w: World)
    requires src.Valid() && Safe(src, w)
    ensures Safe(src, Here(w.r, w.t.env)) && w.r.alive
  {
    DiskNow(src, w.t);
  }

  lemma StopInInv(cfg: Setting, s: Sys, s': Sys, raw: seq<byte>, k: nat, after: Env)
    requires cfg.Valid() && Inv(cfg, s) && Next(cfg, s, s', StopIn(raw, k, after))
    ensures Inv(cfg, s')
  {
    ReceivedSafe(cfg, s, raw);
    var w := Received(Here(s.up.value, s.env), raw, cfg.dest, cfg.src.crc32);
    StopAnywhere(cfg, s, w.t, k, after);
  }

  lemma StopAnywhere(cfg: Setting, s: Sys, t: Trail, k: nat, after: Env)
    requires cfg.Valid() && Inv(cfg, s) && TrailOk(cfg.src, t) && StopsAt(t.past, k, after)
    requires After(s.env, t.past[k])
    ensures Inv(cfg, s.(up := None, env := after))
  {
    var mid :| Reached(t.past, k, mid) && Leaves(mid, after);
    ReachedSafe(cfg.src, t, k, mid);
    if after != mid {
      CrashSafe(cfg.src, mid, after);
    }
    StopsAfter(s.env, t, k, after);
    OthersAfter(cfg, s, after);
  }

  lemma ReachedSafe(src: Source, t: Trail, k: nat, mid: Env)
    requires src.Valid() && TrailOk(src, t) && k < |t.past| && Reached(t.past, k, mid)
    ensures DiskOk(src, mid)
  {
    hide DiskOk, PartlyWritten;
    assert t.past[k] in t.past;
    if mid != t.past[k] {
      assert t.past[k + 1] in t.past;
      PartlyWrittenSafe(src, t.past[k], t.past[k + 1], mid);
    }
  }

  lemma ReachedAfter(past: seq<Env>, k: nat, mid: Env)
    requires k < |past| && Reached(past, k, mid)
    ensures After(past[k], mid)
  {
  }

  lemma StopsAfter(a: Env, t: Trail, k: nat, after: Env)
    requires StopsAt(t.past, k, after) && After(a, t.past[k])
    ensures After(a, after)
  {
    hide After, Reached, Leaves;
    var mid :| Reached(t.past, k, mid) && Leaves(mid, after);
    ReachedAfter(t.past, k, mid);
    LeftAfter(mid, after);
    AfterTransitive(a, t.past[k], mid);
    AfterTransitive(a, mid, after);
  }

  lemma BootSafeHere(cfg: Setting, s: Sys, leftover: JournalState, w: World)
    requires cfg.Valid() && Inv(cfg, s) && s.up.None? && BootsTo(cfg, s.env, leftover, w)
    ensures Safe(cfg.src, w) && w.t.past != [] && w.t.past[0] == s.env
    ensures forall k | 0 <= k < |w.t.past| :: After(s.env, w.t.past[k])
  {
    var w0 := Here(Started(leftover), s.env);
    BootedSafe(cfg.src, w0);
    BootExtends(w0, cfg.src.crc32);
    forall k | 0 <= k < |w.t.past|
      ensures After(s.env, w.t.past[k])
    {
      PastAfter(cfg.src, w.t, k);
    }
  }

  lemma BootInv(cfg: Setting, s: Sys, s': Sys, leftover: JournalState)
    requires cfg.Valid() && Inv(cfg, s) && Next(cfg, s, s', Boot(leftover))
    ensures Inv(cfg, s')
  {
    var w :| BootsTo(cfg, s.env, leftover, w) && s' == s.(up := Some(w.r), env := w.t.env);
    BootSafeHere(cfg, s, leftover, w);
    SafeHere(cfg.src, w);
    assert w.t.past[|w.t.past| - 1] == w.t.env;
    OthersAfter(cfg, s, w.t.env);
  }

  /** The inductive step: no action of receiver, sender, link or crash breaks the invariant. */
  lemma NextInv(cfg: Setting, s: Sys, s': Sys, action: Action)
    requires cfg.Valid() && Inv(cfg, s) && Next(cfg, s, s', action)
    ensures Inv(cfg, s')
  {
    match action
    case Deliver(raw) => DeliverInv(cfg, s, s', raw);
    case StopIn(raw, k, after) => StopInInv(cfg, s, s', raw, k, after);
    case Stop(after) =>
      DiskHere(cfg, s);
      assert Reached([s.env], 0, s.env);
      StopAnywhere(cfg, s, Trail(s.env, [s.env]), 0, after);
    case Boot(leftover) => BootInv(cfg, s, s', leftover);
    case StopInBoot(leftover, k, after) =>
      var w :| BootsTo(cfg, s.env, leftover, w) && StopsAt(w.t.past, k, after) && s' == s.(env := after);
      BootSafeHere(cfg, s, leftover, w);
      StopAnywhere(cfg, s, w.t, k, after);
    case SenderStart =>
      MetadataNetOk(cfg, s.env);
      EofNetOk(cfg, s.env);
    case SenderInput(input) => SenderInputInv(cfg, s, s', input);
    case SenderStop =>
  }

  lemma InitInv(cfg: Setting, s: Sys)
    requires cfg.Valid() && Init(cfg, s)
    ensures Inv(cfg, s)
  {
  }

  // ----- whole runs

  ghost predicate Path(cfg: Setting, states: seq<Sys>, actions: seq<Action>)
  {
    && |states| == |actions| + 1
    && forall i | 0 <= i < |actions| :: Next(cfg, states[i], states[i + 1], actions[i])
  }

  ghost predicate Run(cfg: Setting, states: seq<Sys>, actions: seq<Action>)
  {
    Path(cfg, states, actions) && Init(cfg, states[0])
  }

  lemma {:induction false} RunInv(cfg: Setting, states: seq<Sys>, actions: seq<Action>, n: nat)
    requires cfg.Valid() && Run(cfg, states, actions) && n < |states|
    ensures Inv(cfg, states[n])
  {
    if n == 0 {
      InitInv(cfg, states[0]);
    } else {
      RunInv(cfg, states, actions, n - 1);
      NextInv(cfg, states[n - 1], states[n], actions[n - 1]);
    }
  }

  /** In every run, once the final ACK has been sent the whole source is in the destination file,
      in the page cache and on the medium, followed by what a longer destination held behind it. */
  lemma FinalAckMeansDelivered(cfg: Setting, states: seq<Sys>, actions: seq<Action>, n: nat)
    requires cfg.Valid() && Run(cfg, states, actions) && n < |states|
    requires Send(AckReply(cfg.src.tid, FINAL)) in states[n].env.log
    ensures states[n].env.file == Some(cfg.src.Result()) == states[n].env.durable
    ensures cfg.src.layout.bytes <= cfg.src.Result()
    ensures states[n].env.file == Some(cfg.src.layout.bytes) <==> |cfg.src.before| <= |cfg.src.layout.bytes|
  {
    RunInv(cfg, states, actions, n);
    DiskHere(cfg, states[n]);
    ShortPasses(cfg.src);
  }

  /** A sender that has ended successfully has delivered the file. */
  lemma SenderFinishedMeansDelivered(cfg: Setting, states: seq<Sys>, actions: seq<Action>, n: nat)
    requires cfg.Valid() && Run(cfg, states, actions) && n < |states|
    requires states[n].phase == Some(Finished)
    ensures states[n].env.file == Some(cfg.src.Result()) == states[n].env.durable
    ensures |cfg.src.before| <= |cfg.src.layout.bytes| ==> cfg.src.Result() == cfg.src.layout.bytes
  {
    RunInv(cfg, states, actions, n);
    FinalAckMeansDelivered(cfg, states, actions, n);
  }

  // ----- more about runs

  lemma NextAfter(cfg: Setting, s: Sys, s': Sys, action: Action)
    requires cfg.Valid() && Inv(cfg, s) && Next(cfg, s, s', action)
    ensures After(s.env, s'.env)
  {
    match action
    case Deliver(raw) =>
      ReceivedSafe(cfg, s, raw);
      var t := Received(Here(s.up.value, s.env), raw, cfg.dest, cfg.src.crc32).t;
      assert t.past[|t.past| - 1] == t.env;
    case StopIn(raw, k, after) =>
      ReceivedSafe(cfg, s, raw);
      StopsAfter(s.env, Received(Here(s.up.value, s.env), raw, cfg.dest, cfg.src.crc32).t, k, after);
    case Stop(after) => LeftAfter(s.env, after);
    case Boot(leftover) =>
      var w :| BootsTo(cfg, s.env, leftover, w) && s' == s.(up := Some(w.r), env := w.t.env);
      BootSafeHere(cfg, s, leftover, w);
      assert w.t.past[|w.t.past| - 1] == w.t.env;
    case StopInBoot(leftover, k, after) =>
      var w :| BootsTo(cfg, s.env, leftover, w) && StopsAt(w.t.past, k, after) && s' == s.(env := after);
      BootSafeHere(cfg, s, leftover, w);
      StopsAfter(s.env, w.t, k, after);
    case SenderStart =>
    case SenderInput(input) =>
    case SenderStop =>
  }

  lemma RunStepAfter(cfg: Setting, states: seq<Sys>, actions: seq<Action>, n: nat)
    requires cfg.Valid() && Run(cfg, states, actions) && n < |actions|
    ensures After(states[n].env, states[n + 1].env)
  {
    RunInv(cfg, states, actions, n);
    NextAfter(cfg, states[n], states[n + 1], actions[n]);
  }

  lemma {:induction false} ChainAfter(envs: seq<Env>, i: nat, j: nat)
    requires i <= j < |envs| && forall k | 0 < k < |envs| :: After(envs[k - 1], envs[k])
    ensures After(envs[i], envs[j])
  {
    if i < j {
      ChainAfter(envs, i, j - 1);
      AfterTransitive(envs[i], envs[j - 1], envs[j]);
    }
  }

  lemma RunAfter(cfg: Setting, states: seq<Sys>, actions: seq<Action>, i: nat, j: nat)
    requires cfg.Valid() && Run(cfg, states, actions) && i <= j < |states|
    ensures After(states[i].env, states[j].env)
  {
    var envs := seq(|states|, k requires 0 <= k < |states| => states[k].env);
    forall k | 0 < k < |envs|
      ensures After(envs[k - 1], envs[k])
    {
      RunStepAfter(cfg, states, actions, k - 1);
    }
    ChainAfter(envs, i, j);
  }

  /** Once a chunk is acknowledged it stays recorded, and its bytes stay in the file and on the
      medium, in every later state of the transfer, however often either side crashes or restarts. */
  lemma AckedChunkStaysDone(cfg: Setting, states: seq<Sys>, actions: seq<Action>, i: nat, j: nat, c: u32)
    requires cfg.Valid() && Run(cfg, states, actions) && i <= j < |states|
    requires c != FINAL && Send(AckReply(cfg.src.tid, c)) in states[i].env.log && !Ended(states[j].env)
    ensures DoneIn(LoadedFrom(states[j].env), c) && c < cfg.src.layout.Chunks()
    ensures ChunkOn(states[j].env.file, cfg.src.layout, c) && ChunkOn(states[j].env.durable, cfg.src.layout, c)
  {
    RunAfter(cfg, states, actions, i, j);
    RunInv(cfg, states, actions, j);
    DiskHere(cfg, states[j]);
    assert Ack(cfg.src, c) in states[j].env.log;
  }

  /** Until the transfer ends the done chunks are a prefix of the file, a sender at chunk `c` has all
      chunks before `c` done, and no NAK or resume reply ever sent points beyond the first missing chunk. */
  lemma StopAndWait(cfg: Setting, states: seq<Sys>, actions: seq<Action>, n: nat)
    requires cfg.Valid() && Run(cfg, states, actions) && n < |states| && !Ended(states[n].env)
    ensures var loaded, l := LoadedFrom(states[n].env), cfg.src.layout;
            && DonePrefix(loaded)
            && (states[n].phase.Some? ==>
                  && states[n].phase.value != Failed
                  && (states[n].phase.value.Sending? ==> Below(loaded, states[n].phase.value.chunk))
                  && (states[n].phase.value.Closing? ==> Below(loaded, l.Chunks())))
            && (forall r | Send(r) in states[n].env.log && r.InfoReply? && r.tid == cfg.src.tid ::
                  Below(loaded, if r.first == FINAL then l.Chunks() else r.first))
            && (forall r, k | Send(r) in states[n].env.log && r.NakReply? && 0 <= k < |r.ranges| ::
                  Below(loaded, r.ranges[k].chunk))
  {
    RunInv(cfg, states, actions, n);
    DiskHere(cfg, states[n]);
    var loaded := LoadedFrom(states[n].env);
    forall r | Send(r) in states[n].env.log
      ensures ReplyInOrder(cfg.src, loaded, r)
    {
    }
    forall r, k | Send(r) in states[n].env.log && r.NakReply? && 0 <= k < |r.ranges|
      ensures Below(loaded, r.ranges[k].chunk)
    {
      assert RangeInOrder(cfg.src, loaded, r.ranges[k]);
    }
  }

  /** When a transfer is given up: its journal has been removed without a final ACK exactly if the
      destination was longer than the file and the checksum covers its old tail. */
  lemma GivenUpIff(cfg: Setting, states: seq<Sys>, actions: seq<Action>, n: nat)
    requires cfg.Valid() && Run(cfg, states, actions) && n < |states|
    requires RemoveJournal in states[n].env.log
    ensures Send(AckReply(cfg.src.tid, FINAL)) !in states[n].env.log <==>
              && |cfg.src.before| > |cfg.src.layout.bytes|
              && cfg.src.crc32(cfg.src.layout.bytes + cfg.src.before[|cfg.src.layout.bytes|..])
                 != cfg.src.crc32(cfg.src.layout.bytes)
  {
    RunInv(cfg, states, actions, n);
    DiskHere(cfg, states[n]);
    ShortPasses(cfg.src);
  }

  /** Every packet of the sender passes the receiver's guards while its transfer is active. */
  lemma SenderPacketAccepted(cfg: Setting, w: World, c: u32, p: u32)
    requires cfg.Valid() && Safe(cfg.src, w) && w.r.active
    requires c < cfg.src.layout.Chunks() && p < cfg.src.layout.Packets(c)
    ensures w.r.Ok() && Accepts(w.r, JobData(cfg.job, c, p)) && p < JobData(cfg.job, c, p).total
    ensures Parse(PacketBytes(cfg.job, c, p)) == Some(DataPdu(JobData(cfg.job, c, p)))
  {
    var d := JobData(cfg.job, c, p);
    CountIsPackets(cfg.src, w.r.st, c);
    ParseData(d, cfg.job.layout.packetSize - |d.data|);
  }

  // ----- the simulated link

  /** Byte `at` belongs to the four-byte number that starts at `from`. */
  predicate InField(at: nat, from: nat) { from <= at < from + 4 }

  /** What the link simulator does to byte `at`. */
  function Flipped(raw: seq<byte>, at: nat): seq<byte>
    requires at < |raw|
  {
    raw[at := raw[at] ^ 0xFF]
  }

  /** The flip makes no other legal chunk or packet number, and no other length that is accepted with a payload
      that fits the checksum. */
  predicate Noticeable(raw: seq<byte>, at: nat, total: nat)
    requires at < |raw| && |raw| >= 22
  {
    && (InField(at, 5) ==> U32At(Flipped(raw, at), 5) >= 0x10_0000)
    && (InField(at, 9) ==> U32At(Flipped(raw, at), 9) >= total)
    && (InField(at, 17) ==> Rejected(Flipped(raw, at)))
  }

  /** A data packet that the receiver drops, or whose payload does not fit its checksum. */
  predicate Rejected(raw: seq<byte>)
  {
    match Parse(raw)
    case Some(DataPdu(d)) => Crc8(d.data) != d.crc
    case _ => true
  }

  predicate Tolerable(orig: seq<byte>, raw: seq<byte>)
  {
    Harmless(raw) || Parse(raw) == Parse(orig) || Damaged(orig, raw)
  }

  /** Flipping all bits of any one byte of a data packet gives bytes that the theorems above allow the link
      to deliver, unless a chunk or packet number turns into another legal one, or the low byte of the length is
      hit and the payload of the new length has the old checksum. */
  lemma FlippedByteDeliverable(cfg: Setting, net: seq<seq<byte>>, c: u32, p: u32, at: nat)
    requires cfg.Valid() && c < cfg.src.layout.Chunks() && p < cfg.src.layout.Packets(c)
    requires PacketBytes(cfg.job, c, p) in net && at < |PacketBytes(cfg.job, c, p)|
    requires |PacketBytes(cfg.job, c, p)| >= 22
    requires Noticeable(PacketBytes(cfg.job, c, p), at, cfg.src.layout.Packets(c))
    ensures Deliverable(net, Flipped(PacketBytes(cfg.job, c, p), at))
  {
    var d, padding := JobData(cfg.job, c, p), cfg.job.layout.packetSize - |cfg.job.layout.Packet(c, p)|;
    if at < 21 {
      FlippedHeader(d, padding, at);
    } else {
      FlippedBody(d, padding, at);
    }
    assert Tolerable(PacketBytes(cfg.job, c, p), Flipped(PacketBytes(cfg.job, c, p), at));
  }

  lemma FlippedHeader(d: Data, padding: nat, at: nat)
    requires |d.data| <= MAX_PACKET && at < 21 && Noticeable(DataBytes(d, padding), at, d.total)
    ensures Tolerable(DataBytes(d, padding), Flipped(DataBytes(d, padding), at))
  {
    if at == 0 {
      FlippedType();
    } else if at < 17 {
      FlippedNumber(d, padding, at);
    } else {
      ChangedLengthNoticed(d, padding, at, DataBytes(d, padding)[at] ^ 0xFF);
    }
  }

  lemma ChangedLengthNoticed(d: Data, padding: nat, at: nat, x: byte)
    requires |d.data| <= MAX_PACKET && 17 <= at < 21 && Rejected(DataBytes(d, padding)[at := x])
    ensures Tolerable(DataBytes(d, padding), DataBytes(d, padding)[at := x])
  {
    hide DataBytes;
    ParseData(d, padding);
    LengthChanged(d, padding, at, x);
  }

  /** A change in the length field leaves all other fields alone. */
  lemma LengthChanged(d: Data, padding: nat, at: nat, x: byte)
    requires |d.data| <= MAX_PACKET && 17 <= at < 21
    ensures var raw := DataBytes(d, padding)[at := x];
            || Parse(raw) == None
            || (Parse(raw).value.DataPdu? && Parse(raw).value.d == d.(data := Parse(raw).value.d.data))
  {
    var raw := DataBytes(d, padding);
    ParseData(d, padding);
    FieldKept(raw, at, x, 1);
    FieldKept(raw, at, x, 5);
    FieldKept(raw, at, x, 9);
    FieldKept(raw, at, x, 13);
  }

  /** In its upper bytes every flip is noticed. */
  lemma HighLengthNoticed(d: Data, padding: nat, at: nat)
    requires |d.data| <= MAX_PACKET && 18 <= at < 21
    ensures Rejected(Flipped(DataBytes(d, padding), at))
  {
    FlippedValue(DataHeader(d)[at]);
    ChangedLength(d, padding, at, DataHeader(d)[at] ^ 0xFF);
  }

  lemma FlippedBody(d: Data, padding: nat, at: nat)
    requires |d.data| <= MAX_PACKET && d.crc == Crc8(d.data) && 21 <= at < 22 + |d.data| + padding
    ensures Tolerable(DataBytes(d, padding), Flipped(DataBytes(d, padding), at))
  {
    if at == 21 {
      FlippedChecksum(d, padding);
    } else if at < 22 + |d.data| {
      FlippedPayload(d, padding, at);
    } else {
      FlippedPadding(d, padding, at);
    }
  }

  /** A header number that does not contain the changed byte is the same. */
  lemma FieldKept(raw: seq<byte>, at: nat, x: byte, from: nat)
    requires at < |raw| && from + 4 <= |raw| && !InField(at, from)
    ensures U32At(raw[at := x], from) == U32At(raw, from)
  {
    assert raw[at := x][from..from + 4] == raw[from..from + 4];
  }

  /** The header of a data packet with one byte changed, outside its length field. */
  lemma HeaderChanged(d: Data, padding: nat, at: nat, x: byte)
    requires |d.data| <= MAX_PACKET && 1 <= at < 22 + |d.data| + padding && !InField(at, 17)
    ensures var raw := DataBytes(d, padding)[at := x];
            var pdu := Parse(raw);
            && pdu.Some? && pdu.value.DataPdu?
            && (at >= 5 ==> pdu.value.d.tid == d.tid)
            && (!InField(at, 5) ==> pdu.value.d.chunk == d.chunk)
            && (!InField(at, 9) ==> pdu.value.d.packet == d.packet)
            && (!InField(at, 13) ==> pdu.value.d.total == d.total)
            && pdu.value.d.chunk == U32At(raw, 5) && pdu.value.d.packet == U32At(raw, 9)
            && pdu.value.d.crc == raw[21]
            && pdu.value.d.data == raw[22..22 + |d.data|]
  {
    var raw := DataBytes(d, padding);
    ParseData(d, padding);
    FieldKept(raw, at, x, 17);
    if at >= 5 {
      FieldKept(raw, at, x, 1);
    }
    if !InField(at, 5) {
      FieldKept(raw, at, x, 5);
    }
    if !InField(at, 9) {
      FieldKept(raw, at, x, 9);
    }
    if !InField(at, 13) {
      FieldKept(raw, at, x, 13);
    }
  }

  lemma SamePayload(d: Data, padding: nat, at: nat, x: byte)
    requires |d.data| <= MAX_PACKET && at < 22 + |d.data| + padding && !(22 <= at < 22 + |d.data|)
    ensures DataBytes(d, padding)[at := x][22..22 + |d.data|] == d.data
  {
    assert DataBytes(d, padding)[22..22 + |d.data|] == d.data;
  }

  lemma FlippedNumber(d: Data, padding: nat, at: nat)
    requires |d.data| <= MAX_PACKET && 1 <= at < 17 && Noticeable(DataBytes(d, padding), at, d.total)
    ensures Damaged(DataBytes(d, padding), Flipped(DataBytes(d, padding), at))
  {
    var raw := DataBytes(d, padding);
    var x := raw[at] ^ 0xFF;
    ParseData(d, padding);
    HeaderChanged(d, padding, at, x);
    SamePayload(d, padding, at, x);
    assert raw[at := x][21] == raw[21];
  }

  /** A flip in the upper bytes of the length makes it larger than any packet. */
  lemma ChangedLength(d: Data, padding: nat, at: nat, x: byte)
    requires |d.data| <= MAX_PACKET && 18 <= at < 21
    requires x as nat + DataHeader(d)[at] as nat == 255
    ensures Parse(DataBytes(d, padding)[at := x]) == None
  {
    var raw, header := DataBytes(d, padding), DataHeader(d);
    var s := header[17..21];
    DataHeaderFields(d);
    HighByte(s, at - 17, x);
    assert raw[at := x][17..21] == s[at - 17 := x];
  }

  lemma HighByte(s: seq<byte>, i: nat, x: byte)
    requires |s| == 4 && 1 <= i < 4 && FromLE(s) <= MAX_PACKET && x as nat + s[i] as nat == 255
    ensures FromLE(s[i := x]) > MAX_PACKET
  {
    var t := s[i := x];
    FourBytes(s);
    FourBytes(t);
    if i == 1 {
      assert t[1] == x;
    } else if i == 2 {
      assert t[2] == x;
    } else {
      assert t[3] == x;
    }
  }

  lemma FlippedChecksum(d: Data, padding: nat)
    requires |d.data| <= MAX_PACKET && d.crc == Crc8(d.data)
    ensures Damaged(DataBytes(d, padding), Flipped(DataBytes(d, padding), 21))
  {
    var raw := DataBytes(d, padding);
    ParseData(d, padding);
    HeaderChanged(d, padding, 21, raw[21] ^ 0xFF);
    SamePayload(d, padding, 21, raw[21] ^ 0xFF);
    FlippedDiffers(raw[21]);
  }

  lemma FlippedPayload(d: Data, padding: nat, at: nat)
    requires |d.data| <= MAX_PACKET && d.crc == Crc8(d.data) && 22 <= at < 22 + |d.data|
    ensures Damaged(DataBytes(d, padding), Flipped(DataBytes(d, padding), at))
  {
    hide Parse, Crc8, Xor;
    var raw := DataBytes(d, padding);
    ParseData(d, padding);
    HeaderChanged(d, padding, at, raw[at] ^ 0xFF);
    FlippedByteDetected(d.data, at - 22);
    assert raw[at := raw[at] ^ 0xFF][22..22 + |d.data|] == d.data[at - 22 := d.data[at - 22] ^ 0xFF];
  }

  lemma FlippedPadding(d: Data, padding: nat, at: nat)
    requires |d.data| <= MAX_PACKET && 22 + |d.data| <= at < 22 + |d.data| + padding
    ensures Parse(Flipped(DataBytes(d, padding), at)) == Parse(DataBytes(d, padding))
  {
    var raw := DataBytes(d, padding);
    ParseData(d, padding);
    HeaderChanged(d, padding, at, raw[at] ^ 0xFF);
    SamePayload(d, padding, at, raw[at] ^ 0xFF);
  }

  lemma FlippedType()
    ensures TYPE_DATA ^ 0xFF == 0xFD
  {
  }

  lemma FlippedDiffers(b: byte)
    ensures b ^ 0xFF != b
  {
  }
}
