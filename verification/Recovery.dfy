/** No reachable state is a dead end: from each, sender and receiver can still finish the transfer. */
module Recovery {
  import opened Bytes
  import opened Geometry
  import opened Wire
  import opened Slots
  import opened JournalCodec
  import opened Storage
  import opened Journals
  import opened ReceiverModel
  import opened Resting
  import opened Safety
  import opened SenderModel
  import opened System
  import opened Progress
  import opened Delivery

  // ----- what a handler does depends only on the present surroundings

  ghost predicate SameNow(a: World, b: World) { a.r == b.r && a.t.env == b.t.env }

  lemma SameCompletion(a: World, b: World, crc32: seq<byte> -> u32)
    requires SameNow(a, b) && a.r.Ok() && Sane(a.r.st)
    ensures SameNow(CompletionChecked(a, crc32), CompletionChecked(b, crc32))
  {
  }

  lemma SameStored(a: World, b: World, c: u32)
    requires SameNow(a, b) && a.r.Ok() && Sane(a.r.st) && c < a.r.st.totalChunks
    ensures SameNow(ChunkStored(a, c), ChunkStored(b, c))
  {
  }

  lemma SameFlushed(a: World, b: World, c: u32, crc32: seq<byte> -> u32)
    requires SameNow(a, b) && a.r.Ok() && Sane(a.r.st) && c < a.r.st.totalChunks
    ensures SameNow(Flushed(a, c, crc32), Flushed(b, c, crc32))
  {
    var s, t := Allocated(a.t, a.r.st.fileSize), Allocated(b.t, b.r.st.fileSize);
    assert s.env == t.env;
    if s.env.file.Some? {
      SameStored(a.(t := s), b.(t := t), c);
      var i, j := Idled(Acked(ChunkStored(a.(t := s), c), c)), Idled(Acked(ChunkStored(b.(t := t), c), c));
      assert SameNow(i, j);
      if i.r.st.eof {
        SameCompletion(i, j, crc32);
      }
    }
  }

  lemma SameData(a: World, b: World, d: Data, crc32: seq<byte> -> u32)
    requires SameNow(a, b) && a.r.Ok()
    ensures SameNow(DataHandled(a, d, crc32), DataHandled(b, d, crc32))
  {
    if Accepts(a.r, d) && !a.r.st.done[d.chunk] {
      var i, j := PacketStored(Opened(Seen(a, d.chunk), d), d), PacketStored(Opened(Seen(b, d.chunk), d), d);
      assert SameNow(i, j);
      if Complete(i.r.slots) {
        SameFlushed(i, j, d.chunk, crc32);
      }
    }
  }

  lemma SameEof(a: World, b: World, tid: u32, crc32: seq<byte> -> u32)
    requires SameNow(a, b) && a.r.Ok()
    ensures SameNow(EofHandled(a, tid, crc32), EofHandled(b, tid, crc32))
  {
    if a.r.active && tid == a.r.st.tid {
      assert SameNow(MarkedEof(a), MarkedEof(b));
      SameCompletion(MarkedEof(a), MarkedEof(b), crc32);
    }
  }

  lemma SameReceived(a: World, b: World, raw: seq<byte>, dest: seq<byte>, crc32: seq<byte> -> u32)
    requires SameNow(a, b) && a.r.Ok() && |dest| == PATH_BYTES
    ensures SameNow(Received(a, raw, dest, crc32), Received(b, raw, dest, crc32))
  {
    match Parse(raw)
    case None =>
    case Some(MetadataPdu(m)) =>
    case Some(DataPdu(d)) => SameData(a, b, d, crc32);
    case Some(EofPdu(tid, _)) => SameEof(a, b, tid, crc32);
    case Some(QueryPdu(tid)) =>
  }

  lemma {:induction false} SameReceivedAll(a: World, b: World, raws: seq<seq<byte>>, dest: seq<byte>,
                                           crc32: seq<byte> -> u32)
    requires SameNow(a, b) && a.r.Ok() && |dest| == PATH_BYTES
    ensures SameNow(ReceivedAll(a, raws, dest, crc32), ReceivedAll(b, raws, dest, crc32))
    decreases |raws|
  {
    hide Received;
    if raws != [] {
      SameReceived(a, b, raws[0], dest, crc32);
      SameReceivedAll(Received(a, raws[0], dest, crc32), Received(b, raws[0], dest, crc32), raws[1..], dest, crc32);
    }
  }

  // ----- reachability

  ghost predicate Reaches(cfg: Setting, s: Sys, s': Sys)
  {
    exists states, actions :: Path(cfg, states, actions) && states[0] == s && states[|actions|] == s'
  }

  lemma ReachesItself(cfg: Setting, s: Sys)
    ensures Reaches(cfg, s, s)
  {
    var states, actions: seq<Action> := [s], [];
    assert Path(cfg, states, actions) && states[0] == s && states[|actions|] == s;
  }

  lemma ReachesNext(cfg: Setting, s: Sys, s': Sys, s'': Sys, action: Action)
    requires Reaches(cfg, s, s') && Next(cfg, s', s'', action)
    ensures Reaches(cfg, s, s'')
  {
    hide Next;
    var states, actions :| Path(cfg, states, actions) && states[0] == s && states[|actions|] == s';
    var states', actions' := states + [s''], actions + [action];
    assert Path(cfg, states', actions') by {
      forall i | 0 <= i < |actions'|
        ensures Next(cfg, states'[i], states'[i + 1], actions'[i])
      {
        if i < |actions| {
          assert Next(cfg, states[i], states[i + 1], actions[i]);
        }
      }
    }
    assert states'[0] == s && states'[|actions'|] == s'';
  }

  lemma {:induction false} PathInv(cfg: Setting, states: seq<Sys>, actions: seq<Action>, n: nat)
    requires cfg.Valid() && Path(cfg, states, actions) && n < |states| && Inv(cfg, states[0])
    ensures Inv(cfg, states[n])
  {
    hide Next, Inv;
    if n > 0 {
      PathInv(cfg, states, actions, n - 1);
      NextInv(cfg, states[n - 1], states[n], actions[n - 1]);
    }
  }

  lemma ReachesInv(cfg: Setting, s: Sys, s': Sys)
    requires cfg.Valid() && Inv(cfg, s) && Reaches(cfg, s, s')
    ensures Inv(cfg, s')
  {
    hide Inv, Next;
    var states, actions :| Path(cfg, states, actions) && states[0] == s && states[|actions|] == s';
    PathInv(cfg, states, actions, |actions|);
  }

  /** A state on the way: reached from `s0`, and the invariant holds. */
  ghost predicate OnWay(cfg: Setting, s0: Sys, s: Sys)
    requires cfg.Valid()
  {
    Reaches(cfg, s0, s) && Inv(cfg, s)
  }

  lemma Onward(cfg: Setting, s0: Sys, s: Sys, s': Sys, action: Action)
    requires cfg.Valid() && OnWay(cfg, s0, s) && Next(cfg, s, s', action)
    ensures OnWay(cfg, s0, s')
  {
    hide Next, Inv, Reaches;
    ReachesNext(cfg, s0, s, s', action);
    NextInv(cfg, s, s', action);
  }

  /** Some continuation ends with the sender's success. */
  ghost predicate CanFinish(cfg: Setting, s: Sys)
  {
    exists s' :: Reaches(cfg, s, s') && s'.phase == Some(Finished)
  }

  // ----- the sender's part

  lemma InputTaken(cfg: Setting, s0: Sys, s: Sys, input: Input) returns (s': Sys)
    requires cfg.Valid() && OnWay(cfg, s0, s) && s.phase.Some? && Arrives(s.env, input)
    ensures var (next, out) := Step(cfg.job, s.phase.value, input);
            s' == s.(phase := Some(next), net := s.net + out)
    ensures OnWay(cfg, s0, s')
  {
    hide OnWay, Arrives, Step;
    var (next, out) := Step(cfg.job, s.phase.value, input);
    s' := s.(phase := Some(next), net := s.net + out);
    assert Next(cfg, s, s', SenderInput(input));
    Onward(cfg, s0, s, s', SenderInput(input));
  }

  lemma ReplyTaken(cfg: Setting, s0: Sys, s: Sys, r: Reply) returns (s': Sys)
    requires cfg.Valid() && OnWay(cfg, s0, s) && s.phase.Some? && Send(r) in s.env.log
    ensures var (next, out) := Step(cfg.job, s.phase.value, Batch([ReplyBytes(r)]));
            s' == s.(phase := Some(next), net := s.net + out)
    ensures OnWay(cfg, s0, s')
  {
    hide OnWay, Step, ReplyBytes;
    s' := InputTaken(cfg, s0, s, Batch([ReplyBytes(r)]));
  }

  /** A sender that waits and is handed the final ACK has finished. */
  lemma FinalAckTaken(cfg: Setting, s0: Sys, s: Sys)
    requires cfg.Valid() && OnWay(cfg, s0, s) && Ack(cfg.src, FINAL) in s.env.log
    requires s.phase.Some? && (s.phase.value.Sending? || s.phase.value.Closing?)
    ensures CanFinish(cfg, s0)
  {
    hide OnWay, IsAck, ReplyBytes;
    var r := AckReply(cfg.src.tid, FINAL);
    ReplyKinds(r, ACK_FINAL);
    assert [ReplyBytes(r)][0] == ReplyBytes(r);
    var s' := ReplyTaken(cfg, s0, s, r);
    Arrived(cfg, s0, s');
  }

  lemma Arrived(cfg: Setting, s0: Sys, s: Sys)
    requires cfg.Valid() && OnWay(cfg, s0, s) && s.phase == Some(Finished)
    ensures CanFinish(cfg, s0)
  {
    hide Reaches, Inv;
  }

  lemma SenderStarted(cfg: Setting, s0: Sys, s: Sys) returns (s': Sys)
    requires cfg.Valid() && OnWay(cfg, s0, s)
    ensures OnWay(cfg, s0, s') && s' == s.(phase := Some(Asking(0)), net := s.net + Opening(cfg.job))
  {
    hide OnWay, Opening;
    s' := s.(phase := Some(Asking(0)), net := s.net + Opening(cfg.job));
    assert Next(cfg, s, s', SenderStart);
    Onward(cfg, s0, s, s', SenderStart);
  }

  /** Once the final ACK has been sent, a sender that starts anew and gets no resume reply finishes. */
  lemma FinishAcked(cfg: Setting, s0: Sys, s: Sys)
    requires cfg.Valid() && OnWay(cfg, s0, s) && Ack(cfg.src, FINAL) in s.env.log
    ensures CanFinish(cfg, s0)
  {
    hide OnWay, Opening, PacketRun, JobQuery, JobEof;
    PieceBounds(|cfg.src.layout.bytes|, cfg.src.layout.chunkSize, 0);
    var s1 := SenderStarted(cfg, s0, s);
    var s2 := InputTaken(cfg, s0, s1, Timeout);
    var s3 := InputTaken(cfg, s0, s2, Timeout);
    var s4 := InputTaken(cfg, s0, s3, Timeout);
    FinalAckTaken(cfg, s0, s4);
  }

  // ----- the receiver's part

  /** The link delivers what the sender has sent, one PDU after the other. */
  lemma {:induction false} DeliverAll(cfg: Setting, s0: Sys, s: Sys, raws: seq<seq<byte>>) returns (s': Sys)
    requires cfg.Valid() && OnWay(cfg, s0, s) && s.up.Some? && forall i | 0 <= i < |raws| :: raws[i] in s.net
    ensures OnWay(cfg, s0, s') && s.up.value.Ok()
    ensures var w := ReceivedAll(Here(s.up.value, s.env), raws, cfg.dest, cfg.src.crc32);
            s' == s.(up := Some(w.r), env := w.t.env)
    decreases |raws|
  {
    hide OnWay, Received;
    UpOk(cfg, s0, s);
    s' := s;
    if raws != [] {
      var s1 := DeliverOne(cfg, s0, s, raws[0]);
      s' := DeliverAll(cfg, s0, s1, raws[1..]);
      var w := Received(Here(s.up.value, s.env), raws[0], cfg.dest, cfg.src.crc32);
      SameReceivedAll(w, Here(w.r, w.t.env), raws[1..], cfg.dest, cfg.src.crc32);
    }
  }

  lemma UpOk(cfg: Setting, s0: Sys, s: Sys)
    requires cfg.Valid() && OnWay(cfg, s0, s) && s.up.Some?
    ensures s.up.value.Ok() && Safe(cfg.src, Here(s.up.value, s.env))
  {
    hide Reaches;
  }

  lemma DeliverOne(cfg: Setting, s0: Sys, s: Sys, raw: seq<byte>) returns (s': Sys)
    requires cfg.Valid() && OnWay(cfg, s0, s) && s.up.Some? && raw in s.net
    ensures OnWay(cfg, s0, s') && s.up.value.Ok()
    ensures var w := Received(Here(s.up.value, s.env), raw, cfg.dest, cfg.src.crc32);
            s' == s.(up := Some(w.r), env := w.t.env)
  {
    hide Reaches, Received, TrailOk, RecvOk;
    var w := Received(Here(s.up.value, s.env), raw, cfg.dest, cfg.src.crc32);
    assert Deliverable(s.net, raw);
    ReceivedSafe(cfg, s, raw);
    s' := s.(up := Some(w.r), env := w.t.env);
    assert Next(cfg, s, s', Deliver(raw));
    Onward(cfg, s0, s, s', Deliver(raw));
  }

  /** The sender is at chunk `k`, the receiver has all chunks before it, and the link still holds the
      packets of the chunk: chunk by chunk the transfer finishes. */
  lemma {:induction false} FinishFrom(cfg: Setting, s0: Sys, s: Sys, k: u32)
    requires cfg.Valid() && cfg.src.Passes() && OnWay(cfg, s0, s) && s.up.Some?
    requires k < cfg.src.layout.Chunks() && s.phase == Some(Sending(k)) && Has(cfg, Here(s.up.value, s.env), k)
    requires forall i | 0 <= i < |Offer(cfg.job, k)| :: Offer(cfg.job, k)[i] in s.net
    ensures CanFinish(cfg, s0)
    decreases cfg.src.layout.Chunks() - k
  {
    hide OnWay, CanFinish, Has, ReceivedAll, ReplyBytes, Offer, Safe;
    var s1 := DeliverAll(cfg, s0, s, Offer(cfg.job, k));
    OfferArrives(cfg, s0, s, s1, k);
    if s1.up.value.active {
      AckStep(cfg.job, k);
      var s2 := ReplyTaken(cfg, s0, s1, AckReply(cfg.src.tid, k));
      OfferSent(cfg, s1.net, k + 1);
      FinishFrom(cfg, s0, s2, k + 1);
    } else {
      FinalAckTaken(cfg, s0, s1);
    }
  }

  /** A chunk and its EOF. */
  function Offer(job: Job, k: u32): seq<seq<byte>>
    requires job.Valid() && k < job.layout.Chunks()
  {
    ChunkPdus(job, k) + [JobEof(job)]
  }

  lemma OfferSent(cfg: Setting, net: seq<seq<byte>>, k: u32)
    requires cfg.Valid() && k < cfg.src.layout.Chunks()
    ensures Begin(cfg.job, k) == (Sending(k), Offer(cfg.job, k))
    ensures var out := Begin(cfg.job, k).1;
            forall i | 0 <= i < |Offer(cfg.job, k)| :: Offer(cfg.job, k)[i] in net + out
  {
  }

  lemma OfferArrives(cfg: Setting, s0: Sys, s: Sys, s': Sys, k: u32)
    requires cfg.Valid() && cfg.src.Passes() && OnWay(cfg, s0, s) && OnWay(cfg, s0, s') && s.up.Some? && s'.up.Some?
    requires k < cfg.src.layout.Chunks() && Has(cfg, Here(s.up.value, s.env), k) && s.up.value.Ok()
    requires var w := ReceivedAll(Here(s.up.value, s.env), Offer(cfg.job, k), cfg.dest, cfg.src.crc32);
             s' == s.(up := Some(w.r), env := w.t.env)
    ensures if s'.up.value.active
            then k + 1 < cfg.src.layout.Chunks() && Has(cfg, Here(s'.up.value, s'.env), k + 1)
                 && Ack(cfg.src, k) in s'.env.log
            else Ack(cfg.src, FINAL) in s'.env.log
  {
    hide ReceivedAll, TrailOk, RecvOk, Rests, Reaches, JobEof, ChunkPdus;
    ChunkThenEof(cfg, Here(s.up.value, s.env), k);
    var w := ReceivedAll(Here(s.up.value, s.env), Offer(cfg.job, k), cfg.dest, cfg.src.crc32);
    if w.r.active {
      UpOk(cfg, s0, s');
    } else {
      OverMeansFile(cfg, w);
    }
  }

  /** The sender starts and asks a receiver that is in the middle of the transfer. */
  lemma FinishActive(cfg: Setting, s0: Sys, s: Sys)
    requires cfg.Valid() && cfg.src.Passes() && OnWay(cfg, s0, s) && s.up.Some? && s.up.value.active
    requires s.phase == Some(Asking(0)) && JobQuery(cfg.job) in s.net
    ensures CanFinish(cfg, s0)
  {
    hide OnWay, CanFinish, ReplyBytes, Offer, Received, JobQuery, JobEof, ResumeChunk, FromChunk, TrailOk, RecvOk;
    UpOk(cfg, s0, s);
    var w := Here(s.up.value, s.env);
    var s1 := DeliverOne(cfg, s0, s, JobQuery(cfg.job));
    QueryAnswered(cfg, w);
    var first := ResumeChunk(w.r, cfg.src.tid);
    ResumeIsFirstMissing(cfg, w);
    var info := InfoReply(cfg.src.tid, first);
    assert s1.env.log[|s1.env.log| - 1] == Send(info);
    var s2 := ReplyTaken(cfg, s0, s1, info);
    InfoTaken(cfg.job, first);
    UpOk(cfg, s0, s2);
    if first == FINAL {
      FinishClosing(cfg, s0, s2);
    } else {
      OfferSent(cfg, s1.net, first);
      FinishFrom(cfg, s0, s2, first);
    }
  }

  lemma InfoTaken(job: Job, first: u32)
    requires job.Valid()
    ensures Step(job, Asking(0), Batch([ReplyBytes(InfoReply(job.tid, first))]))
         == if first == ACK_FINAL then (Closing, [JobEof(job)]) else Begin(job, first)
  {
    hide ReplyBytes, IsInfo, Begin;
    var p := ReplyBytes(InfoReply(job.tid, first));
    InfoFields(job, InfoReply(job.tid, first));
    assert [p][0] == p;
    InfoLength(InfoReply(job.tid, first));
  }

  lemma InfoLength(r: Reply)
    requires r.InfoReply?
    ensures |ReplyBytes(r)| == 9
  {
  }

  /** Every chunk is done and only EOF is missing. */
  lemma FinishClosing(cfg: Setting, s0: Sys, s: Sys)
    requires cfg.Valid() && cfg.src.Passes() && OnWay(cfg, s0, s) && s.up.Some?
    requires s.phase == Some(Closing) && JobEof(cfg.job) in s.net
    requires Has(cfg, Here(s.up.value, s.env), cfg.src.layout.Chunks())
    ensures CanFinish(cfg, s0)
  {
    hide OnWay, CanFinish, Received, JobEof, TrailOk, RecvOk, Rests;
    var s1 := DeliverOne(cfg, s0, s, JobEof(cfg.job));
    EofArrives(cfg, Here(s.up.value, s.env), cfg.src.layout.Chunks());
    OverMeansFile(cfg, Received(Here(s.up.value, s.env), JobEof(cfg.job), cfg.dest, cfg.src.crc32));
    FinalAckTaken(cfg, s0, s1);
  }

  /** The receiver process is stopped, if it runs, and started again. */
  lemma Restarted(cfg: Setting, s0: Sys, s: Sys) returns (s': Sys)
    requires cfg.Valid() && OnWay(cfg, s0, s)
    ensures OnWay(cfg, s0, s') && s'.up.Some?
    ensures s'.up.value.active || s'.up.value.lastAcked == 0 || Ack(cfg.src, FINAL) in s'.env.log
  {
    hide OnWay, Booted, TrailOk;
    var s1 := s.(up := None);
    assert Next(cfg, s, s1, Stop(s.env));
    Onward(cfg, s0, s, s1, Stop(s.env));
    DownOk(cfg, s0, s1);
    var leftover := JournalState(0, 0, 0, 0, 0, 0, false, Zeros(NAME_BYTES), [], []);
    var w0 := Here(Started(leftover), s1.env);
    BootedSafe(cfg.src, w0);
    var w := Booted(w0, cfg.src.crc32);
    s' := s1.(up := Some(w.r), env := w.t.env);
    assert BootsTo(cfg, s1.env, leftover, w);
    assert Next(cfg, s1, s', Boot(leftover));
    Onward(cfg, s0, s1, s', Boot(leftover));
  }

  lemma DownOk(cfg: Setting, s0: Sys, s: Sys)
    requires cfg.Valid() && OnWay(cfg, s0, s) && s.up.None?
    ensures DiskOk(cfg.src, s.env) && TrailOk(cfg.src, Trail(s.env, [s.env]))
  {
    hide Reaches, DiskOk;
  }

  /** The receiver has nothing of the file: Metadata starts the transfer. */
  lemma FinishFresh(cfg: Setting, s0: Sys, s: Sys)
    requires cfg.Valid() && cfg.src.Passes() && SafeName(cfg.job.filename) && OnWay(cfg, s0, s)
    requires s.up.Some? && !s.up.value.active && s.up.value.lastAcked == 0
    requires s.phase == Some(Asking(0)) && MetadataPduBytes(cfg.job) in s.net && JobQuery(cfg.job) in s.net
    ensures CanFinish(cfg, s0)
  {
    hide OnWay, CanFinish, Received, MetadataPduBytes, JobQuery, SafeName, TrailOk, RecvOk, Rests;
    UpOk(cfg, s0, s);
    MetadataStarts(cfg, Here(s.up.value, s.env));
    var s1 := DeliverOne(cfg, s0, s, MetadataPduBytes(cfg.job));
    FinishActive(cfg, s0, s1);
  }

  /** From any state that satisfies the invariant the transfer can still be finished. */
  lemma FinishAny(cfg: Setting, s: Sys)
    requires cfg.Valid() && Inv(cfg, s) && cfg.src.Passes() && SafeName(cfg.job.filename)
    ensures CanFinish(cfg, s)
  {
    hide Inv, CanFinish, MetadataPduBytes, JobQuery, SafeName;
    ReachesItself(cfg, s);
    assert OnWay(cfg, s, s);
    var s1 := Restarted(cfg, s, s);
    var s2 := SenderStarted(cfg, s, s1);
    var opening := Opening(cfg.job);
    assert opening[0] == MetadataPduBytes(cfg.job) && opening[1] == JobQuery(cfg.job);
    if Ack(cfg.src, FINAL) in s2.env.log {
      FinishAcked(cfg, s, s2);
    } else if s2.up.value.active {
      FinishActive(cfg, s, s2);
    } else {
      FinishFresh(cfg, s, s2);
    }
  }

  /** No reachable state is a dead end: whatever losses, damage, crashes and restarts came before, some
      continuation ends with the sender's success, if the file name is one the receiver accepts and the
      checksum passes; and if it does not pass, none does. */
  lemma NeverStuck(cfg: Setting, states: seq<Sys>, actions: seq<Action>, n: nat)
    requires cfg.Valid() && Run(cfg, states, actions) && n < |states| && SafeName(cfg.job.filename)
    ensures CanFinish(cfg, states[n]) <==> cfg.src.Passes()
  {
    hide Inv, Next, SafeName;
    RunInv(cfg, states, actions, n);
    if cfg.src.Passes() {
      FinishAny(cfg, states[n]);
    }
    if CanFinish(cfg, states[n]) {
      var s' :| Reaches(cfg, states[n], s') && s'.phase == Some(Finished);
      ReachesInv(cfg, states[n], s');
      FinishedPasses(cfg, s');
    }
  }

  lemma FinishedPasses(cfg: Setting, s: Sys)
    requires cfg.Valid() && Inv(cfg, s) && s.phase == Some(Finished)
    ensures cfg.src.Passes()
  {
    DiskHere(cfg, s);
  }

  /** There is such a run: from every start, whatever the destination held. */
  lemma SomeRunFinishes(cfg: Setting, s: Sys) returns (states: seq<Sys>, actions: seq<Action>)
    requires cfg.Valid() && Init(cfg, s) && cfg.src.Passes() && SafeName(cfg.job.filename)
    ensures Run(cfg, states, actions) && states[0] == s && states[|actions|].phase == Some(Finished)
  {
    hide Next, Inv, SafeName;
    InitInv(cfg, s);
    FinishAny(cfg, s);
    var s' :| Reaches(cfg, s, s') && s'.phase == Some(Finished);
    states, actions :| Path(cfg, states, actions) && states[0] == s && states[|actions|] == s';
  }
}
