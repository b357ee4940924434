/** One round of EOF, NAK and retransmission: how far it brings the chunk in progress. */
module Progress {
  import opened Bytes
  import opened Geometry
  import opened Ranges
  import opened Wire
  import opened Slots
  import opened JournalCodec
  import opened Storage
  import opened Journals
  import opened Crc
  import opened ReceiverModel
  import opened Resting
  import opened Safety
  import opened SenderModel
  import opened System

  /** How many packets of the chunk in progress are missing or corrupt. */
  function Lacking(slots: seq<Slot>): nat { |slots| - CountGood(slots) }

  lemma LackingOne(slots: seq<Slot>, p: nat, data: seq<byte>)
    requires p < |slots| && !slots[p].Good()
    ensures Lacking(slots) > 0
    ensures Lacking(Inserted(slots, p, data, true)) == Lacking(slots) - 1
    ensures Complete(Inserted(slots, p, data, true)) <==> Lacking(slots) == 1
  {
    CountUpdate(slots, p, Slot(true, true, data));
    CountFull(Inserted(slots, p, data, true));
  }

  /** The receiver while packets of chunk `c` are outstanding. */
  ghost predicate Awaits(cfg: Setting, w: World, c: u32)
    requires cfg.Valid()
  {
    Safe(cfg.src, w) && w.r.active && w.r.current == c != NO_CHUNK
  }

  lemma ConcludedLog(w: World, crc32: seq<byte> -> u32)
    ensures w.t.env.log <= Concluded(w, crc32).t.env.log
  {
  }

  lemma CompletionLog(w: World, crc32: seq<byte> -> u32)
    requires w.r.Ok() && Sane(w.r.st)
    ensures w.t.env.log <= CompletionChecked(w, crc32).t.env.log
  {
    ConcludedLog(w, crc32);
  }

  /** A completed chunk is acknowledged. */
  lemma FlushAcks(w: World, c: u32, crc32: seq<byte> -> u32)
    requires ReadyToFlush(w, c)
    ensures Send(AckReply(w.r.st.tid, c)) in Flushed(w, c, crc32).t.env.log
  {
    FlushedShape(w, c, crc32);
    var idle := Idled(Acked(ChunkStored(w.(t := Allocated(w.t, w.r.st.fileSize)), c), c));
    var e := Send(AckReply(w.r.st.tid, c));
    assert idle.t.env.log[|idle.t.env.log| - 1] == e;
    assert e in idle.t.env.log;
    if idle.r.st.eof {
      CompletionLog(idle, crc32);
    }
  }

  /** After the flush of chunk `c` a receiver that is still active differs in that chunk alone. */
  ghost predicate ChunkDone(before: Recv, after: Recv, c: u32)
    requires c < |before.st.done|
  {
    after == before.(st := before.st.(done := before.st.done[c := true]), slots := [], current := NO_CHUNK)
  }

  lemma FlushedState(w: World, c: u32, crc32: seq<byte> -> u32)
    requires ReadyToFlush(w, c)
    ensures var w' := Flushed(w, c, crc32);
            && w'.r.st == w.r.st.(done := w.r.st.done[c := true])
            && w'.r.slots == [] && w'.r.current == NO_CHUNK
            && (if w'.r.active then ChunkDone(w.r, w'.r, c) else Closed(w', crc32))
  {
    FlushedShape(w, c, crc32);
    var idle := Idled(Acked(ChunkStored(w.(t := Allocated(w.t, w.r.st.fileSize)), c), c));
    if idle.r.st.eof {
      CompletionEnds(idle, crc32);
    }
  }

  /** The transfer has ended with every chunk done; its journal is gone, and its id is remembered if the file
      passed its checksum. */
  ghost predicate Closed(w: World, crc32: seq<byte> -> u32)
  {
    && w.r.st.AllDone() && Ended(w.t.env)
    && (FileCrc(crc32, w.t.env.file) == w.r.st.checksum ==> w.r.lastAcked == w.r.st.tid)
  }

  /** A transfer ends only in this way. */
  lemma CompletionEnds(w: World, crc32: seq<byte> -> u32)
    requires Active(w)
    ensures !CompletionChecked(w, crc32).r.active ==> Closed(CompletionChecked(w, crc32), crc32)
  {
    NothingMissing(w.r.st);
    var w' := CompletionChecked(w, crc32);
    if !w'.r.active {
      var log := w'.t.env.log;
      assert log[|log| - 1] == RemoveJournal;
    }
  }

  /** The slots that a packet of chunk `c` is put into. */
  function SlotsFor(r: Recv, c: u32, total: u32): seq<Slot>
  {
    if r.current == c then r.slots else Fresh(total)
  }

  /** A packet of chunk `c` may come from a stop-and-wait sender: every chunk before it is done, or the
      transfer had already ended once. */
  ghost predicate Expects(cfg: Setting, w: World, c: u32)
    requires cfg.Valid()
  {
    && Safe(cfg.src, w) && w.r.active && c < cfg.src.layout.Chunks()
    && (Ended(w.t.env) || Below(Some(w.r.st), c))
  }

  /** What the receiver does with a packet of the sender is what `handle_data` does. */
  lemma PacketHandled(cfg: Setting, w: World, c: u32, p: u32)
    requires cfg.Valid() && Expects(cfg, w, c) && p < cfg.src.layout.Packets(c)
    ensures w.r.Ok()
    ensures var d, seen := JobData(cfg.job, c, p), Seen(w, c);
            var w' := Received(w, PacketBytes(cfg.job, c, p), cfg.dest, cfg.src.crc32);
            && Rests(seen) && Accepts(seen.r, d) && Crc8(d.data) == d.crc
            && w' == DataHandled(seen, d, cfg.src.crc32) && Safe(cfg.src, w')
  {
    var d := JobData(cfg.job, c, p);
    CountIsPackets(cfg.src, w.r.st, c);
    ParseData(d, cfg.job.layout.packetSize - |d.data|);
    assert LoadedFrom(w.t.env) == Some(w.r.st);
    DataSafe(cfg.src, w, d);
    SeenFirst(w, d, cfg.src.crc32);
  }

  lemma SeenFirst(w: World, d: Data, crc32: seq<byte> -> u32)
    requires Rests(w) && Accepts(w.r, d)
    ensures var seen := Seen(w, d.chunk);
            Rests(seen) && Accepts(seen.r, d) && DataHandled(w, d, crc32) == DataHandled(seen, d, crc32)
  {
    assert Seen(Seen(w, d.chunk), d.chunk) == Seen(w, d.chunk);
  }

  /** A packet of a chunk that is done: its first packet gets the ACK again. */
  lemma RepeatArrives(cfg: Setting, w: World, c: u32, p: u32)
    requires cfg.Valid() && Expects(cfg, w, c) && p < cfg.src.layout.Packets(c)
    requires c < |w.r.st.done| && w.r.st.done[c]
    ensures w.r.Ok()
    ensures var w' := Received(w, PacketBytes(cfg.job, c, p), cfg.dest, cfg.src.crc32);
            && Safe(cfg.src, w')
            && w' == if p == 0 then Acked(Seen(w, c), c) else Seen(w, c)
  {
    PacketHandled(cfg, w, c, p);
    assert Seen(Seen(w, c), c) == Seen(w, c);
  }

  /** The arrival of one packet of a chunk that is not done, as the sender puts it on the wire. */
  lemma PacketArrives(cfg: Setting, w: World, c: u32, p: u32)
    requires cfg.Valid() && Expects(cfg, w, c) && p < cfg.src.layout.Packets(c) < 0x1_0000_0000
    requires c < |w.r.st.done| && !w.r.st.done[c]
    ensures w.r.Ok()
    ensures var seen := Seen(w, c).r;
            var slots := Inserted(SlotsFor(w.r, c, cfg.src.layout.Packets(c)), p, cfg.src.layout.Packet(c, p), true);
            var w' := Received(w, PacketBytes(cfg.job, c, p), cfg.dest, cfg.src.crc32);
            && Safe(cfg.src, w')
            && (!Complete(slots) ==> w'.r == seen.(slots := slots, current := c))
            && (Complete(slots) ==>
                  && Ack(cfg.src, c) in w'.t.env.log
                  && w'.r.st == w.r.st.(done := w.r.st.done[c := true])
                  && w'.r.slots == [] && w'.r.current == NO_CHUNK
                  && (if w'.r.active then ChunkDone(seen, w'.r, c) else Closed(w', cfg.src.crc32)))
  {
    PacketHandled(cfg, w, c, p);
    CountIsPackets(cfg.src, w.r.st, c);
    PacketTakenShape(Seen(w, c), JobData(cfg.job, c, p), cfg.src.crc32);
  }

  lemma PacketTakenShape(w: World, d: Data, crc32: seq<byte> -> u32)
    requires Rests(w) && Accepts(w.r, d) && !w.r.st.done[d.chunk] && d.chunk <= w.r.maxSeen
    ensures var slots := Inserted(SlotsFor(w.r, d.chunk, d.total), d.packet, d.data, Crc8(d.data) == d.crc);
            var w' := DataHandled(w, d, crc32);
            && (!Complete(slots) ==> w'.r == w.r.(slots := slots, current := d.chunk))
            && (Complete(slots) ==>
                  && Send(AckReply(w.r.st.tid, d.chunk)) in w'.t.env.log
                  && w'.r.st == w.r.st.(done := w.r.st.done[d.chunk := true])
                  && w'.r.slots == [] && w'.r.current == NO_CHUNK
                  && (if w'.r.active then ChunkDone(w.r, w'.r, d.chunk) else Closed(w', crc32)))
  {
    OpenedInProgress(w, d);
    assert Seen(w, d.chunk) == w;
    var stored := PacketStored(Opened(w, d), d);
    if Complete(stored.r.slots) {
      assert ReadyToFlush(stored, d.chunk);
      FlushAcks(stored, d.chunk, crc32);
      FlushedState(stored, d.chunk, crc32);
      assert ChunkDone(stored.r, Flushed(stored, d.chunk, crc32).r, d.chunk) ==>
          ChunkDone(w.r, Flushed(stored, d.chunk, crc32).r, d.chunk);
    }
  }

  // ----- several packets

  function ReceivedAll(w: World, raws: seq<seq<byte>>, dest: seq<byte>, crc32: seq<byte> -> u32): World
    requires w.r.Ok() && |dest| == PATH_BYTES
    decreases |raws|
  {
    if raws == [] then w else ReceivedAll(Received(w, raws[0], dest, crc32), raws[1..], dest, crc32)
  }

  ghost predicate Distinct(ps: seq<u32>)
  {
    forall i, j | 0 <= i < j < |ps| :: ps[i] != ps[j]
  }

  ghost predicate AllLacking(slots: seq<Slot>, ps: seq<u32>)
  {
    forall i | 0 <= i < |ps| :: ps[i] < |slots| && !slots[ps[i]].Good()
  }

  /** `raws` are the packets `ps` of chunk `c` as the sender puts them on the wire. */
  ghost predicate Carries(job: Job, raws: seq<seq<byte>>, c: u32, ps: seq<u32>)
    requires job.Valid() && c < job.layout.Chunks()
  {
    |raws| == |ps| && forall i | 0 <= i < |ps| :: ps[i] < job.layout.Packets(c) && raws[i] == PacketBytes(job, c, ps[i])
  }

  /** Chunk `c` is the one to complete next: it is in progress, or none is. */
  ghost predicate InTurn(cfg: Setting, w: World, c: u32)
    requires cfg.Valid()
  {
    && Expects(cfg, w, c) && c < |w.r.st.done| && !w.r.st.done[c]
    && (w.r.current == c || w.r.current == NO_CHUNK)
  }

  /** The slots of chunk `c`, empty if it has not been begun. */
  ghost function SlotsOf(cfg: Setting, w: World, c: u32): seq<Slot>
    requires cfg.Valid() && c < cfg.src.layout.Chunks()
  {
    AtLeastOnePacket(cfg.src.layout, c);
    SlotsFor(w.r, c, cfg.src.layout.Packets(c))
  }

  lemma SlotsLacking(cfg: Setting, w: World, c: u32)
    requires cfg.Valid() && InTurn(cfg, w, c)
    ensures c < cfg.src.layout.Chunks()
    ensures |SlotsOf(cfg, w, c)| == cfg.src.layout.Packets(c) < 0x1_0000_0000 && !Complete(SlotsOf(cfg, w, c))
    ensures Lacking(SlotsOf(cfg, w, c)) > 0 && w.r.Ok()
  {
    AtLeastOnePacket(cfg.src.layout, c);
    assert w.r.current != c ==> !SlotsOf(cfg, w, c)[0].Good();
    CountFull(SlotsOf(cfg, w, c));
  }

  /** Chunk `c` has been flushed and acknowledged; if that ended the transfer, it was the last. */
  ghost predicate ChunkOver(cfg: Setting, before: World, after: World, c: u32)
    requires cfg.Valid() && c < |before.r.st.done|
  {
    && Ack(cfg.src, c) in after.t.env.log
    && after.r.st == before.r.st.(done := before.r.st.done[c := true])
    && after.r.slots == [] && after.r.current == NO_CHUNK
    && (if after.r.active then ChunkDone(Seen(before, c).r, after.r, c) else Closed(after, cfg.src.crc32))
  }

  /** One outstanding packet fills its slot, and the last one completes the chunk. */
  lemma OnePacket(cfg: Setting, w: World, c: u32, p: u32)
    requires cfg.Valid() && InTurn(cfg, w, c) && p < |SlotsOf(cfg, w, c)| && !SlotsOf(cfg, w, c)[p].Good()
    ensures p < cfg.src.layout.Packets(c) && w.r.Ok()
    ensures var w', slots := Received(w, PacketBytes(cfg.job, c, p), cfg.dest, cfg.src.crc32), SlotsOf(cfg, w, c);
            && Safe(cfg.src, w')
            && (Lacking(slots) > 1 ==>
                  && InTurn(cfg, w', c) && w'.r == Seen(w, c).r.(slots := w'.r.slots, current := c)
                  && SlotsOf(cfg, w', c) == Inserted(slots, p, cfg.src.layout.Packet(c, p), true)
                  && Lacking(SlotsOf(cfg, w', c)) == Lacking(slots) - 1)
            && (Lacking(slots) == 1 ==> ChunkOver(cfg, w, w', c))
  {
    AtLeastOnePacket(cfg.src.layout, c);
    SlotsLacking(cfg, w, c);
    LackingOne(SlotsOf(cfg, w, c), p, cfg.src.layout.Packet(c, p));
    PacketArrives(cfg, w, c, p);
  }

  /** Any distinct outstanding packets of the chunk in turn, in any order, count down the outstanding ones
      by their number; when none is left the chunk is flushed and acknowledged. */
  lemma {:induction false} PacketsArrive(cfg: Setting, w: World, c: u32, ps: seq<u32>, raws: seq<seq<byte>>)
    requires cfg.Valid() && InTurn(cfg, w, c)
    requires Distinct(ps) && AllLacking(SlotsOf(cfg, w, c), ps) && Carries(cfg.job, raws, c, ps)
    ensures w.r.Ok() && |ps| <= Lacking(SlotsOf(cfg, w, c))
    ensures var w', n := ReceivedAll(w, raws, cfg.dest, cfg.src.crc32), Lacking(SlotsOf(cfg, w, c));
            && Safe(cfg.src, w')
            && (|ps| < n ==>
                  && InTurn(cfg, w', c) && w'.r.st == w.r.st && Lacking(SlotsOf(cfg, w', c)) == n - |ps|
                  && (ps == [] || w'.r.current == c))
            && (|ps| == n ==> ChunkOver(cfg, w, w', c))
    decreases |ps|
  {
    hide Received, PacketBytes, Safe, Below;
    var slots := SlotsOf(cfg, w, c);
    SlotsLacking(cfg, w, c);
    AtMostLacking(slots, ps);
    if ps != [] {
      var p, rest := ps[0], ps[1..];
      OnePacket(cfg, w, c, p);
      var w1 := Received(w, raws[0], cfg.dest, cfg.src.crc32);
      if Lacking(slots) > 1 {
        StillLacking(slots, ps, cfg.src.layout.Packet(c, p));
        PacketsArrive(cfg, w1, c, rest, raws[1..]);
      } else {
        assert raws[1..] == [];
      }
    }
  }

  /** Filling the slot of the first leaves the others outstanding. */
  lemma StillLacking(slots: seq<Slot>, ps: seq<u32>, data: seq<byte>)
    requires ps != [] && Distinct(ps) && AllLacking(slots, ps)
    ensures Distinct(ps[1..]) && AllLacking(Inserted(slots, ps[0], data, true), ps[1..])
  {
    var rest := ps[1..];
    forall i | 0 <= i < |rest|
      ensures rest[i] < |slots| && !Inserted(slots, ps[0], data, true)[rest[i]].Good()
    {
      assert rest[i] == ps[i + 1] != ps[0];
    }
  }

  lemma {:induction false} AtMostLacking(slots: seq<Slot>, ps: seq<u32>)
    requires Distinct(ps) && AllLacking(slots, ps)
    ensures |ps| <= Lacking(slots)
    decreases |ps|
  {
    if ps != [] {
      var n := |ps| - 1;
      LackingOne(slots, ps[n], []);
      AtMostLacking(Inserted(slots, ps[n], [], true), ps[..n]);
    }
  }

  // ----- the packets of the whole file

  /** How many packets of chunk `c` are still to come. */
  function Needed(l: Layout, r: Recv, c: nat): nat
    requires l.chunkSize > 0 && l.packetSize > 0 && c < l.Chunks() == |r.st.done|
  {
    if r.st.done[c] then 0 else if r.current == c then Lacking(r.slots) else l.Packets(c)
  }

  /** The same for the first `n` chunks. */
  function NeededIn(l: Layout, r: Recv, n: nat): nat
    requires l.chunkSize > 0 && l.packetSize > 0 && n <= l.Chunks() == |r.st.done|
  {
    if n == 0 then 0 else NeededIn(l, r, n - 1) + Needed(l, r, n - 1)
  }

  /** How many packets of the file are still to come. */
  function Total(l: Layout, r: Recv): nat
    requires l.chunkSize > 0 && l.packetSize > 0 && l.Chunks() == |r.st.done|
  {
    NeededIn(l, r, l.Chunks())
  }

  lemma {:induction false} NeededChange(l: Layout, a: Recv, b: Recv, c: nat, n: nat)
    requires l.chunkSize > 0 && l.packetSize > 0 && n <= l.Chunks() == |a.st.done| == |b.st.done| && c < l.Chunks()
    requires forall i: nat | i < l.Chunks() && i != c :: Needed(l, b, i) == Needed(l, a, i)
    ensures NeededIn(l, b, n) == NeededIn(l, a, n) + if c < n then Needed(l, b, c) - Needed(l, a, c) else 0
  {
    if n > 0 {
      NeededChange(l, a, b, c, n - 1);
    }
  }

  /** The link delivers `n` distinct outstanding packets of the chunk in turn, in any order. */
  ghost predicate Productive(cfg: Setting, w: World, w': World, n: nat)
    requires cfg.Valid()
  {
    exists c: u32, ps, raws :: Brings(cfg, w, w', c, ps, raws) && |ps| == n
  }

  ghost predicate Brings(cfg: Setting, w: World, w': World, c: u32, ps: seq<u32>, raws: seq<seq<byte>>)
    requires cfg.Valid()
  {
    && InTurn(cfg, w, c) && w.r.Ok() && Distinct(ps) && AllLacking(SlotsOf(cfg, w, c), ps)
    && Carries(cfg.job, raws, c, ps)
    && w' == ReceivedAll(w, raws, cfg.dest, cfg.src.crc32)
  }

  /** Packets that arrive lower the total by their number, also when they complete a chunk or the file. */
  lemma BroughtLowers(cfg: Setting, w: World, w': World, c: u32, ps: seq<u32>, raws: seq<seq<byte>>)
    requires cfg.Valid() && Brings(cfg, w, w', c, ps, raws)
    ensures Safe(cfg.src, w') && cfg.src.layout.Chunks() == |w.r.st.done| == |w'.r.st.done|
    ensures Total(cfg.src.layout, w'.r) + |ps| == Total(cfg.src.layout, w.r)
  {
    PacketsArrive(cfg, w, c, ps, raws);
    NeededHere(cfg, w, c);
    if |ps| < Lacking(SlotsOf(cfg, w, c)) {
      NeededHere(cfg, w', c);
    }
    NeededChange(cfg.src.layout, w.r, w'.r, c, cfg.src.layout.Chunks());
  }

  lemma NeededHere(cfg: Setting, w: World, c: u32)
    requires cfg.Valid() && InTurn(cfg, w, c)
    ensures cfg.src.layout.Chunks() == |w.r.st.done|
    ensures Needed(cfg.src.layout, w.r, c) == Lacking(SlotsOf(cfg, w, c))
  {
    SlotsLacking(cfg, w, c);
    CountFresh(cfg.src.layout.Packets(c));
  }

  /** Bytes other than a data packet: nothing that parses, Metadata of the transfer, EOF or a query. */
  predicate Control(cfg: Setting, raw: seq<byte>)
  {
    match Parse(raw)
    case None => true
    case Some(MetadataPdu(m)) => m.tid == cfg.src.tid
    case Some(DataPdu(_)) => false
    case Some(EofPdu(_, _)) => true
    case Some(QueryPdu(_)) => true
  }

  /** While the transfer is active these change nothing but the EOF mark and the replies, or end it. */
  lemma ControlKeeps(cfg: Setting, w: World, raw: seq<byte>)
    requires cfg.Valid() && Safe(cfg.src, w) && w.r.active && Control(cfg, raw)
    ensures w.r.Ok() && |w.r.st.done| == cfg.src.layout.Chunks() > 0
    ensures var w' := Received(w, raw, cfg.dest, cfg.src.crc32);
            && Safe(cfg.src, w')
            && w'.r.st.done == w.r.st.done && w'.r.current == w.r.current && w'.r.slots == w.r.slots
            && (!w'.r.active ==> Closed(w', cfg.src.crc32))
  {
    PieceBounds(|cfg.src.layout.bytes|, cfg.src.layout.chunkSize, 0);
    match Parse(raw)
    case None =>
    case Some(MetadataPdu(m)) =>
    case Some(EofPdu(tid, _)) =>
      EofSafe(cfg.src, w, tid);
      if tid == w.r.st.tid {
        EofMarkedActive(w);
        CompletionEnds(MarkedEof(w), cfg.src.crc32);
      }
    case Some(QueryPdu(tid)) => HandledSafe(cfg.src, w, QueryPdu(tid), cfg.dest);
  }

  // ----- single packets, damaged and repeated ones included

  /** Does `d` fill a slot that was missing or corrupt? */
  function Gain(r: Recv, d: Data): nat
    requires r.Ok()
  {
    if Accepts(r, d) && !r.st.done[d.chunk] && d.packet < |SlotsFor(r, d.chunk, d.total)|
       && !SlotsFor(r, d.chunk, d.total)[d.packet].Good() && Crc8(d.data) == d.crc then 1 else 0
  }

  /** Does `d` spoil a slot that was intact? */
  function Loss(r: Recv, d: Data): nat
    requires r.Ok()
  {
    if Accepts(r, d) && !r.st.done[d.chunk] && d.packet < |SlotsFor(r, d.chunk, d.total)|
       && SlotsFor(r, d.chunk, d.total)[d.packet].Good() && Crc8(d.data) != d.crc then 1 else 0
  }

  /** A packet that does not interrupt another chunk; from a stop-and-wait sender none does before the transfer
      has ended once. */
  ghost predicate Fitting(cfg: Setting, w: World, d: Data)
    requires cfg.Valid()
  {
    && Honest(cfg.src, w.t.env, DataPdu(d))
    && (Ended(w.t.env) ==> w.r.current == d.chunk || w.r.current == NO_CHUNK)
  }

  lemma NoInterruption(cfg: Setting, w: World, d: Data)
    requires cfg.Valid() && Safe(cfg.src, w) && Fitting(cfg, w, d) && w.r.Ok() && Accepts(w.r, d)
    requires !w.r.st.done[d.chunk]
    ensures w.r.current == d.chunk || w.r.current == NO_CHUNK
  {
    var loaded := LoadedFrom(w.t.env);
    assert loaded == Some(w.r.st);
    if !Ended(w.t.env) && w.r.current != NO_CHUNK {
      assert Below(loaded, d.chunk) && Below(loaded, w.r.maxSeen);
      assert !DoneIn(loaded, d.chunk) && !DoneIn(loaded, w.r.current);
    }
  }

  /** Whatever data packet the link delivers in a run, until the transfer has ended, is of this kind. */
  lemma DeliveredFits(cfg: Setting, s: Sys, raw: seq<byte>, d: Data)
    requires cfg.Valid() && Inv(cfg, s) && s.up.Some? && Deliverable(s.net, raw) && !Ended(s.env)
    requires Parse(raw) == Some(DataPdu(d))
    ensures Fitting(cfg, Here(s.up.value, s.env), d)
  {
    DeliverableHonest(cfg, s, raw);
  }

  lemma LackingChange(slots: seq<Slot>, p: nat, data: seq<byte>, ok: bool)
    requires p < |slots|
    ensures Lacking(Inserted(slots, p, data, ok)) + (if !slots[p].Good() && ok then 1 else 0)
         == Lacking(slots) + (if slots[p].Good() && !ok then 1 else 0)
  {
    CountUpdate(slots, p, Slot(true, ok, data));
  }

  /** The arrival of one data packet, intact, damaged or repeated: what is still to come goes down by one if it
      fills a slot, up by one if it spoils one, and stays the same otherwise. */
  lemma DataConserves(cfg: Setting, w: World, d: Data)
    requires cfg.Valid() && Safe(cfg.src, w) && w.r.active && Fitting(cfg, w, d)
    ensures w.r.Ok() && |w.r.st.done| == cfg.src.layout.Chunks()
    ensures var w' := DataHandled(w, d, cfg.src.crc32);
            && Safe(cfg.src, w') && |w'.r.st.done| == cfg.src.layout.Chunks()
            && Total(cfg.src.layout, w'.r) + Gain(w.r, d) == Total(cfg.src.layout, w.r) + Loss(w.r, d)
  {
    DataSafe(cfg.src, w, d);
    PieceBounds(|cfg.src.layout.bytes|, cfg.src.layout.chunkSize, 0);
    var l, w' := cfg.src.layout, DataHandled(w, d, cfg.src.crc32);
    if Accepts(w.r, d) && !w.r.st.done[d.chunk] {
      NewDataConserves(cfg, w, d);
    } else {
      assert w'.r == w.r.(maxSeen := w'.r.maxSeen);
      NeededChange(l, w.r, w'.r, 0, l.Chunks());
    }
  }

  lemma NewDataConserves(cfg: Setting, w: World, d: Data)
    requires cfg.Valid() && Safe(cfg.src, w) && Fitting(cfg, w, d)
    requires w.r.Ok() && Accepts(w.r, d) && !w.r.st.done[d.chunk] && |w.r.st.done| == cfg.src.layout.Chunks()
    ensures var w' := DataHandled(w, d, cfg.src.crc32);
            && |w'.r.st.done| == cfg.src.layout.Chunks()
            && Total(cfg.src.layout, w'.r) + Gain(w.r, d) == Total(cfg.src.layout, w.r) + Loss(w.r, d)
  {
    hide Crc8, Fresh;
    hide NeededIn, Lacking, DataHandled, TrailOk;
    var l, c := cfg.src.layout, d.chunk;
    NoInterruption(cfg, w, d);
    CountIsPackets(cfg.src, w.r.st, c);
    SeenFirst(w, d, cfg.src.crc32);
    PacketTakenShape(Seen(w, c), d, cfg.src.crc32);
    var w' := DataHandled(w, d, cfg.src.crc32);
    var slots, ok := SlotsFor(w.r, c, d.total), Crc8(d.data) == d.crc;
    FreshLacking(d.total);
    if d.packet < |slots| {
      LackingChange(slots, d.packet, d.data, ok);
    }
    CompleteLacksNone(Inserted(slots, d.packet, d.data, ok));
    assert Needed(l, w.r, c) == Lacking(slots);
    assert Needed(l, w'.r, c) == Lacking(Inserted(slots, d.packet, d.data, ok));
    NeededChange(l, w.r, w'.r, c, l.Chunks());
  }

  lemma FreshLacking(n: nat)
    ensures Lacking(Fresh(n)) == n
  {
    CountFresh(n);
  }

  lemma CompleteLacksNone(slots: seq<Slot>)
    ensures Complete(slots) ==> Lacking(slots) == 0
  {
    CountFull(slots);
  }

  ghost predicate BringsOne(cfg: Setting, w: World, w': World, raw: seq<byte>, d: Data, gained: nat, lost: nat)
    requires cfg.Valid()
  {
    && w.r.Ok() && Parse(raw) == Some(DataPdu(d)) && Fitting(cfg, w, d)
    && gained == Gain(w.r, d) && lost == Loss(w.r, d)
    && w' == Received(w, raw, cfg.dest, cfg.src.crc32)
  }

  // ----- any number of steps

  /** A step of a transfer that is retried any number of times: a control PDU, a data packet of any kind, or
      `gained` distinct outstanding packets at once. */
  ghost predicate Retries(cfg: Setting, w: World, w': World, gained: nat, lost: nat)
    requires cfg.Valid()
  {
    && w.r.active && w.r.Ok()
    && (|| (lost == 0 && Productive(cfg, w, w', gained))
        || (gained == 0 && lost == 0
            && exists raw :: Control(cfg, raw) && w' == Received(w, raw, cfg.dest, cfg.src.crc32))
        || (exists raw, d :: BringsOne(cfg, w, w', raw, d, gained, lost)))
  }

  ghost predicate Retrying(cfg: Setting, ws: seq<World>, gains: seq<nat>, losses: seq<nat>)
    requires cfg.Valid()
  {
    && |ws| == |gains| + 1 == |losses| + 1
    && Safe(cfg.src, ws[0]) && |ws[0].r.st.done| == cfg.src.layout.Chunks()
    && forall i | 0 <= i < |gains| :: Retries(cfg, ws[i], ws[i + 1], gains[i], losses[i])
  }

  function Sum(ns: seq<nat>): nat
  {
    if ns == [] then 0 else Sum(ns[..|ns| - 1]) + ns[|ns| - 1]
  }

  lemma RetryConserves(cfg: Setting, w: World, w': World, gained: nat, lost: nat)
    requires cfg.Valid() && Safe(cfg.src, w) && Retries(cfg, w, w', gained, lost)
    ensures Safe(cfg.src, w') && cfg.src.layout.Chunks() == |w.r.st.done| == |w'.r.st.done|
    ensures Total(cfg.src.layout, w'.r) + gained == Total(cfg.src.layout, w.r) + lost
  {
    hide Received, Safe, Lacking, Productive, BringsOne;
    if lost == 0 && Productive(cfg, w, w', gained) {
      ProductiveLowers(cfg, w, w', gained);
    } else if raw, d :| BringsOne(cfg, w, w', raw, d, gained, lost) {
      OneConserves(cfg, w, w', raw, d, gained, lost);
    } else {
      var raw :| Control(cfg, raw) && w' == Received(w, raw, cfg.dest, cfg.src.crc32);
      ControlKeeps(cfg, w, raw);
      var l := cfg.src.layout;
      NeededChange(l, w.r, w'.r, 0, l.Chunks());
    }
  }

  lemma ProductiveLowers(cfg: Setting, w: World, w': World, n: nat)
    requires cfg.Valid() && Productive(cfg, w, w', n)
    ensures Safe(cfg.src, w') && cfg.src.layout.Chunks() == |w.r.st.done| == |w'.r.st.done|
    ensures Total(cfg.src.layout, w'.r) + n == Total(cfg.src.layout, w.r)
  {
    hide Received, Safe, Lacking;
    var c: u32, ps, raws :| Brings(cfg, w, w', c, ps, raws) && |ps| == n;
    BroughtLowers(cfg, w, w', c, ps, raws);
  }

  lemma OneConserves(cfg: Setting, w: World, w': World, raw: seq<byte>, d: Data, gained: nat, lost: nat)
    requires cfg.Valid() && Safe(cfg.src, w) && w.r.active && BringsOne(cfg, w, w', raw, d, gained, lost)
    ensures Safe(cfg.src, w') && cfg.src.layout.Chunks() == |w.r.st.done| == |w'.r.st.done|
    ensures Total(cfg.src.layout, w'.r) + gained == Total(cfg.src.layout, w.r) + lost
  {
    hide Safe, Total, Gain, Loss, DataHandled;
    DataConserves(cfg, w, d);
  }

  /** Conservation: what is still to come and what has arrived make up what was to come and what was spoiled. */
  lemma {:induction false} RetryingConserves(cfg: Setting, ws: seq<World>, gains: seq<nat>, losses: seq<nat>)
    requires cfg.Valid() && Retrying(cfg, ws, gains, losses)
    ensures var l, last := cfg.src.layout, ws[|gains|];
            && Safe(cfg.src, last) && |last.r.st.done| == l.Chunks()
            && Total(l, last.r) + Sum(gains) == Total(l, ws[0].r) + Sum(losses)
    decreases |gains|
  {
    hide Retries, Safe, Total;
    if gains != [] {
      var n := |gains| - 1;
      RetryingConserves(cfg, ws[..n + 1], gains[..n], losses[..n]);
      RetryConserves(cfg, ws[n], ws[n + 1], gains[n], losses[n]);
    }
  }

  function Rounds(ns: seq<nat>): nat
  {
    if ns == [] then 0 else Rounds(ns[..|ns| - 1]) + if ns[|ns| - 1] > 0 then 1 else 0
  }

  lemma {:induction false} RoundsAtMostSum(ns: seq<nat>)
    ensures Rounds(ns) <= Sum(ns)
  {
    if ns != [] {
      RoundsAtMostSum(ns[..|ns| - 1]);
    }
  }

  /** However often a transfer is retried, the productive rounds are at most as many as the packets that were to
      come at first and those spoiled since. */
  lemma RoundsBounded(cfg: Setting, ws: seq<World>, gains: seq<nat>, losses: seq<nat>)
    requires cfg.Valid() && Retrying(cfg, ws, gains, losses)
    ensures Rounds(gains) <= Total(cfg.src.layout, ws[0].r) + Sum(losses)
  {
    RetryingConserves(cfg, ws, gains, losses);
    RoundsAtMostSum(gains);
  }

  /** While chunk `c` stays in progress the total changes with its outstanding packets. */
  lemma {:induction false} TotalInChunk(cfg: Setting, a: World, b: World, c: u32)
    requires cfg.Valid() && Awaits(cfg, a, c) && Awaits(cfg, b, c) && a.r.st.done == b.r.st.done
    ensures |a.r.st.done| == |b.r.st.done| == cfg.src.layout.Chunks()
    ensures Total(cfg.src.layout, b.r) + Lacking(a.r.slots) == Total(cfg.src.layout, a.r) + Lacking(b.r.slots)
  {
    var l := cfg.src.layout;
    NeededChange(l, a.r, b.r, c, l.Chunks());
  }

  /** So while one chunk stays unacknowledged, its own outstanding packets bound the productive rounds. */
  lemma RoundsOfChunk(cfg: Setting, ws: seq<World>, gains: seq<nat>, losses: seq<nat>, c: u32)
    requires cfg.Valid() && Retrying(cfg, ws, gains, losses)
    requires Awaits(cfg, ws[0], c) && Awaits(cfg, ws[|gains|], c) && ws[|gains|].r.st.done == ws[0].r.st.done
    ensures Lacking(ws[|gains|].r.slots) + Sum(gains) == Lacking(ws[0].r.slots) + Sum(losses)
    ensures Lacking(ws[|gains|].r.slots) + Rounds(gains) <= Lacking(ws[0].r.slots) + Sum(losses)
  {
    hide Awaits, Retries, Lacking, Safe, Total;
    TotalInChunk(cfg, ws[0], ws[|gains|], c);
    RetryingConserves(cfg, ws, gains, losses);
    RoundsAtMostSum(gains);
  }

  /** At the start these are all packets of the file. */
  lemma {:induction false} NothingYet(l: Layout, r: Recv, n: nat)
    requires l.chunkSize > 0 && l.packetSize > 0 && n <= l.Chunks() == |r.st.done|
    requires r.current == NO_CHUNK && l.Chunks() <= UINT32_MAX && forall c | 0 <= c < |r.st.done| :: !r.st.done[c]
    ensures NeededIn(l, r, n) == PacketsIn(l, n)
  {
    if n > 0 {
      NothingYet(l, r, n - 1);
    }
  }

  function PacketsIn(l: Layout, n: nat): nat
    requires l.chunkSize > 0 && l.packetSize > 0 && n <= l.Chunks()
  {
    if n == 0 then 0 else PacketsIn(l, n - 1) + l.Packets(n - 1)
  }

  /** Nothing is left to come exactly when every chunk is done. */
  lemma {:induction false} NothingNeeded(cfg: Setting, w: World, n: nat)
    requires cfg.Valid() && Safe(cfg.src, w) && w.r.active && n <= cfg.src.layout.Chunks()
    ensures |w.r.st.done| == cfg.src.layout.Chunks()
    ensures NeededIn(cfg.src.layout, w.r, n) == 0 <==> forall c | 0 <= c < n :: w.r.st.done[c]
  {
    if n > 0 {
      NothingNeeded(cfg, w, n - 1);
      AtLeastOnePacket(cfg.src.layout, n - 1);
      if w.r.current == n - 1 {
        CountFull(w.r.slots);
      }
    }
  }

  // ----- a whole round

  /** EOF makes the receiver ask for chunk `c`: it is in progress, or none is and it is the first missing chunk
      and has been seen. */
  ghost predicate AsksFor(cfg: Setting, w: World, c: u32)
    requires cfg.Valid()
  {
    && InTurn(cfg, w, c)
    && (w.r.current == NO_CHUNK ==> c <= w.r.maxSeen && forall i: u32 | i < c :: w.r.st.done[i])
  }

  lemma RunsOfFresh(n: u32)
    requires n > 0
    ensures Runs(Missing(Fresh(n))) == [Range(0, n - 1)]
  {
    var missing, all := Missing(Fresh(n)), [Range(0, n - 1)];
    forall p: nat | p < n
      ensures missing[p] && CoveredBy(all, p)
    {
      assert Covers(all[0], p);
    }
    assert Canonical(all, missing);
    RunsCanonical(missing);
    CanonicalUnique(Runs(missing), all, missing);
  }

  /** It asks for exactly the outstanding packets. */
  lemma EofAsks(cfg: Setting, w: World, c: u32) returns (rs: seq<Range>)
    requires cfg.Valid() && AsksFor(cfg, w, c)
    ensures rs == Runs(Missing(SlotsOf(cfg, w, c))) && Canonical(rs, Missing(SlotsOf(cfg, w, c)))
    ensures w.r.Ok()
    ensures var w' := Received(w, JobEof(cfg.job), cfg.dest, cfg.src.crc32);
            && InTurn(cfg, w', c) && SlotsOf(cfg, w', c) == SlotsOf(cfg, w, c)
            && w'.t.env.log != []
            && w'.t.env.log[|w'.t.env.log| - 1] == Send(NakReply(cfg.src.tid, ForChunk(c, rs)))
  {
    hide Received, JobEof, TrailOk, MarkedEof, Missing;
    rs := Runs(Missing(SlotsOf(cfg, w, c)));
    RunsCanonical(Missing(SlotsOf(cfg, w, c)));
    EofChecks(cfg, w);
    if w.r.current == c {
      MarkedAsks(MarkedEof(w), c, cfg.src.crc32);
    } else {
      AtLeastOnePacket(cfg.src.layout, c);
      RunsOfFresh(cfg.src.layout.Packets(c));
      MarkedAsksAll(cfg, MarkedEof(w), c);
    }
  }

  /** EOF is recorded, and then the completion check runs. */
  lemma EofChecks(cfg: Setting, w: World)
    requires cfg.Valid() && Safe(cfg.src, w) && w.r.active
    ensures w.r.Ok()
    ensures var m := MarkedEof(w);
            && Active(m) && Matches(m.r.st, cfg.src) && m.r == w.r.(st := w.r.st.(eof := true))
            && (Ended(m.t.env) <==> Ended(w.t.env))
            && Received(w, JobEof(cfg.job), cfg.dest, cfg.src.crc32) == CompletionChecked(m, cfg.src.crc32)
            && Safe(cfg.src, CompletionChecked(m, cfg.src.crc32))
  {
    hide Parse, EofBytes, TrailOk;
    ParseEof(cfg.job.tid, cfg.job.checksum);
    EofSafe(cfg.src, w, cfg.src.tid);
    MarkedEofSafe(cfg.src, w);
    EofMarkedActive(w);
  }

  /** The NAK for a whole chunk names it in one range. */
  lemma MarkedAsksAll(cfg: Setting, w: World, c: u32)
    requires cfg.Valid() && Active(w) && Matches(w.r.st, cfg.src) && w.r.current == NO_CHUNK && w.r.st.eof
    requires c < |w.r.st.done| && c <= w.r.maxSeen && !w.r.st.done[c] && forall i: u32 | i < c :: w.r.st.done[i]
    ensures 0 < cfg.src.layout.Packets(c) < 0x1_0000_0000
    ensures var w', rs := CompletionChecked(w, cfg.src.crc32), [Range(0, cfg.src.layout.Packets(c) - 1)];
            && w'.r == w.r
            && w'.t.env.log == w.t.env.log + [Send(NakReply(w.r.st.tid, ForChunk(c, rs)))]
  {
    hide Runs, Canonical, FirstSeen, ExpectedPackets;
    AtLeastOnePacket(cfg.src.layout, c);
    CountIsPackets(cfg.src, w.r.st, c);
    LeastIsSeen(w.r.st, w.r.maxSeen, c);
    assert ChunkNak(w.r.st, c).ranges == ForChunk(c, [Range(0, cfg.src.layout.Packets(c) - 1)]);
  }

  /** The least missing chunk, once it has been seen, is the one that is asked for. */
  lemma LeastIsSeen(st: JournalState, seen: u32, c: u32)
    requires c < |st.done| == st.totalChunks && c <= seen && !st.done[c] && forall i: u32 | i < c :: st.done[i]
    ensures FirstSeen(Runs(st.Missing()), seen) == Some(c)
  {
    var missing := st.Missing();
    RunsCanonical(missing);
    FirstIsLeast(Runs(missing), missing);
    FirstSeenIsLeast(st, seen);
    assert missing[c];
  }

  lemma MarkedAsks(w: World, c: u32, crc32: seq<byte> -> u32)
    requires Active(w) && w.r.current == c != NO_CHUNK && w.r.st.eof
    ensures var w', rs := CompletionChecked(w, crc32), Runs(Missing(w.r.slots));
            && w'.r == w.r
            && w'.t.env.log == w.t.env.log + [Send(NakReply(w.r.st.tid, ForChunk(c, rs)))]
  {
    var missing := Missing(w.r.slots);
    RunsCanonical(missing);
    FirstIsLeast(Runs(missing), missing);
    assert Runs(missing) != [];
  }

  /** The sender's answer to that NAK: each outstanding packet once, and nothing else. */
  lemma AnswerIsOutstanding(cfg: Setting, slots: seq<Slot>, c: u32, rs: seq<Range>)
    requires cfg.Valid() && Canonical(rs, Missing(slots)) && |rs| < 0x1_0000_0000
    requires c < cfg.src.layout.Chunks() && |slots| == cfg.src.layout.Packets(c)
    ensures var nak := NakReply(cfg.src.tid, ForChunk(c, rs));
            && (forall k | 0 <= k < |rs| :: InFile(cfg.job, ForChunk(c, rs)[k]))
            && NakAnswer(cfg.job, ReplyBytes(nak)) == (Retransmission(cfg.job, ForChunk(c, rs)), true)
            && Proper(ForChunk(c, rs))
            && DisjointRanges(ForChunk(c, rs))
  {
    var ns := ForChunk(c, rs);
    NakRoundTrip(cfg.src.tid, ns);
    forall k | 0 <= k < |ns|
      ensures InFile(cfg.job, ns[k])
    {
    }
    NakAnsweredInFile(cfg.job, ReplyBytes(NakReply(cfg.src.tid, ns)));
  }

  /** The packets that the `ks`-th answers to a NAK carry. */
  lemma AnsweredPackets(cfg: Setting, slots: seq<Slot>, c: u32, rs: seq<Range>, ks: seq<nat>) returns (ps: seq<u32>)
    requires cfg.Valid() && Canonical(rs, Missing(slots)) && |rs| < 0x1_0000_0000
    requires c < cfg.src.layout.Chunks() && |slots| == cfg.src.layout.Packets(c)
    requires Proper(ForChunk(c, rs)) && DisjointRanges(ForChunk(c, rs))
    requires forall k | 0 <= k < |rs| :: InFile(cfg.job, ForChunk(c, rs)[k])
    requires forall i | 0 <= i < |ks| :: ks[i] < |Retransmission(cfg.job, ForChunk(c, rs))|
    requires forall i, j | 0 <= i < j < |ks| :: ks[i] != ks[j]
    ensures Distinct(ps) && AllLacking(slots, ps)
    ensures Carries(cfg.job, Chosen(Retransmission(cfg.job, ForChunk(c, rs)), ks), c, ps)
  {
    hide PacketBytes;
    var ns := ForChunk(c, rs);
    var answer, pairs := Retransmission(cfg.job, ns), Requested(ns);
    RetransmissionLength(cfg.job, ns);
    forall i | 0 <= i < |ks|
      ensures pairs[ks[i]].0 == c && pairs[ks[i]].1 < |slots| && !slots[pairs[ks[i]].1].Good()
      ensures IsPacket(cfg.job, answer[ks[i]], pairs[ks[i]])
    {
      RetransmissionIs(cfg.job, ns, ks[i]);
      RequestedIsMissing(slots, c, rs, ks[i]);
    }
    ps := seq(|ks|, i requires 0 <= i < |ks| => pairs[ks[i]].1);
    forall i, j | 0 <= i < j < |ks|
      ensures ps[i] != ps[j]
    {
      if ks[i] < ks[j] {
        RequestedOnce(ns, ks[i], ks[j]);
      } else {
        RequestedOnce(ns, ks[j], ks[i]);
      }
      assert pairs[ks[i]] != pairs[ks[j]] && pairs[ks[i]].0 == pairs[ks[j]].0;
    }
  }

  lemma RequestedIsMissing(slots: seq<Slot>, c: u32, rs: seq<Range>, k: nat)
    requires Canonical(rs, Missing(slots)) && Proper(ForChunk(c, rs)) && k < |Requested(ForChunk(c, rs))|
    ensures var (d, p) := Requested(ForChunk(c, rs))[k];
            d == c && p < |slots| && !slots[p].Good()
  {
    var (d, p) := Requested(ForChunk(c, rs))[k];
    assert (d, p) in Requested(ForChunk(c, rs));
    RequestedExactly(ForChunk(c, rs), d, p);
    var i :| 0 <= i < |rs| && InRange(ForChunk(c, rs)[i], d, p);
    assert Covers(rs[i], p);
    assert CoveredBy(rs, p);
    assert Missing(slots)[p];
  }

  /** The chosen elements of an answer: what the link lets through, in the order it does. */
  function Chosen(answer: seq<seq<byte>>, ks: seq<nat>): seq<seq<byte>>
    requires forall i | 0 <= i < |ks| :: ks[i] < |answer|
  {
    seq(|ks|, i requires 0 <= i < |ks| => answer[ks[i]])
  }

  /** One round: EOF arrives and makes the receiver ask for chunk `c`, its NAK reaches the sender, and of the
      sender's answer the link delivers the parts `ks`, in any order, intact and once each. The outstanding
      packets go down by exactly as many, those of the chunk and those of the whole file; when all are delivered
      the chunk is acknowledged. */
  lemma RoundProgress(cfg: Setting, w: World, c: u32, ks: seq<nat>) returns (nak: Reply, answer: seq<seq<byte>>)
    requires cfg.Valid() && AsksFor(cfg, w, c)
    requires forall i, j | 0 <= i < j < |ks| :: ks[i] != ks[j]
    requires forall i | 0 <= i < |ks| :: ks[i] < Lacking(SlotsOf(cfg, w, c))
    ensures w.r.Ok()
    ensures var asked := Received(w, JobEof(cfg.job), cfg.dest, cfg.src.crc32);
            && asked.t.env.log != [] && asked.t.env.log[|asked.t.env.log| - 1] == Send(nak)
            && NakAnswer(cfg.job, ReplyBytes(nak)) == (answer, true)
            && |answer| == Lacking(SlotsOf(cfg, w, c))
            && Retries(cfg, w, asked, 0, 0)
            && RoundEnds(cfg, w, asked, ReceivedAll(asked, Chosen(answer, ks), cfg.dest, cfg.src.crc32), c, |ks|)
  {
    hide Received, InTurn, Retries, NakAnswer, Lacking, Canonical, RoundEnds, SlotsOf, JobEof, ForChunk, ReplyBytes;
    hide Carries, AllLacking, Distinct, Chosen, Missing;
    SlotsLacking(cfg, w, c);
    var rs := EofAsks(cfg, w, c);
    nak := NakReply(cfg.src.tid, ForChunk(c, rs));
    answer := NakAnswer(cfg.job, ReplyBytes(nak)).0;
    var ps := AnswerCarries(cfg, SlotsOf(cfg, w, c), c, rs, ks);
    EofIsControl(cfg, w, c);
    RoundDelivers(cfg, w, Received(w, JobEof(cfg.job), cfg.dest, cfg.src.crc32), c, ps, Chosen(answer, ks));
  }

  /** The answer to the NAK has one packet for each that is outstanding, and what is chosen of it is outstanding. */
  lemma AnswerCarries(cfg: Setting, slots: seq<Slot>, c: u32, rs: seq<Range>, ks: seq<nat>) returns (ps: seq<u32>)
    requires cfg.Valid() && c < cfg.src.layout.Chunks() && |slots| == cfg.src.layout.Packets(c) < 0x1_0000_0000
    requires rs == Runs(Missing(slots)) && Canonical(rs, Missing(slots))
    requires forall i, j | 0 <= i < j < |ks| :: ks[i] != ks[j]
    requires forall i | 0 <= i < |ks| :: ks[i] < Lacking(slots)
    ensures var (answer, ok) := NakAnswer(cfg.job, ReplyBytes(NakReply(cfg.src.tid, ForChunk(c, rs))));
            && ok && |answer| == Lacking(slots) && |ps| == |ks|
            && Distinct(ps) && AllLacking(slots, ps) && Carries(cfg.job, Chosen(answer, ks), c, ps)
  {
    hide NakAnswer, Lacking, Canonical, ReplyBytes, Retransmission, InFile, PacketBytes;
    RunsShort(Missing(slots));
    AnswerIsOutstanding(cfg, slots, c, rs);
    AnswerLength(slots, c, rs);
    RetransmissionLength(cfg.job, ForChunk(c, rs));
    ps := AnsweredPackets(cfg, slots, c, rs, ks);
  }

  /** Where a round that delivers `n` outstanding packets leads. */
  ghost predicate RoundEnds(cfg: Setting, w: World, asked: World, w': World, c: u32, n: nat)
    requires cfg.Valid() && InTurn(cfg, w, c)
  {
    && Safe(cfg.src, w') && Retries(cfg, asked, w', n, 0)
    && |w'.r.st.done| == |w.r.st.done| == cfg.src.layout.Chunks()
    && Total(cfg.src.layout, w'.r) + n == Total(cfg.src.layout, w.r)
    && (n < Lacking(SlotsOf(cfg, w, c)) ==>
          InTurn(cfg, w', c) && Lacking(SlotsOf(cfg, w', c)) == Lacking(SlotsOf(cfg, w, c)) - n)
    && (n == Lacking(SlotsOf(cfg, w, c)) ==> Ack(cfg.src, c) in w'.t.env.log)
  }

  lemma EofIsControl(cfg: Setting, w: World, c: u32)
    requires cfg.Valid() && InTurn(cfg, w, c)
    ensures w.r.Ok() && Retries(cfg, w, Received(w, JobEof(cfg.job), cfg.dest, cfg.src.crc32), 0, 0)
  {
    ParseEof(cfg.job.tid, cfg.job.checksum);
    assert Control(cfg, JobEof(cfg.job));
  }

  lemma RoundDelivers(cfg: Setting, w: World, asked: World, c: u32, ps: seq<u32>, raws: seq<seq<byte>>)
    requires cfg.Valid() && InTurn(cfg, w, c) && InTurn(cfg, asked, c) && asked.r.Ok()
    requires SlotsOf(cfg, asked, c) == SlotsOf(cfg, w, c) && Retries(cfg, w, asked, 0, 0)
    requires Distinct(ps) && AllLacking(SlotsOf(cfg, w, c), ps) && Carries(cfg.job, raws, c, ps)
    ensures RoundEnds(cfg, w, asked, ReceivedAll(asked, raws, cfg.dest, cfg.src.crc32), c, |ps|)
  {
    hide Received, Safe, Lacking, Total;
    PacketsArrive(cfg, asked, c, ps, raws);
    var w' := ReceivedAll(asked, raws, cfg.dest, cfg.src.crc32);
    assert Brings(cfg, asked, w', c, ps, raws);
    assert Productive(cfg, asked, w', |ps|);
    RetryConserves(cfg, w, asked, 0, 0);
    RetryConserves(cfg, asked, w', |ps|, 0);
  }

  function MissingSet(slots: seq<Slot>): set<nat>
  {
    set p: nat | p < |slots| && !slots[p].Good()
  }

  lemma {:induction false} LackingIsCardinality(slots: seq<Slot>)
    ensures Lacking(slots) == |MissingSet(slots)|
  {
    if slots != [] {
      var n := |slots| - 1;
      LackingIsCardinality(slots[..n]);
      assert MissingSet(slots) == MissingSet(slots[..n]) + if slots[n].Good() then {} else {n};
    }
  }

  function PacketSet(pairs: seq<(nat, nat)>): set<nat>
  {
    set i | 0 <= i < |pairs| :: pairs[i].1
  }

  lemma {:induction false} DistinctCardinality(pairs: seq<(nat, nat)>)
    requires forall i, j | 0 <= i < j < |pairs| :: pairs[i].1 != pairs[j].1
    ensures |PacketSet(pairs)| == |pairs|
  {
    if pairs != [] {
      var n := |pairs| - 1;
      DistinctCardinality(pairs[..n]);
      assert PacketSet(pairs) == PacketSet(pairs[..n]) + {pairs[n].1};
      assert pairs[n].1 !in PacketSet(pairs[..n]);
    }
  }

  /** As many packets are answered as are outstanding. */
  lemma AnswerLength(slots: seq<Slot>, c: u32, rs: seq<Range>)
    requires Canonical(rs, Missing(slots)) && Proper(ForChunk(c, rs)) && DisjointRanges(ForChunk(c, rs))
    ensures |Requested(ForChunk(c, rs))| == Lacking(slots)
  {
    var pairs := Requested(ForChunk(c, rs));
    forall i, j | 0 <= i < j < |pairs|
      ensures pairs[i].1 != pairs[j].1
    {
      RequestedOnce(ForChunk(c, rs), i, j);
      RequestedIsMissing(slots, c, rs, i);
      RequestedIsMissing(slots, c, rs, j);
    }
    DistinctCardinality(pairs);
    LackingIsCardinality(slots);
    forall i | 0 <= i < |pairs|
      ensures pairs[i].1 in MissingSet(slots)
    {
      RequestedIsMissing(slots, c, rs, i);
    }
    forall p: nat | p in MissingSet(slots)
      ensures p in PacketSet(pairs)
    {
      MissingIsRequested(slots, c, rs, p);
    }
    assert PacketSet(pairs) == MissingSet(slots);
  }

  lemma MissingIsRequested(slots: seq<Slot>, c: u32, rs: seq<Range>, p: nat)
    requires Canonical(rs, Missing(slots)) && Proper(ForChunk(c, rs)) && p < |slots| && !slots[p].Good()
    ensures p in PacketSet(Requested(ForChunk(c, rs)))
  {
    var ns := ForChunk(c, rs);
    assert Missing(slots)[p];
    var k :| 0 <= k < |rs| && Covers(rs[k], p);
    assert InRange(ns[k], c, p);
    RequestedExactly(ns, c, p);
    var i :| 0 <= i < |Requested(ns)| && Requested(ns)[i] == (c, p);
    assert Requested(ns)[i].1 == p;
  }
}
