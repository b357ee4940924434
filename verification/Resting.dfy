/** What holds of the receiver between PDUs, whatever PDUs arrive. */
module Resting {
  import opened Bytes
  import opened Geometry
  import opened Ranges
  import opened Wire
  import opened Slots
  import opened JournalCodec
  import opened Storage
  import opened Journals
  import opened ReceiverModel

  /** The chunk count fits the sizes, and the packet-count sum fits 32 bits. */
  predicate ConsistentSizes(fileSize: u64, chunkSize: u32, packetSize: u32, totalChunks: u32)
  {
    && fileSize > 0 && chunkSize > 0
    && totalChunks == CeilDiv(fileSize, chunkSize)
    && chunkSize + packetSize <= 0x1_0000_0000
  }

  predicate Consistent(st: JournalState)
  {
    Sane(st) && ConsistentSizes(st.fileSize, st.chunkSize, st.packetSize, st.totalChunks)
  }

  /** The sender's own count of the packets of a chunk. */
  function PacketCount(st: JournalState, c: nat): nat
    requires st.chunkSize > 0 && st.packetSize > 0 && c < CeilDiv(st.fileSize, st.chunkSize)
  {
    CeilDiv(PieceLen(st.fileSize, st.chunkSize, c), st.packetSize)
  }

  /** The receiver's unsigned arithmetic gives the sender's count exactly when the sum
      `chunk length + packet size - 1` fits 32 bits. */
  lemma PacketCountsAgreeIff(st: JournalState, c: u32)
    requires 0 < st.packetSize && 0 < st.chunkSize && c < CeilDiv(st.fileSize, st.chunkSize)
    ensures ExpectedPackets(st, c) == PacketCount(st, c)
       <==> PieceLen(st.fileSize, st.chunkSize, c) + st.packetSize - 1 < 0x1_0000_0000
  {
    var len, k := PieceLen(st.fileSize, st.chunkSize, c), st.packetSize;
    PieceBounds(st.fileSize, st.chunkSize, c);
    UnwrappedRemaining(st.fileSize, c * st.chunkSize);
    WrappedSum(len + k - 1, k);
  }

  /** Behind the end of the file the 64-bit subtraction wraps, and a full chunk is expected. */
  lemma CountBehindEnd(st: JournalState, c: u32)
    requires 0 < st.packetSize && 0 < st.chunkSize && c < 0x10_0000 && c * st.chunkSize > st.fileSize
    ensures ExpectedPackets(st, c) == Wrap32(st.chunkSize + st.packetSize - 1) / st.packetSize
  {
    hide Wrap32;
    MulMono(c, 0x10_0000, st.chunkSize);
    WrappedRemaining(st.fileSize, c * st.chunkSize);
  }

  lemma WrappedRemaining(fileSize: u64, offset: nat)
    requires fileSize < offset <= 0x10_0000_0000_0000
    ensures Wrap64(fileSize - offset) == 0x1_0000_0000_0000_0000 + fileSize - offset
  {
  }

  lemma UnwrappedRemaining(fileSize: u64, offset: nat)
    requires offset <= fileSize
    ensures Wrap64(fileSize - offset) == fileSize - offset
  {
  }

  lemma WrappedSum(sum: nat, k: u32)
    requires 0 < k && sum < 0x2_0000_0000
    ensures Wrap32(sum) / k == sum / k <==> sum < 0x1_0000_0000
  {
    if sum >= 0x1_0000_0000 {
      var w := sum - 0x1_0000_0000;
      assert Wrap32(sum) == w;
      DivBounds(sum, k);
      DivBounds(w, k);
      if w / k >= sum / k {
        MulMono(sum / k, w / k, k);
      }
    }
  }

  lemma ExpectedCount(st: JournalState, c: u32)
    requires Consistent(st) && c < st.totalChunks
    ensures ExpectedPackets(st, c) == PacketCount(st, c) > 0
  {
    PacketCountsAgreeIff(st, c);
    PieceBounds(PieceLen(st.fileSize, st.chunkSize, c), st.packetSize, 0);
  }

  // ----- the invariant

  /** The part of the packet list and chunk index that an active receiver always keeps. */
  ghost predicate InProgress(r: Recv)
    requires r.Ok() && r.active
  {
    if r.current == NO_CHUNK then r.slots == []
    else
      && r.current < r.st.totalChunks && r.current <= r.maxSeen
      && !r.st.done[r.current]
      && |r.slots| == ExpectedPackets(r.st, r.current) > 0
      && !Complete(r.slots)
  }

  /** Active, in agreement with the journal on disk, but perhaps already at the end. */
  ghost predicate Active(w: World)
  {
    && w.r.Ok() && w.r.active && w.r.alive
    && Consistent(w.r.st)
    && LoadedFrom(w.t.env) == Some(w.r.st)
    && InProgress(w.r)
  }

  ghost predicate Rests(w: World)
  {
    && w.r.Ok() && w.r.alive
    && (if w.r.active then Active(w) && !(w.r.st.eof && w.r.st.AllDone())
        else w.t.env.journal.Absent? && w.r.current == NO_CHUNK && w.r.slots == [])
  }

  // ----- journal operations

  lemma StoredLoads(t: Trail, s: JournalState)
    ensures LoadedFrom(Stored(t, s).env) == Some(s)
    ensures Stored(t, s).env.file == t.env.file && Stored(t, s).env.durable == t.env.durable
  {
  }

  lemma NothingMissing(st: JournalState)
    ensures Runs(st.Missing()) == [] <==> st.AllDone()
  {
    RunsCanonical(st.Missing());
    FirstIsLeast(Runs(st.Missing()), st.Missing());
    if st.AllDone() {
      forall p: nat | p < st.totalChunks
        ensures !st.Missing()[p]
      {
      }
    } else {
      var i :| 0 <= i < st.totalChunks && !(i < |st.done| && st.done[i]);
      assert st.Missing()[i];
    }
  }

  /** The chunk `FirstSeen` finds is the least missing one. */
  lemma FirstSeenIsLeast(st: JournalState, seen: u32)
    ensures var all := Runs(st.Missing());
            match FirstSeen(all, seen)
            case None => all == [] || seen < all[0].first
            case Some(c) => c == all[0].first && c <= seen && c < st.totalChunks && st.Missing()[c]
                            && forall p: nat | p < c :: !st.Missing()[p]
  {
    var all := Runs(st.Missing());
    RunsCanonical(st.Missing());
    FirstIsLeast(all, st.Missing());
    if all != [] && all[0].first > seen {
      SkipsAll(all, seen);
    }
  }

  lemma {:induction false} SkipsAll(rs: seq<Range>, seen: u32)
    requires forall k | 0 <= k < |rs| :: rs[k].first > seen
    ensures FirstSeen(rs, seen) == None
  {
    if rs != [] {
      SkipsAll(rs[1..], seen);
    }
  }

  // ----- the handlers keep the invariant

  lemma CompletionRests(w: World, crc32: seq<byte> -> u32)
    requires Active(w)
    ensures w.r.st.eof || !w.r.st.AllDone() ==> Rests(CompletionChecked(w, crc32))
  {
    NothingMissing(w.r.st);
    FirstSeenIsLeast(w.r.st, w.r.maxSeen);
    if w.r.st.eof && w.r.current != NO_CHUNK {
      assert !w.r.st.AllDone();
    }
  }

  /** Every packet of the chunk in progress has arrived. */
  ghost predicate ReadyToFlush(w: World, c: u32)
  {
    && w.r.Ok() && w.r.active && w.r.alive
    && Consistent(w.r.st)
    && LoadedFrom(w.t.env) == Some(w.r.st)
    && w.r.current == c < w.r.st.totalChunks && c <= w.r.maxSeen
    && !w.r.st.done[c]
    && Complete(w.r.slots)
  }

  /** Memory and journal record the chunk together. */
  lemma ChunkStoredLoads(w: World, c: u32)
    requires ReadyToFlush(w, c)
    ensures var w' := ChunkStored(w, c);
            && w'.r == w.r.(st := w.r.st.(done := w.r.st.done[c := true]))
            && LoadedFrom(w'.t.env) == Some(w'.r.st)
            && Consistent(w'.r.st)
  {
    var st, written := w.r.st, ChunkWritten(w, c);
    assert LoadedFrom(written.env) == LoadedFrom(w.t.env);
    StoredLoads(written, st.(done := st.done[c := true]));
  }

  lemma FlushedShape(w: World, c: u32, crc32: seq<byte> -> u32)
    requires ReadyToFlush(w, c)
    ensures var stored := ChunkStored(w.(t := Allocated(w.t, w.r.st.fileSize)), c);
            var idle := Idled(Acked(stored, c));
            && ReadyToFlush(w.(t := Allocated(w.t, w.r.st.fileSize)), c)
            && Allocated(w.t, w.r.st.fileSize).env.file.Some?
            && Active(idle)
            && Flushed(w, c, crc32) == if idle.r.st.eof then CompletionChecked(idle, crc32) else idle
  {
    var t := Allocated(w.t, w.r.st.fileSize);
    assert LoadedFrom(t.env) == LoadedFrom(w.t.env);
    ChunkStoredLoads(w.(t := t), c);
  }

  lemma FlushedRests(w: World, c: u32, crc32: seq<byte> -> u32)
    requires ReadyToFlush(w, c)
    ensures Rests(Flushed(w, c, crc32))
  {
    FlushedShape(w, c, crc32);
    var idle := Idled(Acked(ChunkStored(w.(t := Allocated(w.t, w.r.st.fileSize)), c), c));
    if idle.r.st.eof {
      CompletionRests(idle, crc32);
    }
  }

  /** The packet list after `Opened` is the one for the packet's chunk. */
  lemma OpenedInProgress(w: World, d: Data)
    requires Rests(w) && Accepts(w.r, d) && !w.r.st.done[d.chunk] && d.chunk <= w.r.maxSeen
    ensures var o := Opened(w, d);
            && Active(o) && o.r.current == d.chunk && o.r.st == w.r.st
            && |o.r.slots| == d.total
            && (w.r.current == d.chunk ==> o == w)
            && (w.r.current != d.chunk ==> o.r.slots == Fresh(d.total))
  {
    ExpectedCount(w.r.st, d.chunk);
    if d.chunk != w.r.current {
      assert !Fresh(d.total)[0].Good();
    }
  }

  lemma PacketTakenRests(w: World, d: Data, crc32: seq<byte> -> u32)
    requires Rests(w) && Accepts(w.r, d) && !w.r.st.done[d.chunk] && d.chunk <= w.r.maxSeen
    ensures Rests(PacketTaken(w, d, crc32))
  {
    OpenedInProgress(w, d);
    var stored := PacketStored(Opened(w, d), d);
    if Complete(stored.r.slots) {
      assert ReadyToFlush(stored, d.chunk);
      FlushedRests(stored, d.chunk, crc32);
    }
  }

  function Seen(w: World, c: u32): World
  {
    w.(r := w.r.(maxSeen := if c > w.r.maxSeen then c else w.r.maxSeen))
  }

  lemma DataRests(w: World, d: Data, crc32: seq<byte> -> u32)
    requires Rests(w)
    ensures Rests(DataHandled(w, d, crc32))
  {
    if Accepts(w.r, d) {
      var seen := Seen(w, d.chunk);
      assert Rests(seen);
      if !w.r.st.done[d.chunk] {
        PacketTakenRests(seen, d, crc32);
      }
    }
  }

  predicate ConsistentMetadata(m: Metadata)
  {
    ConsistentSizes(m.fileSize, m.chunkSize, m.packetSize, m.totalChunks)
  }

  lemma MetadataRests(w: World, m: Metadata, dest: seq<byte>)
    requires Rests(w) && |dest| == PATH_BYTES
    requires Acceptable(m) ==> ConsistentMetadata(m)
    ensures Rests(MetadataHandled(w, m, dest))
  {
    if Acceptable(m) {
      var st := NewState(w.r.st, m, dest);
      StoredLoads(Removed(w.t), st);
      assert !st.done[0];
      PieceBounds(m.fileSize, m.chunkSize, 0);
    }
  }

  lemma EofRests(w: World, tid: u32, crc32: seq<byte> -> u32)
    requires Rests(w)
    ensures Rests(EofHandled(w, tid, crc32))
  {
    if w.r.active && tid == w.r.st.tid {
      EofMarkedActive(w);
      CompletionRests(MarkedEof(w), crc32);
    }
  }

  function MarkedEof(w: World): World
  {
    if w.r.st.eof then w else World(w.r.(st := w.r.st.(eof := true)), EofMarked(w.t))
  }

  lemma EofMarkedActive(w: World)
    requires Active(w)
    ensures Active(MarkedEof(w)) && MarkedEof(w).r == w.r.(st := w.r.st.(eof := true))
  {
    if !w.r.st.eof {
      var t := EofStored(w.t, w.r.st);
      assert MarkedEof(w) == World(w.r.(st := w.r.st.(eof := true)), t);
    }
  }

  lemma EofStored(t: Trail, st: JournalState) returns (t': Trail)
    requires LoadedFrom(t.env) == Some(st)
    ensures t' == EofMarked(t) == Stored(t, st.(eof := true))
    ensures LoadedFrom(t'.env) == Some(st.(eof := true))
    ensures t'.env.file == t.env.file && t'.env.durable == t.env.durable
  {
    t' := Stored(t, st.(eof := true));
    StoredLoads(t, st.(eof := true));
  }

  // ----- silence

  /** Nothing is sent between the two logs. */
  ghost predicate NoReply(before: seq<Event>, after: seq<Event>)
  {
    before <= after && forall k | |before| <= k < |after| :: !after[k].Send?
  }

  lemma MarkedSilently(w: World)
    requires Active(w)
    ensures NoReply(w.t.env.log, MarkedEof(w).t.env.log) && MarkedEof(w).t.env.file == w.t.env.file
  {
    if !w.r.st.eof {
      var t := EofStored(w.t, w.r.st);
    }
  }

  lemma SilentAfter(a: seq<Event>, b: seq<Event>, c: seq<Event>)
    requires NoReply(a, b) && b <= c
    ensures NoReply(a, c) <==> NoReply(b, c)
  {
    if NoReply(b, c) {
      forall k | |a| <= k < |c|
        ensures !c[k].Send?
      {
        assert k < |b| ==> b[k] == c[k];
      }
    }
  }

  // ----- any PDU, and booting

  /** Every PDU, in any order and however malformed, leaves a resting receiver resting. */
  lemma HandledRests(w: World, pdu: Pdu, dest: seq<byte>, crc32: seq<byte> -> u32)
    requires Rests(w) && |dest| == PATH_BYTES
    requires pdu.MetadataPdu? && Acceptable(pdu.meta) ==> ConsistentMetadata(pdu.meta)
    ensures Rests(Handled(w, pdu, dest, crc32))
  {
    match pdu
    case MetadataPdu(m) => MetadataRests(w, m, dest);
    case DataPdu(d) => DataRests(w, d, crc32);
    case EofPdu(tid, _) => EofRests(w, tid, crc32);
    case QueryPdu(tid) =>
  }

  /** A reboot resumes exactly what the journal holds, or clears what it cannot read. */
  lemma BootedRests(w: World, crc32: seq<byte> -> u32)
    requires w.r == Started(w.r.st) && w.r.Ok()
    requires LoadedFrom(w.t.env).Some? ==> Consistent(LoadedFrom(w.t.env).value)
    ensures Rests(Booted(w, crc32))
    ensures LoadedFrom(w.t.env).Some? ==> Booted(w, crc32).r.st == LoadedFrom(w.t.env).value
  {
    if LoadedFrom(w.t.env).Some? {
      var st := LoadedFrom(w.t.env).value;
      NothingMissing(st);
      var up := w.(r := w.r.(st := st, active := true, current := NO_CHUNK, maxSeen := 0, slots := []));
      assert Active(up);
      if st.AllDone() && st.eof {
        CompletionRests(up, crc32);
      }
    }
  }

  /** A reboot between PDUs loses the packets of the chunk in progress and nothing else. */
  lemma RebootKeepsDoneChunks(w: World, after: Env, leftover: JournalState, crc32: seq<byte> -> u32)
    requires Rests(w) && w.r.active && after.journal == w.t.env.journal
    requires |leftover.filename| == NAME_BYTES
    ensures var r := Booted(World(Started(leftover), Trail(after, [after])), crc32).r;
            r.active && r.st == w.r.st && r.current == NO_CHUNK && r.slots == []
  {
    NothingMissing(w.r.st);
  }

  // ----- NAKs

  /** `reply` asks only for packets that receiver `r` still lacks. */
  ghost predicate Outstanding(r: Recv, reply: Reply)
    requires r.Ok() && r.active
  {
    && reply.NakReply? && reply.tid == r.st.tid && reply.ranges != []
    && exists c: u32 :: OutstandingIn(r, reply, c)
  }

  ghost predicate OutstandingIn(r: Recv, reply: Reply, c: u32)
    requires r.Ok() && r.active && reply.NakReply?
  {
    && c < r.st.totalChunks && c <= r.maxSeen && !r.st.done[c]
    && (forall k | 0 <= k < |reply.ranges| ::
          reply.ranges[k].chunk == c && reply.ranges[k].first <= reply.ranges[k].last < ExpectedPackets(r.st, c))
    && (if c == r.current
        then exists rs :: Canonical(rs, Missing(r.slots)) && reply.ranges == ForChunk(c, rs)
        else reply == ChunkNak(r.st, c))
  }

  /** Every NAK logged between `before` and `after` is justified by `r`. */
  ghost predicate NaksFit(r: Recv, before: seq<Event>, after: seq<Event>)
  {
    && before <= after
    && forall k | |before| <= k < |after| && after[k].Send? && after[k].reply.NakReply? ::
         r.Ok() && r.active && Outstanding(r, after[k].reply)
  }

  lemma PacketsNakFits(w: World)
    requires Active(w) && w.r.current != NO_CHUNK
    ensures NaksFit(w.r, w.t.env.log, PacketsNaked(w, w.r.current).t.env.log)
  {
    var missing := Missing(w.r.slots);
    var rs := Runs(missing);
    RunsCanonical(missing);
    if rs != [] {
      assert OutstandingIn(w.r, NakReply(w.r.st.tid, ForChunk(w.r.current, rs)), w.r.current);
    }
  }

  lemma ChunkNakFits(w: World, c: u32)
    requires Active(w) && w.r.current == NO_CHUNK
    requires c < w.r.st.totalChunks && c <= w.r.maxSeen && !w.r.st.done[c]
    ensures NaksFit(w.r, w.t.env.log, Replied(w, ChunkNak(w.r.st, c)).t.env.log)
  {
    WholeChunkOutstanding(w.r, c);
  }

  lemma WholeChunkOutstanding(r: Recv, c: u32)
    requires r.Ok() && r.active && Consistent(r.st) && r.current == NO_CHUNK
    requires c < r.st.totalChunks && c <= r.maxSeen && !r.st.done[c]
    ensures Outstanding(r, ChunkNak(r.st, c))
  {
    ExpectedCount(r.st, c);
    assert OutstandingIn(r, ChunkNak(r.st, c), c);
  }

  lemma CompletionNaksFit(w: World, crc32: seq<byte> -> u32)
    requires Active(w)
    ensures NaksFit(w.r, w.t.env.log, CompletionChecked(w, crc32).t.env.log)
  {
    if w.r.st.eof {
      if w.r.current != NO_CHUNK {
        PacketsNakFits(w);
      } else {
        FirstSeenIsLeast(w.r.st, w.r.maxSeen);
        var seen := FirstSeen(Runs(w.r.st.Missing()), w.r.maxSeen);
        if seen.Some? {
          ChunkNakFits(w, seen.value);
        }
      }
    }
  }

  lemma FlushedNaksFit(w: World, c: u32, crc32: seq<byte> -> u32)
    requires ReadyToFlush(w, c)
    ensures NaksFit(Flushed(w, c, crc32).r, w.t.env.log, Flushed(w, c, crc32).t.env.log)
  {
    FlushedShape(w, c, crc32);
    var t := Allocated(w.t, w.r.st.fileSize);
    var idle := Idled(Acked(ChunkStored(w.(t := t), c), c));
    AllocatedLog(w.t, w.r.st.fileSize);
    StoredLog(w.(t := t), c);
    CompletionNaksFit(idle, crc32);
    CompletionNakActive(idle, crc32);
  }

  lemma AllocatedLog(t: Trail, fileSize: u64)
    ensures NoNaks(t.env.log, Allocated(t, fileSize).env.log)
  {
  }

  ghost predicate NoNaks(before: seq<Event>, after: seq<Event>)
  {
    && before <= after
    && forall k | |before| <= k < |after| && after[k].Send? :: !after[k].reply.NakReply?
  }

  lemma StoredLog(w: World, c: u32)
    requires ReadyToFlush(w, c)
    ensures NoNaks(w.t.env.log, Acked(ChunkStored(w, c), c).t.env.log)
  {
    assert LoadedFrom(ChunkWritten(w, c).env) == Some(w.r.st);
  }

  /** A completion check that sends a NAK does not end the transfer. */
  lemma CompletionNakActive(w: World, crc32: seq<byte> -> u32)
    requires Active(w)
    ensures var w' := CompletionChecked(w, crc32);
            w'.r == w.r || NoNaks(w.t.env.log, w'.t.env.log)
  {
  }

  /** Whatever PDU is handled, each NAK it causes names one unfinished chunk the sender has
      already reached, and exactly the missing packets if that chunk is in progress. */
  lemma NaksAreOutstanding(w: World, pdu: Pdu, dest: seq<byte>, crc32: seq<byte> -> u32, k: nat)
    requires Rests(w) && |dest| == PATH_BYTES
    requires pdu.MetadataPdu? && Acceptable(pdu.meta) ==> ConsistentMetadata(pdu.meta)
    requires var log := Handled(w, pdu, dest, crc32).t.env.log;
             |w.t.env.log| <= k < |log| && log[k].Send? && log[k].reply.NakReply?
    ensures var w' := Handled(w, pdu, dest, crc32);
            var seen := if pdu.DataPdu? then Seen(w, pdu.d.chunk).r else w.r;
            || (w.r.active && seen.Ok() && Outstanding(seen, w'.t.env.log[k].reply))
            || (w'.r.active && Outstanding(w'.r, w'.t.env.log[k].reply))
  {
    match pdu
    case MetadataPdu(m) =>
    case QueryPdu(tid) =>
    case EofPdu(tid, _) => EofNaksFit(w, tid, crc32);
    case DataPdu(d) =>
      if Accepts(w.r, d) {
        DataNaksFit(w, d, crc32);
      }
  }

  lemma EofNaksFit(w: World, tid: u32, crc32: seq<byte> -> u32)
    requires Rests(w)
    ensures var w' := EofHandled(w, tid, crc32);
            NaksFit(w'.r, w.t.env.log, w'.t.env.log)
  {
    if w.r.active && tid == w.r.st.tid {
      EofMarkedActive(w);
      assert NoNaks(w.t.env.log, MarkedEof(w).t.env.log);
      CompletionNaksFit(MarkedEof(w), crc32);
      CompletionNakActive(MarkedEof(w), crc32);
    }
  }

  lemma DataNaksFit(w: World, d: Data, crc32: seq<byte> -> u32)
    requires Rests(w) && Accepts(w.r, d)
    ensures var w', seen := DataHandled(w, d, crc32), Seen(w, d.chunk);
            && Rests(seen)
            && w.t.env.log <= w'.t.env.log
            && exists middle ::
                 && NaksFit(seen.r, w.t.env.log, middle)
                 && NaksFit(w'.r, middle, w'.t.env.log)
  {
    var w', seen := DataHandled(w, d, crc32), Seen(w, d.chunk);
    if w.r.st.done[d.chunk] {
      assert NaksFit(seen.r, w.t.env.log, w.t.env.log) && NaksFit(w'.r, w.t.env.log, w'.t.env.log);
    } else {
      OpenedNaksFit(seen, d);
      OpenedInProgress(seen, d);
      var o := Opened(seen, d);
      TakenNaksFit(seen, d, crc32);
      assert NaksFit(seen.r, w.t.env.log, o.t.env.log) && NaksFit(w'.r, o.t.env.log, w'.t.env.log);
    }
  }

  lemma OpenedNaksFit(w: World, d: Data)
    requires Rests(w) && w.r.active
    ensures NaksFit(w.r, w.t.env.log, Opened(w, d).t.env.log)
  {
    if w.r.current != NO_CHUNK {
      PacketsNakFits(w);
    }
  }

  lemma TakenNaksFit(w: World, d: Data, crc32: seq<byte> -> u32)
    requires Rests(w) && Accepts(w.r, d) && !w.r.st.done[d.chunk] && d.chunk <= w.r.maxSeen
    ensures var w' := PacketTaken(w, d, crc32);
            NaksFit(w'.r, Opened(w, d).t.env.log, w'.t.env.log)
  {
    OpenedInProgress(w, d);
    var stored := PacketStored(Opened(w, d), d);
    if Complete(stored.r.slots) {
      FlushedNaksFit(stored, d.chunk, crc32);
    }
  }
}
