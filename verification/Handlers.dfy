/** What each PDU, and booting, makes the receiver send and keep, in terms of the transfer and not of the handlers. */
module Handlers {
  import opened Bytes
  import opened Geometry
  import opened Ranges
  import opened Wire
  import opened Slots
  import opened JournalCodec
  import opened Storage
  import opened Journals
  import opened Crc
  import opened ReceiverModel
  import opened Resting
  import opened Safety

  // ----- replies in a log

  function RepliesOf(log: seq<Event>): seq<Reply>
  {
    if log == [] then []
    else RepliesOf(log[..|log| - 1]) + if log[|log| - 1].Send? then [log[|log| - 1].reply] else []
  }

  lemma {:induction false} RepliesConcat(a: seq<Event>, b: seq<Event>)
    ensures RepliesOf(a + b) == RepliesOf(a) + RepliesOf(b)
    decreases |b|
  {
    if b == [] {
      assert a + b == a;
    } else {
      var n := |b| - 1;
      assert (a + b)[..|a| + n] == a + b[..n];
      RepliesConcat(a, b[..n]);
    }
  }

  /** Between the two logs exactly `replies` are sent, in this order. */
  ghost predicate Adds(before: seq<Event>, after: seq<Event>, replies: seq<Reply>)
  {
    before <= after && RepliesOf(after[|before|..]) == replies
  }

  lemma AddsBoth(a: seq<Event>, b: seq<Event>, c: seq<Event>, r: seq<Reply>, s: seq<Reply>)
    requires Adds(a, b, r) && Adds(b, c, s)
    ensures Adds(a, c, r + s)
  {
    assert c[|a|..] == b[|a|..] + c[|b|..];
    RepliesConcat(b[|a|..], c[|b|..]);
  }

  lemma AddsNothing(log: seq<Event>)
    ensures Adds(log, log, [])
  {
    assert log[|log|..] == [];
  }

  lemma AddsOne(log: seq<Event>, e: Event)
    ensures Adds(log, log + [e], if e.Send? then [e.reply] else [])
  {
    assert (log + [e])[|log|..] == [e];
    assert [e][..0] == [];
    assert RepliesOf([e]) == RepliesOf([e][..0]) + if e.Send? then [e.reply] else [];
  }

  lemma RepliedAdds(w: World, reply: Reply)
    ensures Adds(w.t.env.log, Replied(w, reply).t.env.log, [reply])
  {
    AddsOne(w.t.env.log, Send(reply));
  }

  lemma StoredAdds(t: Trail, st: JournalState)
    ensures Adds(t.env.log, Stored(t, st).env.log, [])
  {
    var log := t.env.log;
    AddsOne(log, WriteTmp(st));
    AddsOne(log + [WriteTmp(st)], RenameTmp);
    AddsBoth(log, log + [WriteTmp(st)], Stored(t, st).env.log, [], []);
  }

  lemma RemovedAdds(t: Trail)
    ensures Adds(t.env.log, Removed(t).env.log, [])
  {
    AddsNothing(t.env.log);
    AddsOne(t.env.log, RemoveJournal);
  }

  // ----- bytes that are no PDU

  /** The four types the receiver knows, by their codes. */
  predicate KnownType(raw: seq<byte>)
  {
    raw != [] && (raw[0] == 0x01 || raw[0] == 0x02 || raw[0] == 0x03 || raw[0] == 0x06)
  }

  /** Empty PDUs and those of any other type change nothing at all. */
  lemma UnknownIgnored(w: World, raw: seq<byte>, dest: seq<byte>, crc32: seq<byte> -> u32)
    requires w.r.Ok() && |dest| == PATH_BYTES && !KnownType(raw)
    ensures Received(w, raw, dest, crc32) == w
  {
  }

  /** A data packet whose type byte is flipped among them. */
  lemma FlippedTypeIgnored(w: World, d: Data, padding: nat, dest: seq<byte>, crc32: seq<byte> -> u32)
    requires w.r.Ok() && |dest| == PATH_BYTES && |d.data| < 0x1_0000_0000
    ensures var raw := DataBytes(d, padding);
            raw[0] == 0x02 && Received(w, raw[0 := raw[0] ^ 0xFF], dest, crc32) == w
  {
    var raw := DataBytes(d, padding);
    var flipped := raw[0 := raw[0] ^ 0xFF];
    assert raw[0] == 0x02;
    assert flipped[0] == 0xFD;
    UnknownIgnored(w, flipped, dest, crc32);
  }

  /** Bytes behind a complete PDU make no difference. */
  lemma TrailingBytesIgnored(raw: seq<byte>, tail: seq<byte>)
    requires Parse(raw).Some?
    ensures Parse(raw + tail) == Parse(raw)
  {
    hide FromLE;
    var longer := raw + tail;
    assert longer[0] == raw[0] && |longer| >= |raw| >= 5;
    SameField(raw, tail, 1);
    if raw[0] == TYPE_METADATA {
      assert longer[5..13] == raw[5..13];
      SameField(raw, tail, 13);
      SameField(raw, tail, 17);
      SameField(raw, tail, 21);
      SameField(raw, tail, 25);
      assert longer[29..285] == raw[29..285];
    } else if raw[0] == TYPE_DATA {
      SameField(raw, tail, 5);
      SameField(raw, tail, 9);
      SameField(raw, tail, 13);
      SameField(raw, tail, 17);
      var len := U32At(raw, 17);
      assert longer[22..22 + len] == raw[22..22 + len];
    } else if raw[0] == TYPE_EOF {
      SameField(raw, tail, 5);
    }
  }

  lemma SameField(raw: seq<byte>, tail: seq<byte>, at: nat)
    requires at + 4 <= |raw|
    ensures U32At(raw + tail, at) == U32At(raw, at)
  {
    assert (raw + tail)[at..at + 4] == raw[at..at + 4];
  }

  /** A PDU cut short anywhere before its padding is dropped. */
  lemma TruncatedDropped(m: Metadata, d: Data, tid: u32, checksum: u32, n: nat)
    requires |m.filename| == NAME_LEN && |d.data| <= MAX_PACKET
    ensures n < |MetadataBytes(m)| ==> Parse(MetadataBytes(m)[..n]) == None
    ensures n < |DataBytes(d, 0)| ==> Parse(DataBytes(d, 0)[..n]) == None
    ensures n < |EofBytes(tid, checksum)| ==> Parse(EofBytes(tid, checksum)[..n]) == None
    ensures n < |QueryBytes(tid)| ==> Parse(QueryBytes(tid)[..n]) == None
  {
    hide FromLE;
    if 22 <= n < |DataBytes(d, 0)| {
      DataHeaderFields(d);
      var cut := DataBytes(d, 0)[..n];
      assert DataHeader(d) <= cut;
      SameU32(cut, DataHeader(d), 17);
    }
  }

  // ----- what is missing

  /** Chunk `m` is the first that is not done. */
  ghost predicate LeastMissing(st: JournalState, m: u32)
    requires |st.done| == st.totalChunks
  {
    m < st.totalChunks && !st.done[m] && forall i | 0 <= i < m :: st.done[i]
  }

  lemma LeastMissingRun(st: JournalState) returns (m: u32)
    requires |st.done| == st.totalChunks && !st.AllDone()
    ensures LeastMissing(st, m) && Runs(st.Missing()) != [] && Runs(st.Missing())[0].first == m
  {
    var missing := st.Missing();
    NothingMissing(st);
    RunsCanonical(missing);
    FirstIsLeast(Runs(missing), missing);
    m := Runs(missing)[0].first;
    forall i | 0 <= i < m
      ensures st.done[i]
    {
      assert !missing[i];
    }
  }

  lemma LeastMissingUnique(st: JournalState, a: u32, b: u32)
    requires |st.done| == st.totalChunks && LeastMissing(st, a) && LeastMissing(st, b)
    ensures a == b
  {
  }

  // ----- resume queries

  /** A query about any transfer but the active one is answered with chunk 0, a query about the active one with
      its first missing chunk, or with 0xFFFFFFFF if none is missing; and nothing else happens. */
  lemma QueryAnswer(w: World, tid: u32, dest: seq<byte>, crc32: seq<byte> -> u32)
    requires w.r.Ok() && |dest| == PATH_BYTES
    ensures var w' := Received(w, QueryBytes(tid), dest, crc32);
            && (!w.r.active || tid != w.r.st.tid ==> w' == World(w.r, Emit(w.t, Send(InfoReply(tid, 0)))))
            && (w.r.active && tid == w.r.st.tid && w.r.st.AllDone() ==>
                  w' == World(w.r, Emit(w.t, Send(InfoReply(tid, 0xFFFF_FFFF)))))
            && (w.r.active && tid == w.r.st.tid ==> forall m: u32 | LeastMissing(w.r.st, m) ::
                  w' == World(w.r, Emit(w.t, Send(InfoReply(tid, m)))))
  {
    ParseQuery(tid);
    if w.r.active && tid == w.r.st.tid {
      NothingMissing(w.r.st);
      if !w.r.st.AllDone() {
        var n := LeastMissingRun(w.r.st);
        forall m: u32 | LeastMissing(w.r.st, m)
          ensures m == n
        {
          LeastMissingUnique(w.r.st, m, n);
        }
      }
    }
  }

  // ----- the completion check

  /** What the check replies when no chunk is in progress: the final ACK for a complete file that passes, a NAK
      for the whole first missing chunk once that has been seen, and nothing otherwise. */
  ghost predicate CheckAnswers(r: Recv, file: Option<seq<byte>>, replies: seq<Reply>, crc32: seq<byte> -> u32)
    requires Consistent(r.st)
  {
    && (r.st.AllDone() ==>
          replies == if FileCrc(crc32, file) == r.st.checksum then [AckReply(r.st.tid, 0xFFFF_FFFF)] else [])
    && forall m: u32 | LeastMissing(r.st, m) ::
         replies == if m <= r.maxSeen then [NakReply(r.st.tid, [NakRange(m, 0, LastPacket(r.st, m))])] else []
  }

  /** The greatest packet number of a chunk. */
  function LastPacket(st: JournalState, c: u32): (p: u32)
    requires Consistent(st) && c < st.totalChunks
  {
    ExpectedCount(st, c);
    PacketCount(st, c) - 1
  }

  lemma CheckReplies(w: World, crc32: seq<byte> -> u32) returns (replies: seq<Reply>)
    requires Active(w) && w.r.st.eof && w.r.current == NO_CHUNK
    ensures Adds(w.t.env.log, CompletionChecked(w, crc32).t.env.log, replies)
    ensures CheckAnswers(w.r, w.t.env.file, replies, crc32)
  {
    hide Runs, FirstSeen, Adds, Concluded;
    NothingMissing(w.r.st);
    FirstSeenIsLeast(w.r.st, w.r.maxSeen);
    if w.r.st.AllDone() {
      replies := ConcludedReplies(w, crc32);
    } else {
      var n := LeastMissingRun(w.r.st);
      if n <= w.r.maxSeen {
        replies := [ChunkNak(w.r.st, n)];
        RepliedAdds(w, ChunkNak(w.r.st, n));
      } else {
        replies := [];
        AddsNothing(w.t.env.log);
      }
      MissingAnswers(w.r, n, w.t.env.file, replies, crc32);
    }
  }

  lemma ChunkNakIs(st: JournalState, c: u32)
    requires Consistent(st) && c < st.totalChunks
    ensures ChunkNak(st, c) == NakReply(st.tid, [NakRange(c, 0, LastPacket(st, c))])
  {
    hide ExpectedPackets, PacketCount;
    ExpectedCount(st, c);
    var n: nat := ExpectedPackets(st, c);
    assert Wrap32(n - 1) == n - 1;
  }

  lemma MissingAnswers(r: Recv, n: u32, file: Option<seq<byte>>, replies: seq<Reply>, crc32: seq<byte> -> u32)
    requires Consistent(r.st) && LeastMissing(r.st, n)
    requires replies == if n <= r.maxSeen then [ChunkNak(r.st, n)] else []
    ensures CheckAnswers(r, file, replies, crc32)
  {
    hide ChunkNak, LastPacket, ConsistentSizes;
    ChunkNakIs(r.st, n);
    forall m: u32 | LeastMissing(r.st, m)
      ensures m == n
    {
      LeastMissingUnique(r.st, m, n);
    }
  }

  lemma ConcludedReplies(w: World, crc32: seq<byte> -> u32) returns (replies: seq<Reply>)
    ensures Adds(w.t.env.log, Concluded(w, crc32).t.env.log, replies)
    ensures replies == if FileCrc(crc32, w.t.env.file) == w.r.st.checksum then [AckReply(w.r.st.tid, 0xFFFF_FFFF)]
                       else []
  {
    if FileCrc(crc32, w.t.env.file) == w.r.st.checksum {
      replies := [AckReply(w.r.st.tid, FINAL)];
      var acked := Acked(w.(r := w.r.(lastAcked := w.r.st.tid)), FINAL);
      RepliedAdds(w.(r := w.r.(lastAcked := w.r.st.tid)), AckReply(w.r.st.tid, FINAL));
      RemovedAdds(acked.t);
      AddsBoth(w.t.env.log, acked.t.env.log, Removed(acked.t).env.log, replies, []);
    } else {
      replies := [];
      RemovedAdds(w.t);
    }
  }

  // ----- NAKs for the chunk in progress

  /** One NAK for exactly the packets of the chunk in progress that have not arrived intact. */
  ghost predicate NaksChunk(r: Recv, replies: seq<Reply>)
  {
    exists rs :: Canonical(rs, Missing(r.slots)) && replies == [NakReply(r.st.tid, ForChunk(r.current, rs))]
  }

  lemma PacketsNakedReplies(w: World) returns (replies: seq<Reply>)
    requires Active(w) && w.r.current != NO_CHUNK
    ensures Adds(w.t.env.log, PacketsNaked(w, w.r.current).t.env.log, replies) && NaksChunk(w.r, replies)
  {
    var missing := Missing(w.r.slots);
    var rs := Runs(missing);
    RunsCanonical(missing);
    FirstIsLeast(rs, missing);
    replies := [NakReply(w.r.st.tid, ForChunk(w.r.current, rs))];
    RepliedAdds(w, NakReply(w.r.st.tid, ForChunk(w.r.current, rs)));
  }

  // ----- EOF

  /** EOF of another transfer, or while none is active, is dropped. */
  lemma ForeignEofIgnored(w: World, tid: u32, checksum: u32, dest: seq<byte>, crc32: seq<byte> -> u32)
    requires w.r.Ok() && |dest| == PATH_BYTES && (!w.r.active || tid != w.r.st.tid)
    ensures Received(w, EofBytes(tid, checksum), dest, crc32) == w
  {
    ParseEof(tid, checksum);
  }

  /** The checksum in an EOF plays no part. */
  lemma EofChecksumUnused(w: World, tid: u32, a: u32, b: u32, dest: seq<byte>, crc32: seq<byte> -> u32)
    requires w.r.Ok() && |dest| == PATH_BYTES
    ensures Received(w, EofBytes(tid, a), dest, crc32) == Received(w, EofBytes(tid, b), dest, crc32)
  {
    ParseEof(tid, a);
    ParseEof(tid, b);
  }

  lemma MarkedAdds(w: World)
    requires Active(w)
    ensures Adds(w.t.env.log, MarkedEof(w).t.env.log, []) && MarkedEof(w).t.env.file == w.t.env.file
  {
    if w.r.st.eof {
      AddsNothing(w.t.env.log);
    } else {
      var t := EofStored(w.t, w.r.st);
      StoredAdds(w.t, w.r.st.(eof := true));
    }
  }

  /** EOF of the active transfer: the chunk in progress is asked for, or the completion check answers. */
  lemma EofAnswer(w: World, checksum: u32, dest: seq<byte>, crc32: seq<byte> -> u32) returns (replies: seq<Reply>)
    requires Rests(w) && w.r.active && |dest| == PATH_BYTES
    ensures var w' := Received(w, EofBytes(w.r.st.tid, checksum), dest, crc32);
            && Adds(w.t.env.log, w'.t.env.log, replies)
            && w'.r.st == w.r.st.(eof := true)
            && w'.r.current == w.r.current && w'.r.slots == w.r.slots && w'.r.maxSeen == w.r.maxSeen
            && (w'.r.active <==> !w.r.st.AllDone())
    ensures if w.r.current != NO_CHUNK then NaksChunk(w.r, replies)
            else CheckAnswers(w.r, w.t.env.file, replies, crc32)
  {
    ParseEof(w.r.st.tid, checksum);
    EofMarkedActive(w);
    MarkedAdds(w);
    var m := MarkedEof(w);
    EofRests(w, w.r.st.tid, crc32);
    if w.r.current != NO_CHUNK {
      replies := PacketsNakedReplies(m);
    } else {
      replies := CheckReplies(m, crc32);
      assert m.r.st.AllDone() <==> w.r.st.AllDone();
      SameAnswers(w.r, m.r, w.t.env.file, replies, crc32);
    }
    NothingMissing(m.r.st);
    AddsBoth(w.t.env.log, m.t.env.log, CompletionChecked(m, crc32).t.env.log, [], replies);
    assert [] + replies == replies;
  }

  lemma SameAnswers(a: Recv, b: Recv, file: Option<seq<byte>>, replies: seq<Reply>, crc32: seq<byte> -> u32)
    requires Consistent(a.st) && b == a.(st := a.st.(eof := true)) && CheckAnswers(b, file, replies, crc32)
    ensures CheckAnswers(a, file, replies, crc32)
  {
    forall m: u32 | LeastMissing(a.st, m)
      ensures LeastMissing(b.st, m) && LastPacket(a.st, m) == LastPacket(b.st, m)
    {
    }
  }

  // ----- flushing a chunk

  /** `g` is `f` with `data` put in at `at`; bytes that neither gives are 0. */
  ghost predicate Overwritten(f: seq<byte>, g: seq<byte>, at: nat, data: seq<byte>)
  {
    && |g| == (if |f| > at + |data| then |f| else at + |data|)
    && forall p | 0 <= p < |g| ::
         g[p] == if at <= p < at + |data| then data[p - at] else if p < |f| then f[p] else 0
  }

  lemma WriteOverwrites(f: seq<byte>, at: nat, data: seq<byte>)
    requires data != []
    ensures Overwritten(f, WriteAt(f, at, data), at, data)
  {
    var g := WriteAt(f, at, data);
    forall p | 0 <= p < |g|
      ensures g[p] == if at <= p < at + |data| then data[p - at] else if p < |f| then f[p] else 0
    {
      if at <= p < at + |data| {
        assert g[at + (p - at)] == data[p - at];
      }
    }
  }

  /** What a flush finds: the destination file, or a new one of the full size, all zeros. */
  function FoundFile(file: Option<seq<byte>>, fileSize: u64): seq<byte>
  {
    match file
    case Some(f) => f
    case None => Zeros(fileSize)
  }

  lemma ZerosWritten(n: nat)
    requires n > 0
    ensures WriteAt([], n - 1, [0]) == Zeros(n)
  {
    hide WriteAt, Zeros;
    WriteOverwrites([], n - 1, [0]);
    assert WriteAt([], n - 1, [0]) == Zeros(n);
  }

  lemma AllocatedFile(t: Trail, fileSize: u64)
    requires fileSize > 0
    ensures Allocated(t, fileSize).env.file == Some(FoundFile(t.env.file, fileSize))
    ensures LoadedFrom(Allocated(t, fileSize).env) == LoadedFrom(t.env)
    ensures Adds(t.env.log, Allocated(t, fileSize).env.log, [])
  {
    hide WriteAt, Zeros, Adds;
    if t.env.file.None? {
      var e := WriteFile(fileSize - 1, [0]);
      AddsOne(t.env.log, CreateFile);
      AddsOne(t.env.log + [CreateFile], e);
      AddsBoth(t.env.log, t.env.log + [CreateFile], t.env.log + [CreateFile] + [e], [], []);
      ZerosWritten(fileSize);
    } else {
      AddsNothing(t.env.log);
    }
  }

  lemma StoredAddsNothing(w: World, c: u32)
    requires ReadyToFlush(w, c)
    ensures Adds(w.t.env.log, ChunkStored(w, c).t.env.log, [])
  {
    hide Assembled, WriteAt, RepliesOf, Adds;
    var log, written := w.t.env.log, ChunkWritten(w, c);
    var e := ChunkEvent(c, w.r.st.chunkSize, Assembled(w.r.slots));
    AddsOne(log, e);
    AddsOne(log + [e], SyncFile);
    AddsBoth(log, log + [e], written.env.log, [], []);
    var st := w.r.st.(done := w.r.st.done[c := true]);
    assert LoadedFrom(written.env) == Some(w.r.st);
    StoredAdds(written, st);
    AddsBoth(log, written.env.log, ChunkStored(w, c).t.env.log, [], []);
  }

  lemma StoredFile(w: World, c: u32)
    requires ReadyToFlush(w, c) && w.t.env.file.Some? && Assembled(w.r.slots) != []
    ensures var env := ChunkStored(w, c).t.env;
            && env.file.Some? && env.durable == env.file
            && OverwrittenChunk(w.t.env.file.value, env.file.value, c, w.r.st.chunkSize, Assembled(w.r.slots))
  {
    hide Assembled, WriteAt;
    ChunkOverwrites(w.t.env.file.value, c, w.r.st.chunkSize, Assembled(w.r.slots));
  }

  function ChunkEvent(c: u32, chunkSize: u32, data: seq<byte>): Event { WriteFile(c * chunkSize, data) }

  ghost predicate OverwrittenChunk(f: seq<byte>, g: seq<byte>, c: u32, chunkSize: u32, data: seq<byte>)
  {
    Overwritten(f, g, c * chunkSize, data)
  }

  lemma ChunkOverwrites(f: seq<byte>, c: u32, chunkSize: u32, data: seq<byte>)
    requires data != []
    ensures OverwrittenChunk(f, WriteAt(f, ChunkEvent(c, chunkSize, data).at, data), c, chunkSize, data)
  {
    WriteOverwrites(f, ChunkEvent(c, chunkSize, data).at, data);
  }

  /** The whole effect of a flush on the file: the chunk is put in at its place, in a file of the full size if
      there was none, and what is cached is durable. */
  lemma FlushedFile(w: World, c: u32, crc32: seq<byte> -> u32)
    requires ReadyToFlush(w, c) && Assembled(w.r.slots) != []
    ensures var env := Flushed(w, c, crc32).t.env;
            && env.file.Some? && env.durable == env.file
            && OverwrittenChunk(FoundFile(w.t.env.file, w.r.st.fileSize), env.file.value, c, w.r.st.chunkSize,
                                Assembled(w.r.slots))
  {
    hide ChunkStored, Assembled, Allocated;
    FlushedShape(w, c, crc32);
    AllocatedFile(w.t, w.r.st.fileSize);
    var ready := w.(t := Allocated(w.t, w.r.st.fileSize));
    StoredFile(ready, c);
    CheckKeepsFile(Idled(Acked(ChunkStored(ready, c), c)), crc32);
  }

  /** The first flush of a transfer leaves a file of the announced size: the chunk at its place, and zeros. */
  lemma FirstFlushFullSize(src: Source, w: World, c: u32)
    requires src.Valid() && ReadyToFlush(w, c) && TrailOk(src, w.t) && RecvOk(src, w) && w.t.env.file.None?
    ensures var env := Flushed(w, c, src.crc32).t.env;
            && env.file.Some? && env.durable == env.file && |env.file.value| == w.r.st.fileSize
            && ChunkInZeros(src.layout, c, env.file.value)
  {
    hide TrailOk, Assembled, Flushed, WriteAt, Zeros;
    var l := src.layout;
    AssembledIsChunk(src, w.r);
    FlushedFile(w, c, src.crc32);
    ZerosOverwritten(l, c, Flushed(w, c, src.crc32).t.env.file.value);
  }

  ghost predicate ChunkInZeros(l: Layout, c: nat, f: seq<byte>)
    requires l.Valid() && c < l.Chunks()
  {
    var lo, hi := c * l.chunkSize, c * l.chunkSize + PieceLen(|l.bytes|, l.chunkSize, c);
    |f| == |l.bytes| && forall p | 0 <= p < |f| :: f[p] == if lo <= p < hi then l.bytes[p] else 0
  }

  lemma ZerosOverwritten(l: Layout, c: u32, f: seq<byte>)
    requires l.Valid() && c < l.Chunks() && OverwrittenChunk(Zeros(|l.bytes|), f, c, l.chunkSize, l.Chunk(c))
    ensures ChunkInZeros(l, c, f)
  {
    var lo, n := c * l.chunkSize, PieceLen(|l.bytes|, l.chunkSize, c);
    assert l.Chunk(c) == l.bytes[lo..lo + n];
  }

  lemma CheckKeepsFile(w: World, crc32: seq<byte> -> u32)
    requires w.r.Ok() && Sane(w.r.st)
    ensures var env := CompletionChecked(w, crc32).t.env;
            env.file == w.t.env.file && env.durable == w.t.env.durable
  {
  }

  /** Without a file and with nothing to allocate the handler ends in an exception, before any effect. */
  lemma FlushFails(w: World, c: u32, crc32: seq<byte> -> u32)
    requires w.r.Ok() && Sane(w.r.st) && c < w.r.st.totalChunks
    ensures if w.t.env.file.None? && w.r.st.fileSize == 0
            then Flushed(w, c, crc32) == World(w.r.(alive := false), w.t)
            else Flushed(w, c, crc32).r.alive == w.r.alive
  {
  }

  /** A flush sends the chunk's ACK, and then, if EOF has been recorded, what the completion check replies. */
  lemma FlushAnswer(w: World, c: u32, crc32: seq<byte> -> u32) returns (checks: seq<Reply>)
    requires ReadyToFlush(w, c)
    ensures var w' := Flushed(w, c, crc32);
            && Adds(w.t.env.log, w'.t.env.log, [AckReply(w.r.st.tid, c)] + checks)
            && w'.r.st == w.r.st.(done := w.r.st.done[c := true]) && Consistent(w'.r.st)
            && w'.r.slots == [] && w'.r.current == NO_CHUNK && w'.r.maxSeen == w.r.maxSeen
            && (w'.r.active <==> !(w'.r.st.eof && w'.r.st.AllDone()))
            && (if w.r.st.eof then CheckAnswers(w'.r, w'.t.env.file, checks, crc32) else checks == [])
  {
    hide ChunkStored, Allocated, Adds;
    FlushedShape(w, c, crc32);
    AllocatedFile(w.t, w.r.st.fileSize);
    var ready := w.(t := Allocated(w.t, w.r.st.fileSize));
    StoredAddsNothing(ready, c);
    ChunkStoredLoads(ready, c);
    var stored := ChunkStored(ready, c);
    RepliedAdds(stored, AckReply(stored.r.st.tid, c));
    var log, idle := w.t.env.log, Idled(Acked(stored, c));
    AddsBoth(log, ready.t.env.log, stored.t.env.log, [], []);
    AddsBoth(log, stored.t.env.log, idle.t.env.log, [], [AckReply(w.r.st.tid, c)]);
    assert [] + [AckReply(w.r.st.tid, c)] == [AckReply(w.r.st.tid, c)];
    if w.r.st.eof {
      checks := CheckReplies(idle, crc32);
      CheckKeepsFile(idle, crc32);
      CheckEnds(idle, crc32);
      var w' := CompletionChecked(idle, crc32);
      AddsBoth(log, idle.t.env.log, w'.t.env.log, [AckReply(w.r.st.tid, c)], checks);
      SameState(idle.r, w'.r, w'.t.env.file, checks, crc32);
    } else {
      checks := [];
      assert [AckReply(w.r.st.tid, c)] + [] == [AckReply(w.r.st.tid, c)];
    }
  }

  lemma CheckEnds(w: World, crc32: seq<byte> -> u32)
    requires Active(w) && w.r.st.eof && w.r.current == NO_CHUNK
    ensures CompletionChecked(w, crc32).r.active <==> !w.r.st.AllDone()
  {
    NothingMissing(w.r.st);
  }

  lemma SameState(a: Recv, b: Recv, file: Option<seq<byte>>, replies: seq<Reply>, crc32: seq<byte> -> u32)
    requires a.st == b.st && a.maxSeen == b.maxSeen && Consistent(a.st) && CheckAnswers(a, file, replies, crc32)
    ensures CheckAnswers(b, file, replies, crc32)
  {
  }

  // ----- data

  /** A packet of the active transfer, as its sizes say. */
  ghost predicate Belongs(r: Recv, d: Data)
    requires Consistent(r.st)
  {
    && d.tid == r.st.tid && 1 <= |d.data| <= 4096
    && d.chunk < r.st.totalChunks && d.total == PacketCount(r.st, d.chunk)
  }

  /** Any other packet is dropped. */
  lemma DataRefused(w: World, d: Data, crc32: seq<byte> -> u32)
    requires Rests(w) && (!w.r.active || !Belongs(w.r, d))
    ensures DataHandled(w, d, crc32) == w
  {
    if w.r.active && d.chunk < w.r.st.totalChunks {
      ExpectedCount(w.r.st, d.chunk);
    }
  }

  lemma DataAccepted(w: World, d: Data)
    requires Rests(w) && w.r.active
    ensures Belongs(w.r, d) <==> Accepts(w.r, d)
  {
    if d.chunk < w.r.st.totalChunks {
      ExpectedCount(w.r.st, d.chunk);
    }
  }

  function Latest(a: u32, b: u32): u32 { if a > b then a else b }

  /** A packet of a chunk that is done: its ACK is repeated for packet 0, and that is all. */
  lemma RepeatAnswer(w: World, d: Data, crc32: seq<byte> -> u32)
    requires Rests(w) && w.r.active && Belongs(w.r, d) && w.r.st.done[d.chunk]
    ensures var r := w.r.(maxSeen := Latest(w.r.maxSeen, d.chunk));
            DataHandled(w, d, crc32)
            == World(r, if d.packet == 0 then Emit(w.t, Send(AckReply(w.r.st.tid, d.chunk))) else w.t)
  {
    DataAccepted(w, d);
  }

  /** With `d` every packet of its chunk has arrived intact. */
  ghost predicate Completes(r: Recv, d: Data)
  {
    forall p: nat | p < d.total :: IntactWith(r, d, p)
  }

  predicate IntactWith(r: Recv, d: Data, p: nat)
  {
    if p == d.packet then Crc8(d.data) == d.crc else r.current == d.chunk && p < |r.slots| && r.slots[p].Good()
  }

  /** The slots after `d`: it replaces its own, and the others are kept if its chunk was in progress. */
  ghost predicate SlotsAfter(r: Recv, d: Data, slots: seq<Slot>)
  {
    && |slots| == d.total
    && forall p | 0 <= p < d.total ::
         slots[p] == if p == d.packet then Slot(true, Crc8(d.data) == d.crc, d.data)
                     else if r.current == d.chunk && p < |r.slots| then r.slots[p]
                     else Slot(false, false, [])
  }

  /** Another chunk that was in progress is asked for before it is given up. */
  lemma OpenedAnswer(w: World, d: Data) returns (naks: seq<Reply>)
    requires Rests(w) && Accepts(w.r, d) && !w.r.st.done[d.chunk] && d.chunk <= w.r.maxSeen
    ensures var o := Opened(w, d);
            && Adds(w.t.env.log, o.t.env.log, naks)
            && o.t.env == w.t.env.(log := o.t.env.log)
            && Active(o) && o.r == w.r.(slots := o.r.slots, current := d.chunk)
            && SlotsAfter(w.r, d, Inserted(o.r.slots, d.packet, d.data, Crc8(d.data) == d.crc))
    ensures if w.r.current == NO_CHUNK || w.r.current == d.chunk then naks == [] else NaksChunk(w.r, naks)
  {
    OpenedInProgress(w, d);
    if w.r.current == NO_CHUNK || w.r.current == d.chunk {
      naks := [];
      AddsNothing(w.t.env.log);
    } else {
      naks := PacketsNakedReplies(w);
    }
  }

  /** A packet of a chunk that is not done. */
  lemma DataAnswer(w: World, d: Data, crc32: seq<byte> -> u32) returns (naks: seq<Reply>, checks: seq<Reply>)
    requires Rests(w) && w.r.active && Belongs(w.r, d) && !w.r.st.done[d.chunk]
    ensures var w' := DataHandled(w, d, crc32);
            && Adds(w.t.env.log, w'.t.env.log,
                    naks + if Completes(w.r, d) then [AckReply(w.r.st.tid, d.chunk)] + checks else [])
            && w'.r.maxSeen == Latest(w.r.maxSeen, d.chunk) && Consistent(w'.r.st)
            && (!Completes(w.r, d) ==>
                  && w'.r == w.r.(maxSeen := w'.r.maxSeen, current := d.chunk, slots := w'.r.slots)
                  && SlotsAfter(w.r, d, w'.r.slots) && w'.t.env == w.t.env.(log := w'.t.env.log))
            && (Completes(w.r, d) ==>
                  && w'.r.st == w.r.st.(done := w.r.st.done[d.chunk := true])
                  && w'.r.slots == [] && w'.r.current == NO_CHUNK
                  && (w'.r.active <==> !(w'.r.st.eof && w'.r.st.AllDone()))
                  && (if w.r.st.eof then CheckAnswers(w'.r, w'.t.env.file, checks, crc32) else checks == []))
    ensures if w.r.current == NO_CHUNK || w.r.current == d.chunk then naks == [] else NaksChunk(w.r, naks)
  {
    hide Crc8, Adds, Flushed, CheckAnswers;
    DataAccepted(w, d);
    var seen := Seen(w, d.chunk);
    assert Rests(seen) && Accepts(seen.r, d);
    naks := OpenedAnswer(seen, d);
    checks := [];
    var stored := PacketStored(Opened(seen, d), d);
    CompletesIff(w.r, d, stored.r.slots);
    if Complete(stored.r.slots) {
      assert ReadyToFlush(stored, d.chunk);
      checks := FlushAnswer(stored, d.chunk, crc32);
      AddsBoth(w.t.env.log, stored.t.env.log, Flushed(stored, d.chunk, crc32).t.env.log, naks,
               [AckReply(w.r.st.tid, d.chunk)] + checks);
    } else {
      assert naks + [] == naks;
    }
  }

  lemma CompletesIff(r: Recv, d: Data, slots: seq<Slot>)
    requires d.total > 0 && SlotsAfter(r, d, slots)
    ensures Complete(slots) <==> Completes(r, d)
  {
    hide Crc8;
    if Completes(r, d) {
      forall p | 0 <= p < |slots|
        ensures slots[p].Good()
      {
        assert IntactWith(r, d, p);
      }
    }
    if Complete(slots) {
      forall p: nat | p < d.total
        ensures IntactWith(r, d, p)
      {
        assert slots[p].Good();
      }
    }
  }

  // ----- metadata

  /** The name up to its first NUL, which ends at `e`. */
  predicate EndsName(name: seq<byte>, e: nat)
  {
    e <= |name| && (e < |name| ==> name[e] == 0) && forall i | 0 <= i < e :: name[i] != 0
  }

  /** It is empty, or has a slash or two adjacent dots. */
  predicate UnsafeName(name: seq<byte>, e: nat)
    requires e <= |name|
  {
    || e == 0
    || (exists i | 0 <= i < e :: name[i] == 0x2F)
    || (exists i | 0 <= i < e - 1 :: name[i] == 0x2E && name[i + 1] == 0x2E)
  }

  lemma {:induction false} CStringIs(name: seq<byte>, e: nat)
    requires EndsName(name, e)
    ensures CString(name) == name[..e]
    decreases |name|
  {
    if e > 0 {
      CStringIs(name[1..], e - 1);
    }
  }

  lemma SafeNameIff(name: seq<byte>, e: nat)
    requires EndsName(name, e)
    ensures SafeName(name) <==> !UnsafeName(name, e)
  {
    CStringIs(name, e);
    var c := CString(name);
    if exists i :: 0 <= i < e - 1 && name[i] == 0x2E && name[i + 1] == 0x2E {
      var i :| 0 <= i < e - 1 && name[i] == 0x2E && name[i + 1] == 0x2E;
      assert c[i] == 0x2E && c[i + 1] == 0x2E;
    }
    if exists i :: 0 <= i < e && name[i] == 0x2F {
      var i :| 0 <= i < e && name[i] == 0x2F;
      assert c[i] == 0x2F;
    }
    if 0x2F in c {
      var i :| 0 <= i < |c| && c[i] == 0x2F;
      assert name[i] == 0x2F;
    }
    if exists i :: 0 <= i < |c| - 1 && c[i] == 0x2E && c[i + 1] == 0x2E {
      var i :| 0 <= i < |c| - 1 && c[i] == 0x2E && c[i + 1] == 0x2E;
      assert name[i] == 0x2E && name[i + 1] == 0x2E;
    }
  }

  /** Sizes the receiver takes on. */
  predicate Bounded(m: Metadata)
  {
    1 <= m.totalChunks <= 1048576 && 1 <= m.packetSize <= 4096 && 1 <= m.chunkSize
  }

  /** The state of a transfer that has just begun. */
  ghost predicate Begun(w: World, m: Metadata, e: nat, dest: seq<byte>, w': World)
    requires e <= |m.filename| && |w.r.st.filename| == NAME_BYTES
  {
    var st := w'.r.st;
    && w'.r == w.r.(st := st, active := true, current := NO_CHUNK, maxSeen := 0, slots := [])
    && st.tid == m.tid && st.fileSize == m.fileSize && st.chunkSize == m.chunkSize && st.packetSize == m.packetSize
    && st.totalChunks == m.totalChunks && st.checksum == m.checksum && !st.eof && st.destPath == dest
    && |st.done| == m.totalChunks && (forall c | 0 <= c < |st.done| :: !st.done[c])
    && NameCopied(st.filename, w.r.st.filename, m.filename, e)
    && w'.t.env.journal == Holds(st)
    && w'.t.env.file == w.t.env.file && w'.t.env.durable == w.t.env.durable
  }

  /** At most 255 bytes of the name, filled up with NULs; the last byte of the field is left alone. */
  predicate NameCopied(copy: seq<byte>, previous: seq<byte>, name: seq<byte>, e: nat)
    requires e <= |name| && |previous| == NAME_BYTES
  {
    && |copy| == NAME_BYTES && copy[255] == previous[255]
    && forall i | 0 <= i < 255 :: copy[i] == if i < e then name[i] else 0
  }

  lemma NameIsCopied(previous: seq<byte>, name: seq<byte>, e: nat)
    requires |previous| == NAME_BYTES && EndsName(name, e)
    ensures NameCopied(CopiedName(previous, name), previous, name, e)
  {
    CStringIs(name, e);
  }

  /** Metadata of the active transfer is dropped, the id completed last gets the final ACK again, and any other
      Metadata begins a transfer exactly if its sizes are in bounds and its name is safe. */
  lemma MetadataAnswer(w: World, m: Metadata, e: nat, dest: seq<byte>)
    requires w.r.Ok() && |dest| == PATH_BYTES && EndsName(m.filename, e)
    ensures var w' := MetadataHandled(w, m, dest);
            if w.r.active && m.tid == w.r.st.tid then w' == w
            else if !w.r.active && m.tid == w.r.lastAcked then
              w' == World(w.r, Emit(w.t, Send(AckReply(w.r.st.tid, 0xFFFF_FFFF))))
            else if !Bounded(m) || UnsafeName(m.filename, e) then w' == w
            else Begun(w, m, e, dest, w') && Adds(w.t.env.log, w'.t.env.log, [])
  {
    hide CString, SafeName, CopiedName, Adds;
    SafeNameIff(m.filename, e);
    NameIsCopied(w.r.st.filename, m.filename, e);
    var st := NewState(w.r.st, m, dest);
    RemovedAdds(w.t);
    StoredAdds(Removed(w.t), st);
    AddsBoth(w.t.env.log, Removed(w.t).env.log, Stored(Removed(w.t), st).env.log, [], []);
  }

  /** A journal that is there is gone before the new one is written: a stop in between leaves none. */
  lemma OldJournalForgotten(w: World, m: Metadata, dest: seq<byte>)
    requires w.r.Ok() && |dest| == PATH_BYTES && Acceptable(m) && !w.t.env.journal.Absent?
    ensures var past := TransferStarted(w, m, dest).t.past;
            w.t.past <= past && |past| == |w.t.past| + 3 && past[|w.t.past|].journal.Absent?
            && past[|w.t.past| + 1].journal.Absent? && past[|w.t.past| + 2].journal.Holds?
  {
  }

  // ----- booting

  /** Booting sends nothing, except the final ACK of a complete transfer whose file passes; a transfer that is not
      complete is taken up where the journal left it, and its surroundings are not touched. */
  lemma BootAnswer(w: World, crc32: seq<byte> -> u32) returns (replies: seq<Reply>)
    requires w.r == Started(w.r.st) && w.r.Ok()
    requires LoadedFrom(w.t.env).Some? ==> Sane(LoadedFrom(w.t.env).value)
    ensures Adds(w.t.env.log, Booted(w, crc32).t.env.log, replies)
    ensures match w.t.env.journal
            case Absent => Booted(w, crc32) == w
            case Unreadable => Booted(w, crc32) == World(w.r, Emit(w.t, RemoveJournal)) && replies == []
            case Holds(st) =>
              if !(st.eof && st.AllDone()) then
                Booted(w, crc32) == World(w.r.(st := st, active := true), w.t) && replies == []
              else
                && Booted(w, crc32).r.st == st && !Booted(w, crc32).r.active
                && Booted(w, crc32).t.env.journal.Absent? && Booted(w, crc32).t.env.file == w.t.env.file
                && Booted(w, crc32).r.lastAcked == (if FileCrc(crc32, w.t.env.file) == st.checksum then st.tid else 0)
                && replies == if FileCrc(crc32, w.t.env.file) == st.checksum then [AckReply(st.tid, 0xFFFF_FFFF)]
                              else []
  {
    hide Adds;
    match w.t.env.journal
    case Absent =>
      replies := [];
      AddsNothing(w.t.env.log);
    case Unreadable =>
      replies := [];
      RemovedAdds(w.t);
    case Holds(st) =>
      NothingMissing(st);
      replies := [];
      if st.eof && st.AllDone() {
        replies := ConcludedReplies(w.(r := w.r.(st := st, active := true)), crc32);
      } else {
        AddsNothing(w.t.env.log);
      }
  }

  /** So it sends something exactly if the loaded transfer has EOF and every chunk, and its file passes. */
  lemma BootSendsIff(w: World, crc32: seq<byte> -> u32)
    requires w.r == Started(w.r.st) && w.r.Ok()
    requires LoadedFrom(w.t.env).Some? ==> Sane(LoadedFrom(w.t.env).value)
    ensures NoReply(w.t.env.log, Booted(w, crc32).t.env.log) <==>
              !(w.t.env.journal.Holds? && w.t.env.journal.st.eof && w.t.env.journal.st.AllDone()
                && FileCrc(crc32, w.t.env.file) == w.t.env.journal.st.checksum)
  {
    var replies := BootAnswer(w, crc32);
    SilentIff(w.t.env.log, Booted(w, crc32).t.env.log, replies);
  }

  lemma SilentIff(before: seq<Event>, after: seq<Event>, replies: seq<Reply>)
    requires Adds(before, after, replies)
    ensures NoReply(before, after) <==> replies == []
  {
    var added := after[|before|..];
    NoSends(added);
    if NoReply(before, after) {
      forall k | 0 <= k < |added|
        ensures !added[k].Send?
      {
        assert added[k] == after[|before| + k];
      }
    }
    if forall k :: 0 <= k < |added| ==> !added[k].Send? {
      forall k | |before| <= k < |after|
        ensures !after[k].Send?
      {
        assert after[k] == added[k - |before|];
      }
    }
  }

  lemma {:induction false} NoSends(log: seq<Event>)
    ensures RepliesOf(log) == [] <==> forall k | 0 <= k < |log| :: !log[k].Send?
    decreases |log|
  {
    if log != [] {
      NoSends(log[..|log| - 1]);
    }
  }

  /** A destination file that is missing counts as one with checksum 0. */
  lemma MissingFileAtBoot(w: World, crc32: seq<byte> -> u32)
    requires w.r == Started(w.r.st) && w.r.Ok() && w.t.env.file.None?
    requires LoadedFrom(w.t.env).Some? && Sane(LoadedFrom(w.t.env).value)
    requires LoadedFrom(w.t.env).value.eof && LoadedFrom(w.t.env).value.AllDone()
    ensures !NoReply(w.t.env.log, Booted(w, crc32).t.env.log) <==> LoadedFrom(w.t.env).value.checksum == 0
  {
    BootSendsIff(w, crc32);
  }

  // ----- stops in between

  /** The final ACK is sent before the journal goes: whoever stops in between sends it again when booting. */
  lemma FinalAckBeforeRemoval(w: World, crc32: seq<byte> -> u32, leftover: JournalState)
    requires Active(w) && w.r.st.eof && w.r.st.AllDone() && w.r.current == NO_CHUNK
    requires FileCrc(crc32, w.t.env.file) == w.r.st.checksum && |leftover.filename| == NAME_BYTES
    ensures var n, past := |w.t.past|, CompletionChecked(w, crc32).t.past;
            && w.t.past <= past && |past| == n + 2
            && past[n].log == w.t.env.log + [Send(AckReply(w.r.st.tid, 0xFFFF_FFFF))]
            && past[n].journal == w.t.env.journal && past[n + 1].journal.Absent?
    ensures var env := CompletionChecked(w, crc32).t.past[|w.t.past|];
            var up := World(Started(leftover), Trail(env, [env]));
            && up.r.Ok()
            && Adds(env.log, Booted(up, crc32).t.env.log, [AckReply(w.r.st.tid, 0xFFFF_FFFF)])
  {
    hide Adds;
    NothingMissing(w.r.st);
    var env := CompletionChecked(w, crc32).t.past[|w.t.past|];
    var replies := BootAnswer(World(Started(leftover), Trail(env, [env])), crc32);
  }

  /** EOF is in the journal before anything is replied to it. */
  lemma EofRecordedFirst(w: World, checksum: u32, dest: seq<byte>, crc32: seq<byte> -> u32)
    requires Rests(w) && w.r.active && !w.r.st.eof && |dest| == PATH_BYTES
    ensures var n, past := |w.t.past|, Received(w, EofBytes(w.r.st.tid, checksum), dest, crc32).t.past;
            && w.t.past <= past && n + 2 <= |past|
            && past[n + 1].journal == Holds(w.r.st.(eof := true)) && NoReply(w.t.env.log, past[n + 1].log)
  {
    ParseEof(w.r.st.tid, checksum);
    var marked := MarkedEof(w);
    EofMarkedActive(w);
    CompletionGoesOn(marked, crc32);
    assert marked.t.past[|w.t.past| + 1] == marked.t.env;
  }

  lemma CompletionGoesOn(w: World, crc32: seq<byte> -> u32)
    requires w.r.Ok() && Sane(w.r.st)
    ensures w.t.past <= CompletionChecked(w, crc32).t.past
  {
  }
}
