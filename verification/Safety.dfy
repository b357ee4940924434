/** Crash safety: what the disk and the replies guarantee after every single effect of the receiver. */
module Safety {
  import opened Bytes
  import opened Geometry
  import opened Ranges
  import opened Wire
  import opened Slots
  import opened JournalCodec
  import opened Storage
  import opened Journals
  import opened Crc
  import opened ReceiverModel
  import opened Resting

  /** One transfer: its id, its file, what the destination file held at the very start (nothing
      if there was none), the checksum function both programs use, and whether the data packets
      come from a stop-and-wait sender. */
  datatype Source = Source(tid: u32, layout: Layout, before: seq<byte>, crc32: seq<byte> -> u32, ordered: bool)
  {
    ghost predicate Valid() { tid != 0 && layout.Valid() }

    /** The file written over the old destination: what a longer one held behind it stays. */
    function Result(): (f: seq<byte>)
      ensures |f| == if |before| > |layout.bytes| then |before| else |layout.bytes|
    {
      layout.bytes + if |before| > |layout.bytes| then before[|layout.bytes|..] else []
    }

    /** The receiver's checksum of that is the one announced. */
    predicate Passes() { crc32(Result()) == crc32(layout.bytes) }
  }

  /** A destination that is not longer than the file leaves no tail. */
  lemma ShortPasses(src: Source)
    ensures src.Result() == src.layout.bytes <==> |src.before| <= |src.layout.bytes|
    ensures |src.before| <= |src.layout.bytes| ==> src.Passes()
  {
  }

  // ----- file contents

  ghost predicate Same(f: seq<byte>, bytes: seq<byte>, lo: nat, hi: nat)
  {
    hi <= |f| && hi <= |bytes| && forall p | lo <= p < hi :: f[p] == bytes[p]
  }

  /** Chunk `c` of the source is in the file, at its place. */
  ghost predicate ChunkOn(f: Option<seq<byte>>, l: Layout, c: nat)
    requires l.chunkSize > 0 && c < l.Chunks()
  {
    && f.Some?
    && Same(f.value, l.bytes, c * l.chunkSize, c * l.chunkSize + PieceLen(|l.bytes|, l.chunkSize, c))
  }

  predicate Whole(f: Option<seq<byte>>, src: Source) { f == Some(src.Result()) }

  /** The file only ever grows up to its final length, and keeps what lies behind the source. */
  ghost predicate LengthOk(f: Option<seq<byte>>, src: Source)
  {
    match f
    case None => src.before == []
    case Some(v) =>
      && |src.before| <= |v| <= |src.Result()|
      && forall p | |src.layout.bytes| <= p < |v| && p < |src.before| :: v[p] == src.before[p]
  }

  /** If every chunk is in place, the whole source is. */
  lemma AllChunksWhole(f: Option<seq<byte>>, src: Source)
    requires src.Valid() && LengthOk(f, src)
    requires forall c: nat | c < src.layout.Chunks() :: ChunkOn(f, src.layout, c)
    ensures Whole(f, src)
  {
    PositionOn(f, src, |src.layout.bytes| - 1);
    forall p | 0 <= p < |src.layout.bytes|
      ensures f.value[p] == src.layout.bytes[p]
    {
      PositionOn(f, src, p);
    }
    assert f.value == src.Result();
  }

  lemma PositionOn(f: Option<seq<byte>>, src: Source, p: nat)
    requires src.Valid() && p < |src.layout.bytes|
    requires forall c: nat | c < src.layout.Chunks() :: ChunkOn(f, src.layout, c)
    ensures f.Some? && p < |f.value| && f.value[p] == src.layout.bytes[p]
  {
    var c := ChunkOfPosition(src.layout, p);
    assert ChunkOn(f, src.layout, c);
  }

  lemma ChunkOfPosition(l: Layout, p: nat) returns (c: nat)
    requires l.Valid() && p < |l.bytes|
    ensures c < l.Chunks()
    ensures c * l.chunkSize <= p < c * l.chunkSize + PieceLen(|l.bytes|, l.chunkSize, c)
  {
    c := PieceAt(|l.bytes|, l.chunkSize, p);
  }

  // ----- the invariant of the surroundings

  ghost predicate Matches(st: JournalState, src: Source)
    requires src.Valid()
  {
    && Consistent(st)
    && st.tid == src.tid
    && st.fileSize == |src.layout.bytes|
    && st.chunkSize == src.layout.chunkSize
    && st.packetSize == src.layout.packetSize
    && st.totalChunks == src.layout.Chunks()
    && st.checksum == src.crc32(src.layout.bytes)
  }

  /** Chunks recorded as done are in the file, and durably so. */
  ghost predicate DoneOnDisk(st: JournalState, src: Source, file: Option<seq<byte>>, durable: Option<seq<byte>>)
    requires src.Valid() && Matches(st, src)
  {
    forall c: nat | c < st.totalChunks && st.done[c] ::
      ChunkOn(file, src.layout, c) && ChunkOn(durable, src.layout, c)
  }

  ghost predicate JournalOk(src: Source, env: Env)
    requires src.Valid()
  {
    !env.journal.Absent? ==>
      && LoadedFrom(env).Some?
      && Matches(LoadedFrom(env).value, src)
      && DoneOnDisk(LoadedFrom(env).value, src, env.file, env.durable)
  }

  /** What the journal file says: nothing, or the state it loads as. */
  type Loaded = Option<JournalState>

  predicate DoneIn(loaded: Loaded, c: u32)
  {
    loaded.Some? && c < |loaded.value.done| && loaded.value.done[c]
  }

  function Ack(src: Source, c: u32): Event { Send(AckReply(src.tid, c)) }

  ghost predicate AcksOk(src: Source, env: Env)
  {
    && (Ack(src, FINAL) in env.log || RemoveJournal in env.log ==> Whole(env.file, src) && Whole(env.durable, src))
    && (RemoveJournal !in env.log ==>
          forall c: u32 | c != FINAL && Ack(src, c) in env.log :: DoneIn(LoadedFrom(env), c))
    && (forall reply | Send(reply) in env.log && reply.AckReply? :: reply.tid == src.tid)
    && (Ack(src, FINAL) in env.log ==> src.Passes())
    && (RemoveJournal in env.log && src.Passes() ==> Ack(src, FINAL) in env.log)
  }

  ghost predicate LengthsOk(src: Source, env: Env)
  {
    && LengthOk(env.file, src) && LengthOk(env.durable, src)
    && (env.durable.Some? ==> env.file.Some? && |env.durable.value| <= |env.file.value|)
  }

  predicate Ended(env: Env) { RemoveJournal in env.log }

  /** All chunks before `c` are done. */
  ghost predicate Below(loaded: Loaded, c: nat)
  {
    c <= UINT32_MAX && forall i: u32 | i < c :: DoneIn(loaded, i)
  }

  /** What a reply tells a stop-and-wait sender is already on disk. */
  ghost predicate ReplyInOrder(src: Source, loaded: Loaded, reply: Reply)
    requires src.Valid()
  {
    match reply
    case AckReply(_, _) => true
    case InfoReply(tid, m) =>
      tid == src.tid ==>
        if m == FINAL then Below(loaded, src.layout.Chunks()) else m < src.layout.Chunks() && Below(loaded, m)
    case NakReply(_, rs) => |rs| <= UINT32_MAX && forall k | 0 <= k < |rs| :: RangeInOrder(src, loaded, rs[k])
  }

  ghost predicate RangeInOrder(src: Source, loaded: Loaded, r: NakRange)
    requires src.Valid()
  {
    r.chunk < src.layout.Chunks() && r.first <= r.last < src.layout.Packets(r.chunk) && Below(loaded, r.chunk)
  }

  /** The done chunks are a prefix. */
  ghost predicate DonePrefix(loaded: Loaded)
  {
    forall c: u32 | DoneIn(loaded, c) :: Below(loaded, c)
  }

  /** The done chunks are a prefix, and every reply ever sent agrees with it. */
  ghost predicate InOrder(src: Source, loaded: Loaded, log: seq<Event>)
    requires src.Valid()
  {
    DonePrefix(loaded) && forall reply | Send(reply) in log :: ReplyInOrder(src, loaded, reply)
  }

  ghost predicate DiskOk(src: Source, env: Env)
    requires src.Valid()
  {
    && LengthsOk(src, env) && JournalOk(src, env) && AcksOk(src, env)
    && (src.ordered && !Ended(env) ==> InOrder(src, LoadedFrom(env), env.log))
  }

  ghost predicate Grows(a: Loaded, b: Loaded)
  {
    forall c: u32 | DoneIn(a, c) :: DoneIn(b, c)
  }

  lemma ReplyStaysInOrder(src: Source, a: Loaded, b: Loaded, reply: Reply)
    requires src.Valid() && Grows(a, b) && ReplyInOrder(src, a, reply)
    ensures ReplyInOrder(src, b, reply)
  {
    if reply.NakReply? {
      forall k | 0 <= k < |reply.ranges|
        ensures RangeInOrder(src, b, reply.ranges[k])
      {
        assert RangeInOrder(src, a, reply.ranges[k]);
      }
    }
  }

  lemma InOrderGrows(src: Source, a: Loaded, b: Loaded, log: seq<Event>)
    requires src.Valid() && InOrder(src, a, log) && Grows(a, b) && DonePrefix(b)
    ensures InOrder(src, b, log)
  {
    forall reply | Send(reply) in log
      ensures ReplyInOrder(src, b, reply)
    {
      ReplyStaysInOrder(src, a, b, reply);
    }
  }

  // ----- a crash

  /** What a crash can leave of a file: bytes on which the durable and the cached image agree
      survive, all others are arbitrary, and the length is between the two. */
  ghost predicate Torn(durable: Option<seq<byte>>, cached: Option<seq<byte>>, after: Option<seq<byte>>)
  {
    && (durable.Some? && cached.Some? ==>
          && after.Some?
          && |durable.value| <= |after.value|
          && forall p | 0 <= p < |durable.value| && p < |cached.value| && durable.value[p] == cached.value[p] ::
               after.value[p] == durable.value[p])
    && (after.Some? ==> cached.Some? && |after.value| <= |cached.value|)
  }

  ghost predicate Crashed(before: Env, after: Env)
  {
    && Torn(before.durable, before.file, after.file)
    && after.durable == after.file
    && after.journal == before.journal
    && after.log == before.log
  }

  lemma CrashedLengths(src: Source, before: Env, after: Env)
    requires src.Valid() && LengthsOk(src, before) && Crashed(before, after)
    ensures LengthsOk(src, after)
    ensures Whole(before.file, src) && Whole(before.durable, src) ==> Whole(after.file, src)
  {
    if Whole(before.file, src) && Whole(before.durable, src) {
      assert after.file.value == src.Result();
    }
  }

  /** Source bytes that are both cached and durable survive. */
  lemma TornKeepsSame(before: Env, after: Env, bytes: seq<byte>, lo: nat, hi: nat)
    requires Crashed(before, after) && before.file.Some? && before.durable.Some?
    requires Same(before.file.value, bytes, lo, hi) && Same(before.durable.value, bytes, lo, hi)
    ensures after.file.Some? && after.durable == after.file && Same(after.file.value, bytes, lo, hi)
  {
  }

  lemma CrashedJournal(src: Source, before: Env, after: Env)
    requires src.Valid() && JournalOk(src, before) && Crashed(before, after)
    ensures JournalOk(src, after)
  {
    forall lo: nat, hi: nat | before.file.Some? && before.durable.Some?
                              && Same(before.file.value, src.layout.bytes, lo, hi)
                              && Same(before.durable.value, src.layout.bytes, lo, hi)
      ensures after.file.Some? && after.durable == after.file && Same(after.file.value, src.layout.bytes, lo, hi)
    {
      TornKeepsSame(before, after, src.layout.bytes, lo, hi);
    }
  }

  /** The invariant survives a crash, however the unsynchronised bytes are torn. */
  lemma CrashSafe(src: Source, before: Env, after: Env)
    requires src.Valid() && DiskOk(src, before) && Crashed(before, after)
    ensures DiskOk(src, after)
  {
    CrashedLengths(src, before, after);
    CrashedJournal(src, before, after);
    assert LoadedFrom(after) == LoadedFrom(before);
  }

  // ----- a write cut short

  /** A write that is cut short: some of the bytes it was to put into the cached file are there, others not. */
  ghost predicate PartlyWritten(before: Env, after: Env, mid: Env)
  {
    && (exists at: nat, data :: after == Apply(before, WriteFile(at, data)))
    && mid == before.(file := mid.file)
    && before.file.Some? && after.file.Some? && mid.file.Some?
    && |before.file.value| <= |mid.file.value| <= |after.file.value|
    && forall p | 0 <= p < |mid.file.value| ::
         || mid.file.value[p] == after.file.value[p]
         || (p < |before.file.value| && mid.file.value[p] == before.file.value[p])
  }

  /** For one, the system call may have got to any prefix of its data. */
  lemma PrefixIsPart(before: Env, at: nat, data: seq<byte>, n: nat)
    requires before.file.Some? && n <= |data|
    ensures PartlyWritten(before, Apply(before, WriteFile(at, data)),
                          before.(file := Some(WriteAt(before.file.value, at, data[..n]))))
  {
    PrefixWritten(before.file.value, at, data, n);
    assert Apply(before, WriteFile(at, data)).file == Some(WriteAt(before.file.value, at, data));
  }

  /** Of a file of which only a prefix is written, each byte is new or old. */
  lemma PrefixWritten(f: seq<byte>, at: nat, data: seq<byte>, n: nat)
    requires n <= |data|
    ensures var part, whole := WriteAt(f, at, data[..n]), WriteAt(f, at, data);
            && |f| <= |part| <= |whole|
            && forall p | 0 <= p < |part| :: part[p] == whole[p] || (p < |f| && part[p] == f[p])
  {
  }

  /** The invariant holds inside a write whenever it holds before and after it. */
  lemma PartlyWrittenSafe(src: Source, before: Env, after: Env, mid: Env)
    requires src.Valid() && DiskOk(src, before) && DiskOk(src, after) && PartlyWritten(before, after, mid)
    ensures DiskOk(src, mid)
  {
    var at: nat, data :| after == Apply(before, WriteFile(at, data));
    assert LoadedFrom(before) == LoadedFrom(after) == LoadedFrom(mid);
    PartKeepsJournal(src, before, after, mid);
    PartLengths(src, before, after, mid);
    PartAcks(src, before, after, mid);
  }

  lemma PartKeepsSame(before: Env, after: Env, mid: Env, bytes: seq<byte>, lo: nat, hi: nat)
    requires PartlyWritten(before, after, mid)
    requires Same(before.file.value, bytes, lo, hi) && Same(after.file.value, bytes, lo, hi)
    ensures Same(mid.file.value, bytes, lo, hi)
  {
  }

  lemma PartKeepsJournal(src: Source, before: Env, after: Env, mid: Env)
    requires src.Valid() && JournalOk(src, before) && JournalOk(src, after) && PartlyWritten(before, after, mid)
    ensures JournalOk(src, mid)
  {
    hide WriteAt;
    forall lo: nat, hi: nat | Same(before.file.value, src.layout.bytes, lo, hi)
                              && Same(after.file.value, src.layout.bytes, lo, hi)
      ensures Same(mid.file.value, src.layout.bytes, lo, hi)
    {
      PartKeepsSame(before, after, mid, src.layout.bytes, lo, hi);
    }
  }

  lemma PartLengths(src: Source, before: Env, after: Env, mid: Env)
    requires src.Valid() && LengthsOk(src, before) && LengthsOk(src, after) && PartlyWritten(before, after, mid)
    ensures LengthsOk(src, mid)
  {
  }

  lemma PartAcks(src: Source, before: Env, after: Env, mid: Env)
    requires src.Valid() && AcksOk(src, before) && AcksOk(src, after) && PartlyWritten(before, after, mid)
    ensures AcksOk(src, mid)
  {
    var at: nat, data :| after == Apply(before, WriteFile(at, data));
    if Whole(before.file, src) && Whole(after.file, src) {
      assert mid.file.value == src.Result();
    }
  }

  // ----- single effects

  /** The abstract transfer: which chunks are done, and whether EOF was seen. */
  datatype Stage = Idle | Running(done: seq<bool>, eof: bool)

  function StageOf(env: Env): Stage
  {
    match LoadedFrom(env)
    case None => Idle
    case Some(st) => Running(st.done, st.eof)
  }

  /** The abstract machine: start, add one chunk, record EOF, or end with everything done. */
  ghost predicate Advances(a: Stage, b: Stage)
  {
    || a == b
    || (a.Idle? && b.Running? && !b.eof && forall c | 0 <= c < |b.done| :: !b.done[c])
    || (a.Running? && b.Running? && a.eof == b.eof
        && exists c | 0 <= c < |a.done| :: !a.done[c] && b.done == a.done[c := true])
    || (a.Running? && b.Running? && a.done == b.done && !a.eof && b.eof)
    || (a.Running? && b.Idle? && a.eof && forall c | 0 <= c < |a.done| :: a.done[c])
  }

  /** One abstract step, which ends a transfer only by removing its journal. */
  ghost predicate Follows(a: Env, b: Env)
  {
    && Advances(StageOf(a), StageOf(b))
    && a.log <= b.log
    && (StageOf(a).Running? && StageOf(b).Idle? ==> Ended(b))
  }

  /** Every state passed through is safe, and each follows the one before by one abstract step. */
  ghost predicate TrailOk(src: Source, t: Trail)
    requires src.Valid()
  {
    && t.past != [] && t.past[|t.past| - 1] == t.env
    && (forall e | e in t.past :: DiskOk(src, e))
    && (forall i | 0 < i < |t.past| :: Follows(t.past[i - 1], t.past[i]))
  }

  lemma EmitOk(src: Source, t: Trail, e: Event)
    requires src.Valid() && TrailOk(src, t)
    requires DiskOk(src, Apply(t.env, e))
    requires Advances(StageOf(t.env), StageOf(Apply(t.env, e)))
    requires StageOf(Apply(t.env, e)).Running? || StageOf(t.env).Idle? || e == RemoveJournal
    ensures TrailOk(src, Emit(t, e))
  {
  }

  lemma DiskNow(src: Source, t: Trail)
    requires src.Valid() && TrailOk(src, t)
    ensures DiskOk(src, t.env)
  {
  }

  /** A reply may be sent when what it promises is true. */
  lemma SendOk(src: Source, t: Trail, reply: Reply)
    requires src.Valid() && TrailOk(src, t)
    requires reply == AckReply(src.tid, FINAL) ==>
               Whole(t.env.file, src) && Whole(t.env.durable, src) && src.Passes()
    requires reply.AckReply? ==> reply.tid == src.tid
    requires reply.AckReply? && reply.chunk != FINAL ==>
               DoneIn(LoadedFrom(t.env), reply.chunk) || Ended(t.env)
    requires src.ordered && !Ended(t.env) ==> ReplyInOrder(src, LoadedFrom(t.env), reply)
    ensures TrailOk(src, Emit(t, Send(reply)))
  {
    DiskNow(src, t);
    var env' := Apply(t.env, Send(reply));
    assert LoadedFrom(env') == LoadedFrom(t.env);
    EmitOk(src, t, Send(reply));
  }

  /** An effect on neither journal nor replies keeps the order. */
  lemma OrderKept(src: Source, t: Trail, e: Event)
    requires src.Valid() && TrailOk(src, t)
    requires LoadedFrom(Apply(t.env, e)) == LoadedFrom(t.env) && !e.Send?
    ensures var env := Apply(t.env, e);
            src.ordered && !Ended(env) ==> InOrder(src, LoadedFrom(env), env.log)
  {
    DiskNow(src, t);
  }

  /** No chunk is done while the file does not exist, so creating it loses nothing. */
  lemma CreateOk(src: Source, t: Trail)
    requires src.Valid() && TrailOk(src, t) && t.env.file.None?
    ensures TrailOk(src, Emit(t, CreateFile))
  {
    DiskNow(src, t);
    assert LoadedFrom(Apply(t.env, CreateFile)) == LoadedFrom(t.env);
    OrderKept(src, t, CreateFile);
    EmitOk(src, t, CreateFile);
  }

  /** Extending a file in which no chunk is complete. */
  lemma ExtendOk(src: Source, t: Trail)
    requires src.Valid() && TrailOk(src, t) && t.env.file == Some([]) && t.env.durable.None?
    ensures TrailOk(src, Emit(t, WriteFile(|src.layout.bytes| - 1, [0])))
  {
    DiskNow(src, t);
    var e := WriteFile(|src.layout.bytes| - 1, [0]);
    assert LoadedFrom(Apply(t.env, e)) == LoadedFrom(t.env);
    OrderKept(src, t, e);
    EmitOk(src, t, e);
  }

  lemma AllocatedOk(src: Source, t: Trail)
    requires src.Valid() && TrailOk(src, t)
    ensures var t' := Allocated(t, |src.layout.bytes|);
            && TrailOk(src, t') && t'.env.file.Some?
            && LoadedFrom(t'.env) == LoadedFrom(t.env)
            && (forall r :: Send(r) in t'.env.log <==> Send(r) in t.env.log)
            && (RemoveJournal in t'.env.log <==> RemoveJournal in t.env.log)
  {
    if t.env.file.None? {
      DiskNow(src, t);
      CreateOk(src, t);
      ExtendOk(src, Emit(t, CreateFile));
    }
  }

  /** Writing a piece of the source at its place keeps every source byte already there. */
  lemma WriteKeepsSame(f: seq<byte>, bytes: seq<byte>, at: nat, n: nat, lo: nat, hi: nat)
    requires at + n <= |bytes| && Same(f, bytes, lo, hi)
    ensures Same(WriteAt(f, at, bytes[at..at + n]), bytes, lo, hi)
  {
    var data := bytes[at..at + n];
    var g := WriteAt(f, at, data);
    forall p | lo <= p < hi
      ensures g[p] == bytes[p]
    {
      if at <= p < at + n {
        assert g[at + (p - at)] == data[p - at];
      }
    }
  }

  lemma WriteOk(src: Source, t: Trail, c: nat)
    requires src.Valid() && TrailOk(src, t) && t.env.file.Some? && c < src.layout.Chunks()
    ensures var e := WriteFile(c * src.layout.chunkSize, src.layout.Chunk(c));
            && TrailOk(src, Emit(t, e))
            && ChunkOn(Emit(t, e).env.file, src.layout, c)
  {
    var l := src.layout;
    var at, n := c * l.chunkSize, PieceLen(|l.bytes|, l.chunkSize, c);
    assert l.Chunk(c) == l.bytes[at..at + n];
    SourceWritten(src, t, at, n);
  }

  /** A piece of the source is written at its place. */
  lemma SourceWritten(src: Source, t: Trail, at: nat, n: nat)
    requires src.Valid() && TrailOk(src, t) && t.env.file.Some? && at + n <= |src.layout.bytes| && n > 0
    ensures var t' := Emit(t, WriteFile(at, src.layout.bytes[at..at + n]));
            && TrailOk(src, t') && t'.env.file.Some?
            && Same(t'.env.file.value, src.layout.bytes, at, at + n)
  {
    var e := WriteFile(at, src.layout.bytes[at..at + n]);
    DiskNow(src, t);
    WriteGives(t.env.file.value, src.layout.bytes, at, n);
    WriteLength(src, t.env.file.value, at, n);
    WriteWhole(src, t.env.file.value, at, n);
    WriteJournal(src, t.env, at, n);
    OrderKept(src, t, e);
    EmitOk(src, t, e);
  }

  lemma WriteJournal(src: Source, env: Env, at: nat, n: nat)
    requires src.Valid() && JournalOk(src, env) && env.file.Some? && at + n <= |src.layout.bytes|
    ensures var env' := Apply(env, WriteFile(at, src.layout.bytes[at..at + n]));
            JournalOk(src, env') && LoadedFrom(env') == LoadedFrom(env)
  {
    var l, f := src.layout, env.file.value;
    forall lo: nat, hi: nat | Same(f, l.bytes, lo, hi)
      ensures Same(WriteAt(f, at, l.bytes[at..at + n]), l.bytes, lo, hi)
    {
      WriteKeepsSame(f, l.bytes, at, n, lo, hi);
    }
  }

  lemma WriteLength(src: Source, f: seq<byte>, at: nat, n: nat)
    requires at + n <= |src.layout.bytes| && LengthOk(Some(f), src)
    ensures LengthOk(Some(WriteAt(f, at, src.layout.bytes[at..at + n])), src)
    ensures |f| <= |WriteAt(f, at, src.layout.bytes[at..at + n])|
  {
  }

  lemma WriteWhole(src: Source, f: seq<byte>, at: nat, n: nat)
    requires at + n <= |src.layout.bytes|
    ensures Whole(Some(f), src) ==> Whole(Some(WriteAt(f, at, src.layout.bytes[at..at + n])), src)
  {
    if f == src.Result() {
      var data := src.layout.bytes[at..at + n];
      var g := WriteAt(f, at, data);
      forall p | 0 <= p < |f|
        ensures g[p] == f[p]
      {
        if at <= p < at + n {
          assert g[at + (p - at)] == data[p - at];
        }
      }
      assert g == f;
    }
  }

  lemma WriteGives(f: seq<byte>, bytes: seq<byte>, at: nat, n: nat)
    requires at + n <= |bytes| && n > 0
    ensures Same(WriteAt(f, at, bytes[at..at + n]), bytes, at, at + n)
  {
    var data := bytes[at..at + n];
    var g := WriteAt(f, at, data);
    forall p | at <= p < at + n
      ensures g[p] == bytes[p]
    {
      assert g[at + (p - at)] == data[p - at];
    }
  }

  lemma SyncOk(src: Source, t: Trail)
    requires src.Valid() && TrailOk(src, t) && t.env.file.Some?
    ensures TrailOk(src, Emit(t, SyncFile))
  {
    DiskNow(src, t);
    assert LoadedFrom(Apply(t.env, SyncFile)) == LoadedFrom(t.env);
    OrderKept(src, t, SyncFile);
    EmitOk(src, t, SyncFile);
  }

  lemma TmpOk(src: Source, t: Trail, st: JournalState)
    requires src.Valid() && TrailOk(src, t)
    ensures TrailOk(src, Emit(t, WriteTmp(st)))
  {
    DiskNow(src, t);
    assert LoadedFrom(Apply(t.env, WriteTmp(st))) == LoadedFrom(t.env);
    OrderKept(src, t, WriteTmp(st));
    EmitOk(src, t, WriteTmp(st));
  }

  /** Replacing the journal by a state whose chunks are all on disk and that forgets none. */
  lemma StoredOk(src: Source, t: Trail, st: JournalState)
    requires src.Valid() && TrailOk(src, t) && Matches(st, src)
    requires DoneOnDisk(st, src, t.env.file, t.env.durable)
    requires Grows(LoadedFrom(t.env), Some(st))
    requires src.ordered && !Ended(t.env) ==> DonePrefix(Some(st))
    requires Advances(StageOf(t.env), Running(st.done, st.eof))
    ensures TrailOk(src, Stored(t, st))
  {
    var tmp := Emit(t, WriteTmp(st));
    TmpOk(src, t, st);
    DiskNow(src, tmp);
    assert LoadedFrom(tmp.env) == LoadedFrom(t.env);
    var env' := Apply(tmp.env, RenameTmp);
    assert LoadedFrom(env') == Some(st);
    if src.ordered && !Ended(env') {
      InOrderGrows(src, LoadedFrom(tmp.env), Some(st), tmp.env.log);
    }
    EmitOk(src, tmp, RenameTmp);
  }

  // ----- the receiver's half of the invariant

  /** Every intact slot holds its own packet. */
  ghost predicate RightSlots(l: Layout, c: nat, slots: seq<Slot>)
    requires l.Valid() && c < l.Chunks() && |slots| == l.Packets(c)
  {
    forall i | 0 <= i < |slots| && slots[i].Good() :: slots[i].data == l.Packet(c, i)
  }

  /** The intact slots of the chunk in progress hold exactly their packets of the source. */
  ghost predicate SlotsOk(src: Source, r: Recv)
    requires src.Valid()
  {
    r.current != NO_CHUNK ==>
      && r.current < src.layout.Chunks()
      && |r.slots| == src.layout.Packets(r.current)
      && RightSlots(src.layout, r.current, r.slots)
  }

  ghost predicate RecvOk(src: Source, w: World)
    requires src.Valid()
  {
    && (w.r.active ==> Matches(w.r.st, src) && SlotsOk(src, w.r))
    && (w.r.active && src.ordered && !Ended(w.t.env) ==> Below(LoadedFrom(w.t.env), w.r.maxSeen))
    && (w.r.active ==> w.r.lastAcked == 0)
    && (w.r.lastAcked != 0 ==> w.r.lastAcked == src.tid && w.r.st.tid == src.tid && Ack(src, FINAL) in w.t.env.log)
  }

  ghost predicate Safe(src: Source, w: World)
    requires src.Valid()
  {
    Rests(w) && TrailOk(src, w.t) && RecvOk(src, w)
  }

  /** What is asked of the PDUs that arrive: metadata of this transfer only, and data packets that
      carry the right bytes whenever their checksum matches. Everything else is arbitrary. */
  ghost predicate HonestData(src: Source, d: Data)
    requires src.Valid()
  {
    d.tid == src.tid && Crc8(d.data) == d.crc && d.chunk < src.layout.Chunks() && d.packet < src.layout.Packets(d.chunk)
    ==> d.data == src.layout.Packet(d.chunk, d.packet)
  }

  ghost predicate HonestMetadata(src: Source, m: Metadata)
    requires src.Valid()
  {
    && m.tid == src.tid
    && (Acceptable(m) ==>
          && m.fileSize == |src.layout.bytes|
          && m.chunkSize == src.layout.chunkSize
          && m.packetSize == src.layout.packetSize
          && m.totalChunks == src.layout.Chunks()
          && m.checksum == src.crc32(src.layout.bytes))
  }

  /** A stop-and-wait sender never runs ahead of the chunks that are done. */
  ghost predicate DataInOrder(src: Source, env: Env, d: Data)
    requires src.Valid()
  {
    src.ordered && !Ended(env) && d.tid == src.tid && d.chunk < src.layout.Chunks() ==>
      Below(LoadedFrom(env), d.chunk)
  }

  ghost predicate Honest(src: Source, env: Env, pdu: Pdu)
    requires src.Valid()
  {
    match pdu
    case MetadataPdu(m) => HonestMetadata(src, m)
    case DataPdu(d) => HonestData(src, d) && DataInOrder(src, env, d)
    case EofPdu(_, _) => true
    case QueryPdu(_) => true
  }

  lemma CountIsPackets(src: Source, st: JournalState, c: u32)
    requires src.Valid() && Matches(st, src) && c < st.totalChunks
    ensures ExpectedPackets(st, c) == src.layout.Packets(c) > 0
  {
    ExpectedCount(st, c);
  }

  // ----- the handlers

  /** The transfer ends: the whole source is on disk. */
  lemma ConcludedSafe(src: Source, w: World)
    requires src.Valid() && Active(w) && TrailOk(src, w.t) && RecvOk(src, w)
    requires w.r.st.AllDone() && w.r.st.eof && w.r.current == NO_CHUNK
    ensures Whole(w.t.env.file, src) && Whole(w.t.env.durable, src)
    ensures Safe(src, Concluded(w, src.crc32))
  {
    DiskNow(src, w.t);
    AllChunksWhole(w.t.env.file, src);
    AllChunksWhole(w.t.env.durable, src);
    if src.Passes() {
      SendOk(src, w.t, AckReply(src.tid, FINAL));
      var acked := Emit(w.t, Send(AckReply(src.tid, FINAL)));
      assert LoadedFrom(acked.env) == Some(w.r.st);
      RemovedOk(src, acked);
    } else {
      RemovedOk(src, w.t);
    }
  }

  lemma RemovedOk(src: Source, t: Trail)
    requires src.Valid() && TrailOk(src, t) && !t.env.journal.Absent?
    requires LoadedFrom(t.env).Some? && LoadedFrom(t.env).value.eof && LoadedFrom(t.env).value.AllDone()
    requires src.Passes() ==> Ack(src, FINAL) in t.env.log
    requires Whole(t.env.file, src) && Whole(t.env.durable, src)
    ensures TrailOk(src, Removed(t))
  {
    DiskNow(src, t);
    assert Ended(Apply(t.env, RemoveJournal));
    EmitOk(src, t, RemoveJournal);
  }

  lemma PacketsNakSafe(src: Source, w: World)
    requires src.Valid() && Active(w) && TrailOk(src, w.t) && RecvOk(src, w) && w.r.current != NO_CHUNK
    ensures TrailOk(src, PacketsNaked(w, w.r.current).t)
  {
    var missing := Missing(w.r.slots);
    var rs := Runs(missing);
    RunsCanonical(missing);
    RunsShort(missing);
    CountIsPackets(src, w.r.st, w.r.current);
    SendOk(src, w.t, NakReply(w.r.st.tid, ForChunk(w.r.current, rs)));
  }

  lemma ChunkNakInOrder(src: Source, w: World, c: u32)
    requires src.Valid() && Active(w) && RecvOk(src, w)
    requires FirstSeen(Runs(w.r.st.Missing()), w.r.maxSeen) == Some(c)
    ensures ReplyInOrder(src, LoadedFrom(w.t.env), ChunkNak(w.r.st, c))
  {
    FirstSeenIsLeast(w.r.st, w.r.maxSeen);
    CountIsPackets(src, w.r.st, c);
    forall i: u32 | i < c
      ensures DoneIn(LoadedFrom(w.t.env), i)
    {
      assert !w.r.st.Missing()[i];
    }
  }

  lemma CompletionSafe(src: Source, w: World)
    requires src.Valid() && Active(w) && TrailOk(src, w.t) && RecvOk(src, w)
    requires w.r.st.eof
    ensures Safe(src, CompletionChecked(w, src.crc32))
  {
    CompletionRests(w, src.crc32);
    NothingMissing(w.r.st);
    FirstSeenIsLeast(w.r.st, w.r.maxSeen);
    if w.r.current != NO_CHUNK {
      PacketsNakSafe(src, w);
    } else {
      var seen := FirstSeen(Runs(w.r.st.Missing()), w.r.maxSeen);
      if seen.Some? {
        ChunkNakInOrder(src, w, seen.value);
        SendOk(src, w.t, ChunkNak(w.r.st, seen.value));
      } else if w.r.st.AllDone() {
        ConcludedSafe(src, w);
      }
    }
  }

  /** When the list is complete, joining its packets gives the chunk of the source. */
  lemma AssembledIsChunk(src: Source, r: Recv)
    requires src.Valid() && r.current != NO_CHUNK && SlotsOk(src, r) && Complete(r.slots)
    ensures Assembled(r.slots) == src.layout.Chunk(r.current)
  {
    var l, c := src.layout, r.current;
    assert Payloads(r.slots) == l.Payloads(c) by {
      forall p | 0 <= p < |r.slots|
        ensures Payloads(r.slots)[p] == l.Payloads(c)[p]
      {
        assert r.slots[p].Good();
      }
    }
    ConcatPieces(l.Chunk(c), l.packetSize);
  }

  /** Write, sync, journal: safe after each of the four effects. The chunk is then in place, cached and
      durable, and recorded as done; no byte of the file outside its place has changed. */
  lemma ChunkStoredSafe(src: Source, w: World, c: u32)
    requires src.Valid() && ReadyToFlush(w, c) && TrailOk(src, w.t) && RecvOk(src, w) && w.t.env.file.Some?
    ensures var w' := ChunkStored(w, c);
            && TrailOk(src, w'.t) && Matches(w'.r.st, src) && DoneIn(LoadedFrom(w'.t.env), c)
            && LoadedFrom(w'.t.env) == Some(w.r.st.(done := w.r.st.done[c := true]))
            && w'.t.env.file.Some? && w'.t.env.durable == w'.t.env.file
            && ChunkOn(w'.t.env.file, src.layout, c)
            && OthersKept(src.layout, c, w.t.env.file.value, w'.t.env.file.value)
  {
    ChunkWrittenSafe(src, w, c);
    var st, written := w.r.st, ChunkWritten(w, c);
    var st' := st.(done := st.done[c := true]);
    DiskNow(src, written);
    DoneGrows(src, st, c, written.env);
    if src.ordered && !Ended(written.env) {
      InProgressBelow(src, w, c);
      DonePrefixGrows(st, c);
    }
    StoredOk(src, written, st');
    StoredLoads(written, st');
  }

  /** `g` is `f` with chunk `c` written at its place. */
  ghost predicate OthersKept(l: Layout, c: nat, f: seq<byte>, g: seq<byte>)
    requires l.Valid() && c < l.Chunks()
  {
    var lo, hi := c * l.chunkSize, c * l.chunkSize + PieceLen(|l.bytes|, l.chunkSize, c);
    && |g| == (if hi <= |f| then |f| else hi)
    && forall p | 0 <= p < |f| && !(lo <= p < hi) :: g[p] == f[p]
  }

  /** The two effects on the file. */
  lemma ChunkWrittenSafe(src: Source, w: World, c: u32)
    requires src.Valid() && ReadyToFlush(w, c) && TrailOk(src, w.t) && RecvOk(src, w) && w.t.env.file.Some?
    ensures var t := ChunkWritten(w, c);
            && TrailOk(src, t) && LoadedFrom(t.env) == Some(w.r.st)
            && (Ended(t.env) <==> Ended(w.t.env))
            && t.env.file.Some? && t.env.durable == t.env.file && ChunkOn(t.env.file, src.layout, c)
            && OthersKept(src.layout, c, w.t.env.file.value, t.env.file.value)
  {
    var l := src.layout;
    AssembledIsChunk(src, w.r);
    WriteOk(src, w.t, c);
    var written := Emit(w.t, WriteFile(c * l.chunkSize, l.Chunk(c)));
    SyncOk(src, written);
  }

  lemma InProgressBelow(src: Source, w: World, c: u32)
    requires src.Valid() && ReadyToFlush(w, c) && RecvOk(src, w) && src.ordered && !Ended(w.t.env)
    ensures Below(Some(w.r.st), c)
  {
    assert LoadedFrom(w.t.env) == Some(w.r.st);
  }

  /** Recording a chunk that is on disk keeps the journal right. */
  lemma DoneGrows(src: Source, st: JournalState, c: u32, env: Env)
    requires src.Valid() && Matches(st, src) && c < st.totalChunks && !st.done[c]
    requires DiskOk(src, env) && LoadedFrom(env) == Some(st)
    requires ChunkOn(env.file, src.layout, c) && ChunkOn(env.durable, src.layout, c)
    ensures var st' := st.(done := st.done[c := true]);
            && Matches(st', src) && DoneOnDisk(st', src, env.file, env.durable)
            && Grows(LoadedFrom(env), Some(st'))
            && Advances(StageOf(env), Running(st'.done, st'.eof))
  {
  }

  lemma DonePrefixGrows(st: JournalState, c: u32)
    requires c < |st.done| && Below(Some(st), c) && DonePrefix(Some(st))
    ensures DonePrefix(Some(st.(done := st.done[c := true])))
  {
    var loaded := Some(st.(done := st.done[c := true]));
    forall j: u32 | DoneIn(loaded, j)
      ensures Below(loaded, j)
    {
      assert j == c || DoneIn(Some(st), j);
      forall i: u32 | i < j
        ensures DoneIn(loaded, i)
      {
        assert DoneIn(Some(st), i);
      }
    }
  }

  lemma FlushedSafe(src: Source, w: World, c: u32)
    requires src.Valid() && ReadyToFlush(w, c) && TrailOk(src, w.t) && RecvOk(src, w)
    ensures Safe(src, Flushed(w, c, src.crc32))
  {
    FlushedShape(w, c, src.crc32);
    FlushedRests(w, c, src.crc32);
    AllocatedOk(src, w.t);
    var ready := w.(t := Allocated(w.t, w.r.st.fileSize));
    ChunkAckedSafe(src, ready, c);
    var idle := Idled(Acked(ChunkStored(ready, c), c));
    if idle.r.st.eof {
      CompletionSafe(src, idle);
    }
  }

  lemma ChunkAckedSafe(src: Source, w: World, c: u32)
    requires src.Valid() && ReadyToFlush(w, c) && TrailOk(src, w.t) && RecvOk(src, w) && w.t.env.file.Some?
    ensures var idle := Idled(Acked(ChunkStored(w, c), c));
            && TrailOk(src, idle.t) && RecvOk(src, idle)
  {
    ChunkStoredSafe(src, w, c);
    var stored := ChunkStored(w, c);
    ChunkStoredLog(src, w, c);
    SendOk(src, stored.t, AckReply(src.tid, c));
    if src.ordered && !Ended(w.t.env) {
      BelowDone(w.r.st, c, w.r.maxSeen);
    }
    var idle := Idled(Acked(stored, c));
    assert LoadedFrom(idle.t.env) == LoadedFrom(stored.t.env);
    assert Ended(idle.t.env) <==> Ended(w.t.env);
    assert idle.r == w.r.(st := stored.r.st, slots := [], current := NO_CHUNK);
  }

  lemma BelowDone(st: JournalState, c: u32, n: nat)
    requires c < |st.done| && Below(Some(st), n)
    ensures Below(Some(st.(done := st.done[c := true])), n)
  {
    var loaded := Some(st.(done := st.done[c := true]));
    forall i: u32 | i < n
      ensures DoneIn(loaded, i)
    {
      assert DoneIn(Some(st), i);
    }
  }

  lemma ChunkStoredLog(src: Source, w: World, c: u32)
    requires ReadyToFlush(w, c)
    ensures var w' := ChunkStored(w, c);
            && (forall r :: Send(r) in w'.t.env.log <==> Send(r) in w.t.env.log)
            && (RemoveJournal in w'.t.env.log <==> RemoveJournal in w.t.env.log)
            && w'.r.lastAcked == w.r.lastAcked
  {
    assert LoadedFrom(ChunkWritten(w, c).env) == Some(w.r.st);
  }

  lemma OpenedSafe(src: Source, w: World, d: Data)
    requires src.Valid() && Safe(src, w) && Accepts(w.r, d) && !w.r.st.done[d.chunk] && d.chunk <= w.r.maxSeen
    requires DataInOrder(src, w.t.env, d)
    ensures TrailOk(src, Opened(w, d).t) && RecvOk(src, Opened(w, d))
  {
    CountIsPackets(src, w.r.st, d.chunk);
    if w.r.current != NO_CHUNK {
      PacketsNakSafe(src, w);
    }
    assert forall p | 0 <= p < d.total :: !Fresh(d.total)[p].Good();
  }

  lemma PacketTakenSafe(src: Source, w: World, d: Data)
    requires src.Valid() && Safe(src, w) && Accepts(w.r, d) && !w.r.st.done[d.chunk] && d.chunk <= w.r.maxSeen
    requires HonestData(src, d) && DataInOrder(src, w.t.env, d)
    ensures Safe(src, PacketTaken(w, d, src.crc32))
  {
    OpenedInProgress(w, d);
    OpenedSafe(src, w, d);
    PacketTakenRests(w, d, src.crc32);
    var stored := PacketStored(Opened(w, d), d);
    assert RecvOk(src, stored);
    if Complete(stored.r.slots) {
      FlushedSafe(src, stored, d.chunk);
    }
  }

  lemma SeenSafe(src: Source, w: World, d: Data)
    requires src.Valid() && Safe(src, w) && Accepts(w.r, d) && DataInOrder(src, w.t.env, d)
    ensures Safe(src, Seen(w, d.chunk))
  {
    hide TrailOk, Crc8;
  }

  lemma DataSafe(src: Source, w: World, d: Data)
    requires src.Valid() && Safe(src, w) && HonestData(src, d) && DataInOrder(src, w.t.env, d)
    ensures Safe(src, DataHandled(w, d, src.crc32))
  {
    hide TrailOk, Crc8, PacketTaken, SlotsOk;
    if Accepts(w.r, d) {
      SeenSafe(src, w, d);
      if !w.r.st.done[d.chunk] {
        PacketTakenSafe(src, Seen(w, d.chunk), d);
      } else {
        SendOk(src, w.t, AckReply(src.tid, d.chunk));
      }
    }
  }

  lemma MetadataSafe(src: Source, w: World, m: Metadata, dest: seq<byte>)
    requires src.Valid() && Safe(src, w) && HonestMetadata(src, m) && |dest| == PATH_BYTES
    ensures Safe(src, MetadataHandled(w, m, dest))
  {
    MetadataRests(w, m, dest);
    DiskNow(src, w.t);
    if w.r.active {
    } else if w.r.lastAcked == m.tid {
      SendOk(src, w.t, AckReply(src.tid, FINAL));
    } else if Acceptable(m) {
      StartedSafe(src, w, m, dest);
    }
  }

  lemma StartedSafe(src: Source, w: World, m: Metadata, dest: seq<byte>)
    requires src.Valid() && Safe(src, w) && HonestMetadata(src, m) && |dest| == PATH_BYTES
    requires !w.r.active && Acceptable(m) && w.r.lastAcked != m.tid
    ensures Safe(src, TransferStarted(w, m, dest))
  {
    var st := NewState(w.r.st, m, dest);
    assert Matches(st, src);
    StoredOk(src, w.t, st);
    StoredLoads(w.t, st);
    PieceBounds(m.fileSize, m.chunkSize, 0);
    assert !st.done[0];
  }

  lemma EofSafe(src: Source, w: World, tid: u32)
    requires src.Valid() && Safe(src, w)
    ensures Safe(src, EofHandled(w, tid, src.crc32))
  {
    if w.r.active && tid == w.r.st.tid {
      MarkedEofSafe(src, w);
      CompletionSafe(src, MarkedEof(w));
    }
  }

  lemma MarkedEofSafe(src: Source, w: World)
    requires src.Valid() && Safe(src, w) && w.r.active
    ensures Active(MarkedEof(w)) && TrailOk(src, MarkedEof(w).t) && RecvOk(src, MarkedEof(w))
    ensures MarkedEof(w).r.st.eof
  {
    EofMarkedActive(w);
    if !w.r.st.eof {
      DiskNow(src, w.t);
      var t := EofStored(w.t, w.r.st);
      SamePrefix(w.r.st, w.r.st.(eof := true));
      StoredOk(src, w.t, w.r.st.(eof := true));
    }
  }

  lemma SamePrefix(a: JournalState, b: JournalState)
    requires a.done == b.done
    ensures Grows(Some(a), Some(b)) && (DonePrefix(Some(a)) ==> DonePrefix(Some(b)))
  {
    forall c: nat | Below(Some(a), c)
      ensures Below(Some(b), c)
    {
      forall i: u32 | i < c
        ensures DoneIn(Some(b), i)
      {
        assert DoneIn(Some(a), i);
      }
    }
    if DonePrefix(Some(a)) {
      forall c: u32 | DoneIn(Some(b), c)
        ensures Below(Some(b), c)
      {
        assert DoneIn(Some(a), c);
      }
    }
  }

  /** Handling any honest PDU is safe, and so is a crash after any of its effects. */
  lemma HandledSafe(src: Source, w: World, pdu: Pdu, dest: seq<byte>)
    requires src.Valid() && Safe(src, w) && Honest(src, w.t.env, pdu) && |dest| == PATH_BYTES
    ensures Safe(src, Handled(w, pdu, dest, src.crc32))
  {
    match pdu
    case MetadataPdu(m) => MetadataSafe(src, w, m, dest);
    case DataPdu(d) => DataSafe(src, w, d);
    case EofPdu(tid, _) => EofSafe(src, w, tid);
    case QueryPdu(tid) =>
      InfoInOrder(src, w, tid);
      SendOk(src, w.t, InfoReply(tid, ResumeChunk(w.r, tid)));
  }

  /** Effect by effect, the receiver follows the abstract machine of done chunks and EOF: each effect is
      no step of it or exactly one, and only the removal of the journal forgets a done chunk. */
  lemma HandledRefines(src: Source, w: World, pdu: Pdu, dest: seq<byte>, k: nat)
    requires src.Valid() && Safe(src, w) && Honest(src, w.t.env, pdu) && |dest| == PATH_BYTES
    requires 0 < k < |Handled(w, pdu, dest, src.crc32).t.past|
    ensures var past := Handled(w, pdu, dest, src.crc32).t.past;
            && Advances(StageOf(past[k - 1]), StageOf(past[k]))
            && DiskOk(src, past[k])
            && (forall c: u32 | DoneIn(LoadedFrom(past[k - 1]), c) :: DoneIn(LoadedFrom(past[k]), c) || Ended(past[k]))
  {
    HandledSafe(src, w, pdu, dest);
    var past := Handled(w, pdu, dest, src.crc32).t.past;
    assert Follows(past[k - 1], past[k]);
    assert past[k] in past;
  }

  lemma InfoInOrder(src: Source, w: World, tid: u32)
    requires src.Valid() && Safe(src, w)
    ensures ReplyInOrder(src, LoadedFrom(w.t.env), InfoReply(tid, ResumeChunk(w.r, tid)))
  {
    PieceBounds(|src.layout.bytes|, src.layout.chunkSize, 0);
    if w.r.active && w.r.st.tid == tid {
      var missing := w.r.st.Missing();
      RunsCanonical(missing);
      FirstIsLeast(Runs(missing), missing);
      forall i: u32 | i < w.r.st.totalChunks && !missing[i]
        ensures DoneIn(LoadedFrom(w.t.env), i)
      {
      }
    }
  }

  /** So is booting from whatever a crash left. */
  lemma BootedSafe(src: Source, w: World)
    requires src.Valid() && TrailOk(src, w.t)
    requires w.r == Started(w.r.st) && |w.r.st.filename| == NAME_BYTES
    ensures w.r.Ok() && (LoadedFrom(w.t.env).Some? ==> Sane(LoadedFrom(w.t.env).value))
    ensures Safe(src, Booted(w, src.crc32))
  {
    DiskNow(src, w.t);
    BootedRests(w, src.crc32);
    if LoadedFrom(w.t.env).Some? {
      var st := LoadedFrom(w.t.env).value;
      NothingMissing(st);
      var up := w.(r := w.r.(st := st, active := true, current := NO_CHUNK, maxSeen := 0, slots := []));
      assert Active(up) && RecvOk(src, up);
      if st.AllDone() && st.eof {
        CompletionSafe(src, up);
      }
    }
  }
}
