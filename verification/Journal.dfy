/** The journal object: every update re-reads the file, changes one field and replaces the file. */
module Journals {
  import opened Bytes
  import opened Ranges
  import opened JournalCodec
  import opened Storage

  // ----- what each operation does to the platform

  function LoadedFrom(env: Env): Option<JournalState>
  {
    match env.journal
    case Absent => None
    case Unreadable => None
    case Holds(st) => Some(st)
  }

  function Stored(t: Trail, s: JournalState): Trail
  {
    Emit(Emit(t, WriteTmp(s)), RenameTmp)
  }

  function ChunkMarked(t: Trail, chunk: u32): Trail
  {
    match LoadedFrom(t.env)
    case None => t
    case Some(s) => if chunk < |s.done| then Stored(t, s.(done := s.done[chunk := true])) else t
  }

  function EofMarked(t: Trail): Trail
  {
    match LoadedFrom(t.env)
    case None => t
    case Some(s) => Stored(t, s.(eof := true))
  }

  function Removed(t: Trail): Trail
  {
    if t.env.journal.Absent? then t else Emit(t, RemoveJournal)
  }

  /** The updates change one field of what the file holds, and nothing if it holds no state or no such chunk. */
  lemma UpdatesOneField(t: Trail, chunk: u32)
    ensures match LoadedFrom(t.env)
            case None => ChunkMarked(t, chunk) == t && EofMarked(t) == t
            case Some(s) =>
              && LoadedFrom(EofMarked(t).env) == Some(s.(eof := true))
              && (if chunk < |s.done|
                  then LoadedFrom(ChunkMarked(t, chunk).env) == Some(s.(done := s.done[chunk := true]))
                  else ChunkMarked(t, chunk) == t)
  {
  }

  class Journal {
    const platform: Platform

    constructor (platform: Platform)
      ensures this.platform == platform
    {
      this.platform := platform;
    }

    method Exists() returns (b: bool)
      requires platform.Valid()
      ensures b <==> !platform.Now().journal.Absent?
    {
      assert BeingRead(platform.journal);
      b := platform.journal.Some?;
    }

    method Create(s: JournalState)
      requires platform.Valid() && s.Storable()
      modifies platform
      ensures platform.Valid() && platform.View() == Stored(old(platform.View()), s)
    {
      AtomicWrite(s);
    }

    method MarkChunkDone(chunk: u32) returns (ok: bool)
      requires platform.Valid()
      modifies platform
      ensures platform.Valid() && platform.View() == ChunkMarked(old(platform.View()), chunk)
      ensures ok <==> old(LoadedFrom(platform.Now()).Some? && chunk < |LoadedFrom(platform.Now()).value.done|)
    {
      var loaded := ReadFromDisk();
      if loaded.None? {
        return false;
      }
      var s := loaded.value;
      if chunk >= |s.done| {
        return false;
      }
      s := s.(done := s.done[chunk := true]);
      AtomicWrite(s);
      return true;
    }

    method MarkEofReceived() returns (ok: bool)
      requires platform.Valid()
      modifies platform
      ensures platform.Valid() && platform.View() == EofMarked(old(platform.View()))
      ensures ok <==> old(LoadedFrom(platform.Now()).Some?)
    {
      var loaded := ReadFromDisk();
      if loaded.None? {
        return false;
      }
      AtomicWrite(loaded.value.(eof := true));
      return true;
    }

    method Remove()
      requires platform.Valid()
      modifies platform
      ensures platform.Valid() && platform.View() == Removed(old(platform.View()))
    {
      assert BeingRead(platform.journal);
      if platform.journal.Some? {
        platform.DeleteJournal();
      }
    }

    method ComputeMissingChunks(s: JournalState) returns (ranges: seq<Range>)
      ensures ranges == Runs(s.Missing())
      ensures Canonical(ranges, s.Missing())
    {
      ghost var all := s.Missing();
      var rangeStart := -1;
      ranges := [];
      var i: u32 := 0;
      while i < s.totalChunks
        invariant i <= s.totalChunks
        invariant Scanned(all, ranges, rangeStart, i)
      {
        ScanStep(all, ranges, rangeStart, i);
        var missing := i >= |s.done| || !s.done[i];
        if missing && rangeStart == -1 {
          rangeStart := ToInt32(i);
        } else if !missing && rangeStart != -1 {
          ranges := ranges + [Range(Wrap32(rangeStart), i - 1)];
          rangeStart := -1;
        }
        i := i + 1;
      }
      assert all[..s.totalChunks] == all;
      if rangeStart != -1 {
        ranges := ranges + [Range(Wrap32(rangeStart), s.totalChunks - 1)];
      }
      RunsCanonical(all);
    }

    method AtomicWrite(s: JournalState)
      requires platform.Valid() && s.Storable()
      modifies platform
      ensures platform.Valid() && platform.View() == Stored(old(platform.View()), s)
    {
      var content := LE32(s.tid);
      content := content + LE64(s.fileSize);
      content := content + LE32(s.chunkSize);
      content := content + LE32(s.packetSize);
      content := content + LE32(s.totalChunks);
      content := content + LE32(s.checksum);
      content := content + [BoolByte(s.eof)];
      content := content + s.filename;
      content := content + s.destPath;
      content := content + LE32(|s.done|);
      assert content == FixedPart(s);
      for i := 0 to |s.done|
        invariant content == FixedPart(s) + DoneBytes(s.done)[..i]
      {
        content := content + [BoolByte(s.done[i])];
      }
      assert DoneBytes(s.done)[..|s.done|] == DoneBytes(s.done);
      platform.StoreTmp(content, s);
      platform.ReplaceJournal();
    }

    /** `ifstream::read`: a short read fails the stream for good. */
    static method Read(b: seq<byte>, at: nat, good: bool, n: nat) returns (field: seq<byte>, at': nat, good': bool)
      ensures |field| == n
      ensures good' <==> good && at + n <= |b|
      ensures good' ==> field == b[at..at + n] && at' == at + n
    {
      if good && at + n <= |b| {
        return b[at..at + n], at + n, true;
      }
      return Zeros(n), at, false;
    }

    /** The ten fields of fixed size; the done vector is read after them. */
    static method ReadFixed(b: seq<byte>) returns (good: bool, s: JournalState, n: u32)
      ensures good <==> FIXED_BYTES <= |b|
      ensures good ==>
                && n == U32At(b, 797)
                && s == JournalState(U32At(b, 0), U64At(b, 4), U32At(b, 12), U32At(b, 16), U32At(b, 20), U32At(b, 24),
                                     b[28] != 0, b[29..285], b[285..797], [])
    {
      var tid, fileSize, chunkSize, packetSize, totalChunks, checksum, eof, filename, destPath, count;
      var at := 0;
      good := true;
      tid, at, good := Read(b, at, good, 4);
      fileSize, at, good := Read(b, at, good, 8);
      chunkSize, at, good := Read(b, at, good, 4);
      packetSize, at, good := Read(b, at, good, 4);
      totalChunks, at, good := Read(b, at, good, 4);
      checksum, at, good := Read(b, at, good, 4);
      eof, at, good := Read(b, at, good, 1);
      filename, at, good := Read(b, at, good, NAME_BYTES);
      destPath, at, good := Read(b, at, good, PATH_BYTES);
      count, at, good := Read(b, at, good, 4);
      if good {
        SameNumbers(b, tid, fileSize, chunkSize, packetSize, totalChunks, checksum);
        assert count[0..4] == b[797..801];
      }
      n := U32At(count, 0);
      s := JournalState(U32At(tid, 0), U64At(fileSize, 0), U32At(chunkSize, 0), U32At(packetSize, 0),
                        U32At(totalChunks, 0), U32At(checksum, 0), eof[0] != 0, filename, destPath, []);
    }

    /** The done vector, one byte after the other, from a stream that may already have failed. */
    static method ReadDone(b: seq<byte>, start: bool, n: u32) returns (good: bool, done: seq<bool>)
      requires start ==> FIXED_BYTES <= |b|
      ensures good <==> start && FIXED_BYTES + n <= |b|
      ensures good ==> done == seq(n, i requires 0 <= i < n => b[FIXED_BYTES + i] != 0)
    {
      good, done := start, [];
      var at: nat := FIXED_BYTES;
      for i := 0 to n
        invariant |done| == i
        invariant good <==> start && FIXED_BYTES + i <= |b|
        invariant good ==> at == FIXED_BYTES + i
        invariant good ==> forall j | 0 <= j < i :: done[j] == (b[FIXED_BYTES + j] != 0)
      {
        var v;
        v, at, good := Read(b, at, good, 1);
        done := done + [v[0] != 0];
      }
    }

    method ReadFromDisk() returns (r: Option<JournalState>)
      requires platform.Valid()
      ensures r == LoadedFrom(platform.Now())
      ensures r.Some? ==> r.value.Storable()
    {
      assert BeingRead(platform.journal);
      if platform.journal.None? {
        return None;
      }
      var b := platform.journal.value;
      var good, s, n := ReadFixed(b);
      var complete, done := ReadDone(b, good, n);
      if !complete {
        return None;
      }
      return Some(s.(done := done));
    }

    static lemma SameNumbers(b: seq<byte>, tid: seq<byte>, fileSize: seq<byte>, chunkSize: seq<byte>,
                             packetSize: seq<byte>, totalChunks: seq<byte>, checksum: seq<byte>)
      requires |b| >= 28
      requires tid == b[0..4] && fileSize == b[4..12] && chunkSize == b[12..16]
      requires packetSize == b[16..20] && totalChunks == b[20..24] && checksum == b[24..28]
      ensures U32At(tid, 0) == U32At(b, 0) && U64At(fileSize, 0) == U64At(b, 4)
      ensures U32At(chunkSize, 0) == U32At(b, 12) && U32At(packetSize, 0) == U32At(b, 16)
      ensures U32At(totalChunks, 0) == U32At(b, 20) && U32At(checksum, 0) == U32At(b, 24)
    {
      assert tid[0..4] == b[0..4] && fileSize[0..8] == b[4..12] && chunkSize[0..4] == b[12..16];
      assert packetSize[0..4] == b[16..20] && totalChunks[0..4] == b[20..24] && checksum[0..4] == b[24..28];
    }
  }
}
