/** The receiver object: handlers that update its fields, its packet list and its surroundings. */
module Receivers {
  import opened Bytes
  import opened Ranges
  import opened Wire
  import opened Slots
  import opened PacketLists
  import opened JournalCodec
  import opened Storage
  import opened Journals
  import opened Crc
  import opened ReceiverModel

  class CfdpReceiver {
    const platform: Platform
    const journal: Journal
    const packetList: PacketList
    const dest: seq<byte>
    const crc32: seq<byte> -> u32

    var state: JournalState
    var transferActive: bool
    var lastAckedId: u32
    var currentChunkIndex: u32
    var maxChunkSeen: u32
    var alive: bool

    ghost function View(): World
      reads this, platform, packetList
    {
      World(Recv(state, transferActive, lastAckedId, currentChunkIndex, maxChunkSeen, packetList.slots, alive),
            platform.View())
    }

    ghost predicate Valid()
      reads this, platform, packetList, packetList.index
    {
      && platform.Valid() && packetList.Valid()
      && journal.platform == platform
      && |dest| == PATH_BYTES
      && View().r.Ok()
    }

    /** `uninitialised` stands for the contents of a state record nobody has written yet. */
    constructor (platform: Platform, dest: seq<byte>, crc32: seq<byte> -> u32, uninitialised: JournalState)
      requires platform.Valid() && |dest| == PATH_BYTES && |uninitialised.filename| == NAME_BYTES
      ensures Valid() && this.platform == platform && this.dest == dest && this.crc32 == crc32
      ensures View() == World(Started(uninitialised), platform.View())
    {
      this.platform, this.dest, this.crc32 := platform, dest, crc32;
      journal := new Journal(platform);
      packetList := new PacketList();
      state := uninitialised;
      transferActive, lastAckedId, currentChunkIndex, maxChunkSeen := false, 0, NO_CHUNK, 0;
      alive := true;
    }

    method OnBoot()
      requires Valid()
      requires LoadedFrom(platform.Now()).Some? ==> Sane(LoadedFrom(platform.Now()).value)
      modifies this, platform, packetList
      ensures Valid() && View() == Booted(old(View()), crc32)
    {
      var present := journal.Exists();
      if !present {
        return;
      }
      var loaded := journal.ReadFromDisk();
      if loaded.None? {
        journal.Remove();
        return;
      }
      state := loaded.value;
      transferActive := true;
      currentChunkIndex := NO_CHUNK;
      maxChunkSeen := 0;
      ghost var freed := packetList.Clear();
      var missing := journal.ComputeMissingChunks(state);
      if missing == [] && state.eof {
        CheckCompletion();
      }
    }

    method OnPduReceived(raw: seq<byte>)
      requires Valid()
      modifies this, platform, packetList, packetList.index
      ensures Valid() && View() == Received(old(View()), raw, dest, crc32)
    {
      var pdu := Parse(raw);
      match pdu
      case None =>
      case Some(MetadataPdu(m)) => HandleMetadata(m);
      case Some(DataPdu(d)) => HandleData(d);
      case Some(EofPdu(tid, _)) => HandleEof(tid);
      case Some(QueryPdu(tid)) => HandleResumeQuery(tid);
    }

    method HandleMetadata(m: Metadata)
      requires Valid()
      modifies this, platform, packetList
      ensures Valid() && View() == MetadataHandled(old(View()), m, dest)
    {
      if transferActive && state.tid == m.tid {
        return;
      }
      if !transferActive && lastAckedId == m.tid {
        SendAck(FINAL);
        return;
      }
      if m.totalChunks == 0 || m.totalChunks > 0x10_0000 {
        return;
      }
      if m.packetSize == 0 || m.packetSize > MAX_PACKET {
        return;
      }
      if m.chunkSize == 0 {
        return;
      }
      if !SafeName(m.filename) {
        return;
      }
      StartTransfer(m);
    }

    /** The part of `handle_metadata` behind its guards. */
    method StartTransfer(m: Metadata)
      requires Valid() && Acceptable(m)
      modifies this, platform, packetList
      ensures Valid() && View() == TransferStarted(old(View()), m, dest)
    {
      hide CopiedName, SafeName, SentBytes, Means, CString, NewState;
      ghost var before := platform.View();
      var present := journal.Exists();
      if present {
        journal.Remove();
      }
      assert platform.View() == Removed(before);
      NewStateSane(state, m, dest);
      state := NewState(state, m, dest);
      journal.Create(state);
      assert platform.View() == Stored(Removed(before), state);
      transferActive := true;
      currentChunkIndex := NO_CHUNK;
      maxChunkSeen := 0;
      ghost var freed := packetList.Clear();
    }

    method HandleData(d: Data)
      requires Valid()
      modifies this, platform, packetList, packetList.index
      ensures Valid() && View() == DataHandled(old(View()), d, crc32)
    {
      if !transferActive {
        return;
      }
      if d.tid != state.tid {
        return;
      }
      if |d.data| == 0 || |d.data| > MAX_PACKET {
        return;
      }
      if d.chunk >= state.totalChunks {
        return;
      }
      if d.total != ExpectedPackets(state, d.chunk) {
        return;
      }
      var c := d.chunk;
      if c > maxChunkSeen {
        maxChunkSeen := c;
      }
      if c < |state.done| && state.done[c] {
        if d.packet == 0 {
          SendAck(c);
        }
        return;
      }
      TakePacket(d);
    }

    /** The part of `handle_data` for a chunk that is not done yet. */
    method TakePacket(d: Data)
      requires Valid() && Sane(state) && d.chunk < state.totalChunks
      modifies this, platform, packetList, packetList.index
      ensures Valid() && View() == PacketTaken(old(View()), d, crc32)
    {
      if d.chunk != currentChunkIndex {
        OpenChunk(d);
      }
      StorePacket(d);
      var complete := packetList.IsComplete();
      if complete {
        FlushChunk(d.chunk);
      }
    }

    /** Files the packet in its slot, valid only if the checksum matches. */
    method StorePacket(d: Data)
      requires Valid()
      modifies packetList, packetList.index
      ensures Valid() && View() == PacketStored(old(View()), d)
    {
      var computed := ComputeCrc8(d.data);
      var ok := packetList.Insert(d.packet, d.data, computed == d.crc);
    }

    /** The branch of `handle_data` for the first packet of another chunk. */
    method OpenChunk(d: Data)
      requires Valid() && d.chunk != currentChunkIndex
      modifies this, platform, packetList
      ensures Valid() && View() == Opened(old(View()), d)
      ensures fresh(packetList.index)
    {
      var complete := packetList.IsComplete();
      if currentChunkIndex != NO_CHUNK && !complete {
        SendNakPackets(currentChunkIndex);
      }
      ghost var freed := packetList.Clear();
      packetList.Init(d.total);
      currentChunkIndex := d.chunk;
    }

    method HandleEof(tid: u32)
      requires Valid()
      modifies this, platform
      ensures Valid() && View() == EofHandled(old(View()), tid, crc32)
    {
      if !transferActive {
        return;
      }
      if tid != state.tid {
        return;
      }
      if !state.eof {
        var ok := journal.MarkEofReceived();
        state := state.(eof := true);
      }
      CheckCompletion();
    }

    method FlushChunk(c: u32)
      requires Valid() && Sane(state) && c < state.totalChunks
      modifies this, platform, packetList
      ensures Valid() && View() == Flushed(old(View()), c, crc32)
    {
      AllocateFile();
      if platform.file.None? {
        alive := false;
        return;
      }
      StoreChunk(c);
      AcknowledgeChunk(c);
      if state.eof {
        CheckCompletion();
      }
    }

    /** Creates the output file at its full size on the first write. */
    method AllocateFile()
      requires Valid()
      modifies platform
      ensures Valid() && View() == old(View()).(t := Allocated(old(View()).t, state.fileSize))
    {
      if platform.file.None? {
        if state.fileSize > 0 {
          platform.Create();
          platform.Write(state.fileSize - 1, [0]);
        }
      }
    }

    /** The chunk's ACK, after which no chunk is in progress. */
    method AcknowledgeChunk(c: u32)
      requires Valid()
      modifies this, platform, packetList
      ensures Valid() && View() == Idled(Acked(old(View()), c))
    {
      SendAck(c);
      ghost var freed := packetList.Clear();
      currentChunkIndex := NO_CHUNK;
    }

    /** Data first, then `fdatasync`, then the journal. */
    method StoreChunk(c: u32)
      requires Valid() && Sane(state) && c < state.totalChunks && platform.file.Some?
      modifies this, platform
      ensures Valid() && Sane(state) && View() == ChunkStored(old(View()), c)
    {
      WriteChunk(c);
      state := state.(done := state.done[c := true]);
      var ok := journal.MarkChunkDone(c);
    }

    method WriteChunk(c: u32)
      requires Valid() && platform.file.Some?
      modifies platform
      ensures Valid() && View() == old(View()).(t := ChunkWritten(old(View()), c))
    {
      hide Assembled, WriteAt;
      var data := packetList.Assemble();
      var offset: nat := c * state.chunkSize;
      ghost var before := platform.View();
      platform.Write(offset, data);
      platform.Sync();
      assert platform.View() == Emit(Emit(before, WriteFile(offset, data)), SyncFile);
    }

    method CheckCompletion()
      requires Valid() && Sane(state)
      modifies this, platform
      ensures Valid() && View() == CompletionChecked(old(View()), crc32)
    {
      if !state.eof {
        return;
      }
      var complete := packetList.IsComplete();
      if currentChunkIndex != NO_CHUNK && !complete {
        SendNakPackets(currentChunkIndex);
        return;
      }
      var allMissing := journal.ComputeMissingChunks(state);
      var k := 0;
      while k < |allMissing|
        invariant k <= |allMissing|
        invariant FirstSeen(allMissing[k..], maxChunkSeen) == FirstSeen(allMissing, maxChunkSeen)
        invariant Valid() && View() == old(View())
      {
        var c := allMissing[k].first;
        if c <= maxChunkSeen {
          RequestChunk(c);
          return;
        }
        k := k + 1;
      }
      if allMissing != [] {
        return;
      }
      Finish();
    }

    /** The NAK for every packet of a chunk that is not in progress. */
    method RequestChunk(c: u32)
      requires Valid() && state.packetSize > 0
      modifies platform
      ensures Valid() && View() == Replied(old(View()), ChunkNak(state, c))
    {
      var nak := [NakRange(c, 0, Wrap32(ExpectedPackets(state, c) - 1))];
      var raw := SerializeNak(state.tid, nak);
      platform.SendRaw(raw, ChunkNak(state, c));
    }

    /** Everything received: verify the checksum of the whole file. */
    method Finish()
      requires Valid() && Sane(state)
      modifies this, platform
      ensures Valid() && View() == Concluded(old(View()), crc32)
    {
      if FileCrc(crc32, platform.file) != state.checksum {
        transferActive := false;
        journal.Remove();
        return;
      }
      lastAckedId := state.tid;
      SendAck(FINAL);
      transferActive := false;
      journal.Remove();
    }

    method SendNakPackets(c: u32)
      requires Valid()
      modifies platform
      ensures Valid() && View() == PacketsNaked(old(View()), c)
    {
      var ranges := packetList.ComputeNakRanges();
      if ranges == [] {
        return;
      }
      var nak: seq<NakRange> := [];
      for i := 0 to |ranges|
        invariant nak == ForChunk(c, ranges)[..i]
      {
        nak := nak + [NakRange(c, ranges[i].first, ranges[i].last)];
      }
      assert ForChunk(c, ranges)[..|ranges|] == ForChunk(c, ranges);
      var raw := SerializeNak(state.tid, nak);
      platform.SendRaw(raw, NakReply(state.tid, nak));
    }

    method HandleResumeQuery(tid: u32)
      requires Valid()
      modifies platform
      ensures Valid() && View() == QueryHandled(old(View()), tid)
    {
      var first: u32;
      if !transferActive || state.tid != tid {
        first := 0;
      } else {
        var missing := journal.ComputeMissingChunks(state);
        if missing == [] {
          first := FINAL;
        } else {
          first := missing[0].first;
        }
      }
      platform.SendRaw([TYPE_INFO] + LE32(tid) + LE32(first), InfoReply(tid, first));
    }

    method SendAck(c: u32)
      requires Valid()
      modifies platform
      ensures Valid() && View() == Acked(old(View()), c)
    {
      platform.SendRaw([TYPE_ACK] + LE32(state.tid) + LE32(c), AckReply(state.tid, c));
    }
  }
}
