/** What each handler of the receiver does, as a function of the receiver and its surroundings. */
module ReceiverModel {
  import opened Bytes
  import opened Ranges
  import opened Wire
  import opened Slots
  import opened JournalCodec
  import opened Storage
  import opened Journals
  import opened Crc

  const NO_CHUNK: u32 := UINT32_MAX
  const FINAL: u32 := UINT32_MAX

  /** The fields of the receiver object; `alive` is false once an exception has left a handler. */
  datatype Recv = Recv(st: JournalState, active: bool, lastAcked: u32, current: u32, maxSeen: u32,
                       slots: seq<Slot>, alive: bool)
  {
    predicate Ok()
    {
      && |slots| <= UINT32_MAX
      && |st.filename| == NAME_BYTES
      && (active ==> Sane(st))
    }
  }

  datatype World = World(r: Recv, t: Trail)

  /** What `handle_metadata` has checked about the state of an active transfer. */
  predicate Sane(st: JournalState)
  {
    && 0 < st.totalChunks <= 0x10_0000
    && 0 < st.packetSize <= MAX_PACKET
    && 0 < st.chunkSize
    && |st.done| == st.totalChunks
    && st.Storable()
  }

  /** The receiver's packet count of a chunk, in its 64- and 32-bit unsigned arithmetic. */
  function CountPackets(fileSize: u64, chunkSize: u32, packetSize: u32, c: u32): u32
    requires packetSize > 0
  {
    var remaining := Wrap64(fileSize - c * chunkSize);
    var n := Wrap32(Min(remaining, chunkSize) + packetSize - 1);
    QuotientFits(n, packetSize);
    n / packetSize
  }

  lemma QuotientFits(n: u32, k: u32)
    requires k > 0
    ensures 0 <= n / k <= n
  {
  }

  function ExpectedPackets(st: JournalState, c: u32): u32
    requires st.packetSize > 0
  {
    CountPackets(st.fileSize, st.chunkSize, st.packetSize, c)
  }

  function CString(s: seq<byte>): (c: seq<byte>)
    ensures |c| <= |s|
  {
    if s == [] || s[0] == 0 then [] else [s[0]] + CString(s[1..])
  }

  /** `strncpy` of at most 255 characters over the old field. */
  function CopiedName(previous: seq<byte>, name: seq<byte>): (s: seq<byte>)
    requires |previous| == NAME_BYTES
    ensures |s| == NAME_BYTES
  {
    var c := CString(name);
    (if |c| >= 255 then c[..255] else c + Zeros(255 - |c|)) + [previous[255]]
  }

  /** Non-empty, no `/`, no `..`. */
  predicate SafeName(name: seq<byte>)
  {
    var c := CString(name);
    && c != []
    && 0x2F !in c
    && forall i | 0 <= i < |c| - 1 :: !(c[i] == 0x2E && c[i + 1] == 0x2E)
  }

  function Replied(w: World, reply: Reply): World
  {
    w.(t := Emit(w.t, Send(reply)))
  }

  function Acked(w: World, c: u32): World { Replied(w, AckReply(w.r.st.tid, c)) }

  function ForChunk(c: u32, rs: seq<Range>): (ns: seq<NakRange>)
    ensures |ns| == |rs|
  {
    seq(|rs|, i requires 0 <= i < |rs| => NakRange(c, rs[i].first, rs[i].last))
  }

  /** `send_nak_packets`. */
  function PacketsNaked(w: World, c: u32): (w': World)
    requires w.r.Ok()
    ensures w'.r == w.r
  {
    var rs := Runs(Missing(w.r.slots));
    if rs == [] then w else Replied(w, NakReply(w.r.st.tid, ForChunk(c, rs)))
  }

  /** The first of `rs` that starts no later than `seen`. */
  function FirstSeen(rs: seq<Range>, seen: u32): Option<u32>
  {
    if rs == [] then None
    else if rs[0].first <= seen then Some(rs[0].first)
    else FirstSeen(rs[1..], seen)
  }

  /** `crc32_file`: a file that cannot be opened has checksum 0. */
  function FileCrc(crc32: seq<byte> -> u32, file: Option<seq<byte>>): u32
  {
    match file
    case None => 0
    case Some(f) => crc32(f)
  }

  function ChunkNak(st: JournalState, c: u32): Reply
    requires st.packetSize > 0
  {
    NakReply(st.tid, [NakRange(c, 0, Wrap32(ExpectedPackets(st, c) - 1))])
  }

  /** The transfer ends: with the final ACK if the file is right, silently otherwise. */
  function Concluded(w: World, crc32: seq<byte> -> u32): World
  {
    if FileCrc(crc32, w.t.env.file) != w.r.st.checksum then
      World(w.r.(active := false), Removed(w.t))
    else
      var acked := Acked(w.(r := w.r.(lastAcked := w.r.st.tid)), FINAL);
      World(acked.r.(active := false), Removed(acked.t))
  }

  /** `check_completion`. */
  function CompletionChecked(w: World, crc32: seq<byte> -> u32): (w': World)
    requires w.r.Ok() && Sane(w.r.st)
    ensures w'.r == w.r.(active := w'.r.active, lastAcked := w'.r.lastAcked) && w'.r.Ok()
    ensures w'.r.active ==> w'.r == w.r
  {
    if !w.r.st.eof then w
    else if w.r.current != NO_CHUNK && !Complete(w.r.slots) then PacketsNaked(w, w.r.current)
    else
      var all := Runs(w.r.st.Missing());
      match FirstSeen(all, w.r.maxSeen)
      case Some(c) => Replied(w, ChunkNak(w.r.st, c))
      case None => if all != [] then w else Concluded(w, crc32)
  }

  /** The destination file, created at its full size if it is not there yet. */
  function Allocated(t: Trail, fileSize: u64): Trail
  {
    if t.env.file.None? && fileSize > 0
    then Emit(Emit(t, CreateFile), WriteFile(fileSize - 1, [0]))
    else t
  }

  /** The chunk is written at its place in the file and synchronised. */
  function ChunkWritten(w: World, c: u32): Trail
  {
    Emit(Emit(w.t, WriteFile(c * w.r.st.chunkSize, Assembled(w.r.slots))), SyncFile)
  }

  /** The durable part of `flush_chunk`: write, sync, then journal. */
  function ChunkStored(w: World, c: u32): (w': World)
    requires w.r.Ok() && Sane(w.r.st) && c < w.r.st.totalChunks
    ensures w'.r.Ok() && Sane(w'.r.st)
  {
    var st := w.r.st;
    World(w.r.(st := st.(done := st.done[c := true])), ChunkMarked(ChunkWritten(w, c), c))
  }

  /** A flush leaves no chunk in progress. */
  function Idled(w: World): World { w.(r := w.r.(slots := [], current := NO_CHUNK)) }

  /** `flush_chunk`. */
  function Flushed(w: World, c: u32, crc32: seq<byte> -> u32): (w': World)
    requires w.r.Ok() && Sane(w.r.st) && c < w.r.st.totalChunks
    ensures w'.r.Ok()
  {
    var t := Allocated(w.t, w.r.st.fileSize);
    if t.env.file.None? then World(w.r.(alive := false), t)
    else
      var idle := Idled(Acked(ChunkStored(w.(t := t), c), c));
      if idle.r.st.eof then CompletionChecked(idle, crc32) else idle
  }

  /** The packet list is set up for the chunk of an arriving packet. */
  function Opened(w: World, d: Data): (w': World)
    requires w.r.Ok()
    ensures w'.r == w.r.(slots := w'.r.slots, current := w'.r.current) && w'.r.Ok()
  {
    if d.chunk == w.r.current then w
    else
      var naked := if w.r.current != NO_CHUNK && !Complete(w.r.slots) then PacketsNaked(w, w.r.current) else w;
      naked.(r := naked.r.(slots := Fresh(d.total), current := d.chunk))
  }

  function PacketStored(w: World, d: Data): (w': World)
    requires w.r.Ok()
    ensures w'.r == w.r.(slots := w'.r.slots) && w'.r.Ok()
  {
    w.(r := w.r.(slots := Inserted(w.r.slots, d.packet, d.data, Crc8(d.data) == d.crc)))
  }

  /** The guards of `handle_data` before any state changes. */
  predicate Accepts(r: Recv, d: Data)
    requires r.Ok()
  {
    && r.active
    && d.tid == r.st.tid
    && 0 < |d.data| <= MAX_PACKET
    && d.chunk < r.st.totalChunks
    && d.total == ExpectedPackets(r.st, d.chunk)
  }

  function DataHandled(w: World, d: Data, crc32: seq<byte> -> u32): (w': World)
    requires w.r.Ok()
    ensures w'.r.Ok()
  {
    if !Accepts(w.r, d) then w
    else
      var seen := w.(r := w.r.(maxSeen := if d.chunk > w.r.maxSeen then d.chunk else w.r.maxSeen));
      if w.r.st.done[d.chunk] then
        if d.packet == 0 then Acked(seen, d.chunk) else seen
      else PacketTaken(seen, d, crc32)
  }

  /** A packet of a chunk that is not done yet. */
  function PacketTaken(w: World, d: Data, crc32: seq<byte> -> u32): (w': World)
    requires w.r.Ok() && Sane(w.r.st) && d.chunk < w.r.st.totalChunks
    ensures w'.r.Ok()
  {
    var stored := PacketStored(Opened(w, d), d);
    if Complete(stored.r.slots) then Flushed(stored, d.chunk, crc32) else stored
  }

  function NewState(previous: JournalState, m: Metadata, dest: seq<byte>): JournalState
    requires |previous.filename| == NAME_BYTES
  {
    JournalState(m.tid, m.fileSize, m.chunkSize, m.packetSize, m.totalChunks, m.checksum, false,
                 CopiedName(previous.filename, m.filename), dest, seq(m.totalChunks, i => false))
  }

  predicate Acceptable(m: Metadata)
  {
    && 0 < m.totalChunks <= 0x10_0000
    && 0 < m.packetSize <= MAX_PACKET
    && 0 < m.chunkSize
    && SafeName(m.filename)
  }

  lemma NewStateSane(previous: JournalState, m: Metadata, dest: seq<byte>)
    requires |previous.filename| == NAME_BYTES && |dest| == PATH_BYTES && Acceptable(m)
    ensures Sane(NewState(previous, m, dest))
  {
  }

  function MetadataHandled(w: World, m: Metadata, dest: seq<byte>): (w': World)
    requires w.r.Ok() && |dest| == PATH_BYTES
    ensures w'.r.Ok()
  {
    if w.r.active && w.r.st.tid == m.tid then w
    else if !w.r.active && w.r.lastAcked == m.tid then Acked(w, FINAL)
    else if !Acceptable(m) then w
    else TransferStarted(w, m, dest)
  }

  function TransferStarted(w: World, m: Metadata, dest: seq<byte>): (w': World)
    requires w.r.Ok() && |dest| == PATH_BYTES && Acceptable(m)
    ensures w'.r.Ok()
  {
    var st := NewState(w.r.st, m, dest);
    World(w.r.(st := st, active := true, current := NO_CHUNK, maxSeen := 0, slots := []),
          Stored(Removed(w.t), st))
  }

  function EofHandled(w: World, tid: u32, crc32: seq<byte> -> u32): (w': World)
    requires w.r.Ok()
    ensures w'.r.Ok()
  {
    if !w.r.active || tid != w.r.st.tid then w
    else
      var marked := if w.r.st.eof then w else World(w.r.(st := w.r.st.(eof := true)), EofMarked(w.t));
      CompletionChecked(marked, crc32)
  }

  /** The chunk a sender is told to resume from. */
  function ResumeChunk(r: Recv, tid: u32): u32
    requires r.Ok()
  {
    if !r.active || r.st.tid != tid then 0
    else
      var all := Runs(r.st.Missing());
      if all == [] then FINAL else all[0].first
  }

  function QueryHandled(w: World, tid: u32): (w': World)
    requires w.r.Ok()
    ensures w'.r.Ok()
  {
    Replied(w, InfoReply(tid, ResumeChunk(w.r, tid)))
  }

  function Handled(w: World, pdu: Pdu, dest: seq<byte>, crc32: seq<byte> -> u32): (w': World)
    requires w.r.Ok() && |dest| == PATH_BYTES
    ensures w'.r.Ok()
  {
    match pdu
    case MetadataPdu(m) => MetadataHandled(w, m, dest)
    case DataPdu(d) => DataHandled(w, d, crc32)
    case EofPdu(tid, _) => EofHandled(w, tid, crc32)
    case QueryPdu(tid) => QueryHandled(w, tid)
  }

  function Received(w: World, raw: seq<byte>, dest: seq<byte>, crc32: seq<byte> -> u32): (w': World)
    requires w.r.Ok() && |dest| == PATH_BYTES
    ensures w'.r.Ok()
  {
    match Parse(raw)
    case None => w
    case Some(pdu) => Handled(w, pdu, dest, crc32)
  }

  /** A process that has just started; the contents of its state record are arbitrary. */
  function Started(st: JournalState): Recv
  {
    Recv(st, false, 0, NO_CHUNK, 0, [], true)
  }

  /** `on_boot`. */
  function Booted(w: World, crc32: seq<byte> -> u32): (w': World)
    requires w.r.Ok()
    requires LoadedFrom(w.t.env).Some? ==> Sane(LoadedFrom(w.t.env).value)
    ensures w'.r.Ok()
  {
    if w.t.env.journal.Absent? then w
    else
      match LoadedFrom(w.t.env)
      case None => w.(t := Removed(w.t))
      case Some(st) =>
        var up := w.(r := w.r.(st := st, active := true, current := NO_CHUNK, maxSeen := 0, slots := []));
        if Runs(st.Missing()) == [] && st.eof then CompletionChecked(up, crc32) else up
  }
}
