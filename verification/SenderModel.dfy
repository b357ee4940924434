/** The sending program: what it puts on the link, and its stop-and-wait automaton. */
module SenderModel {
  import opened Bytes
  import opened Geometry
  import opened Wire
  import opened Crc

  const ACK_FINAL: u32 := UINT32_MAX

  /** What one run of the sender is given. */
  datatype Job = Job(tid: u32, layout: Layout, checksum: u32, filename: seq<byte>)
  {
    ghost predicate Valid() { layout.Valid() && |filename| == NAME_LEN }
  }

  function JobMetadata(job: Job): Metadata
    requires 0 < job.layout.chunkSize && |job.layout.bytes| < 0x1_0000_0000_0000_0000
    requires job.layout.Chunks() < 0x1_0000_0000
  {
    Metadata(job.tid, |job.layout.bytes|, job.layout.chunkSize, job.layout.packetSize, job.layout.Chunks(),
             job.checksum, job.filename)
  }

  function JobData(job: Job, c: u32, p: u32): Data
    requires job.layout.Valid() && c < job.layout.Chunks() && p < job.layout.Packets(c)
  {
    AtLeastOnePacket(job.layout, c);
    var data := job.layout.Packet(c, p);
    Data(job.tid, c, p, job.layout.Packets(c), Crc8(data), data)
  }

  function MetadataPduBytes(job: Job): seq<byte>
    requires job.Valid()
  {
    MetadataBytes(JobMetadata(job))
  }

  /** One data packet, padded to the full packet size. */
  function PacketBytes(job: Job, c: u32, p: u32): seq<byte>
    requires job.Valid() && c < job.layout.Chunks() && p < job.layout.Packets(c)
  {
    var d := JobData(job, c, p);
    DataBytes(d, job.layout.packetSize - |d.data|)
  }

  /** Packets `first` up to, but not including, `end` of chunk `c`. */
  function PacketRun(job: Job, c: u32, first: nat, end: nat): (s: seq<seq<byte>>)
    requires job.Valid() && c < job.layout.Chunks() && first <= end <= job.layout.Packets(c)
    ensures |s| == end - first
  {
    AtLeastOnePacket(job.layout, c);
    seq(end - first, i requires 0 <= i < end - first => PacketBytes(job, c, first + i))
  }

  function ChunkPdus(job: Job, c: u32): seq<seq<byte>>
    requires job.Valid() && c < job.layout.Chunks()
  {
    PacketRun(job, c, 0, job.layout.Packets(c))
  }

  predicate InFile(job: Job, r: NakRange)
    requires job.Valid()
  {
    r.chunk < job.layout.Chunks() && r.first <= r.last < job.layout.Packets(r.chunk)
  }

  /** The answer to a NAK: the packets of each range, range after range. */
  function Retransmission(job: Job, rs: seq<NakRange>): seq<seq<byte>>
    requires job.Valid() && forall k | 0 <= k < |rs| :: InFile(job, rs[k])
  {
    if rs == [] then []
    else
      var r := rs[|rs| - 1];
      assert InFile(job, r);
      Retransmission(job, rs[..|rs| - 1]) + PacketRun(job, r.chunk, r.first, r.last + 1)
  }

  // ----- which packets a NAK denotes

  function RangePairs(r: NakRange): (s: seq<(nat, nat)>)
    requires r.first <= r.last
    ensures |s| == r.last + 1 - r.first
    ensures forall i | 0 <= i < |s| :: s[i] == (r.chunk as nat, r.first + i)
  {
    seq(r.last + 1 - r.first, i requires 0 <= i < r.last + 1 - r.first => (r.chunk as nat, r.first + i))
  }

  predicate Proper(rs: seq<NakRange>) { forall k | 0 <= k < |rs| :: rs[k].first <= rs[k].last }

  /** The (chunk, packet) pairs of a NAK in the order the sender answers them. */
  function Requested(rs: seq<NakRange>): seq<(nat, nat)>
    requires Proper(rs)
  {
    if rs == [] then [] else Requested(rs[..|rs| - 1]) + RangePairs(rs[|rs| - 1])
  }

  predicate InRange(r: NakRange, c: nat, p: nat) { r.chunk == c && r.first <= p <= r.last }

  lemma InPairs(r: NakRange, c: nat, p: nat)
    requires r.first <= r.last
    ensures (c, p) in RangePairs(r) <==> InRange(r, c, p)
  {
    if InRange(r, c, p) {
      assert RangePairs(r)[p - r.first] == (c, p);
    }
  }

  ghost predicate Denoted(rs: seq<NakRange>, c: nat, p: nat)
  {
    exists k | 0 <= k < |rs| :: InRange(rs[k], c, p)
  }

  lemma DenotedStep(rs: seq<NakRange>, c: nat, p: nat)
    requires rs != []
    ensures var n := |rs| - 1;
            Denoted(rs, c, p) <==> Denoted(rs[..n], c, p) || InRange(rs[n], c, p)
  {
    var n := |rs| - 1;
    if Denoted(rs[..n], c, p) {
      var k :| 0 <= k < n && InRange(rs[..n][k], c, p);
      assert InRange(rs[k], c, p);
    }
    if Denoted(rs, c, p) {
      var k :| 0 <= k < |rs| && InRange(rs[k], c, p);
      assert k < n ==> InRange(rs[..n][k], c, p);
    }
  }

  /** Exactly the pairs in some range are answered. */
  lemma {:induction false} RequestedExactly(rs: seq<NakRange>, c: nat, p: nat)
    requires Proper(rs)
    ensures (c, p) in Requested(rs) <==> Denoted(rs, c, p)
  {
    if rs != [] {
      var n := |rs| - 1;
      RequestedExactly(rs[..n], c, p);
      InPairs(rs[n], c, p);
      DenotedStep(rs, c, p);
    }
  }

  ghost predicate DisjointRanges(rs: seq<NakRange>)
  {
    forall j, k, c: nat, p: nat | 0 <= j < k < |rs| && InRange(rs[j], c, p) :: !InRange(rs[k], c, p)
  }

  /** Disjoint ranges are answered without repeating a packet. */
  lemma {:induction false} RequestedOnce(rs: seq<NakRange>, i: nat, j: nat)
    requires Proper(rs)
    requires DisjointRanges(rs) && i < j < |Requested(rs)|
    ensures Requested(rs)[i] != Requested(rs)[j]
  {
    var n := |rs| - 1;
    var before := Requested(rs[..n]);
    if j < |before| {
      RequestedOnce(rs[..n], i, j);
    } else if i < |before| {
      var (c, p) := before[i];
      assert (c, p) in before;
      RequestedExactly(rs[..n], c, p);
      var k :| 0 <= k < n && InRange(rs[..n][k], c, p);
      assert InRange(rs[k], c, p) && !InRange(rs[n], c, p);
    }
  }

  /** `raw` is the packet of the file that `pair` names. */
  predicate IsPacket(job: Job, raw: seq<byte>, pair: (nat, nat))
    requires job.Valid()
  {
    && pair.0 < job.layout.Chunks() && pair.0 <= UINT32_MAX
    && pair.1 < job.layout.Packets(pair.0) && pair.1 <= UINT32_MAX
    && raw == PacketBytes(job, pair.0, pair.1)
  }

  lemma RunIs(job: Job, r: NakRange)
    requires job.Valid() && InFile(job, r)
    ensures var run := PacketRun(job, r.chunk, r.first, r.last + 1);
            forall i | 0 <= i < |run| :: IsPacket(job, run[i], RangePairs(r)[i])
  {
  }

  /** The answer to a NAK is, packet by packet, the pairs it denotes. */
  lemma {:induction false} RetransmissionIs(job: Job, rs: seq<NakRange>, i: nat)
    requires job.Valid() && Proper(rs) && (forall k | 0 <= k < |rs| :: InFile(job, rs[k]))
    requires i < |Requested(rs)|
    ensures |Retransmission(job, rs)| == |Requested(rs)|
    ensures IsPacket(job, Retransmission(job, rs)[i], Requested(rs)[i])
  {
    hide PacketBytes;
    var n := |rs| - 1;
    var before := Requested(rs[..n]);
    RetransmissionLength(job, rs[..n]);
    RetransmissionLength(job, rs);
    assert InFile(job, rs[n]);
    if i < |before| {
      RetransmissionIs(job, rs[..n], i);
      assert Retransmission(job, rs)[i] == Retransmission(job, rs[..n])[i];
    } else {
      var k, run := i - |before|, PacketRun(job, rs[n].chunk, rs[n].first, rs[n].last + 1);
      RunIs(job, rs[n]);
      assert Retransmission(job, rs)[i] == run[k] && Requested(rs)[i] == RangePairs(rs[n])[k];
      assert IsPacket(job, run[k], RangePairs(rs[n])[k]);
    }
  }

  lemma {:induction false} RetransmissionLength(job: Job, rs: seq<NakRange>)
    requires job.Valid() && Proper(rs) && forall k | 0 <= k < |rs| :: InFile(job, rs[k])
    ensures |Retransmission(job, rs)| == |Requested(rs)|
  {
    if rs != [] {
      assert InFile(job, rs[|rs| - 1]);
      RetransmissionLength(job, rs[..|rs| - 1]);
    }
  }

  // ----- the stop-and-wait automaton

  /** Where the sender is: waiting for a resume reply, for the ACK of a chunk, or for the final ACK. */
  datatype Phase = Asking(attempt: nat) | Sending(chunk: u32) | Closing | Finished | Failed

  /** What one wait yields: nothing, or the PDUs that have arrived. */
  datatype Input = Timeout | Batch(pdus: seq<seq<byte>>)

  function JobEof(job: Job): seq<byte> { EofBytes(job.tid, job.checksum) }

  function JobQuery(job: Job): seq<byte> { QueryBytes(job.tid) }

  predicate IsAck(p: seq<byte>, c: u32)
  {
    |p| >= 9 && p[0] == TYPE_ACK && U32At(p, 5) == c
  }

  predicate HasAck(pdus: seq<seq<byte>>, c: u32)
  {
    exists i | 0 <= i < |pdus| :: IsAck(pdus[i], c)
  }

  predicate IsNak(p: seq<byte>) { p != [] && p[0] == TYPE_NAK }

  function LatestNak(pdus: seq<seq<byte>>): (r: Option<seq<byte>>)
    ensures r.Some? ==> r.value in pdus && IsNak(r.value)
    ensures r.None? ==> forall i | 0 <= i < |pdus| :: !IsNak(pdus[i])
  {
    if pdus == [] then None
    else if IsNak(pdus[|pdus| - 1]) then Some(pdus[|pdus| - 1])
    else LatestNak(pdus[..|pdus| - 1])
  }

  predicate IsInfo(job: Job, p: seq<byte>)
  {
    |p| >= 9 && p[0] == TYPE_INFO && U32At(p, 1) == job.tid
  }

  // ----- answers to arbitrary NAKs

  /** Packet `p` of chunk `c` can be packed: its computed length is not negative. Just behind the end of
      the file or of a chunk that length is 0, and an empty packet is sent. */
  predicate Sendable(job: Job, c: u32, p: u32)
  {
    var l := job.layout;
    c * l.chunkSize + p * l.packetSize <= |l.bytes| && p * l.packetSize <= l.chunkSize
  }

  /** Its bytes, read by file offsets. */
  function SendableBytes(job: Job, c: u32, p: u32): seq<byte>
    requires job.Valid() && Sendable(job, c, p)
  {
    var d := SendableData(job, c, p);
    DataBytes(d, job.layout.packetSize - |d.data|)
  }

  function SendableData(job: Job, c: u32, p: u32): (d: Data)
    requires job.Valid() && Sendable(job, c, p)
    ensures |d.data| <= job.layout.packetSize
  {
    var l := job.layout;
    var data := Cut(l.bytes, c * l.chunkSize, l.chunkSize, p * l.packetSize, l.packetSize);
    Data(job.tid, c, p, CutCount(|l.bytes|, c * l.chunkSize, l.chunkSize, l.packetSize), Crc8(data), data)
  }

  /** At most `k` bytes from `step` on within the `limit` bytes that start at `off`. */
  function Cut(bytes: seq<byte>, off: nat, limit: nat, step: nat, k: nat): (data: seq<byte>)
    requires off + step <= |bytes| && step <= limit
    ensures |data| <= k
  {
    bytes[off + step..off + step + Min(Min(|bytes| - off, limit) - step, k)]
  }

  function CutCount(total: nat, off: nat, limit: u32, k: u32): u32
    requires off <= total && 0 < k && limit + k <= 0x1_0000_0000
  {
    CountFits(Min(total - off, limit), k, limit);
    CeilDiv(Min(total - off, limit), k)
  }

  lemma CountFits(size: nat, k: u32, limit: u32)
    requires 0 < k && size <= limit && limit + k <= 0x1_0000_0000
    ensures CeilDiv(size, k) < 0x1_0000_0000
  {
    DivBounds(size + k - 1, k);
    MulMono(1, k, CeilDiv(size, k));
  }

  /** Packets `first` up to, but not including, `end`, and whether all could be packed: the first that
      cannot be stops the sender. */
  function Attempted(job: Job, c: u32, first: nat, end: nat): (r: (seq<seq<byte>>, bool))
    requires job.Valid() && end <= 0x1_0000_0000
    decreases end
  {
    if end <= first then ([], true)
    else
      var (out, ok) := Attempted(job, c, first, end - 1);
      if ok && Sendable(job, c, end - 1) then (out + [SendableBytes(job, c, end - 1)], true) else (out, false)
  }

  /** `struct.unpack_from` of range `i`; None is its error on a NAK that is too short. */
  function Unpacked(nak: seq<byte>, i: nat): Option<NakRange>
  {
    if |nak| < 9 + 12 * i + 12 then None else Some(RangeAt(nak, 9 + 12 * i))
  }

  /** The answer to the first `n` ranges of a NAK, and whether the sender survives it. */
  function AnsweredFirst(job: Job, nak: seq<byte>, n: nat): (r: (seq<seq<byte>>, bool))
    requires job.Valid()
  {
    if n == 0 then ([], true)
    else
      var (out, ok) := AnsweredFirst(job, nak, n - 1);
      var range := Unpacked(nak, n - 1);
      if !ok || range.None? then (out, false)
      else
        var (more, done) := Attempted(job, range.value.chunk, range.value.first, range.value.last + 1);
        (out + more, done)
  }

  /** What the sender puts on the link for a NAK, and whether it survives it. */
  function NakAnswer(job: Job, nak: seq<byte>): (seq<seq<byte>>, bool)
    requires job.Valid()
  {
    if |nak| < 9 then ([], false) else AnsweredFirst(job, nak, U32At(nak, 5))
  }

  /** The NAK can be unpacked, and each of its ranges is empty or ends with a packet that can be packed. */
  predicate Answerable(job: Job, nak: seq<byte>)
  {
    ParseNak(nak).Some? && forall k | 0 <= k < |ParseNak(nak).value.ranges| ::
      var r := ParseNak(nak).value.ranges[k]; r.first <= r.last ==> Sendable(job, r.chunk, r.last)
  }

  lemma SendableBefore(job: Job, c: u32, p: u32, q: u32)
    requires p <= q && Sendable(job, c, q)
    ensures Sendable(job, c, p)
  {
    MulMono(p, q, job.layout.packetSize);
  }

  lemma {:induction false} AttemptedIff(job: Job, c: u32, first: nat, end: nat)
    requires job.Valid() && end <= 0x1_0000_0000
    ensures Attempted(job, c, first, end).1 <==> (first < end ==> Sendable(job, c, end - 1))
    decreases end
  {
    hide SendableBytes;
    if first < end {
      AttemptedIff(job, c, first, end - 1);
      if first < end - 1 && Sendable(job, c, end - 1) {
        SendableBefore(job, c, end - 2, end - 1);
      }
    }
  }

  predicate RangeFine(job: Job, r: Option<NakRange>)
  {
    r.Some? && (r.value.first <= r.value.last ==> Sendable(job, r.value.chunk, r.value.last))
  }

  lemma {:induction false} AnsweredFirstIff(job: Job, nak: seq<byte>, n: nat)
    requires job.Valid()
    ensures AnsweredFirst(job, nak, n).1 <==> forall i | 0 <= i < n :: RangeFine(job, Unpacked(nak, i))
  {
    hide Attempted, Sendable, RangeAt;
    if n > 0 {
      AnsweredFirstIff(job, nak, n - 1);
      var range := Unpacked(nak, n - 1);
      if range.Some? {
        AttemptedIff(job, range.value.chunk, range.value.first, range.value.last + 1);
      }
    }
  }

  /** The sender survives exactly the answerable NAKs. */
  lemma SurvivesIff(job: Job, nak: seq<byte>)
    requires job.Valid()
    ensures NakAnswer(job, nak).1 <==> Answerable(job, nak)
  {
    hide Sendable, AnsweredFirst, RangeAt, U32At;
    if |nak| >= 9 {
      var count := U32At(nak, 5);
      AnsweredFirstIff(job, nak, count);
      if ParseNak(nak).Some? {
        forall i | 0 <= i < count
          ensures Unpacked(nak, i) == Some(ParseNak(nak).value.ranges[i])
        {
        }
      } else {
        assert Unpacked(nak, count - 1) == None;
      }
    }
  }

  /** The payload length the sender computes, with signs; `struct.pack` refuses a negative one. */
  function PayloadLength(job: Job, c: u32, p: u32): int
  {
    var l := job.layout;
    var chunk := Min(|l.bytes| - c * l.chunkSize, l.chunkSize);
    Min(chunk - p * l.packetSize, l.packetSize)
  }

  lemma SendableIff(job: Job, c: u32, p: u32)
    requires job.Valid()
    ensures Sendable(job, c, p) <==> PayloadLength(job, c, p) >= 0
    ensures Sendable(job, c, p) ==> |SendableData(job, c, p).data| == PayloadLength(job, c, p)
  {
    hide Crc8, CutCount;
    MulNonneg(c, job.layout.chunkSize);
    MulNonneg(p, job.layout.packetSize);
  }

  /** The packet after the last one of the file can be packed if and only if the last chunk is full. */
  lemma AfterLastIff(job: Job)
    requires job.Valid()
    ensures var nak := NakBytes(job.tid, [NakRange(job.layout.Chunks(), 0, 0)]);
            NakAnswer(job, nak).1 <==> |job.layout.bytes| == job.layout.Chunks() * job.layout.chunkSize
  {
    hide NakAnswer, NakBytes, ParseNak;
    var l := job.layout;
    var r := NakRange(l.Chunks(), 0, 0);
    var nak := NakBytes(job.tid, [r]);
    NakRoundTrip(job.tid, [r]);
    SurvivesIff(job, nak);
    PieceBounds(|l.bytes|, l.chunkSize, l.Chunks());
    assert ParseNak(nak).value.ranges[0] == r;
    if Sendable(job, r.chunk, r.last) {
      assert Answerable(job, nak);
    }
  }

  /** A packet that can be packed but is none of the file carries no payload. */
  lemma OutsideIsEmpty(job: Job, c: u32, p: u32)
    requires job.Valid() && Sendable(job, c, p) && !(c < job.layout.Chunks() && p < job.layout.Packets(c))
    ensures SendableData(job, c, p).data == []
  {
    hide Crc8, CutCount, Cut;
    var l := job.layout;
    MulNonneg(c, l.chunkSize);
    MulNonneg(p, l.packetSize);
    OutsideStarts(l, c, p);
    CutEmpty(l.bytes, c * l.chunkSize, l.chunkSize, p * l.packetSize, l.packetSize);
  }

  lemma OutsideStarts(l: Layout, c: u32, p: u32)
    requires l.Valid() && !(c < l.Chunks() && p < l.Packets(c))
    ensures p * l.packetSize >= Min(|l.bytes| - c * l.chunkSize, l.chunkSize)
  {
    PieceBounds(|l.bytes|, l.chunkSize, c);
    MulNonneg(p, l.packetSize);
    if c < l.Chunks() {
      PieceBounds(|l.Chunk(c)|, l.packetSize, p);
    }
  }

  lemma CutEmpty(bytes: seq<byte>, off: nat, limit: nat, step: nat, k: nat)
    requires off + step <= |bytes| && step <= limit && step >= Min(|bytes| - off, limit)
    ensures Cut(bytes, off, limit, step, k) == []
  {
  }

  /** What is sent of a range: its packets from the first on, up to the end or to the first that cannot be packed. */
  lemma {:induction false} AttemptedIs(job: Job, c: u32, first: nat, end: nat)
    requires job.Valid() && first <= end <= 0x1_0000_0000
    ensures var (out, ok) := Attempted(job, c, first, end);
            && |out| <= end - first && (ok <==> |out| == end - first)
            && (!ok ==> !Sendable(job, c, first + |out|))
    ensures forall i | 0 <= i < |Attempted(job, c, first, end).0| ::
              IsSendable(job, c, first + i, Attempted(job, c, first, end).0[i])
    decreases end
  {
    hide IsSendable, Sendable, SendableBytes;
    if first < end {
      AttemptedIs(job, c, first, end - 1);
      if Sendable(job, c, end - 1) {
        SendableIs(job, c, end - 1);
      }
    }
  }

  predicate IsSendable(job: Job, c: u32, p: nat, raw: seq<byte>)
    requires job.Valid()
  {
    p < 0x1_0000_0000 && Sendable(job, c, p) && raw == SendableBytes(job, c, p)
  }

  lemma SendableIs(job: Job, c: u32, p: u32)
    requires job.Valid() && Sendable(job, c, p)
    ensures IsSendable(job, c, p, SendableBytes(job, c, p))
  {
  }

  /** A later range takes nothing back: if the first `n` ranges are of the file, their packets are sent, whatever
      becomes of the rest. */
  lemma {:induction false} AnswerBeginsWith(job: Job, nak: seq<byte>, rs: seq<NakRange>, n: nat)
    requires job.Valid() && |rs| <= n
    requires forall k | 0 <= k < |rs| :: InFile(job, rs[k]) && Unpacked(nak, k) == Some(rs[k])
    ensures Retransmission(job, rs) <= AnsweredFirst(job, nak, n).0
    decreases n
  {
    hide Attempted, Retransmission, RangeAt, InFile;
    if n == |rs| {
      AnsweredFirstInFile(job, nak, rs);
    } else {
      AnswerBeginsWith(job, nak, rs, n - 1);
    }
  }

  /** Every data packet has the full packet size on the wire. */
  lemma PacketPadded(job: Job, c: u32, p: u32)
    requires job.Valid() && c < job.layout.Chunks() && p < job.layout.Packets(c)
    ensures |PacketBytes(job, c, p)| == 22 + job.layout.packetSize
  {
  }

  lemma InFileSendable(job: Job, c: u32, p: u32)
    requires job.Valid() && c < job.layout.Chunks() && p < job.layout.Packets(c)
    ensures Sendable(job, c, p) && SendableBytes(job, c, p) == PacketBytes(job, c, p)
  {
    hide Crc8, DataBytes;
    var l := job.layout;
    var off, size := c * l.chunkSize, |l.Chunk(c)|;
    var n := PieceLen(size, l.packetSize, p);
    PieceBounds(size, l.packetSize, p);
    SliceOfSlice(l.bytes, off, off + size, p * l.packetSize, p * l.packetSize + n);
    assert SendableData(job, c, p).data == l.Packet(c, p);
  }

  lemma {:induction false} AttemptedInFile(job: Job, c: u32, first: nat, end: nat)
    requires job.Valid() && c < job.layout.Chunks() && first <= end <= job.layout.Packets(c)
    ensures end <= 0x1_0000_0000 && Attempted(job, c, first, end) == (PacketRun(job, c, first, end), true)
    decreases end
  {
    hide Sendable, SendableBytes, PacketBytes;
    AtLeastOnePacket(job.layout, c);
    if first < end {
      AttemptedInFile(job, c, first, end - 1);
      InFileSendable(job, c, end - 1);
      assert PacketRun(job, c, first, end) == PacketRun(job, c, first, end - 1) + [PacketBytes(job, c, end - 1)];
    }
  }

  lemma {:induction false} AnsweredFirstInFile(job: Job, nak: seq<byte>, rs: seq<NakRange>)
    requires job.Valid()
    requires forall k | 0 <= k < |rs| :: InFile(job, rs[k]) && Unpacked(nak, k) == Some(rs[k])
    ensures AnsweredFirst(job, nak, |rs|) == (Retransmission(job, rs), true)
  {
    hide Attempted, RangeAt;
    if rs != [] {
      var n := |rs| - 1;
      assert InFile(job, rs[n]);
      AnsweredFirstInFile(job, nak, rs[..n]);
      AttemptedInFile(job, rs[n].chunk, rs[n].first, rs[n].last + 1);
    }
  }

  /** A NAK for packets of the file is answered with exactly those. */
  lemma NakAnsweredInFile(job: Job, nak: seq<byte>)
    requires job.Valid() && ParseNak(nak).Some?
    requires forall k | 0 <= k < |ParseNak(nak).value.ranges| :: InFile(job, ParseNak(nak).value.ranges[k])
    ensures NakAnswer(job, nak) == (Retransmission(job, ParseNak(nak).value.ranges), true)
  {
    var rs := ParseNak(nak).value.ranges;
    forall k | 0 <= k < |rs|
      ensures Unpacked(nak, k) == Some(rs[k])
    {
    }
    AnsweredFirstInFile(job, nak, rs);
  }

  /** The sender turns to chunk `c`, or to waiting for the final ACK after the last one. */
  function Begin(job: Job, c: nat): (Phase, seq<seq<byte>>)
    requires job.Valid()
  {
    if c < job.layout.Chunks() then (Sending(c), ChunkPdus(job, c) + [JobEof(job)]) else (Closing, [])
  }

  function AskAgain(job: Job, attempt: nat): (Phase, seq<seq<byte>>)
    requires job.Valid()
  {
    if attempt < 2 then (Asking(attempt + 1), [JobQuery(job)]) else Begin(job, 0)
  }

  function Step(job: Job, phase: Phase, input: Input): (Phase, seq<seq<byte>>)
    requires job.Valid()
  {
    match phase
    case Asking(attempt) =>
      if input.Timeout? || input.pdus == [] || !IsInfo(job, input.pdus[0]) then AskAgain(job, attempt)
      else if U32At(input.pdus[0], 5) == ACK_FINAL then (Closing, [JobEof(job)])
      else Begin(job, U32At(input.pdus[0], 5))
    case Sending(c) =>
      if input.Timeout? then (phase, [MetadataPduBytes(job), JobEof(job)])
      else if HasAck(input.pdus, ACK_FINAL) then (Finished, [])
      else if HasAck(input.pdus, c) then Begin(job, c + 1)
      else
        (match LatestNak(input.pdus)
         case None => (phase, [])
         case Some(nak) =>
           var (out, ok) := NakAnswer(job, nak);
           if ok then (phase, out + [JobEof(job)]) else (Failed, out))
    case Closing =>
      if input.Timeout? then (phase, [JobEof(job)])
      else if HasAck(input.pdus, ACK_FINAL) then (Finished, [])
      else (phase, [])
    case Finished => (phase, [])
    case Failed => (phase, [])
  }

  /** Everything sent in answer to a sequence of inputs. */
  function Outputs(job: Job, phase: Phase, script: seq<Input>): seq<seq<byte>>
    requires job.Valid()
    decreases |script|
  {
    if script == [] then []
    else
      var (next, out) := Step(job, phase, script[0]);
      out + Outputs(job, next, script[1..])
  }

  function Opening(job: Job): seq<seq<byte>>
    requires job.Valid()
  {
    [MetadataPduBytes(job), JobQuery(job)]
  }

  lemma {:induction false} StoppedIsSilent(job: Job, phase: Phase, script: seq<Input>)
    requires job.Valid() && (phase.Finished? || phase.Failed?)
    ensures Outputs(job, phase, script) == []
    decreases |script|
  {
    if script != [] {
      StoppedIsSilent(job, phase, script[1..]);
    }
  }
}
