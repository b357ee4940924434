/** The sender object and its loops. */
module Senders {
  import opened Bytes
  import opened Geometry
  import opened Wire
  import opened Crc
  import opened SenderModel

  /** How a wait for a chunk's ACK ends: with it, with the final ACK, with the process stopped
      while waiting, or with an exception on a NAK that asks for too much. */
  datatype Outcome = Acknowledged | Complete | Stopped | Broken

  class CfdpSender {
    const job: Job
    var sent: seq<seq<byte>>

    constructor (job: Job)
      ensures this.job == job && sent == []
    {
      this.job := job;
      sent := [];
    }

    method SendMetadata()
      requires job.Valid()
      modifies this
      ensures sent == old(sent) + [MetadataPduBytes(job)]
    {
      var fileSize := |job.layout.bytes|;
      var totalChunks := (fileSize + job.layout.chunkSize - 1) / job.layout.chunkSize;
      sent := sent + [MetadataBytes(Metadata(job.tid, fileSize, job.layout.chunkSize, job.layout.packetSize,
                                             totalChunks, job.checksum, job.filename))];
    }

    method SendEof()
      modifies this
      ensures sent == old(sent) + [JobEof(job)]
    {
      sent := sent + [EofBytes(job.tid, job.checksum)];
    }

    /** `f.seek` and `f.read`: a negative length reads to the end, and nothing is read past it. */
    static function ReadAt(bytes: seq<byte>, at: nat, n: int): seq<byte>
    {
      var lo := Min(at, |bytes|);
      if n < 0 then bytes[lo..] else bytes[lo..Min(lo + n, |bytes|)]
    }

    /** The packed header and the payload padded to the packet size. */
    function Packed(c: u32, p: u32, totalPackets: u32, len: u32, data: seq<byte>): seq<byte>
      requires len <= job.layout.packetSize
    {
      [TYPE_DATA] + LE32(job.tid) + LE32(c) + LE32(p) + LE32(totalPackets) + LE32(len) + [Crc8(data)]
      + data + Zeros(job.layout.packetSize - len)
    }

    function PacketStart(chunkOff: nat, p: u32): nat { chunkOff + p * job.layout.packetSize }

    function PacketLength(chunkSize: int, p: u32): int
    {
      Min(chunkSize - p * job.layout.packetSize, job.layout.packetSize)
    }

    /** The size of a chunk as both loops compute it; negative behind the end of the file. */
    function ChunkSize(c: u32): int
    {
      Min(|job.layout.bytes| - c * job.layout.chunkSize, job.layout.chunkSize)
    }

    function ChunkPackets(c: u32): int
      requires job.layout.packetSize > 0
    {
      FloorDiv(ChunkSize(c) + job.layout.packetSize - 1, job.layout.packetSize)
    }

    static lemma ReadIsCut(bytes: seq<byte>, off: nat, limit: u32, step: nat, k: nat)
      requires off + step <= |bytes| && step <= limit
      ensures var len := Min(Min(|bytes| - off, limit) - step, k);
              ReadAt(bytes, off + step, len) == Cut(bytes, off, limit, step, k)
    {
    }

    /** A count or a length that does not fit its field is exactly a packet that cannot be sent. */
    lemma PackableIff(c: u32, p: u32)
      requires job.Valid()
      ensures var len, total := PacketLength(ChunkSize(c), p), ChunkPackets(c);
              0 <= total < 0x1_0000_0000 && 0 <= len <==> Sendable(job, c, p)
    {
      var l := job.layout;
      SendableLength(|l.bytes| - c * l.chunkSize, l.chunkSize, p * l.packetSize, l.packetSize);
    }

    /** Seeking and reading by file offsets gives the packet that cutting the file gives. */
    lemma PackedIsSendable(c: u32, p: u32)
      requires job.Valid() && Sendable(job, c, p)
      requires 0 <= ChunkPackets(c) < 0x1_0000_0000 && 0 <= PacketLength(ChunkSize(c), p)
      ensures var len, at := PacketLength(ChunkSize(c), p), PacketStart(c * job.layout.chunkSize, p);
              Packed(c, p, ChunkPackets(c), len, ReadAt(job.layout.bytes, at, len)) == SendableBytes(job, c, p)
    {
      hide Crc8, ReadAt, ChunkPackets, PacketLength, PacketStart, SendableData, LE32, Zeros;
      SendableFields(c, p);
    }

    lemma SendableFields(c: u32, p: u32)
      requires job.Valid() && Sendable(job, c, p) && 0 <= PacketLength(ChunkSize(c), p)
      ensures var d, len, at := SendableData(job, c, p), PacketLength(ChunkSize(c), p),
                                PacketStart(c * job.layout.chunkSize, p);
              && d.data == ReadAt(job.layout.bytes, at, len) && |d.data| == len && d.crc == Crc8(d.data)
              && d.total == ChunkPackets(c) && d.tid == job.tid && d.chunk == c && d.packet == p
    {
      hide Crc8, ReadAt, Cut, CutCount, FloorDiv;
      var l := job.layout;
      MulNonneg(c, l.chunkSize);
      MulNonneg(p, l.packetSize);
      var off: nat, step: nat := c * l.chunkSize, p * l.packetSize;
      ReadIsCut(l.bytes, off, l.chunkSize, step, l.packetSize);
      CutLength(l.bytes, off, l.chunkSize, step, l.packetSize);
      CountIsCut(|l.bytes|, off, l.chunkSize, l.packetSize);
    }

    static lemma CountIsCut(total: nat, off: nat, limit: u32, k: u32)
      requires off <= total && 0 < k && limit + k <= 0x1_0000_0000
      ensures FloorDiv(Min(total - off, limit) + k - 1, k) == CutCount(total, off, limit, k)
    {
    }

    static lemma CutLength(bytes: seq<byte>, off: nat, limit: u32, step: nat, k: nat)
      requires off + step <= |bytes| && step <= limit
      ensures |Cut(bytes, off, limit, step, k)| == Min(Min(|bytes| - off, limit) - step, k)
    {
    }

    static lemma SendableLength(left: int, limit: u32, step: nat, k: u32)
      requires 0 < k && limit + k <= 0x1_0000_0000
      ensures var size := Min(left, limit);
              0 <= FloorDiv(size + k - 1, k) < 0x1_0000_0000 && 0 <= Min(size - step, k)
              <==> step <= left && step <= limit
    {
      if 0 <= left {
        CountFits(Min(left, limit), k, limit);
      }
    }

    /** False is the `struct.error` of a count or length that does not fit its field. */
    method SendPacket(c: u32, p: u32, totalPackets: int, chunkOff: nat, chunkSize: int) returns (ok: bool)
      requires job.Valid()
      modifies this
      ensures !ok ==> sent == old(sent)
      ensures chunkOff == c * job.layout.chunkSize && chunkSize == ChunkSize(c) && totalPackets == ChunkPackets(c) ==>
                && (ok <==> Sendable(job, c, p))
                && (ok ==> sent == old(sent) + [SendableBytes(job, c, p)])
    {
      var at, len := PacketStart(chunkOff, p), PacketLength(chunkSize, p);
      PackableIff(c, p);
      if Sendable(job, c, p) {
        PackedIsSendable(c, p);
      }
      var data := ReadAt(job.layout.bytes, at, len);
      if !(0 <= totalPackets < 0x1_0000_0000 && 0 <= len) {
        return false;
      }
      var crc := ComputeCrc8(data);
      sent := sent + [Packed(c, p, totalPackets, len, data)];
      return true;
    }

    lemma CountInFile(c: u32)
      requires job.Valid() && c < job.layout.Chunks()
      ensures ChunkSize(c) == |job.layout.Chunk(c)| && ChunkPackets(c) == job.layout.Packets(c)
    {
      PieceBounds(|job.layout.bytes|, job.layout.chunkSize, c);
    }

    method SendOneChunk(c: u32)
      requires job.Valid() && c < job.layout.Chunks()
      modifies this
      ensures sent == old(sent) + ChunkPdus(job, c)
    {
      hide Sendable, SendableBytes, PacketBytes;
      var l := job.layout;
      var chunkOff := c * l.chunkSize;
      var chunkSize := Min(|l.bytes| - chunkOff, l.chunkSize);
      var totalPackets := FloorDiv(chunkSize + l.packetSize - 1, l.packetSize);
      CountInFile(c);
      AtLeastOnePacket(l, c);
      for p := 0 to totalPackets
        invariant sent == old(sent) + ChunkPdus(job, c)[..p]
      {
        InFileSendable(job, c, p);
        var ok := SendPacket(c, p, totalPackets, chunkOff, chunkSize);
      }
    }

    method OnNak(nak: seq<byte>) returns (ok: bool)
      requires job.Valid()
      modifies this
      ensures sent == old(sent) + NakAnswer(job, nak).0 && ok == NakAnswer(job, nak).1
    {
      if |nak| < 9 {
        return false;
      }
      ok := AnswerRanges(nak, U32At(nak, 5));
    }

    static lemma AppendAssociates(a: seq<seq<byte>>, b: seq<seq<byte>>, c: seq<seq<byte>>)
      ensures (a + b) + c == a + (b + c)
    {
    }

    /** After the first range that fails nothing more is sent. */
    lemma {:induction false} AnswerStops(nak: seq<byte>, i: nat, n: nat)
      requires job.Valid() && i <= n && !AnsweredFirst(job, nak, i).1
      ensures AnsweredFirst(job, nak, n) == AnsweredFirst(job, nak, i)
    {
      hide Attempted, RangeAt;
      if i < n {
        AnswerStops(nak, i, n - 1);
      }
    }

    /** The loop over the ranges of a NAK. */
    method AnswerRanges(nak: seq<byte>, count: u32) returns (ok: bool)
      requires job.Valid()
      modifies this
      ensures var answer := AnsweredFirst(job, nak, count);
              sent == old(sent) + answer.0 && ok == answer.1
    {
      hide Attempted, RangeAt;
      for i := 0 to count
        invariant sent == old(sent) + AnsweredFirst(job, nak, i).0 && AnsweredFirst(job, nak, i).1
      {
        var r := Unpacked(nak, i);
        if r.None? {
          AnswerStops(nak, i + 1, count);
          return false;
        }
        ghost var more := Attempted(job, r.value.chunk, r.value.first, r.value.last + 1).0;
        AppendAssociates(old(sent), AnsweredFirst(job, nak, i).0, more);
        var done := AnswerRange(r.value);
        if !done {
          AnswerStops(nak, i + 1, count);
          return false;
        }
      }
      return true;
    }

    /** After the first packet that cannot be packed no more are sent. */
    lemma {:induction false} AttemptStops(c: u32, first: nat, i: nat, end: nat)
      requires job.Valid() && i <= end <= 0x1_0000_0000 && !Attempted(job, c, first, i).1
      ensures Attempted(job, c, first, end) == Attempted(job, c, first, i)
    {
      hide Sendable, SendableBytes;
      if i < end {
        AttemptStops(c, first, i, end - 1);
      }
    }

    /** The packets of one range. */
    method AnswerRange(r: NakRange) returns (ok: bool)
      requires job.Valid()
      modifies this
      ensures var answer := Attempted(job, r.chunk, r.first, r.last + 1);
              sent == old(sent) + answer.0 && ok == answer.1
    {
      hide Sendable, SendableBytes;
      var l := job.layout;
      var chunkOff := r.chunk * l.chunkSize;
      var chunkSize := Min(|l.bytes| - chunkOff, l.chunkSize);
      var totalPackets := FloorDiv(chunkSize + l.packetSize - 1, l.packetSize);
      var p: nat := r.first;
      while p <= r.last
        invariant r.first <= p && (p <= r.last + 1 || p == r.first)
        invariant p <= 0x1_0000_0000
        invariant sent == old(sent) + Attempted(job, r.chunk, r.first, p).0 && Attempted(job, r.chunk, r.first, p).1
        decreases r.last - p
      {
        var done := SendPacket(r.chunk, p, totalPackets, chunkOff, chunkSize);
        if !done {
          AttemptStops(r.chunk, r.first, p + 1, r.last + 1);
          return false;
        }
        p := p + 1;
      }
      return true;
    }

    /** Python's `//`. */
    static function FloorDiv(a: int, b: nat): int
      requires b > 0
    {
      a / b
    }

    /** What has been sent, and what the automaton still owes for the rest of the script, make up `total`. */
    ghost predicate Owes(total: seq<seq<byte>>, phase: Phase, rest: seq<Input>)
      requires job.Valid()
      reads this
    {
      total == sent + Outputs(job, phase, rest)
    }

    /** The same just before the sender turns to chunk `c`. */
    ghost predicate OwesFrom(total: seq<seq<byte>>, c: nat, rest: seq<Input>)
      requires job.Valid()
      reads this
    {
      total == sent + (Begin(job, c).1 + Outputs(job, Begin(job, c).0, rest))
    }

    lemma StepOwes(total: seq<seq<byte>>, phase: Phase, script: seq<Input>, at: nat)
      requires job.Valid() && at < |script| && Owes(total, phase, script[at..])
      ensures var (next, out) := Step(job, phase, script[at]);
              total == sent + (out + Outputs(job, next, script[at + 1..]))
    {
      assert script[at..][0] == script[at] && script[at..][1..] == script[at + 1..];
    }

    lemma NothingOwed(total: seq<seq<byte>>, phase: Phase, script: seq<Input>)
      requires job.Valid() && Owes(total, phase, script[|script|..])
      ensures total == sent
    {
    }

    /** Once the owed PDUs are sent, the automaton owes only the rest. */
    lemma Paid(total: seq<seq<byte>>, before: seq<seq<byte>>, out: seq<seq<byte>>, phase: Phase, rest: seq<Input>)
      requires job.Valid()
      requires total == before + (out + Outputs(job, phase, rest)) && sent == before + out
      ensures Owes(total, phase, rest)
    {
      AppendAssociates(before, out, Outputs(job, phase, rest));
    }

    static lemma AskingStep(job: Job, attempt: nat, input: Input)
      requires job.Valid()
      ensures Step(job, Asking(attempt), input)
           == if input.Batch? && input.pdus != [] && IsInfo(job, input.pdus[0]) then
                if U32At(input.pdus[0], 5) == ACK_FINAL then (Closing, [JobEof(job)])
                else Begin(job, U32At(input.pdus[0], 5))
              else AskAgain(job, attempt)
    {
    }

    /** Up to three queries; None when the process is stopped while waiting. */
    method QueryResume(script: seq<Input>, ghost total: seq<seq<byte>>) returns (first: Option<nat>, at: nat)
      requires job.Valid() && total == sent + ([JobQuery(job)] + Outputs(job, Asking(0), script))
      modifies this
      ensures old(sent) <= sent && at <= |script|
      ensures first.Some? ==> OwesFrom(total, first.value, script[at..])
      ensures first.None? ==> total == sent
    {
      hide Outputs, Step, JobEof, ChunkPdus;
      at := 0;
      assert script[0..] == script;
      for attempt := 0 to 3
        invariant old(sent) <= sent && at <= |script|
        invariant attempt < 3 ==> total == sent + ([JobQuery(job)] + Outputs(job, Asking(attempt), script[at..]))
        invariant attempt == 3 ==> OwesFrom(total, 0, script[at..])
      {
        ghost var before := sent;
        sent := sent + [QueryBytes(job.tid)];
        Paid(total, before, [JobQuery(job)], Asking(attempt), script[at..]);
        if at == |script| {
          NothingOwed(total, Asking(attempt), script);
          return None, at;
        }
        StepOwes(total, Asking(attempt), script, at);
        AskingStep(job, attempt, script[at]);
        var input := script[at];
        at := at + 1;
        if input.Batch? && input.pdus != [] && IsInfo(job, input.pdus[0]) {
          var missing := U32At(input.pdus[0], 5);
          if missing == ACK_FINAL {
            before := sent;
            SendEof();
            Paid(total, before, [JobEof(job)], Closing, script[at..]);
            return Some(job.layout.Chunks()), at;
          }
          return Some(missing), at;
        }
      }
      return Some(0), at;
    }

    /** Retransmits for the latest NAK of a batch, if there is one, and sends EOF again. */
    method AnswerLatest(pdus: seq<seq<byte>>) returns (ok: bool)
      requires job.Valid()
      modifies this
      ensures match LatestNak(pdus)
              case None => ok && sent == old(sent)
              case Some(nak) =>
                var (out, survives) := NakAnswer(job, nak);
                ok == survives && sent == old(sent) + if ok then out + [JobEof(job)] else out
    {
      hide NakAnswer;
      var nak := LatestNak(pdus);
      if nak.None? {
        return true;
      }
      ok := OnNak(nak.value);
      if ok {
        SendEof();
      }
    }

    /** The wait for the ACK of one chunk, answering timeouts and NAKs. */
    method AwaitChunk(c: u32, script: seq<Input>, start: nat, ghost total: seq<seq<byte>>)
      returns (outcome: Outcome, at: nat)
      requires job.Valid() && start <= |script| && c < job.layout.Chunks()
      requires Owes(total, Sending(c), script[start..])
      modifies this
      ensures start <= at <= |script|
      ensures if outcome == Acknowledged then OwesFrom(total, c + 1, script[at..]) else total == sent
    {
      hide NakAnswer, Outputs, MetadataPduBytes, JobEof, IsAck, PacketRun;
      at := start;
      while at < |script|
        invariant start <= at <= |script|
        invariant Owes(total, Sending(c), script[at..])
      {
        StepOwes(total, Sending(c), script, at);
        var input := script[at];
        at := at + 1;
        ghost var before := sent;
        ghost var (next, out) := Step(job, Sending(c), input);
        if input.Timeout? {
          SendMetadata();
          SendEof();
          assert sent == before + [MetadataPduBytes(job), JobEof(job)];
        } else if HasAck(input.pdus, ACK_FINAL) {
          StoppedIsSilent(job, Finished, script[at..]);
          return Complete, at;
        } else if HasAck(input.pdus, c) {
          return Acknowledged, at;
        } else {
          var ok := AnswerLatest(input.pdus);
          if !ok {
            StoppedIsSilent(job, Failed, script[at..]);
            return Broken, at;
          }
        }
        Paid(total, before, out, next, script[at..]);
      }
      NothingOwed(total, Sending(c), script);
      return Stopped, at;
    }

    /** All chunks acknowledged: resend EOF until the final ACK. */
    method AwaitFinal(script: seq<Input>, start: nat, ghost total: seq<seq<byte>>) returns (complete: bool)
      requires job.Valid() && start <= |script|
      requires Owes(total, Closing, script[start..])
      modifies this
      ensures total == sent
    {
      hide Outputs, JobEof, IsAck;
      var at := start;
      while at < |script|
        invariant start <= at <= |script|
        invariant Owes(total, Closing, script[at..])
      {
        StepOwes(total, Closing, script, at);
        var input := script[at];
        at := at + 1;
        if input.Timeout? {
          SendEof();
        } else if HasAck(input.pdus, ACK_FINAL) {
          StoppedIsSilent(job, Finished, script[at..]);
          return true;
        }
      }
      NothingOwed(total, Closing, script);
      return false;
    }

    /** All packets of a chunk, then EOF. */
    method OfferChunk(c: u32, ghost rest: seq<Input>, ghost total: seq<seq<byte>>)
      requires job.Valid() && c < job.layout.Chunks() && OwesFrom(total, c, rest)
      modifies this
      ensures Owes(total, Sending(c), rest)
    {
      ghost var before := sent;
      SendOneChunk(c);
      SendEof();
      assert sent == before + (ChunkPdus(job, c) + [JobEof(job)]);
      Paid(total, before, Begin(job, c).1, Sending(c), rest);
    }

    lemma OpeningOwes(before: seq<seq<byte>>, script: seq<Input>)
      requires job.Valid() && sent == before + [MetadataPduBytes(job)]
      ensures before + Opening(job) + Outputs(job, Asking(0), script)
           == sent + ([JobQuery(job)] + Outputs(job, Asking(0), script))
    {
      assert Opening(job) == [MetadataPduBytes(job)] + [JobQuery(job)];
      AppendAssociates(before, [MetadataPduBytes(job)], [JobQuery(job)]);
      AppendAssociates(sent, [JobQuery(job)], Outputs(job, Asking(0), script));
    }

    /** The whole transfer, until the final ACK or until the process stops: what it sends is
        what the automaton sends on the same inputs. */
    method Send(script: seq<Input>)
      requires job.Valid()
      modifies this
      ensures sent == old(sent) + Opening(job) + Outputs(job, Asking(0), script)
    {
      ghost var total := sent + Opening(job) + Outputs(job, Asking(0), script);
      SendMetadata();
      OpeningOwes(old(sent), script);
      var first, at: nat := QueryResume(script, total);
      if first.Some? {
        SendChunks(first.value, script, at, total);
      }
    }

    /** One chunk after the other, each only when the one before is acknowledged. */
    method SendChunks(first: nat, script: seq<Input>, start: nat, ghost total: seq<seq<byte>>)
      requires job.Valid() && start <= |script|
      requires OwesFrom(total, first, script[start..])
      modifies this
      ensures total == sent
    {
      var c, at := first, start;
      while c < job.layout.Chunks()
        invariant 0 <= at <= |script|
        invariant OwesFrom(total, c, script[at..])
        decreases job.layout.Chunks() - c
      {
        OfferChunk(c, script[at..], total);
        var outcome;
        outcome, at := AwaitChunk(c, script, at, total);
        if outcome != Acknowledged {
          return;
        }
        c := c + 1;
      }
      Paid(total, sent, [], Closing, script[at..]);
      var complete := AwaitFinal(script, at, total);
    }
  }
}
