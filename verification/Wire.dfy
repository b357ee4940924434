/** The protocol data units and their byte layouts. */
module Wire {
  import opened Bytes

  const MAX_PACKET: u32 := 4096
  const NAME_LEN := 256

  const TYPE_METADATA: byte := 1
  const TYPE_DATA: byte := 2
  const TYPE_EOF: byte := 3
  const TYPE_NAK: byte := 4
  const TYPE_ACK: byte := 5
  const TYPE_QUERY: byte := 6
  const TYPE_INFO: byte := 7

  // ----- sender to receiver

  datatype Metadata = Metadata(tid: u32, fileSize: u64, chunkSize: u32, packetSize: u32, totalChunks: u32,
                               checksum: u32, filename: seq<byte>)

  /** A data packet as the receiver sees it: `data` already cut to its stated length. */
  datatype Data = Data(tid: u32, chunk: u32, packet: u32, total: u32, crc: byte, data: seq<byte>)

  datatype Pdu =
    | MetadataPdu(meta: Metadata)
    | DataPdu(d: Data)
    | EofPdu(tid: u32, checksum: u32)
    | QueryPdu(tid: u32)

  /** The receiver's dispatcher up to the call of a handler; None is a dropped PDU. */
  function Parse(raw: seq<byte>): Option<Pdu>
  {
    if raw == [] then None
    else if raw[0] == TYPE_METADATA then
      if |raw| < 285 then None
      else Some(MetadataPdu(Metadata(U32At(raw, 1), U64At(raw, 5), U32At(raw, 13), U32At(raw, 17),
                                     U32At(raw, 21), U32At(raw, 25), raw[29..285])))
    else if raw[0] == TYPE_DATA then
      if |raw| < 22 then None
      else
        var len := U32At(raw, 17);
        if len > MAX_PACKET || |raw| < 22 + len then None
        else Some(DataPdu(Data(U32At(raw, 1), U32At(raw, 5), U32At(raw, 9), U32At(raw, 13),
                               raw[21], raw[22..22 + len])))
    else if raw[0] == TYPE_EOF then
      if |raw| < 9 then None else Some(EofPdu(U32At(raw, 1), U32At(raw, 5)))
    else if raw[0] == TYPE_QUERY then
      if |raw| < 5 then None else Some(QueryPdu(U32At(raw, 1)))
    else None
  }

  function MetadataBytes(m: Metadata): seq<byte>
  {
    [TYPE_METADATA] + LE32(m.tid) + LE64(m.fileSize) + LE32(m.chunkSize) + LE32(m.packetSize)
    + LE32(m.totalChunks) + LE32(m.checksum) + m.filename
  }

  function DataHeader(d: Data): (s: seq<byte>)
    requires |d.data| < 0x1_0000_0000
    ensures |s| == 22
  {
    [TYPE_DATA] + LE32(d.tid) + LE32(d.chunk) + LE32(d.packet) + LE32(d.total) + LE32(|d.data|) + [d.crc]
  }

  function DataBytes(d: Data, padding: nat): seq<byte>
    requires |d.data| < 0x1_0000_0000
  {
    DataHeader(d) + d.data + Zeros(padding)
  }

  function EofBytes(tid: u32, checksum: u32): seq<byte>
  {
    [TYPE_EOF] + LE32(tid) + LE32(checksum)
  }

  function QueryBytes(tid: u32): seq<byte>
  {
    [TYPE_QUERY] + LE32(tid)
  }

  /** The receiver reads back what the sender's `struct.pack` wrote. */
  lemma ParseMetadata(m: Metadata)
    requires |m.filename| == NAME_LEN
    ensures Parse(MetadataBytes(m)) == Some(MetadataPdu(m))
  {
    hide LE32, LE64, FromLE;
    var raw := MetadataBytes(m);
    U32AtLE(raw, 1, m.tid);
    U64AtLE(raw, 5, m.fileSize);
    U32AtLE(raw, 13, m.chunkSize);
    U32AtLE(raw, 17, m.packetSize);
    U32AtLE(raw, 21, m.totalChunks);
    U32AtLE(raw, 25, m.checksum);
    assert raw[29..285] == m.filename;
  }

  lemma ParseData(d: Data, padding: nat)
    requires |d.data| <= MAX_PACKET
    ensures Parse(DataBytes(d, padding)) == Some(DataPdu(d))
  {
    var raw, header := DataBytes(d, padding), DataHeader(d);
    DataHeaderFields(d);
    SameU32(raw, header, 1);
    SameU32(raw, header, 5);
    SameU32(raw, header, 9);
    SameU32(raw, header, 13);
    SameU32(raw, header, 17);
    assert raw[22..22 + |d.data|] == d.data;
  }

  lemma DataHeaderFields(d: Data)
    requires |d.data| < 0x1_0000_0000
    ensures var h := DataHeader(d);
            && U32At(h, 1) == d.tid && U32At(h, 5) == d.chunk && U32At(h, 9) == d.packet
            && U32At(h, 13) == d.total && U32At(h, 17) == |d.data| && h[21] == d.crc && h[0] == TYPE_DATA
  {
    var h := DataHeader(d);
    U32AtLE(h, 1, d.tid);
    U32AtLE(h, 5, d.chunk);
    U32AtLE(h, 9, d.packet);
    U32AtLE(h, 13, d.total);
    U32AtLE(h, 17, |d.data|);
  }

  lemma SameU32(s: seq<byte>, prefix: seq<byte>, at: nat)
    requires prefix <= s && at + 4 <= |prefix|
    ensures U32At(s, at) == U32At(prefix, at)
  {
    assert s[at..at + 4] == prefix[at..at + 4];
  }

  lemma ParseEof(tid: u32, checksum: u32)
    ensures Parse(EofBytes(tid, checksum)) == Some(EofPdu(tid, checksum))
  {
    U32AtLE(EofBytes(tid, checksum), 1, tid);
    U32AtLE(EofBytes(tid, checksum), 5, checksum);
  }

  lemma ParseQuery(tid: u32)
    ensures Parse(QueryBytes(tid)) == Some(QueryPdu(tid))
  {
    U32AtLE(QueryBytes(tid), 1, tid);
  }

  // ----- receiver to sender

  datatype NakRange = NakRange(chunk: u32, first: u32, last: u32)

  datatype Reply =
    | AckReply(tid: u32, chunk: u32)
    | NakReply(tid: u32, ranges: seq<NakRange>)
    | InfoReply(tid: u32, first: u32)

  function RangeBytes(r: NakRange): (s: seq<byte>)
    ensures |s| == 12
  {
    LE32(r.chunk) + LE32(r.first) + LE32(r.last)
  }

  function RangesBytes(rs: seq<NakRange>): (s: seq<byte>)
    ensures |s| == 12 * |rs|
  {
    if rs == [] then [] else RangesBytes(rs[..|rs| - 1]) + RangeBytes(rs[|rs| - 1])
  }

  function NakBytes(tid: u32, rs: seq<NakRange>): seq<byte>
  {
    [TYPE_NAK] + LE32(tid) + LE32(Wrap32(|rs|)) + RangesBytes(rs)
  }

  function ReplyBytes(r: Reply): (s: seq<byte>)
    ensures s != []
  {
    match r
    case AckReply(tid, chunk) => [TYPE_ACK] + LE32(tid) + LE32(chunk)
    case NakReply(tid, rs) => NakBytes(tid, rs)
    case InfoReply(tid, first) => [TYPE_INFO] + LE32(tid) + LE32(first)
  }

  function RangeAt(s: seq<byte>, at: nat): NakRange
    requires at + 12 <= |s|
  {
    NakRange(U32At(s, at), U32At(s, at + 4), U32At(s, at + 8))
  }

  /** `parse_nak`: None is its `return false`. */
  function ParseNak(pdu: seq<byte>): Option<Reply>
  {
    if |pdu| < 9 then None
    else
      var count := U32At(pdu, 5);
      if |pdu| < 9 + count * 12 then None
      else Some(NakReply(U32At(pdu, 1), seq(count, i requires 0 <= i < count => RangeAt(pdu, 9 + 12 * i))))
  }

  /** `parse_ack`. */
  function ParseAck(pdu: seq<byte>): Option<Reply>
  {
    if |pdu| < 9 then None else Some(AckReply(U32At(pdu, 1), U32At(pdu, 5)))
  }

  lemma {:induction false} RangesBytesAt(rs: seq<NakRange>, i: nat)
    requires i < |rs|
    ensures RangesBytes(rs)[12 * i..12 * i + 12] == RangeBytes(rs[i])
  {
    var n := |rs| - 1;
    var before := RangesBytes(rs[..n]);
    if i < n {
      RangesBytesAt(rs[..n], i);
      assert RangesBytes(rs)[12 * i..12 * i + 12] == before[12 * i..12 * i + 12];
    }
  }

  lemma RangeAtBytes(s: seq<byte>, at: nat, r: NakRange)
    requires at + 12 <= |s| && s[at..at + 12] == RangeBytes(r)
    ensures RangeAt(s, at) == r
  {
    var t := s[at..at + 12];
    SliceOfSlice(s, at, at + 12, 0, 4);
    SliceOfSlice(s, at, at + 12, 4, 8);
    SliceOfSlice(s, at, at + 12, 8, 12);
    assert t[0..4] == LE32(r.chunk);
    assert t[4..8] == LE32(r.first);
    assert t[8..12] == LE32(r.last);
    U32AtLE(s, at, r.chunk);
    U32AtLE(s, at + 4, r.first);
    U32AtLE(s, at + 8, r.last);
  }

  lemma NakHeader(tid: u32, rs: seq<NakRange>)
    ensures var pdu := NakBytes(tid, rs);
            && |pdu| == 9 + 12 * |rs|
            && U32At(pdu, 1) == tid
            && U32At(pdu, 5) == Wrap32(|rs|)
            && forall i | 0 <= i < |rs| :: RangeAt(pdu, 9 + 12 * i) == rs[i]
  {
    var pdu := NakBytes(tid, rs);
    U32AtLE(pdu, 1, tid);
    U32AtLE(pdu, 5, Wrap32(|rs|));
    forall i | 0 <= i < |rs|
      ensures RangeAt(pdu, 9 + 12 * i) == rs[i]
    {
      RangesBytesAt(rs, i);
      assert pdu[9 + 12 * i..9 + 12 * i + 12] == RangesBytes(rs)[12 * i..12 * i + 12];
      RangeAtBytes(pdu, 9 + 12 * i, rs[i]);
    }
  }

  /** Parsing a NAK that the receiver serialized gives the NAK back. */
  lemma NakRoundTrip(tid: u32, rs: seq<NakRange>)
    requires |rs| < 0x1_0000_0000
    ensures ParseNak(NakBytes(tid, rs)) == Some(NakReply(tid, rs))
  {
    hide NakBytes, RangeAt, FromLE;
    NakHeader(tid, rs);
    var pdu := NakBytes(tid, rs);
    assert U32At(pdu, 5) == |rs|;
    var ranges := ParseNak(pdu).value.ranges;
    forall i | 0 <= i < |rs|
      ensures ranges[i] == rs[i]
    {
      assert ranges[i] == RangeAt(pdu, 9 + 12 * i);
    }
    assert ranges == rs;
  }

  /** A NAK cut short anywhere is rejected. */
  lemma TruncatedNakRejected(tid: u32, rs: seq<NakRange>, n: nat)
    requires |rs| < 0x1_0000_0000 && n < |NakBytes(tid, rs)|
    ensures ParseNak(NakBytes(tid, rs)[..n]) == None
  {
    NakHeader(tid, rs);
    if n >= 9 {
      assert NakBytes(tid, rs)[..n][5..9] == NakBytes(tid, rs)[5..9];
    }
  }

  /** Chunk and transfer acknowledgements and resume replies, field by field. */
  lemma ShortReplyFields(r: Reply)
    requires !r.NakReply?
    ensures |ReplyBytes(r)| == 9
    ensures U32At(ReplyBytes(r), 1) == r.tid
    ensures U32At(ReplyBytes(r), 5) == if r.AckReply? then r.chunk else r.first
    ensures r.AckReply? ==> ParseAck(ReplyBytes(r)) == Some(r)
  {
    var s := ReplyBytes(r);
    U32AtLE(s, 1, r.tid);
    U32AtLE(s, 5, if r.AckReply? then r.chunk else r.first);
  }

  /** Parsing an acknowledgement that the receiver packed gives it back, whatever bytes follow it, and one that
      is cut short anywhere is rejected. */
  lemma AckRoundTrip(tid: u32, chunk: u32, tail: seq<byte>, n: nat)
    requires n < |ReplyBytes(AckReply(tid, chunk))|
    ensures ParseAck(ReplyBytes(AckReply(tid, chunk)) + tail) == Some(AckReply(tid, chunk))
    ensures ParseAck(ReplyBytes(AckReply(tid, chunk))[..n]) == None
  {
    var pdu := ReplyBytes(AckReply(tid, chunk));
    ShortReplyFields(AckReply(tid, chunk));
    SameU32(pdu + tail, pdu, 1);
    SameU32(pdu + tail, pdu, 5);
  }

  // ----- the layouts on examples, byte by byte

  lemma FirstNumbers()
    ensures LE32(1) == [1, 0, 0, 0] && LE32(2) == [2, 0, 0, 0] && LE32(3) == [3, 0, 0, 0] && LE32(4) == [4, 0, 0, 0]
    ensures LE32(5) == [5, 0, 0, 0] && LE32(6) == [6, 0, 0, 0] && LE32(7) == [7, 0, 0, 0]
    ensures LE64(2) == [2, 0, 0, 0, 0, 0, 0, 0]
  {
    hide LE32, LE64;
    SmallLE(1);
    SmallLE(2);
    SmallLE(3);
    SmallLE(4);
    SmallLE(5);
    SmallLE(6);
    SmallLE(7);
  }

  /** What the sender packs: type, transaction id, and the fields in the order of the packed structures. */
  lemma SentLayouts(name: seq<byte>, data: seq<byte>)
    requires |data| == 7
    ensures MetadataBytes(Metadata(1, 2, 3, 4, 5, 6, name))
         == [0x01, 1, 0, 0, 0, 2, 0, 0, 0, 0, 0, 0, 0, 3, 0, 0, 0, 4, 0, 0, 0, 5, 0, 0, 0, 6, 0, 0, 0] + name
    ensures DataBytes(Data(1, 2, 3, 4, 0x5A, data), 0)
         == [0x02, 1, 0, 0, 0, 2, 0, 0, 0, 3, 0, 0, 0, 4, 0, 0, 0, 7, 0, 0, 0, 0x5A] + data
    ensures EofBytes(1, 2) == [0x03, 1, 0, 0, 0, 2, 0, 0, 0]
    ensures QueryBytes(1) == [0x06, 1, 0, 0, 0]
  {
    hide LE32, LE64;
    FirstNumbers();
  }

  /** What the receiver packs. */
  lemma RepliedLayouts()
    ensures ReplyBytes(AckReply(1, 2)) == [0x05, 1, 0, 0, 0, 2, 0, 0, 0]
    ensures ReplyBytes(InfoReply(1, 2)) == [0x07, 1, 0, 0, 0, 2, 0, 0, 0]
    ensures ReplyBytes(NakReply(1, [NakRange(2, 3, 4)]))
         == [0x04, 1, 0, 0, 0, 1, 0, 0, 0, 2, 0, 0, 0, 3, 0, 0, 0, 4, 0, 0, 0]
  {
    hide LE32, LE64, RangesBytes;
    FirstNumbers();
    OneRangeLayout();
  }

  lemma OneRangeLayout()
    ensures RangesBytes([NakRange(2, 3, 4)]) == [2, 0, 0, 0, 3, 0, 0, 0, 4, 0, 0, 0]
  {
    hide LE32, LE64;
    FirstNumbers();
    var r := NakRange(2, 3, 4);
    assert RangesBytes([r]) == RangesBytes([r][..0]) + RangeBytes(r);
  }

  // ----- the serializing and parsing code

  /** `parse_nak` as it is written: bounds checks, then the fields. */
  method ReadNak(pdu: seq<byte>) returns (ok: bool, tid: u32, ranges: seq<NakRange>)
    ensures ok <==> ParseNak(pdu).Some?
    ensures ok ==> ParseNak(pdu) == Some(NakReply(tid, ranges))
  {
    ok, tid, ranges := false, 0, [];
    if |pdu| < 9 {
      return;
    }
    var count: nat := U32At(pdu, 5);
    if |pdu| < 9 + count * 12 {
      return;
    }
    tid := U32At(pdu, 1);
    for i := 0 to count
      invariant |ranges| == i && forall j | 0 <= j < i :: ranges[j] == RangeAt(pdu, 9 + 12 * j)
    {
      ranges := ranges + [RangeAt(pdu, 9 + 12 * i)];
    }
    assert ranges == seq(count, i requires 0 <= i < count => RangeAt(pdu, 9 + 12 * i));
    ok := true;
  }

  method SerializeNak(tid: u32, rs: seq<NakRange>) returns (pdu: seq<byte>)
    ensures pdu == NakBytes(tid, rs)
  {
    pdu := [TYPE_NAK];
    pdu := pdu + LE32(tid);
    pdu := pdu + LE32(Wrap32(|rs|));
    ghost var header := pdu;
    for i := 0 to |rs|
      invariant pdu == header + RangesBytes(rs[..i])
    {
      assert rs[..i + 1][..i] == rs[..i];
      pdu := pdu + RangeBytes(rs[i]);
    }
    assert rs[..|rs|] == rs;
  }
}
