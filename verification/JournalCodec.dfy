/** The transfer state that survives a reboot, and its byte format. */
module JournalCodec {
  import opened Bytes
  import opened Ranges

  const NAME_BYTES := 256
  const PATH_BYTES := 512
  const FIXED_BYTES := 801

  datatype JournalState = JournalState(tid: u32, fileSize: u64, chunkSize: u32, packetSize: u32, totalChunks: u32,
                                       checksum: u32, eof: bool, filename: seq<byte>, destPath: seq<byte>,
                                       done: seq<bool>)
  {
    /** The array fields have the sizes the C structure gives them. */
    predicate Storable()
    {
      |filename| == NAME_BYTES && |destPath| == PATH_BYTES && |done| < 0x1_0000_0000
    }

    /** Chunks not yet recorded as done. */
    function Missing(): (m: seq<bool>)
      ensures |m| == totalChunks
    {
      seq(totalChunks, i requires 0 <= i < totalChunks => i >= |done| || !done[i])
    }

    predicate AllDone()
    {
      forall i | 0 <= i < totalChunks :: i < |done| && done[i]
    }
  }

  function BoolByte(b: bool): byte { if b then 1 else 0 }

  function DoneBytes(done: seq<bool>): (s: seq<byte>)
    ensures |s| == |done|
  {
    seq(|done|, i requires 0 <= i < |done| => BoolByte(done[i]))
  }

  function Numbers(s: JournalState): (b: seq<byte>)
    ensures |b| == 28
  {
    LE32(s.tid) + LE64(s.fileSize) + LE32(s.chunkSize) + LE32(s.packetSize) + LE32(s.totalChunks) + LE32(s.checksum)
  }

  function FixedPart(s: JournalState): (b: seq<byte>)
    requires s.Storable()
    ensures |b| == FIXED_BYTES
  {
    Numbers(s) + [BoolByte(s.eof)] + s.filename + s.destPath + LE32(|s.done|)
  }

  function Encode(s: JournalState): (b: seq<byte>)
    requires s.Storable()
    ensures |b| == FIXED_BYTES + |s.done|
  {
    FixedPart(s) + DoneBytes(s.done)
  }

  /** None is the `return false` of a file that ends too early. */
  function Decode(b: seq<byte>): (r: Option<JournalState>)
    ensures r.Some? ==> r.value.Storable()
  {
    if |b| < FIXED_BYTES then None
    else
      var n := U32At(b, 797);
      if |b| < FIXED_BYTES + n then None
      else Some(JournalState(U32At(b, 0), U64At(b, 4), U32At(b, 12), U32At(b, 16), U32At(b, 20), U32At(b, 24),
                             b[28] != 0, b[29..285], b[285..797],
                             seq(n, i requires 0 <= i < n => b[FIXED_BYTES + i] != 0)))
  }

  lemma NumbersFields(s: JournalState)
    ensures var b := Numbers(s);
            && U32At(b, 0) == s.tid && U64At(b, 4) == s.fileSize && U32At(b, 12) == s.chunkSize
            && U32At(b, 16) == s.packetSize && U32At(b, 20) == s.totalChunks && U32At(b, 24) == s.checksum
  {
    var b := Numbers(s);
    U32AtLE(b, 0, s.tid);
    U64AtLE(b, 4, s.fileSize);
    U32AtLE(b, 12, s.chunkSize);
    U32AtLE(b, 16, s.packetSize);
    U32AtLE(b, 20, s.totalChunks);
    U32AtLE(b, 24, s.checksum);
  }

  lemma FixedFields(s: JournalState)
    requires s.Storable()
    ensures var b := FixedPart(s);
            && b[..28] == Numbers(s)
            && b[28] == BoolByte(s.eof)
            && b[29..285] == s.filename
            && b[285..797] == s.destPath
            && U32At(b, 797) == |s.done|
  {
    U32AtLE(FixedPart(s), 797, |s.done|);
  }

  lemma PrefixFields(b: seq<byte>, p: seq<byte>)
    requires |p| == 28 && p <= b
    ensures U32At(b, 0) == U32At(p, 0) && U64At(b, 4) == U64At(p, 4) && U32At(b, 12) == U32At(p, 12)
    ensures U32At(b, 16) == U32At(p, 16) && U32At(b, 20) == U32At(p, 20) && U32At(b, 24) == U32At(p, 24)
  {
    assert b[0..4] == p[0..4] && b[4..12] == p[4..12] && b[12..16] == p[12..16];
    assert b[16..20] == p[16..20] && b[20..24] == p[20..24] && b[24..28] == p[24..28];
  }

  lemma DoneRoundTrip(b: seq<byte>, done: seq<bool>)
    requires |b| == FIXED_BYTES + |done| && b[FIXED_BYTES..] == DoneBytes(done)
    ensures seq(|done|, i requires 0 <= i < |done| => b[FIXED_BYTES + i] != 0) == done
  {
    forall i | 0 <= i < |done|
      ensures (b[FIXED_BYTES + i] != 0) == done[i]
    {
      assert b[FIXED_BYTES..][i] == BoolByte(done[i]);
    }
  }

  /** Whatever state is stored is the state that is loaded. */
  lemma JournalRoundTrip(s: JournalState)
    requires s.Storable()
    ensures Decode(Encode(s)) == Some(s)
  {
    var b, f := Encode(s), FixedPart(s);
    NumbersFields(s);
    FixedFields(s);
    assert f <= b && Numbers(s) <= b;
    PrefixFields(b, Numbers(s));
    assert b[29..285] == f[29..285] && b[285..797] == f[285..797];
    assert b[797..801] == f[797..801];
    assert b[FIXED_BYTES..] == DoneBytes(s.done);
    DoneRoundTrip(b, s.done);
  }

  /** A journal file cut short in any field, or in the done vector, is not loaded. */
  lemma TruncatedJournalRejected(s: JournalState, n: nat)
    requires s.Storable() && n < |Encode(s)|
    ensures Decode(Encode(s)[..n]) == None
  {
    if n >= FIXED_BYTES {
      var b, f := Encode(s)[..n], FixedPart(s);
      FixedFields(s);
      assert b[..FIXED_BYTES] == f;
      assert b[797..801] == b[..FIXED_BYTES][797..801];
    }
  }

  /** The layout on an example, byte by byte: the numbers, the EOF flag, the two names, the count and the flags. */
  lemma JournalLayout(filename: seq<byte>, destPath: seq<byte>)
    requires |filename| == NAME_BYTES && |destPath| == PATH_BYTES
    ensures Encode(JournalState(1, 2, 3, 4, 5, 6, true, filename, destPath, [false, true]))
         == [1, 0, 0, 0, 2, 0, 0, 0, 0, 0, 0, 0, 3, 0, 0, 0, 4, 0, 0, 0, 5, 0, 0, 0, 6, 0, 0, 0, 1]
            + filename + destPath + [2, 0, 0, 0, 0, 1]
  {
    hide LE32, LE64;
    SmallLE(1);
    SmallLE(2);
    SmallLE(3);
    SmallLE(4);
    SmallLE(5);
    SmallLE(6);
    var s := JournalState(1, 2, 3, 4, 5, 6, true, filename, destPath, [false, true]);
    var numbers: seq<byte> := [1, 0, 0, 0, 2, 0, 0, 0, 0, 0, 0, 0, 3, 0, 0, 0, 4, 0, 0, 0, 5, 0, 0, 0, 6, 0, 0, 0];
    assert Numbers(s) == numbers;
    assert Numbers(s) + [BoolByte(true)] == numbers + [1];
    assert DoneBytes(s.done) == [0, 1];
    assert FixedPart(s) == (numbers + [1]) + filename + destPath + [2, 0, 0, 0];
  }

  /** Bytes behind a complete state make no difference. */
  lemma TrailingBytesIgnored(b: seq<byte>, tail: seq<byte>)
    requires Decode(b).Some?
    ensures Decode(b + tail) == Decode(b)
  {
    hide FromLE;
    var c, n := b + tail, U32At(b, 797);
    PrefixFields(b, b[..28]);
    PrefixFields(c, b[..28]);
    assert c[797..801] == b[797..801];
    assert c[28] == b[28] && c[29..285] == b[29..285] && c[285..797] == b[285..797];
    var done := Decode(b).value.done;
    assert Decode(c).value.done == done by {
      forall i | 0 <= i < n
        ensures (c[FIXED_BYTES + i] != 0) == done[i]
      {
        assert c[FIXED_BYTES + i] == b[FIXED_BYTES + i];
      }
    }
  }

  /** Any non-zero byte reads as true, in the EOF flag and in the done vector. */
  lemma AnyFlagByte(b: seq<byte>, i: nat, v: byte)
    requires Decode(b).Some? && i < |Decode(b).value.done|
    ensures Decode(b[28 := v]) == Some(Decode(b).value.(eof := v != 0))
    ensures Decode(b[FIXED_BYTES + i := v])
         == Some(Decode(b).value.(done := Decode(b).value.done[i := v != 0]))
  {
    hide FromLE;
    var s, at := Decode(b).value, FIXED_BYTES + i;
    SameFields(b, b[28 := v]);
    SameFields(b, b[at := v]);
    assert Decode(b[28 := v]).value.done == s.done;
    assert Decode(b[at := v]).value.done == s.done[i := v != 0];
  }

  /** The fields other than the flags depend only on their own bytes. */
  lemma SameFields(b: seq<byte>, c: seq<byte>)
    requires |b| == |c| >= FIXED_BYTES && b[..28] == c[..28] && b[29..FIXED_BYTES] == c[29..FIXED_BYTES]
    ensures U32At(b, 0) == U32At(c, 0) && U64At(b, 4) == U64At(c, 4) && U32At(b, 12) == U32At(c, 12)
    ensures U32At(b, 16) == U32At(c, 16) && U32At(b, 20) == U32At(c, 20) && U32At(b, 24) == U32At(c, 24)
    ensures U32At(b, 797) == U32At(c, 797) && b[29..285] == c[29..285] && b[285..797] == c[285..797]
  {
    hide FromLE;
    PrefixFields(b, b[..28]);
    PrefixFields(c, b[..28]);
    SliceOfSlice(b, 29, FIXED_BYTES, 0, 256);
    SliceOfSlice(c, 29, FIXED_BYTES, 0, 256);
    SliceOfSlice(b, 29, FIXED_BYTES, 256, 768);
    SliceOfSlice(c, 29, FIXED_BYTES, 256, 768);
    SliceOfSlice(b, 29, FIXED_BYTES, 768, 772);
    SliceOfSlice(c, 29, FIXED_BYTES, 768, 772);
  }

  // ----- what a journal file means

  /** No file, a file that does not load, or a file that loads as `st`. */
  datatype Image = Absent | Unreadable | Holds(st: JournalState)

  function ImageOf(content: Option<seq<byte>>): Image
  {
    match content
    case None => Absent
    case Some(b) =>
      match Decode(b)
      case None => Unreadable
      case Some(st) => Holds(st)
  }

  lemma ImageOfEncoded(st: JournalState)
    requires st.Storable()
    ensures ImageOf(Some(Encode(st))) == Holds(st)
  {
    JournalRoundTrip(st);
  }

  lemma ImageOfTruncated(st: JournalState, n: nat)
    requires st.Storable() && n < |Encode(st)|
    ensures ImageOf(Some(Encode(st)[..n])) == Unreadable
  {
    TruncatedJournalRejected(st, n);
  }
}
