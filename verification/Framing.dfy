/** Length-prefixed frames over a byte stream that is read in pieces of any size. */
module Framing {
  import opened Bytes

  function Frame(pdu: seq<byte>): seq<byte>
    requires |pdu| < 0x1_0000_0000
  {
    LE32(|pdu|) + pdu
  }

  function Frames(pdus: seq<seq<byte>>): seq<byte>
    requires forall i | 0 <= i < |pdus| :: |pdus[i]| < 0x1_0000_0000
  {
    if pdus == [] then [] else Frame(pdus[0]) + Frames(pdus[1..])
  }

  /** The first frame of a stream and what follows it; None if the stream ends inside it. */
  function Unframe(stream: seq<byte>): Option<(seq<byte>, seq<byte>)>
  {
    if |stream| < 4 then None
    else
      var n := U32At(stream, 0);
      if |stream| < 4 + n then None else Some((stream[4..4 + n], stream[4 + n..]))
  }

  /** `n` receptions in a row. */
  function UnframeMany(stream: seq<byte>, n: nat): Option<(seq<seq<byte>>, seq<byte>)>
  {
    if n == 0 then Some(([], stream))
    else
      match Unframe(stream)
      case None => None
      case Some((pdu, rest)) =>
        match UnframeMany(rest, n - 1)
        case None => None
        case Some((pdus, end)) => Some(([pdu] + pdus, end))
  }

  lemma UnframeFrame(pdu: seq<byte>, rest: seq<byte>)
    requires |pdu| < 0x1_0000_0000
    ensures Unframe(Frame(pdu) + rest) == Some((pdu, rest))
  {
    var stream := Frame(pdu) + rest;
    U32AtLE(stream, 0, |pdu|);
    assert stream[4..4 + |pdu|] == pdu && stream[4 + |pdu|..] == rest;
  }

  /** The length comes first, in four bytes. */
  lemma FrameLayout(pdu: seq<byte>)
    requires |pdu| == 5
    ensures Frame(pdu) == [5, 0, 0, 0] + pdu
  {
    SmallLE(5);
  }

  /** Frames sent one after the other are received as the same PDUs in the same order,
      and what follows them stays in the stream. */
  lemma {:induction false} FramingRoundTrip(pdus: seq<seq<byte>>, rest: seq<byte>)
    requires forall i | 0 <= i < |pdus| :: |pdus[i]| < 0x1_0000_0000
    ensures UnframeMany(Frames(pdus) + rest, |pdus|) == Some((pdus, rest))
  {
    if pdus == [] {
      assert Frames(pdus) + rest == rest;
    } else {
      var stream := Frames(pdus[1..]) + rest;
      assert Frames(pdus) + rest == Frame(pdus[0]) + stream;
      UnframeFrame(pdus[0], stream);
      FramingRoundTrip(pdus[1..], rest);
      assert [pdus[0]] + pdus[1..] == pdus;
    }
  }

  /** A frame cut short is not delivered. */
  lemma TruncatedFrame(pdu: seq<byte>, n: nat)
    requires |pdu| < 0x1_0000_0000 && n < |Frame(pdu)|
    ensures Unframe(Frame(pdu)[..n]) == None
  {
    if n >= 4 {
      assert Frame(pdu)[..n][0..4] == LE32(|pdu|);
      U32AtLE(Frame(pdu)[..n], 0, |pdu|);
    }
  }

  /** One direction of the serial line; `pending` is written but not yet read. */
  class ByteStream {
    var pending: seq<byte>

    constructor ()
      ensures pending == []
    {
      pending := [];
    }

    method Write(data: seq<byte>)
      modifies this
      ensures pending == old(pending) + data
    {
      pending := pending + data;
    }

    /** `read`: any positive number of the pending bytes up to `n`; nothing once the line is closed. */
    method Read(n: nat) returns (data: seq<byte>)
      requires n > 0
      modifies this
      ensures |data| <= n && old(pending) == data + pending
      ensures data == [] <==> old(pending) == []
    {
      if pending == [] {
        return [];
      }
      var r: nat :| 0 < r <= n && r <= |pending|;
      data := pending[..r];
      pending := pending[r..];
    }
  }

  class UartTransport {
    const line: ByteStream

    constructor (line: ByteStream)
      ensures this.line == line
    {
      this.line := line;
    }

    method Send(pdu: seq<byte>)
      requires |pdu| < 0x1_0000_0000
      modifies line
      ensures line.pending == old(line.pending) + Frame(pdu)
    {
      line.Write(LE32(|pdu|));
      line.Write(pdu);
    }

    /** Exactly `n` bytes, however the reads cut them; None is the exception on a closed line. */
    method ReadExact(n: nat) returns (r: Option<seq<byte>>)
      modifies line
      ensures r.Some? <==> n <= |old(line.pending)|
      ensures r.Some? ==> |r.value| == n && old(line.pending) == r.value + line.pending
    {
      var buf := [];
      while |buf| < n
        invariant |buf| <= n
        invariant old(line.pending) == buf + line.pending
        decreases n - |buf|
      {
        var piece := line.Read(n - |buf|);
        if piece == [] {
          return None;
        }
        buf := buf + piece;
      }
      return Some(buf);
    }

    method Recv() returns (r: Option<seq<byte>>)
      modifies line
      ensures var first := Unframe(old(line.pending));
              && (r.Some? <==> first.Some?)
              && (r.Some? ==> r.value == first.value.0 && line.pending == first.value.1)
    {
      ghost var stream := line.pending;
      var prefix := ReadExact(4);
      if prefix.None? {
        return None;
      }
      assert stream[0..4] == prefix.value[0..4];
      assert line.pending == stream[4..];
      r := ReadExact(U32At(prefix.value, 0));
      if r.Some? {
        assert stream == prefix.value + r.value + line.pending;
      }
    }

    /** `n` receptions deliver what the stream holds, in order. */
    method RecvMany(n: nat) returns (r: Option<seq<seq<byte>>>)
      modifies line
      ensures var all := UnframeMany(old(line.pending), n);
              && (r.Some? <==> all.Some?)
              && (r.Some? ==> r.value == all.value.0 && line.pending == all.value.1)
    {
      if n == 0 {
        return Some([]);
      }
      var first := Recv();
      if first.None? {
        return None;
      }
      var rest := RecvMany(n - 1);
      if rest.None? {
        return None;
      }
      return Some([first.value] + rest.value);
    }
  }
}
