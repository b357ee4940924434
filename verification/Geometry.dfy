/** How a file is cut into chunks and a chunk into packets. */
module Geometry {
  import opened Bytes

  function CeilDiv(a: nat, b: nat): nat
    requires b > 0
  {
    (a + b - 1) / b
  }

  /** Piece `i` of `s` cut every `k` bytes; the last piece may be shorter. */
  function Piece(s: seq<byte>, k: nat, i: nat): seq<byte>
    requires k > 0 && i < CeilDiv(|s|, k)
  {
    PieceBounds(|s|, k, i);
    s[i * k..i * k + PieceLen(|s|, k, i)]
  }

  function PieceLen(total: nat, k: nat, i: nat): (n: nat)
    requires k > 0 && i < CeilDiv(total, k)
    ensures 0 < n <= k && i * k + n <= total
  {
    PieceBounds(total, k, i);
    Min(total - i * k, k)
  }

  lemma PieceBounds(total: nat, k: nat, i: nat)
    requires k > 0
    ensures i < CeilDiv(total, k) <==> i * k < total
  {
    var q := CeilDiv(total, k);
    DivBounds(total + k - 1, k);
    if i < q {
      MulMono(i + 1, q, k);
    } else {
      MulMono(q, i, k);
    }
  }

  lemma DivBounds(a: nat, k: nat)
    requires k > 0
    ensures (a / k) * k <= a < (a / k) * k + k
  {
  }

  lemma MulNonneg(a: nat, b: nat)
    ensures a * b >= 0
  {
  }

  lemma MulMono(a: nat, b: nat, k: nat)
    requires a <= b
    ensures a * k <= b * k
  {
  }

  /** Two different pieces never share a byte. */
  lemma PiecesDisjoint(total: nat, k: nat, i: nat, j: nat)
    requires k > 0 && i < j < CeilDiv(total, k)
    ensures i * k + PieceLen(total, k, i) <= j * k
  {
    MulMono(i + 1, j, k);
  }

  /** Every position of the input lies in exactly one piece. */
  lemma PieceOfPosition(total: nat, k: nat, p: nat)
    requires k > 0 && p < total
    ensures var i := p / k;
            i < CeilDiv(total, k) && i * k <= p < i * k + PieceLen(total, k, i)
    ensures forall j: nat | j < CeilDiv(total, k) && j * k <= p < j * k + PieceLen(total, k, j) :: j == p / k
  {
    var i := p / k;
    DivBounds(p, k);
    PieceBounds(total, k, i);
    forall j: nat | j < CeilDiv(total, k) && j * k <= p < j * k + PieceLen(total, k, j)
      ensures j == i
    {
      if j < i {
        PiecesDisjoint(total, k, j, i);
      } else if i < j {
        MulMono(i + 1, j, k);
      }
    }
  }

  lemma PieceAt(total: nat, k: nat, p: nat) returns (i: nat)
    requires k > 0 && p < total
    ensures i < CeilDiv(total, k) && i * k <= p < i * k + PieceLen(total, k, i)
  {
    i := p / k;
    PieceOfPosition(total, k, p);
  }

  function Concat(parts: seq<seq<byte>>): seq<byte>
  {
    if parts == [] then [] else Concat(parts[..|parts| - 1]) + parts[|parts| - 1]
  }

  function Pieces(s: seq<byte>, k: nat): (ps: seq<seq<byte>>)
    requires k > 0
    ensures |ps| == CeilDiv(|s|, k)
  {
    seq(CeilDiv(|s|, k), i requires 0 <= i < CeilDiv(|s|, k) => Piece(s, k, i))
  }

  lemma {:induction false} ConcatPrefix(s: seq<byte>, k: nat, n: nat)
    requires k > 0 && n <= CeilDiv(|s|, k)
    ensures Concat(Pieces(s, k)[..n]) == s[..Min(n * k, |s|)]
  {
    if n > 0 {
      var ps, before := Pieces(s, k), Pieces(s, k)[..n];
      ConcatPrefix(s, k, n - 1);
      assert before[..n - 1] == ps[..n - 1];
      assert before[n - 1] == Piece(s, k, n - 1);
      PieceExtends(s, k, n - 1);
    }
  }

  lemma PieceExtends(s: seq<byte>, k: nat, i: nat)
    requires k > 0 && i < CeilDiv(|s|, k)
    ensures s[..Min(i * k, |s|)] + Piece(s, k, i) == s[..Min((i + 1) * k, |s|)]
  {
    PieceBounds(|s|, k, i);
    var lo, hi := i * k, i * k + PieceLen(|s|, k, i);
    assert (i + 1) * k == lo + k;
    assert s[..lo] + s[lo..hi] == s[..hi];
  }

  /** Cutting loses nothing: the pieces in order give the input back. */
  lemma ConcatPieces(s: seq<byte>, k: nat)
    requires k > 0
    ensures Concat(Pieces(s, k)) == s
  {
    var n := CeilDiv(|s|, k);
    ConcatPrefix(s, k, n);
    assert Pieces(s, k)[..n] == Pieces(s, k);
    PieceBounds(|s|, k, n);
    assert s[..|s|] == s;
  }

  // ----- the file being sent

  /** A file with the two cutting sizes of its transfer. */
  datatype Layout = Layout(bytes: seq<byte>, chunkSize: u32, packetSize: u32) {

    /** What the two programs need of a transfer: a non-empty file, legal sizes,
        and a packet-count sum that fits 32 bits. */
    ghost predicate Valid() {
      && 0 < |bytes| < 0x1_0000_0000_0000_0000
      && 0 < packetSize <= 4096
      && 0 < chunkSize
      && chunkSize + packetSize <= 0x1_0000_0000
      && Chunks() <= 0x10_0000
    }

    function Chunks(): nat
      requires chunkSize > 0
    {
      CeilDiv(|bytes|, chunkSize)
    }

    function Chunk(c: nat): (s: seq<byte>)
      requires chunkSize > 0 && c < Chunks()
      ensures |s| == PieceLen(|bytes|, chunkSize, c)
    {
      Piece(bytes, chunkSize, c)
    }

    function Packets(c: nat): (n: nat)
      requires chunkSize > 0 && packetSize > 0 && c < Chunks()
    {
      CeilDiv(|Chunk(c)|, packetSize)
    }

    function Packet(c: nat, p: nat): (s: seq<byte>)
      requires chunkSize > 0 && packetSize > 0 && c < Chunks() && p < Packets(c)
      ensures 0 < |s| <= packetSize
    {
      Piece(Chunk(c), packetSize, p)
    }

    /** The payloads of one chunk in order. */
    function Payloads(c: nat): (ps: seq<seq<byte>>)
      requires chunkSize > 0 && packetSize > 0 && c < Chunks()
      ensures |ps| == Packets(c)
    {
      Pieces(Chunk(c), packetSize)
    }
  }

  lemma AtLeastOnePacket(l: Layout, c: nat)
    requires l.Valid() && c < l.Chunks()
    ensures 1 <= l.Packets(c) < 0x1_0000_0000
  {
    var n := |l.Chunk(c)|;
    PieceBounds(n, l.packetSize, 0);
    DivBounds(n + l.packetSize - 1, l.packetSize);
    MulMono(1, l.packetSize, l.Packets(c));
    assert l.Packets(c) * l.packetSize <= n + l.packetSize - 1;
  }

  function ChunkPayloads(l: Layout): (cs: seq<seq<byte>>)
    requires l.chunkSize > 0 && l.packetSize > 0
    ensures |cs| == l.Chunks()
  {
    seq(l.Chunks(), c requires 0 <= c < l.Chunks() => Concat(l.Payloads(c)))
  }

  lemma PayloadsConcat(l: Layout)
    requires l.Valid()
    ensures ChunkPayloads(l) == Pieces(l.bytes, l.chunkSize)
  {
    forall c | 0 <= c < l.Chunks()
      ensures ChunkPayloads(l)[c] == Pieces(l.bytes, l.chunkSize)[c]
    {
      ConcatPieces(l.Chunk(c), l.packetSize);
    }
  }

  /** The payloads of all packets of all chunks, in order, are the file. */
  lemma PayloadsGiveFile(l: Layout)
    requires l.Valid()
    ensures Concat(ChunkPayloads(l)) == l.bytes
  {
    PayloadsConcat(l);
    ConcatPieces(l.bytes, l.chunkSize);
  }
}
