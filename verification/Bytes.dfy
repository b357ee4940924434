/** The facts needed about numbers and 8-bit vectors, on their own to keep them cheap. */
module ByteValues {

  lemma ByteRoundTrip(n: nat)
    requires n < 256
    ensures (n as bv8) as nat == n
  {
    if n < 16 {} else if n < 32 {} else if n < 64 {} else if n < 128 {} else if n < 192 {} else {}
  }

  lemma NumberRoundTrip(b: bv8)
    ensures (b as nat) < 256 && (b as nat) as bv8 == b
  {
  }

  lemma FlippedValue(b: bv8)
    ensures (b ^ 0xFF) as nat + b as nat == 255
  {
  }
}

/** Bytes, fixed-width integers and the little-endian layout that the packed
    structs of the receiver and the `struct` formats of the sender share. */
module Bytes {
  import opened ByteValues

  type byte = bv8

  type u32 = n: nat | n < 0x1_0000_0000
  type u64 = n: nat | n < 0x1_0000_0000_0000_0000

  const UINT32_MAX: u32 := 0xFFFF_FFFF

  datatype Option<+T> = None | Some(value: T)

  /** Unsigned 32-bit wrap-around of a mathematical integer. */
  function Wrap32(n: int): u32 { n % 0x1_0000_0000 }

  /** Unsigned 64-bit wrap-around of a mathematical integer. */
  function Wrap64(n: int): u64 { n % 0x1_0000_0000_0000_0000 }

  function Min(a: int, b: int): int { if a <= b then a else b }

  function Zeros(n: nat): (z: seq<byte>)
    ensures |z| == n && forall i | 0 <= i < n :: z[i] == 0
  {
    seq(n, i => 0)
  }

  // ----- little-endian integers

  function Pow256(k: nat): nat { if k == 0 then 1 else 256 * Pow256(k - 1) }

  function ToLE(n: nat, k: nat): (s: seq<byte>)
    ensures |s| == k
  {
    if k == 0 then [] else [(n % 256) as byte] + ToLE(n / 256, k - 1)
  }

  function FromLE(s: seq<byte>): nat
  {
    if s == [] then 0 else s[0] as nat + 256 * FromLE(s[1..])
  }

  lemma {:induction false} FromToLE(n: nat, k: nat)
    requires n < Pow256(k)
    ensures FromLE(ToLE(n, k)) == n
  {
    if k > 0 {
      FromToLE(n / 256, k - 1);
      ByteRoundTrip(n % 256);
      assert ToLE(n, k)[1..] == ToLE(n / 256, k - 1);
    }
  }

  lemma {:induction false} ToFromLE(s: seq<byte>)
    ensures ToLE(FromLE(s), |s|) == s
  {
    if s != [] {
      var low, high := s[0] as nat, FromLE(s[1..]);
      ToFromLE(s[1..]);
      NumberRoundTrip(s[0]);
      LowAndHigh(low, high);
      ToLEStep(low + 256 * high, |s| - 1);
      assert s == [s[0]] + s[1..];
    }
  }

  lemma ToLEStep(n: nat, k: nat)
    ensures ToLE(n, k + 1) == [(n % 256) as byte] + ToLE(n / 256, k)
  {
  }

  lemma LowAndHigh(low: nat, high: nat)
    requires low < 256
    ensures (low + 256 * high) % 256 == low && (low + 256 * high) / 256 == high
  {
  }

  lemma {:induction false} FromLEBound(s: seq<byte>)
    ensures FromLE(s) < Pow256(|s|)
  {
    if s != [] {
      FromLEBound(s[1..]);
    }
  }

  lemma Pow256Values()
    ensures Pow256(4) == 0x1_0000_0000
    ensures Pow256(8) == 0x1_0000_0000_0000_0000
  {
    assert Pow256(2) == 0x1_0000;
    assert Pow256(6) == 0x1_0000 * Pow256(4);
  }

  function LE32(n: u32): (s: seq<byte>)
    ensures |s| == 4
  {
    ToLE(n, 4)
  }

  function LE64(n: u64): (s: seq<byte>)
    ensures |s| == 8
  {
    ToLE(n, 8)
  }

  /** The 32-bit field at offset `at`: what `memcpy` into a packed struct reads. */
  function U32At(s: seq<byte>, at: nat): u32
    requires at + 4 <= |s|
  {
    FromLEBound(s[at..at + 4]);
    Pow256Values();
    FromLE(s[at..at + 4])
  }

  function U64At(s: seq<byte>, at: nat): u64
    requires at + 8 <= |s|
  {
    FromLEBound(s[at..at + 8]);
    Pow256Values();
    FromLE(s[at..at + 8])
  }

  lemma SliceOfSlice<T>(s: seq<T>, lo: nat, hi: nat, a: nat, b: nat)
    requires lo <= hi <= |s| && a <= b <= hi - lo
    ensures s[lo..hi][a..b] == s[lo + a..lo + b]
  {
    var left, right := s[lo..hi][a..b], s[lo + a..lo + b];
    assert |left| == |right| == b - a;
    forall i | 0 <= i < b - a
      ensures left[i] == right[i]
    {
      assert left[i] == s[lo..hi][a + i] == s[lo + (a + i)];
      assert right[i] == s[(lo + a) + i];
    }
  }

  lemma FromLEStep(s: seq<byte>)
    requires s != []
    ensures FromLE(s) == s[0] as nat + 256 * FromLE(s[1..])
  {
  }

  lemma FourBytes(s: seq<byte>)
    requires |s| == 4
    ensures FromLE(s) == s[0] as nat + 256 * s[1] as nat + 0x1_0000 * s[2] as nat + 0x100_0000 * s[3] as nat
  {
    hide FromLE;
    var a, b, c := s[1..], s[2..], s[3..];
    assert a[1..] == b && b[1..] == c && c == [s[3]];
    FromLEStep(s);
    FromLEStep(a);
    FromLEStep(b);
    OneByte(s[3]);
  }

  lemma OneByte(b: byte)
    ensures FromLE([b]) == b as nat
  {
    assert [b][1..] == [];
  }

  /** The byte of lowest value comes first. */
  lemma LowByteFirst()
    ensures LE32(0x1234_5678) == [0x78, 0x56, 0x34, 0x12]
  {
    hide ToLE, FromLE;
    var s: seq<byte> := [0x78, 0x56, 0x34, 0x12];
    FourBytes(s);
    ToFromLE(s);
  }

  lemma SmallLE(b: byte)
    ensures LE32(b as nat) == [b, 0, 0, 0]
    ensures LE64(b as nat) == [b, 0, 0, 0, 0, 0, 0, 0]
  {
    hide ToLE;
    FromZeros(3);
    FromZeros(7);
    SmallFrom(b, 3);
    SmallFrom(b, 7);
    assert [b] + Zeros(3) == [b, 0, 0, 0];
    assert [b] + Zeros(7) == [b, 0, 0, 0, 0, 0, 0, 0];
  }

  lemma SmallFrom(b: byte, n: nat)
    requires FromLE(Zeros(n)) == 0
    ensures ToLE(b as nat, n + 1) == [b] + Zeros(n)
  {
    var s := [b] + Zeros(n);
    assert s[1..] == Zeros(n);
    ToFromLE(s);
  }

  lemma {:induction false} FromZeros(n: nat)
    ensures FromLE(Zeros(n)) == 0
  {
    if n > 0 {
      FromZeros(n - 1);
      assert Zeros(n)[1..] == Zeros(n - 1);
    }
  }

  lemma U32AtLE(s: seq<byte>, at: nat, n: u32)
    requires at + 4 <= |s| && s[at..at + 4] == LE32(n)
    ensures U32At(s, at) == n
  {
    Pow256Values();
    FromToLE(n, 4);
  }

  lemma U64AtLE(s: seq<byte>, at: nat, n: u64)
    requires at + 8 <= |s| && s[at..at + 8] == LE64(n)
    ensures U64At(s, at) == n
  {
    Pow256Values();
    FromToLE(n, 8);
  }
}
