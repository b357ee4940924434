/** Repeated application, kept apart from bit-vectors so that its laws are proved once for any type. */
module Iteration {

  /** `f` applied `n` times. */
  function Iterate<T>(f: T -> T, c: T, n: nat): T
  {
    if n == 0 then c else f(Iterate(f, c, n - 1))
  }

  /** `data` folded into `c` from the left. */
  function Fold<T, B>(f: (T, B) -> T, c: T, data: seq<B>): T
    decreases |data|
  {
    if data == [] then c else Fold(f, f(c, data[0]), data[1..])
  }

  lemma {:induction false} IterateLinear<T(!new)>(f: T -> T, add: (T, T) -> T, a: T, b: T, n: nat)
    requires forall x, y :: f(add(x, y)) == add(f(x), f(y))
    ensures Iterate(f, add(a, b), n) == add(Iterate(f, a, n), Iterate(f, b, n))
  {
    if n > 0 {
      IterateLinear(f, add, a, b, n - 1);
    }
  }

  lemma {:induction false} IterateFromFront<T>(f: T -> T, c: T, n: nat)
    ensures Iterate(f, c, n + 1) == Iterate(f, f(c), n)
  {
    if n > 0 {
      IterateFromFront(f, c, n - 1);
    }
  }

  lemma {:induction false} IterateInverse<T(!new)>(f: T -> T, g: T -> T, c: T, n: nat)
    requires forall x :: f(g(x)) == x
    ensures Iterate(f, Iterate(g, c, n), n) == c
  {
    if n > 0 {
      IterateFromFront(f, Iterate(g, c, n), n - 1);
      IterateInverse(f, g, c, n - 1);
    }
  }

  lemma IterateEight<T>(f: T -> T, c: T)
    ensures Iterate(f, c, 8) == f(f(f(f(f(f(f(f(c))))))))
  {
    var c4 := f(f(f(f(c))));
    assert Iterate(f, c, 1) == f(c);
    assert Iterate(f, c, 2) == f(f(c));
    assert Iterate(f, c, 3) == f(f(f(c)));
    assert Iterate(f, c, 4) == c4;
    assert Iterate(f, c, 5) == f(c4);
    assert Iterate(f, c, 6) == f(f(c4));
    assert Iterate(f, c, 7) == f(f(f(c4)));
  }

  function Zip<T>(add: (T, T) -> T, a: seq<T>, b: seq<T>): (c: seq<T>)
    requires |a| == |b|
    ensures |c| == |a|
  {
    seq(|a|, i requires 0 <= i < |a| => add(a[i], b[i]))
  }

  lemma {:induction false} FoldLinear<T(!new)>(f: (T, T) -> T, add: (T, T) -> T, c: T, d: T, a: seq<T>, b: seq<T>)
    requires |a| == |b|
    requires forall c, d, x, y :: f(add(c, d), add(x, y)) == add(f(c, x), f(d, y))
    ensures Fold(f, add(c, d), Zip(add, a, b)) == add(Fold(f, c, a), Fold(f, d, b))
    decreases |a|
  {
    if a != [] {
      assert Zip(add, a, b)[1..] == Zip(add, a[1..], b[1..]);
      FoldLinear(f, add, f(c, a[0]), f(d, b[0]), a[1..], b[1..]);
    }
  }

  lemma {:induction false} FoldConcat<T, B>(f: (T, B) -> T, c: T, a: seq<B>, b: seq<B>)
    ensures Fold(f, c, a + b) == Fold(f, Fold(f, c, a), b)
    decreases |a|
  {
    if a == [] {
      assert a + b == b;
    } else {
      assert (a + b)[1..] == a[1..] + b;
      FoldConcat(f, f(c, a[0]), a[1..], b);
    }
  }
}

/** The per-packet CRC-8 (polynomial 0x07, initial value 0): the bitwise loop of
    receiver and sender, and the damage it is certain to detect. */
module Crc {
  import opened Bytes
  import opened Iteration

  /** One shift of the register. */
  function Shift(crc: byte): byte
  {
    if crc & 0x80 != 0 then (crc << 1) ^ 0x07 else crc << 1
  }

  function Add(a: byte, b: byte): byte { a ^ b }

  /** What one message byte does to the register. */
  function Update(crc: byte, b: byte): byte { Iterate(Shift, Add(crc, b), 8) }

  function Crc8(data: seq<byte>): byte { Fold(Update, 0, data) }

  /** The nested loops of the source. */
  method ComputeCrc8(data: seq<byte>) returns (crc: byte)
    ensures crc == Crc8(data)
  {
    crc := 0;
    var at := 0;
    while at < |data|
      invariant 0 <= at <= |data|
      invariant Fold(Update, crc, data[at..]) == Crc8(data)
    {
      ghost var before := crc;
      crc := crc ^ data[at];
      for i := 0 to 8
        invariant crc == Iterate(Shift, Add(before, data[at]), i)
      {
        if crc & 0x80 != 0 {
          crc := (crc << 1) ^ 0x07;
        } else {
          crc := crc << 1;
        }
      }
      assert data[at..][1..] == data[at + 1..];
      at := at + 1;
    }
  }

  // ----- linearity

  /** Two messages of equal length added bit by bit: a message and the damage done to it. */
  function Xor(a: seq<byte>, b: seq<byte>): (c: seq<byte>)
    requires |a| == |b|
    ensures |c| == |a|
  {
    Zip(Add, a, b)
  }

  lemma ShiftLinear(a: byte, b: byte)
    ensures Shift(Add(a, b)) == Add(Shift(a), Shift(b))
  {
    if a & 0x80 != 0 {
      if b & 0x80 != 0 {
        assert (a ^ b) & 0x80 == 0;
      } else {
        assert (a ^ b) & 0x80 != 0;
      }
    } else if b & 0x80 != 0 {
      assert (a ^ b) & 0x80 != 0;
    } else {
      assert (a ^ b) & 0x80 == 0;
    }
  }

  lemma AddSwaps(a: byte, b: byte, c: byte, d: byte)
    ensures Add(Add(a, b), Add(c, d)) == Add(Add(a, c), Add(b, d))
  {
    assert (a ^ b) ^ (c ^ d) == (a ^ c) ^ (b ^ d);
  }

  lemma AddCancels(a: byte, b: byte)
    ensures Add(Add(a, b), b) == a
    ensures Add(a, b) == 0 <==> a == b
    ensures Add(a, b) == a <==> b == 0
  {
  }

  lemma UpdateLinear(c: byte, d: byte, a: byte, b: byte)
    ensures Update(Add(c, d), Add(a, b)) == Add(Update(c, a), Update(d, b))
  {
    forall x, y
      ensures Shift(Add(x, y)) == Add(Shift(x), Shift(y))
    {
      ShiftLinear(x, y);
    }
    AddSwaps(c, d, a, b);
    IterateLinear(Shift, Add, Add(c, a), Add(d, b), 8);
  }

  /** The checksum is linear over exclusive-or, for messages of any equal length. */
  lemma CrcLinear(a: seq<byte>, b: seq<byte>)
    requires |a| == |b|
    ensures Crc8(Xor(a, b)) == Add(Crc8(a), Crc8(b))
  {
    UpdateLinearForAll();
    AddCancels(0, 0);
    FoldLinear(Update, Add, 0, 0, a, b);
  }

  lemma UpdateLinearForAll()
    ensures forall c, d, x, y :: Update(Add(c, d), Add(x, y)) == Add(Update(c, x), Update(d, y))
  {
    forall c, d, x, y
      ensures Update(Add(c, d), Add(x, y)) == Add(Update(c, x), Update(d, y))
    {
      UpdateLinear(c, d, x, y);
    }
  }

  /** Damage `err` goes unnoticed exactly when `err` on its own has checksum 0. */
  lemma UndetectedIff(msg: seq<byte>, err: seq<byte>)
    requires |msg| == |err|
    ensures Crc8(Xor(msg, err)) == Crc8(msg) <==> Crc8(err) == 0
  {
    CrcLinear(msg, err);
    AddCancels(Crc8(msg), Crc8(err));
  }

  // ----- bijectivity

  /** The register that one shift turns into `c`. */
  function Unshift(c: byte): byte
  {
    if c & 1 != 0 then ((c ^ 0x07) >> 1) | 0x80 else c >> 1
  }

  lemma ShiftBijective(c: byte)
    ensures Shift(Unshift(c)) == c && Unshift(Shift(c)) == c
  {
  }

  /** The register before `b` was folded in. */
  function Unupdate(crc: byte, b: byte): byte { Add(Iterate(Unshift, crc, 8), b) }

  /** For every message byte, one update permutes the 256 register values. */
  lemma UpdateBijective(c: byte, b: byte)
    ensures Update(Unupdate(c, b), b) == c && Unupdate(Update(c, b), b) == c
  {
    forall x
      ensures Shift(Unshift(x)) == x && Unshift(Shift(x)) == x
    {
      ShiftBijective(x);
    }
    AddCancels(Iterate(Unshift, c, 8), b);
    AddCancels(c, b);
    IterateInverse(Shift, Unshift, c, 8);
    IterateInverse(Unshift, Shift, Add(c, b), 8);
  }

  lemma UpdateZero(c: byte, b: byte)
    ensures Update(c, b) == 0 <==> c == b
  {
    UpdateBijective(c, b);
    UpdateBijective(b, b);
    AddCancels(c, b);
    IterateEight(Shift, 0);
  }

  // ----- bursts

  /** Bit `k` of a message, most significant bit of each byte first. */
  predicate BitAt(s: seq<byte>, k: nat)
    requires k < 8 * |s|
  {
    s[k / 8] & Mask(k % 8) != 0
  }

  function Mask(t: nat): byte
    requires t < 8
  {
    [0x80, 0x40, 0x20, 0x10, 0x08, 0x04, 0x02, 0x01][t]
  }

  /** Some bit is set, and all set bits lie in the 8-bit window opening at `start`. */
  ghost predicate BurstAt(err: seq<byte>, start: nat)
  {
    && (exists k: nat | k < 8 * |err| :: BitAt(err, k))
    && (forall k: nat | k < 8 * |err| && BitAt(err, k) :: start <= k < start + 8)
  }

  /** Undamaged bytes before a burst leave the register 0, and those after it keep it non-zero. */
  lemma {:induction false} ZeroBytes(crc: byte, data: seq<byte>)
    requires forall i | 0 <= i < |data| :: data[i] == 0
    ensures Fold(Update, crc, data) == 0 <==> crc == 0
    decreases |data|
  {
    if data != [] {
      UpdateZero(crc, 0);
      ZeroBytes(Update(crc, 0), data[1..]);
    }
  }

  lemma TopBits(a: byte, s: nat)
    requires s < 8
    requires forall t: nat | t < s :: a & Mask(t) == 0
    ensures a & (0xFF << (8 - s as bv4)) == 0
  {
    assert s > 0 ==> a & Mask(0) == 0;
    assert s > 1 ==> a & Mask(1) == 0;
    assert s > 2 ==> a & Mask(2) == 0;
    assert s > 3 ==> a & Mask(3) == 0;
    assert s > 4 ==> a & Mask(4) == 0;
    assert s > 5 ==> a & Mask(5) == 0;
    assert s > 6 ==> a & Mask(6) == 0;
  }

  lemma LowBits(b: byte, s: nat)
    requires s < 8
    requires forall t: nat | s <= t < 8 :: b & Mask(t) == 0
    ensures b & (0xFF >> s as bv4) == 0
  {
    assert s <= 0 ==> b & Mask(0) == 0;
    assert s <= 1 ==> b & Mask(1) == 0;
    assert s <= 2 ==> b & Mask(2) == 0;
    assert s <= 3 ==> b & Mask(3) == 0;
    assert s <= 4 ==> b & Mask(4) == 0;
    assert s <= 5 ==> b & Mask(5) == 0;
    assert s <= 6 ==> b & Mask(6) == 0;
    assert b & Mask(7) == 0;
  }

  /** Eight shifts of the part of a burst in one byte never give the part in the next. */
  lemma WindowDetected(a: byte, b: byte, s: bv4)
    requires s < 8 && a != 0
    requires a & (0xFF << (8 - s)) == 0 && b & (0xFF >> s) == 0
    ensures Shift(Shift(Shift(Shift(Shift(Shift(Shift(Shift(a)))))))) != b
  {
  }

  lemma BytePairDetected(a: byte, b: byte, s: nat)
    requires s < 8 && (a != 0 || b != 0)
    requires a & (0xFF << (8 - s as bv4)) == 0 && b & (0xFF >> s as bv4) == 0
    ensures Update(Update(0, a), b) != 0
  {
    UpdateZero(0, a);
    UpdateZero(Update(0, a), b);
    AddIdentity(a);
    IterateEight(Shift, a);
    if a != 0 {
      WindowDetected(a, b, s as bv4);
    }
  }

  lemma AddIdentity(a: byte)
    ensures Add(0, a) == a
  {
  }

  /** All bits of a byte lie outside the window, so the byte is 0. */
  lemma ByteOutside(err: seq<byte>, start: nat, j: nat)
    requires j < |err| && BurstAt(err, start)
    requires j < start / 8 || j > start / 8 + 1
    ensures err[j] == 0
  {
    forall t: nat | t < 8
      ensures err[j] & Mask(t) == 0
    {
      assert (8 * j + t) / 8 == j && (8 * j + t) % 8 == t;
      assert !BitAt(err, 8 * j + t);
    }
    LowBits(err[j], 0);
    AllBits(err[j]);
  }

  lemma AllBits(b: byte)
    ensures b & (0xFF >> (0 as bv4)) == b
  {
  }

  lemma BurstHead(err: seq<byte>, start: nat)
    requires BurstAt(err, start)
    ensures var i := start / 8;
            && i < |err|
            && (err[i] != 0 || (i + 1 < |err| && err[i + 1] != 0))
  {
    var k: nat :| k < 8 * |err| && BitAt(err, k);
    ZeroMask(k % 8);
    assert k / 8 == start / 8 || k / 8 == start / 8 + 1;
  }

  lemma BurstTop(err: seq<byte>, start: nat)
    requires BurstAt(err, start) && start / 8 < |err|
    ensures err[start / 8] & (0xFF << (8 - (start % 8) as bv4)) == 0
  {
    var i, s := start / 8, start % 8;
    forall t: nat | t < s
      ensures err[i] & Mask(t) == 0
    {
      assert (8 * i + t) / 8 == i && (8 * i + t) % 8 == t;
      assert !BitAt(err, 8 * i + t);
    }
    TopBits(err[i], s);
  }

  lemma BurstLow(err: seq<byte>, start: nat)
    requires BurstAt(err, start) && start / 8 + 1 < |err|
    ensures err[start / 8 + 1] & (0xFF >> (start % 8) as bv4) == 0
  {
    var j, s := start / 8 + 1, start % 8;
    forall t: nat | s <= t < 8
      ensures err[j] & Mask(t) == 0
    {
      assert (8 * j + t) / 8 == j && (8 * j + t) % 8 == t;
      assert !BitAt(err, 8 * j + t);
    }
    LowBits(err[j], s);
  }

  lemma ZeroMask(t: nat)
    requires t < 8
    ensures 0 & Mask(t) == 0
  {
  }

  /** Only the bytes between undamaged ones decide whether the checksum is 0. */
  lemma FramedByZeros(err: seq<byte>, lo: nat, hi: nat)
    requires lo <= hi <= |err|
    requires forall j | 0 <= j < |err| && !(lo <= j < hi) :: err[j] == 0
    ensures Crc8(err) == 0 <==> Fold(Update, 0, err[lo..hi]) == 0
  {
    var before, middle, after := err[..lo], err[lo..hi], err[hi..];
    assert err == (before + middle) + after;
    FoldConcat(Update, 0, before + middle, after);
    FoldConcat(Update, 0, before, middle);
    ZeroBytes(0, before);
    ZeroBytes(Fold(Update, 0, middle), after);
  }

  lemma BurstCrcNonzero(err: seq<byte>, start: nat)
    requires BurstAt(err, start)
    ensures Crc8(err) != 0
  {
    var i, s := start / 8, start % 8;
    BurstHead(err, start);
    BurstTop(err, start);
    var hi := Min(i + 2, |err|);
    forall j | 0 <= j < |err| && !(i <= j < hi)
      ensures err[j] == 0
    {
      ByteOutside(err, start, j);
    }
    FramedByZeros(err, i, hi);
    FoldTwo(0, err[i..hi]);
    if hi == i + 2 {
      BurstLow(err, start);
      BytePairDetected(err[i], err[i + 1], s);
      assert err[i..hi] == [err[i], err[i + 1]];
    } else {
      UpdateZero(0, err[i]);
    }
  }

  lemma FoldTwo(c: byte, data: seq<byte>)
    requires 1 <= |data| <= 2
    ensures |data| == 1 ==> Fold(Update, c, data) == Update(c, data[0])
    ensures |data| == 2 ==> Fold(Update, c, data) == Update(Update(c, data[0]), data[1])
  {
    var rest := data[1..];
    assert Fold(Update, c, data) == Fold(Update, Update(c, data[0]), rest);
    if |data| == 2 {
      assert rest[1..] == [];
      assert Fold(Update, Update(c, data[0]), rest) == Fold(Update, Update(Update(c, data[0]), rest[0]), rest[1..]);
    }
  }

  /** Any burst of at most 8 bits, at any place of a message of any length, changes the checksum. */
  lemma BurstDetected(msg: seq<byte>, err: seq<byte>, start: nat)
    requires |msg| == |err| && BurstAt(err, start)
    ensures Crc8(Xor(msg, err)) != Crc8(msg)
  {
    BurstCrcNonzero(err, start);
    UndetectedIff(msg, err);
  }

  /** The bits 1 0000 0111 from bit `k` on, and no others. */
  ghost predicate NineBitsAt(err: seq<byte>, k: nat)
  {
    && k + 8 < 8 * |err|
    && forall j: nat | j < 8 * |err| :: BitAt(err, j) <==> InNine(j - k)
  }

  predicate InNine(j: int) { j == 0 || 6 <= j <= 8 }

  /** The two bytes that hold the nine bits, by the place of the first bit in its byte. */
  function NineBytes(r: nat): (byte, byte)
    requires r < 8
  {
    [(0x83, 0x80), (0x41, 0xC0), (0x20, 0xE0), (0x10, 0x70), (0x08, 0x38), (0x04, 0x1C), (0x02, 0x0E), (0x01, 0x07)][r]
  }

  lemma NineBitMasks(r: nat, t: nat)
    requires r < 8 && t < 8
    ensures NineBytes(r).0 & Mask(t) != 0 <==> InNine(t - r)
    ensures NineBytes(r).1 & Mask(t) != 0 <==> InNine(8 + t - r)
  {
    if t == 0 {} else if t == 1 {} else if t == 2 {} else if t == 3 {}
    else if t == 4 {} else if t == 5 {} else if t == 6 {} else {}
  }

  lemma SameBits(a: byte, b: byte)
    requires forall t: nat | t < 8 :: a & Mask(t) != 0 <==> b & Mask(t) != 0
    ensures a == b
  {
    assert a & Mask(0) != 0 <==> b & Mask(0) != 0;
    assert a & Mask(1) != 0 <==> b & Mask(1) != 0;
    assert a & Mask(2) != 0 <==> b & Mask(2) != 0;
    assert a & Mask(3) != 0 <==> b & Mask(3) != 0;
    assert a & Mask(4) != 0 <==> b & Mask(4) != 0;
    assert a & Mask(5) != 0 <==> b & Mask(5) != 0;
    assert a & Mask(6) != 0 <==> b & Mask(6) != 0;
    assert a & Mask(7) != 0 <==> b & Mask(7) != 0;
  }

  /** Byte `j` of a message with the nine bits from bit `8 * i + r` on. */
  function NineByte(i: nat, r: nat, j: nat): byte
    requires r < 8
  {
    if j == i then NineBytes(r).0 else if j == i + 1 then NineBytes(r).1 else 0
  }

  lemma NineByteMask(i: nat, r: nat, j: nat, t: nat)
    requires r < 8 && t < 8
    ensures NineByte(i, r, j) & Mask(t) != 0 <==> InNine(8 * (j - i) + t - r)
  {
    hide Mask, NineBytes;
    NineBitMasks(r, t);
    ZeroMask(t);
  }

  lemma NineBitOf(err: seq<byte>, k: nat, j: nat, t: nat)
    requires NineBitsAt(err, k) && j < |err| && t < 8
    ensures err[j] & Mask(t) != 0 <==> InNine(8 * (j - k / 8) + t - k % 8)
  {
    hide Mask;
    assert (8 * j + t) / 8 == j && (8 * j + t) % 8 == t;
    assert BitAt(err, 8 * j + t) <==> InNine(8 * j + t - k);
  }

  lemma NineByteAt(err: seq<byte>, k: nat, j: nat)
    requires NineBitsAt(err, k) && j < |err|
    ensures err[j] == NineByte(k / 8, k % 8, j)
  {
    hide Mask, NineByte, InNine, NineBitsAt;
    var b := NineByte(k / 8, k % 8, j);
    forall t: nat | t < 8
      ensures err[j] & Mask(t) != 0 <==> b & Mask(t) != 0
    {
      NineBitOf(err, k, j, t);
      NineByteMask(k / 8, k % 8, j, t);
    }
    SameBits(err[j], b);
  }

  lemma NineBytesInvisible(r: nat)
    requires r < 8
    ensures Update(Update(0, NineBytes(r).0), NineBytes(r).1) == 0
  {
    var (hi, lo) := NineBytes(r);
    AddIdentity(hi);
    IterateEight(Shift, hi);
    EightShifts(r);
    UpdateZero(lo, lo);
  }

  lemma EightShifts(r: nat)
    requires r < 8
    ensures Shift(Shift(Shift(Shift(Shift(Shift(Shift(Shift(NineBytes(r).0)))))))) == NineBytes(r).1
  {
    if r == 0 {} else if r == 1 {} else if r == 2 {} else if r == 3 {}
    else if r == 4 {} else if r == 5 {} else if r == 6 {} else {}
  }

  /** Eight is the limit: the 9-bit burst 1 0000 0111 is invisible at every bit of every message. */
  lemma NineBitBurstUndetected(msg: seq<byte>, err: seq<byte>, k: nat)
    requires |msg| == |err| && NineBitsAt(err, k)
    ensures Crc8(Xor(msg, err)) == Crc8(msg)
  {
    var i := k / 8;
    var (hi, lo) := NineBytes(k % 8);
    forall j | 0 <= j < |err|
      ensures err[j] == NineByte(i, k % 8, j)
    {
      NineByteAt(err, k, j);
    }
    FramedByZeros(err, i, i + 2);
    assert err[i..i + 2] == [hi, lo];
    FoldTwo(0, err[i..i + 2]);
    NineBytesInvisible(k % 8);
    UndetectedIff(msg, err);
  }

  /** The damage the simulated link does to one byte. */
  lemma FlippedByteDetected(msg: seq<byte>, at: nat)
    requires at < |msg|
    ensures Crc8(msg[at := msg[at] ^ 0xFF]) != Crc8(msg)
  {
    var err := Zeros(|msg|)[at := 0xFF];
    assert BurstAt(err, 8 * at) by {
      assert (8 * at) / 8 == at && (8 * at) % 8 == 0;
      assert BitAt(err, 8 * at);
      forall k: nat | k < 8 * |err| && BitAt(err, k)
        ensures 8 * at <= k < 8 * at + 8
      {
        ZeroMask(k % 8);
        assert k / 8 == at;
      }
    }
    BurstDetected(msg, err, 8 * at);
    ZeroDamage(msg, at);
  }

  lemma ZeroDamage(msg: seq<byte>, at: nat)
    requires at < |msg|
    ensures Xor(msg, Zeros(|msg|)[at := 0xFF]) == msg[at := msg[at] ^ 0xFF]
  {
    var err := Zeros(|msg|)[at := 0xFF];
    forall i | 0 <= i < |msg|
      ensures Xor(msg, err)[i] == msg[at := msg[at] ^ 0xFF][i]
    {
      AddCancels(msg[i], err[i]);
    }
  }
}
