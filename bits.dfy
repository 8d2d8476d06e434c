/**
 * Bytes as streams of bits.
 *
 * The codec reads and writes files one byte at a time but works on bits,
 * always most significant bit first: bit 7 of a byte is the first bit of the
 * stream, bit 0 the eighth.  Within a C buffer `char buf[N]`, bit position t
 * (counted from 0) lives in `buf[t / 8]` under the mask `1 << (7 - t % 8)`.
 */
module BitStreams {

  /** The mask `1 << s` of an 8-bit char, spelled out. */
  function Mask(s: nat): (m: bv8)
    requires s < 8
    ensures m != 0
  {
    if s == 0 then 0x01 else if s == 1 then 0x02 else if s == 2 then 0x04
    else if s == 3 then 0x08 else if s == 4 then 0x10 else if s == 5 then 0x20
    else if s == 6 then 0x40 else 0x80
  }

  /** A one-bit value shifted into place is either the mask or nothing. */
  lemma ShiftIsMask(b: bv8, s: nat)
    requires s < 8 && b <= 1
    ensures b << s == if b == 1 then Mask(s) else 0
  {
  }

  /** The eight bits of a byte, most significant first. */
  function ByteBits(x: bv8): (r: seq<bool>)
    ensures |r| == 8
  {
    seq(8, j requires 0 <= j < 8 => x & Mask(7 - j) != 0)
  }

  /** The byte whose bits, most significant first, are `b`. */
  function PackByte(b: seq<bool>): bv8
    requires |b| == 8
  {
    PackBools(b[0], b[1], b[2], b[3], b[4], b[5], b[6], b[7])
  }

  /** The byte with bits b0 (most significant) to b7 (least significant). */
  function PackBools(b0: bool, b1: bool, b2: bool, b3: bool, b4: bool, b5: bool, b6: bool, b7: bool): bv8
  {
    (if b0 then 0x80 else 0) | (if b1 then 0x40 else 0) |
    (if b2 then 0x20 else 0) | (if b3 then 0x10 else 0) |
    (if b4 then 0x08 else 0) | (if b5 then 0x04 else 0) |
    (if b6 then 0x02 else 0) | (if b7 then 0x01 else 0)
  }

  /** Each mask of a packed byte reads back the bit packed under it. */
  lemma UnpackBools(b0: bool, b1: bool, b2: bool, b3: bool, b4: bool, b5: bool, b6: bool, b7: bool)
    ensures var x := PackBools(b0, b1, b2, b3, b4, b5, b6, b7);
      && (x & 0x80 != 0) == b0 && (x & 0x40 != 0) == b1 && (x & 0x20 != 0) == b2 && (x & 0x10 != 0) == b3
      && (x & 0x08 != 0) == b4 && (x & 0x04 != 0) == b5 && (x & 0x02 != 0) == b6 && (x & 0x01 != 0) == b7
  {
  }

  /** A byte is the packing of its masked bits. */
  lemma PackMasks(x: bv8)
    ensures PackBools(x & 0x80 != 0, x & 0x40 != 0, x & 0x20 != 0, x & 0x10 != 0,
                      x & 0x08 != 0, x & 0x04 != 0, x & 0x02 != 0, x & 0x01 != 0) == x
  {
  }

  /** A byte is non-zero exactly when one of its masks hits. */
  lemma NonzeroMasks(x: bv8)
    ensures x != 0 <==> (x & 0x80 != 0 || x & 0x40 != 0 || x & 0x20 != 0 || x & 0x10 != 0 ||
                         x & 0x08 != 0 || x & 0x04 != 0 || x & 0x02 != 0 || x & 0x01 != 0)
  {
  }

  /** The eight bits of a byte, each read through its mask. */
  lemma ByteBitsMasks(x: bv8)
    ensures var b := ByteBits(x);
      && b[0] == (x & 0x80 != 0) && b[1] == (x & 0x40 != 0) && b[2] == (x & 0x20 != 0) && b[3] == (x & 0x10 != 0)
      && b[4] == (x & 0x08 != 0) && b[5] == (x & 0x04 != 0) && b[6] == (x & 0x02 != 0) && b[7] == (x & 0x01 != 0)
  {
  }

  /** Unpacking a packed byte gives its bits back. */
  lemma ByteBitsOfPack(b: seq<bool>)
    requires |b| == 8
    ensures ByteBits(PackByte(b)) == b
  {
    var x := PackByte(b);
    UnpackBools(b[0], b[1], b[2], b[3], b[4], b[5], b[6], b[7]);
    ByteBitsMasks(x);
    var r := ByteBits(x);
    assert r[0] == b[0] && r[1] == b[1] && r[2] == b[2] && r[3] == b[3];
    assert r[4] == b[4] && r[5] == b[5] && r[6] == b[6] && r[7] == b[7];
  }

  /** Packing the bits of a byte gives the byte back. */
  lemma PackByteBits(x: bv8)
    ensures PackByte(ByteBits(x)) == x
  {
    ByteBitsMasks(x);
    PackMasks(x);
  }

  /** A byte is non-zero exactly when one of its bits is set. */
  lemma NonzeroByte(x: bv8)
    ensures x != 0 <==> true in ByteBits(x)
  {
    var b := ByteBits(x);
    ByteBitsMasks(x);
    NonzeroMasks(x);
    assert true in b <==> (b[0] || b[1] || b[2] || b[3] || b[4] || b[5] || b[6] || b[7]);
  }

  /** Testing `x & (1 << s)` reads bit 7 - s of the byte's bit sequence. */
  lemma TestBit(x: bv8, s: nat)
    requires s < 8
    ensures (x & (1 << s) != 0) == ByteBits(x)[7 - s]
  {
    ShiftIsMask(1, s);
  }

  lemma FlipMask(x: bv8, s: nat, r: nat)
    requires s < 8 && r < 8
    ensures (x ^ Mask(s)) & Mask(r) != 0 <==> ((x & Mask(r) != 0) != (r == s))
  {
  }

  /** Flipping under a mask toggles exactly the matching bit. */
  lemma FlipByte(x: bv8, i: nat)
    requires i < 8
    ensures ByteBits(x ^ Mask(7 - i)) == ByteBits(x)[i := !ByteBits(x)[i]]
  {
    var y := ByteBits(x ^ Mask(7 - i));
    var want := ByteBits(x)[i := !ByteBits(x)[i]];
    forall j | 0 <= j < 8
      ensures y[j] == want[j]
    {
      FlipByteBit(x, i, j);
    }
  }

  lemma FlipByteBit(x: bv8, i: nat, j: nat)
    requires i < 8 && j < 8
    ensures ByteBits(x ^ Mask(7 - i))[j] == (ByteBits(x)[j] != (i == j))
  {
    var m, y := Mask(7 - j), x ^ Mask(7 - i);
    FlipMask(x, 7 - i, 7 - j);
    assert (y & m != 0) == ((x & m != 0) != (i == j));
    ByteBitsAt(y, j);
    ByteBitsAt(x, j);
  }

  /** Bit j of a byte, read through its mask. */
  lemma ByteBitsAt(x: bv8, j: nat)
    requires j < 8
    ensures ByteBits(x)[j] == (x & Mask(7 - j) != 0)
  {
  }

  /** k false bits. */
  function Zeros(k: nat): (r: seq<bool>)
    ensures |r| == k && (forall j :: 0 <= j < k ==> !r[j])
  {
    seq(k, j => false)
  }

  /** The bit stream of a byte sequence, each byte most significant bit first. */
  function Bits(bytes: seq<bv8>): (r: seq<bool>)
    ensures |r| == 8 * |bytes|
  {
    if bytes == [] then [] else ByteBits(bytes[0]) + Bits(bytes[1..])
  }

  /** Bit t of the stream is bit t % 8 of byte t / 8. */
  lemma {:induction false} BitsAt(bytes: seq<bv8>, t: int)
    requires 0 <= t < 8 * |bytes|
    ensures Bits(bytes)[t] == ByteBits(bytes[t / 8])[t % 8]
  {
    if t >= 8 {
      BitsAt(bytes[1..], t - 8);
      assert Bits(bytes)[t] == Bits(bytes[1..])[t - 8];
      assert (t - 8) / 8 == t / 8 - 1 && (t - 8) % 8 == t % 8;
    } else {
      assert Bits(bytes)[t] == ByteBits(bytes[0])[t];
    }
  }

  lemma {:induction false} BitsAppend(a: seq<bv8>, b: seq<bv8>)
    ensures Bits(a + b) == Bits(a) + Bits(b)
  {
    if a != [] {
      assert (a + b)[1..] == a[1..] + b;
      BitsAppend(a[1..], b);
    } else {
      assert a + b == b;
    }
  }

  /** The bits of a suffix of the bytes are the matching suffix of the bits. */
  lemma {:induction false} BitsSuffix(bytes: seq<bv8>, k: int)
    requires 0 <= k <= |bytes|
    ensures Bits(bytes[k..]) == Bits(bytes)[8 * k..]
  {
    assert bytes == bytes[..k] + bytes[k..];
    BitsAppend(bytes[..k], bytes[k..]);
  }

  /** The bits of a prefix of the bytes are the matching prefix of the bits. */
  lemma BitsPrefix(bytes: seq<bv8>, k: int)
    requires 0 <= k <= |bytes|
    ensures Bits(bytes[..k]) == Bits(bytes)[..8 * k]
  {
    assert bytes == bytes[..k] + bytes[k..];
    BitsAppend(bytes[..k], bytes[k..]);
  }

  /** Division by eight of a multiple of eight plus a remainder. */
  lemma DivAdd8(q: int, r: int)
    ensures (8 * q + r) / 8 == q + r / 8 && (8 * q + r) % 8 == r % 8
  {
  }

  /** A stream position below 8 * n as a byte index below n and a bit index. */
  lemma Split8(t: int, n: int)
    requires 0 <= t < 8 * n
    ensures 0 <= t / 8 < n && 0 <= t % 8 < 8 && 8 * (t / 8) + t % 8 == t
  {
  }

  /** The eight bits of byte k of a buffer. */
  lemma ByteOfBits(bytes: seq<bv8>, k: int)
    requires 0 <= k < |bytes|
    ensures Bits(bytes)[8 * k .. 8 * k + 8] == ByteBits(bytes[k])
  {
    var part := Bits(bytes)[8 * k .. 8 * k + 8];
    var want := ByteBits(bytes[k]);
    forall j | 0 <= j < 8
      ensures part[j] == want[j]
    {
      BitOfByte(bytes, k, j);
    }
  }

  /** Bit j of byte k is bit 8 * k + j of the stream. */
  lemma BitOfByte(bytes: seq<bv8>, k: int, j: int)
    requires 0 <= k < |bytes| && 0 <= j < 8
    ensures Bits(bytes)[8 * k + j] == ByteBits(bytes[k])[j]
  {
    var t := 8 * k + j;
    DivAdd8(k, j);
    assert t / 8 == k && t % 8 == j;
    BitsAt(bytes, t);
  }

  /** Replacing byte k of a buffer replaces its eight bits and no other. */
  lemma BitsUpdate(bytes: seq<bv8>, k: int, y: bv8)
    requires 0 <= k < |bytes|
    ensures Bits(bytes[k := y]) == Bits(bytes)[..8 * k] + ByteBits(y) + Bits(bytes)[8 * k + 8..]
  {
    var lhs := Bits(bytes[k := y]);
    var rhs := Bits(bytes)[..8 * k] + ByteBits(y) + Bits(bytes)[8 * k + 8..];
    forall t | 0 <= t < 8 * |bytes|
      ensures lhs[t] == rhs[t]
    {
      BitsAt(bytes[k := y], t);
      BitsAt(bytes, t);
    }
  }

  /**
   * Toggling byte t / 8 of a buffer under the mask of bit 7 - t % 8 (the C
   * statement `buf[t / 8] ^= 1 << (7 - t % 8)`) toggles bit t of the buffer's
   * bit stream and leaves every other bit as it was.
   */
  lemma FlipBitAt(bytes: seq<bv8>, t: int)
    requires 0 <= t < 8 * |bytes|
    ensures 0 <= t / 8 < |bytes|
    ensures Bits(bytes[t / 8 := bytes[t / 8] ^ Mask(7 - t % 8)]) == Bits(bytes)[t := !Bits(bytes)[t]]
  {
    Split8(t, |bytes|);
    FlipWithin(bytes, t, t / 8, t % 8);
  }

  /** `FlipBitAt` with the position given as a byte index and a bit index. */
  lemma FlipWithin(bytes: seq<bv8>, t: int, k: int, i: int)
    requires 0 <= k < |bytes| && 0 <= i < 8 && t == 8 * k + i
    ensures Bits(bytes[k := bytes[k] ^ Mask(7 - i)]) == Bits(bytes)[t := !Bits(bytes)[t]]
  {
    var x := bytes[k];
    var y := x ^ Mask(7 - i);
    var all := Bits(bytes);
    var window := ByteBits(x);
    var flipped := window[i := !window[i]];
    BitsUpdate(bytes, k, y);
    FlipByte(x, i);
    ByteOfBits(bytes, k);
    SpliceFlip(all, k, i, window);
  }

  /** Splicing a copy of an eight-bit window with one bit flipped back into a stream. */
  lemma SpliceFlip(all: seq<bool>, k: int, i: int, window: seq<bool>)
    requires 0 <= k && 8 * k + 8 <= |all| && 0 <= i < 8
    requires all[8 * k .. 8 * k + 8] == window
    ensures all[..8 * k] + window[i := !window[i]] + all[8 * k + 8..]
         == all[8 * k + i := !all[8 * k + i]]
  {
    var lhs := all[..8 * k] + window[i := !window[i]] + all[8 * k + 8..];
    var rhs := all[8 * k + i := !all[8 * k + i]];
    forall u | 0 <= u < |all|
      ensures lhs[u] == rhs[u]
    {
      if 8 * k <= u < 8 * k + 8 {
        assert all[u] == window[u - 8 * k];
      }
    }
  }

  /** The bytes whose bit stream is `bits` (a whole number of bytes). */
  function Pack(bits: seq<bool>): (r: seq<bv8>)
    requires |bits| % 8 == 0
    ensures |r| == |bits| / 8
    decreases |bits|
  {
    if bits == [] then [] else [PackByte(bits[..8])] + Pack(bits[8..])
  }

  lemma {:induction false} BitsOfPack(bits: seq<bool>)
    requires |bits| % 8 == 0
    ensures Bits(Pack(bits)) == bits
    decreases |bits|
  {
    if bits != [] {
      BitsOfPack(bits[8..]);
      ByteBitsOfPack(bits[..8]);
      assert Pack(bits)[1..] == Pack(bits[8..]);
      assert bits == bits[..8] + bits[8..];
    }
  }

  lemma {:induction false} PackOfBits(bytes: seq<bv8>)
    ensures Pack(Bits(bytes)) == bytes
  {
    if bytes != [] {
      var b := Bits(bytes);
      assert b[..8] == ByteBits(bytes[0]);
      assert b[8..] == Bits(bytes[1..]);
      PackByteBits(bytes[0]);
      PackOfBits(bytes[1..]);
    }
  }

  lemma {:induction false} PackAppend(a: seq<bool>, b: seq<bool>)
    requires |a| % 8 == 0 && |b| % 8 == 0
    ensures Pack(a + b) == Pack(a) + Pack(b)
    decreases |a|
  {
    if a != [] {
      assert (a + b)[..8] == a[..8];
      assert (a + b)[8..] == a[8..] + b;
      PackAppend(a[8..], b);
    } else {
      assert a + b == b;
    }
  }

  /** The number of bits in the whole bytes of a bit stream. */
  function WholeLength(bits: seq<bool>): (k: nat)
    ensures k <= |bits| && k % 8 == 0 && |bits| - k < 8
  {
    8 * (|bits| / 8)
  }

  /** The whole bytes of a bit stream; a trailing partial byte is dropped. */
  function PackWhole(bits: seq<bool>): (r: seq<bv8>)
    ensures |r| == |bits| / 8
  {
    Pack(bits[..WholeLength(bits)])
  }

  /** The bit stream of the whole bytes is the stream without its partial byte. */
  lemma BitsOfPackWhole(bits: seq<bool>)
    ensures Bits(PackWhole(bits)) == bits[..WholeLength(bits)]
  {
    BitsOfPack(bits[..WholeLength(bits)]);
  }

  /** A stream of whole bytes loses nothing to packing. */
  lemma PackWholeAligned(bits: seq<bool>)
    requires |bits| % 8 == 0
    ensures WholeLength(bits) == |bits| && PackWhole(bits) == Pack(bits)
  {
    assert bits[..|bits|] == bits;
  }

  /** The bits after the last whole byte (fewer than eight). */
  function WholeTail(bits: seq<bool>): (r: seq<bool>)
    ensures |r| == |bits| % 8 && bits == bits[..WholeLength(bits)] + r
  {
    bits[WholeLength(bits)..]
  }

  /**
   * Appending one bit to a stream either completes the pending partial byte,
   * which is then a new whole byte, or lengthens the pending bits.
   */
  lemma PackWholeSnoc(bits: seq<bool>, b: bool)
    ensures |WholeTail(bits)| == 7 ==>
      PackWhole(bits + [b]) == PackWhole(bits) + [PackByte(WholeTail(bits) + [b])] &&
      WholeTail(bits + [b]) == []
    ensures |WholeTail(bits)| < 7 ==>
      PackWhole(bits + [b]) == PackWhole(bits) && WholeTail(bits + [b]) == WholeTail(bits) + [b]
  {
    if |WholeTail(bits)| == 7 {
      SnocCompletes(bits, b);
    } else {
      SnocPending(bits, b);
    }
  }

  lemma SnocCompletes(bits: seq<bool>, b: bool)
    requires |WholeTail(bits)| == 7
    ensures PackWhole(bits + [b]) == PackWhole(bits) + [PackByte(WholeTail(bits) + [b])]
    ensures WholeTail(bits + [b]) == []
  {
    var w := WholeLength(bits);
    var head := bits[..w];
    var last := WholeTail(bits) + [b];
    var bb := bits + [b];
    assert |bb| == w + 8;
    assert WholeLength(bb) == w + 8;
    assert bb == head + last;
    assert bb[..w + 8] == bb;
    PackAppend(head, last);
    assert Pack(last) == [PackByte(last)] + Pack([]);
    assert PackWhole(bb) == Pack(head) + Pack(last);
  }

  lemma SnocPending(bits: seq<bool>, b: bool)
    requires |WholeTail(bits)| < 7
    ensures PackWhole(bits + [b]) == PackWhole(bits)
    ensures WholeTail(bits + [b]) == WholeTail(bits) + [b]
  {
    var w := WholeLength(bits);
    var bb := bits + [b];
    assert |bb| == w + |WholeTail(bits)| + 1;
    DivAdd8(w / 8, |WholeTail(bits)| + 1);
    assert WholeLength(bb) == w;
    assert bb[..w] == bits[..w];
    assert bb[w..] == WholeTail(bits) + [b];
  }

  /** Whole bytes of a stream that starts with some whole bytes. */
  lemma PackWholeAppend(a: seq<bool>, b: seq<bool>)
    requires |a| % 8 == 0
    ensures PackWhole(a + b) == Pack(a) + PackWhole(b)
  {
    var wb := WholeLength(b);
    var ab := a + b;
    var bw := b[..wb];
    WholeAppendLength(a, b);
    SliceAppend(a, b, wb);
    assert ab[..WholeLength(ab)] == a + bw;
    PackAppend(a, bw);
    assert PackWhole(ab) == Pack(a + bw);
    assert PackWhole(b) == Pack(bw);
  }

  /** The pending bits after whole bytes are those of the tail. */
  lemma WholeTailAppend(a: seq<bool>, b: seq<bool>)
    requires |a| % 8 == 0
    ensures WholeTail(a + b) == WholeTail(b)
  {
    WholeAppendLength(a, b);
    SliceAppend(a, b, WholeLength(b));
  }

  lemma SliceAppend(a: seq<bool>, b: seq<bool>, w: int)
    requires 0 <= w <= |b|
    ensures (a + b)[..|a| + w] == a + b[..w] && (a + b)[|a| + w..] == b[w..]
  {
  }

  lemma WholeAppendLength(a: seq<bool>, b: seq<bool>)
    requires |a| % 8 == 0
    ensures WholeLength(a + b) == |a| + WholeLength(b)
  {
    DivAdd8(|a| / 8, |b|);
  }

  // ---------------------------------------------------------------- C-level views

  /** `GET_BIT(x, s)` (`(x & (1 << s)) && 1`): bit s of x, counted from the least significant. */
  function GetBit(x: bv8, s: nat): (r: bool)
    requires s < 8
    ensures r == ByteBits(x)[7 - s]
  {
    ByteBitsAt(x, 7 - s);
    x & Mask(s) != 0
  }

  /** Storing the `int` result of `fgetc` into a `char` keeps the byte. */
  lemma ByteOfInt(x: bv8)
    ensures ((x as int) % 256) as bv8 == x
  {
    assert (x as int) % 256 == x as int;
  }

  lemma ZeroByteBits()
    ensures ByteBits(0) == Zeros(8)
  {
    var z := ByteBits(0);
    assert z[0] == false && z[1] == false && z[2] == false && z[3] == false;
    assert z[4] == false && z[5] == false && z[6] == false && z[7] == false;
  }

  /** A buffer cleared to zero (`memset(buf, 0, n)`) holds only zero bits. */
  lemma {:induction false} ZeroBits(bytes: seq<bv8>)
    requires forall j :: 0 <= j < |bytes| ==> bytes[j] == 0
    ensures Bits(bytes) == Zeros(8 * |bytes|)
  {
    if bytes != [] {
      ZeroBits(bytes[1..]);
      ZeroByteBits();
      assert Zeros(8) + Zeros(8 * |bytes| - 8) == Zeros(8 * |bytes|);
    }
  }

  /** Bit t of a stream whose bits from t on are 0 is 0. */
  lemma ZeroFrom(bits: seq<bool>, t: int)
    requires 0 <= t < |bits| && bits[t..] == Zeros(|bits| - t)
    ensures !bits[t]
  {
    assert bits[t..][0] == bits[t];
  }

  /** Setting a 0 bit t of a stream that is 0 from t on. */
  lemma SetZeroBit(before: seq<bool>, t: int, bit: bool)
    requires 0 <= t < |before| && before[t..] == Zeros(|before| - t)
    ensures var after := before[t := bit];
      after[..t + 1] == before[..t] + [bit] && after[t + 1..] == Zeros(|before| - t - 1)
  {
    var after := before[t := bit];
    assert after[..t + 1] == before[..t] + [bit];
    assert after[t + 1..] == before[t..][1..];
  }

  lemma XorZero(x: bv8)
    ensures x ^ 0 == x
  {
  }

  /**
   * Setting bit t of a buffer whose bits from t on are all 0, by `^=` with
   * the mask of `bit`: bit t becomes `bit` and the later bits stay 0.
   */
  lemma AppendBit(bytes: seq<bv8>, t: int, bit: bool)
    requires 0 <= t < 8 * |bytes|
    requires Bits(bytes)[t..] == Zeros(8 * |bytes| - t)
    ensures 0 <= t / 8 < |bytes|
    ensures var after := Bits(bytes[t / 8 := bytes[t / 8] ^ (if bit then Mask(7 - t % 8) else 0)]);
      after[..t + 1] == Bits(bytes)[..t] + [bit] && after[t + 1..] == Zeros(8 * |bytes| - t - 1)
  {
    var before := Bits(bytes);
    ZeroFrom(before, t);
    SetZeroBit(before, t, bit);
    if bit {
      FlipBitAt(bytes, t);
    } else {
      AppendZero(bytes, t);
    }
  }

  /** `^=` with a zero mask leaves the buffer, and so bit t, as it is. */
  lemma AppendZero(bytes: seq<bv8>, t: int)
    requires 0 <= t < 8 * |bytes| && !Bits(bytes)[t]
    ensures 0 <= t / 8 < |bytes|
    ensures Bits(bytes[t / 8 := bytes[t / 8] ^ 0]) == Bits(bytes)[t := false]
  {
    XorZero(bytes[t / 8]);
    assert bytes[t / 8 := bytes[t / 8] ^ 0] == bytes;
    assert Bits(bytes)[t := false] == Bits(bytes);
  }

  /** Whole bytes of a stream, split after its whole bytes so far. */
  lemma PackWholeSplit(x: seq<bool>, w: seq<bool>)
    ensures PackWhole(x + w) == PackWhole(x) + PackWhole(WholeTail(x) + w)
    ensures WholeTail(x + w) == WholeTail(WholeTail(x) + w)
  {
    var h := x[..WholeLength(x)];
    var t := WholeTail(x);
    assert x + w == h + (t + w);
    PackWholeAppend(h, t + w);
    WholeTailAppend(h, t + w);
    PackWholeAligned(h);
    assert PackWhole(x) == Pack(h);
  }

  /** Fewer than eight bits make no whole byte. */
  lemma ShortTail(bits: seq<bool>)
    requires |bits| < 8
    ensures WholeLength(bits) == 0 && PackWhole(bits) == [] && WholeTail(bits) == bits
  {
    assert bits[..0] == [];
  }

  /** Eight bits pack to one byte. */
  lemma PackOne(b: seq<bool>)
    requires |b| == 8
    ensures PackWhole(b) == [PackByte(b)] && WholeTail(b) == []
  {
    PackWholeAligned(b);
    assert b[..8] == b && b[8..] == [];
  }
}
