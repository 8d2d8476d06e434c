/**
 * Whole files: the stream of code words the encoder writes, the stream of
 * data bits the decoder takes back, and how both meet the byte boundary.
 */
module Streams {
  import opened BitStreams
  import opened Hamming

  function Min(a: int, b: int): int
  {
    if a < b then a else b
  }

  /**
   * The code words for the data bit stream s: one block for every
   * DataCount(n) data bits, the last one zero-padded if s runs out early.
   */
  function EncodeBlocks(s: seq<bool>, n: nat): (r: seq<bool>)
    requires DataCount(n) >= 1
    decreases |s|
  {
    if s == [] then []
    else
      var k := Min(|s|, DataCount(n));
      EncodeBlock(s[..k], n) + EncodeBlocks(s[k..], n)
  }

  /**
   * Every bit that reaches the writer when the encoder runs on s with the
   * bits `pending` already in its buffer: the code words and then, if they
   * end inside a byte, block - 1 zero bits to push that byte out.
   */
  function EncodedBits(pending: seq<bool>, s: seq<bool>, n: nat): (r: seq<bool>)
    requires n >= 1 && DataCount(n) >= 1
  {
    var body := pending + EncodeBlocks(s, n);
    if |body| % 8 != 0 then body + Zeros(n - 1) else body
  }

  /** The encoded file: the whole bytes of the encoded bit stream. */
  function EncodeFile(data: seq<bv8>, n: nat): (out: seq<bv8>)
    requires n >= 1 && DataCount(n) >= 1
  {
    PackWhole(EncodedBits([], Bits(data), n))
  }

  /**
   * The bits the decoder's end-of-input loop emits from its buffer w (80
   * bits): from position 3 on, while the byte holding position i is not
   * zero, every position that is not a power of two.  The loop stops at
   * position 80, the end of the buffer.
   */
  function Scan(w: seq<bool>, i: nat): (r: seq<bool>)
    requires |w| == 80 && i >= 1
    decreases 81 - i
  {
    if i > 80 || !(true in w[8 * ((i - 1) / 8) .. 8 * ((i - 1) / 8) + 8]) then []
    else (if IsPowOf2(i) then [] else [w[i - 1]]) + Scan(w, i + 1)
  }

  /** What the decoder emits for a final block cut short: its buffer, then the scan. */
  function TailBits(s: seq<bool>, n: nat): seq<bool>
    requires |s| < n <= 80
  {
    Scan(Working(s, n) + Zeros(80 - |s|), 3)
  }

  /** The data bits the decoder emits for the received bit stream s. */
  function DecodeBits(s: seq<bool>, n: nat): (r: seq<bool>)
    requires 1 <= n <= 80
    decreases |s|
  {
    if |s| >= n then DecodeBlock(s[..n]) + DecodeBits(s[n..], n) else TailBits(s, n)
  }

  /** The decoded file: the whole bytes of the decoded bit stream. */
  function DecodeFile(data: seq<bv8>, n: nat): (out: seq<bv8>)
    requires 1 <= n <= 80
  {
    PackWhole(DecodeBits(Bits(data), n))
  }

  /** Every full block's syndrome names a position inside the decoder's 80-bit buffer. */
  predicate SyndromesFit(s: seq<bool>, n: nat)
    requires n >= 1
    decreases |s|
  {
    |s| >= n ==> Syndrome(s[..n]) <= 80 && SyndromesFit(s[n..], n)
  }

  /** The block stream s with position flips[i] of block i inverted (0, or no entry, for none). */
  function FlipEach(s: seq<bool>, flips: seq<int>, n: nat): (r: seq<bool>)
    requires n >= 1
    ensures |r| == |s|
    decreases |s|
  {
    if |s| < n then s
    else
      var e := if flips == [] then 0 else flips[0];
      FlipAt(s[..n], e) + FlipEach(s[n..], if flips == [] then [] else flips[1..], n)
  }

  // ---------------------------------------------------------------- lemmas

  /** Every block size from 3 on has at least one data position. */
  lemma {:induction false} DataCountPos(n: nat)
    requires n >= 3
    ensures DataCount(n) >= 1
  {
    if n == 3 {
      assert BitAnd(3, 2) == 2;
    } else {
      DataCountPos(n - 1);
    }
  }

  /** Over an all-zero buffer the end-of-input scan emits nothing. */
  lemma ScanZeros(i: nat)
    requires i >= 1
    ensures Scan(Zeros(80), i) == []
  {
    if i <= 80 {
      var k := 8 * ((i - 1) / 8);
      assert forall j :: k <= j < k + 8 ==> !Zeros(80)[j];
      assert !(true in Zeros(80)[k .. k + 8]);
    }
  }

  /** An empty input leaves nothing for the end-of-input path to emit. */
  lemma TailEmpty(n: nat)
    requires 1 <= n <= 80
    ensures TailBits([], n) == []
  {
    assert Working([], n) + Zeros(80) == Zeros(80);
    ScanZeros(3);
  }

  /** Inverting nothing changes nothing. */
  lemma {:induction false} FlipEachNone(s: seq<bool>, n: nat)
    requires n >= 1
    ensures FlipEach(s, [], n) == s
    decreases |s|
  {
    if |s| >= n {
      FlipEachNone(s[n..], n);
      assert s == s[..n] + s[n..];
    }
  }

  /** Inverted bits in the stream of a block followed by more blocks. */
  lemma FlipEachCons(w: seq<bool>, rest: seq<bool>, flips: seq<int>, n: nat)
    requires n >= 1 && |w| == n
    ensures FlipEach(w + rest, flips, n)
         == FlipAt(w, if flips == [] then 0 else flips[0]) + FlipEach(rest, if flips == [] then [] else flips[1..], n)
  {
    assert (w + rest)[..n] == w;
    assert (w + rest)[n..] == rest;
  }

  /** A whole number q of data blocks encodes to q code words. */
  lemma {:induction false} EncodeBlocksLength(s: seq<bool>, n: nat, q: nat)
    requires DataCount(n) >= 1 && |s| == DataCount(n) * q
    ensures |EncodeBlocks(s, n)| == n * q
    decreases q
  {
    var d := DataCount(n);
    if q > 0 {
      MulStep(d, q);
      MulStep(n, q);
      assert Min(|s|, d) == d;
      var rest := s[d..];
      assert |rest| == d * (q - 1);
      EncodeBlocksLength(rest, n, q - 1);
      assert EncodeBlocks(s, n) == EncodeBlock(s[..d], n) + EncodeBlocks(rest, n);
    } else {
      assert s == [];
    }
  }

  /**
   * Stream round trip: a data stream of whole blocks, encoded, with at most
   * one bit of every code word inverted, decodes to the same data; and no
   * syndrome on the way leaves the decoder's buffer.
   */
  lemma {:induction false} RoundTripBlocks(s: seq<bool>, n: nat, q: nat, flips: seq<int>)
    requires 3 <= n <= 80 && |s| == DataCount(n) * q
    requires forall i :: 0 <= i < |flips| ==> 0 <= flips[i] <= n
    ensures DataCount(n) >= 1
    ensures DecodeBits(FlipEach(EncodeBlocks(s, n), flips, n), n) == s
    ensures SyndromesFit(FlipEach(EncodeBlocks(s, n), flips, n), n)
    decreases q
  {
    DataCountPos(n);
    var d := DataCount(n);
    if q == 0 {
      assert s == [];
      RoundTripNone(n, flips);
    } else {
      MulStep(d, q);
      var flips' := if flips == [] then [] else flips[1..];
      RoundTripBlocks(s[d..], n, q - 1, flips');
      RoundTripStep(s, n, flips);
    }
  }

  /** The empty stream encodes to no code word and decodes back to nothing. */
  lemma RoundTripNone(n: nat, flips: seq<int>)
    requires 3 <= n <= 80 && DataCount(n) >= 1
    ensures DecodeBits(FlipEach(EncodeBlocks([], n), flips, n), n) == []
    ensures SyndromesFit(FlipEach(EncodeBlocks([], n), flips, n), n)
  {
    assert FlipEach([], flips, n) == [];
    TailEmpty(n);
  }

  lemma MulStep(d: nat, q: nat)
    requires q >= 1
    ensures d * q == d * (q - 1) + d && d * (q - 1) >= 0
  {
  }

  /** One code word of the stream round trip, given the rest. */
  lemma RoundTripStep(s: seq<bool>, n: nat, flips: seq<int>)
    requires 3 <= n <= 80 && 1 <= DataCount(n) <= |s|
    requires forall i :: 0 <= i < |flips| ==> 0 <= flips[i] <= n
    requires var d, flips' := DataCount(n), if flips == [] then [] else flips[1..];
      DecodeBits(FlipEach(EncodeBlocks(s[d..], n), flips', n), n) == s[d..] &&
      SyndromesFit(FlipEach(EncodeBlocks(s[d..], n), flips', n), n)
    ensures DecodeBits(FlipEach(EncodeBlocks(s, n), flips, n), n) == s
    ensures SyndromesFit(FlipEach(EncodeBlocks(s, n), flips, n), n)
  {
    var d := DataCount(n);
    var code := EncodeBlock(s[..d], n);
    var rest := EncodeBlocks(s[d..], n);
    assert Min(|s|, d) == d;
    assert EncodeBlocks(s, n) == code + rest;
    var e := if flips == [] then 0 else flips[0];
    var flips' := if flips == [] then [] else flips[1..];
    FlipEachCons(code, rest, flips, n);
    var x := FlipEach(code + rest, flips, n);
    var tail := FlipEach(rest, flips', n);
    assert x == FlipAt(code, e) + tail;
    assert x[..n] == FlipAt(code, e) && x[n..] == tail;
    RoundTripBlock(s[..d], n, e);
    SyndromeSingle(s[..d], n, e);
    assert DecodeBits(x, n) == s[..d] + s[d..];
    SplitAt(s, d);
  }

  lemma SplitAt(s: seq<bool>, d: int)
    requires 0 <= d <= |s|
    ensures s[..d] + s[d..] == s
  {
  }

  /** With block size 8 the data positions are 3, 5, 6 and 7. */
  lemma DataCount8()
    ensures DataCount(8) == 4
  {
    assert BitAnd(3, 2) == 2 && BitAnd(5, 4) == 4 && BitAnd(6, 5) == 4 && BitAnd(7, 6) == 6;
    assert BitAnd(4, 3) == 0 && BitAnd(8, 7) == 0;
    assert DataCount(2) == 0;
  }

  /**
   * File round trip for a block size whose code words fill whole bytes: when
   * the data bits make q full blocks and q code words end on a byte
   * boundary, decoding the encoded file, with at most one bit of every code
   * word inverted, gives the original file back.
   */
  lemma RoundTripAligned(data: seq<bv8>, n: nat, q: nat, flips: seq<int>, received: seq<bv8>)
    requires 3 <= n <= 80 && 8 * |data| == DataCount(n) * q && (n * q) % 8 == 0
    requires forall i :: 0 <= i < |flips| ==> 0 <= flips[i] <= n
    requires DataCount(n) >= 1 && Bits(received) == FlipEach(Bits(EncodeFile(data, n)), flips, n)
    ensures DecodeFile(received, n) == data
  {
    var s := Bits(data);
    EncodeFileAligned(data, n, q);
    RoundTripBlocks(s, n, q, flips);
    assert DecodeBits(Bits(received), n) == s;
    PackWholeBits(data);
  }

  /**
   * File round trip when the last block is short: if the data bits need q
   * blocks, the last one zero-padded, and q code words end on a byte
   * boundary, decoding the encoded file, with at most one bit of every code
   * word inverted, gives the file followed by the whole bytes of that zero
   * padding.  So the decoded file can be longer than the original one.
   */
  lemma RoundTripPadded(data: seq<bv8>, n: nat, q: nat, flips: seq<int>, received: seq<bv8>)
    requires 3 <= n <= 80 && q >= 1 && DataCount(n) * (q - 1) < 8 * |data| <= DataCount(n) * q
    requires (n * q) % 8 == 0
    requires forall i :: 0 <= i < |flips| ==> 0 <= flips[i] <= n
    requires DataCount(n) >= 1 && Bits(received) == FlipEach(Bits(EncodeFile(data, n)), flips, n)
    ensures DecodeFile(received, n) == data + ZeroBytes((DataCount(n) * q - 8 * |data|) / 8)
  {
    var k := DataCount(n) * q - 8 * |data|;
    EncodeFilePadded(data, n, q);
    RoundTripBlocks(Bits(data) + Zeros(k), n, q, flips);
    assert DecodeBits(Bits(received), n) == Bits(data) + Zeros(k);
    PackZeroTail(data, k);
  }

  /** The encoded file of data needing q blocks that end on a byte boundary: the code words of the padded data. */
  lemma EncodeFilePadded(data: seq<bv8>, n: nat, q: nat)
    requires 3 <= n <= 80 && q >= 1 && DataCount(n) * (q - 1) < 8 * |data| <= DataCount(n) * q
    requires (n * q) % 8 == 0 && DataCount(n) >= 1
    ensures Bits(EncodeFile(data, n)) == EncodeBlocks(Bits(data) + Zeros(DataCount(n) * q - 8 * |data|), n)
  {
    var s := Bits(data);
    var s' := s + Zeros(DataCount(n) * q - |s|);
    EncodePadded(s, Zeros(DataCount(n) * q - |s|), n, q);
    EncodeBlocksLength(s', n, q);
    var body := EncodeBlocks(s, n);
    assert [] + body == body;
    assert EncodedBits([], s, n) == body;
    PackWholeAligned(body);
    BitsOfPack(body);
  }

  /** The bytes of PackWhole(Zeros(8 * m)): m zero bytes. */
  function ZeroBytes(m: nat): (r: seq<bv8>)
    ensures |r| == m && forall j :: 0 <= j < m ==> r[j] == 0
  {
    seq(m, j => 0)
  }

  /**
   * The padding of a short last block comes back as data: at block size
   * 2^k (16, 32 or 64) a one-byte file encodes to one code word that ends
   * on a byte boundary, and decodes to its 2^k - k - 1 data bits: the byte,
   * then zero bytes (none at 16, two at 32, six at 64).
   */
  lemma PadExtraPow2(data: seq<bv8>, n: nat, k: nat)
    requires |data| == 1 && 4 <= k <= 6 && n == Pow2(k)
    ensures 16 <= n <= 64 && DataCount(n) == n - k - 1
    ensures |EncodeFile(data, n)| == n / 8
    ensures DecodeFile(EncodeFile(data, n), n) == data + ZeroBytes((n - k - 9) / 8)
  {
    Pow2Block(k);
    PadExtraAt(data, n, k);
  }

  lemma PadExtraAt(data: seq<bv8>, n: nat, k: nat)
    requires |data| == 1 && 16 <= n <= 64 && n % 8 == 0 && k <= 6 && DataCount(n) == n - k - 1
    ensures |EncodeFile(data, n)| == n / 8
    ensures DecodeFile(EncodeFile(data, n), n) == data + ZeroBytes((n - k - 9) / 8)
  {
    var d := DataCount(n);
    assert d * (1 - 1) == 0 && d * 1 == d && n * 1 == n;
    var e := EncodeFile(data, n);
    FlipEachNone(Bits(e), n);
    EncodeFilePadded(data, n, 1);
    EncodeBlocksLength(Bits(data) + Zeros(d - 8), n, 1);
    assert 8 * |e| == n;
    DivAdd8(|e|, 0);
    RoundTripPadded(data, n, 1, [], e);
  }

  /** The block sizes 16, 32 and 64: whole bytes, with 2^k - k - 1 data positions. */
  lemma Pow2Block(k: nat)
    requires 4 <= k <= 6
    ensures 16 <= Pow2(k) <= 64 && Pow2(k) % 8 == 0 && DataCount(Pow2(k)) == Pow2(k) - k - 1
  {
    DataCountPow2(k);
    PowBlockSize(k);
  }

  lemma PowBlockSize(k: nat)
    requires 4 <= k <= 6
    ensures 16 <= Pow2(k) <= 64 && Pow2(k) % 8 == 0
  {
    if k == 4 {
      assert Pow2(k) == 16;
    } else if k == 5 {
      assert Pow2(k) == 32;
    } else {
      assert Pow2(k) == 64;
    }
  }

  /** Zero-padding the last short block does not change the code words. */
  lemma {:induction false} EncodePadded(s: seq<bool>, z: seq<bool>, n: nat, q: nat)
    requires DataCount(n) >= 1 && q >= 1 && (forall j :: 0 <= j < |z| ==> !z[j])
    requires DataCount(n) * (q - 1) < |s| && |s| + |z| == DataCount(n) * q
    ensures EncodeBlocks(s + z, n) == EncodeBlocks(s, n)
    decreases q
  {
    if q == 1 {
      PaddedLast(s, z, n);
    } else {
      PadBlocks(DataCount(n), q, |s|, |z|);
      EncodePadded(s[DataCount(n)..], z, n, q - 1);
      PaddedStep(s, z, n);
    }
  }

  /** The last block: data and zeros filling it encode like the data alone. */
  lemma PaddedLast(s: seq<bool>, z: seq<bool>, n: nat)
    requires 1 <= |s| && |s| + |z| == DataCount(n) && (forall j :: 0 <= j < |z| ==> !z[j])
    ensures EncodeBlocks(s + z, n) == EncodeBlocks(s, n)
  {
    EncodeOne(s, n);
    EncodeOne(s + z, n);
    PlaceZeros(s, z, n);
  }

  /** A full first block, then the rest padded. */
  lemma PaddedStep(s: seq<bool>, z: seq<bool>, n: nat)
    requires 1 <= DataCount(n) < |s|
    requires EncodeBlocks(s[DataCount(n)..] + z, n) == EncodeBlocks(s[DataCount(n)..], n)
    ensures EncodeBlocks(s + z, n) == EncodeBlocks(s, n)
  {
    var d := DataCount(n);
    EncodeFirst(s, n);
    EncodeFirst(s + z, n);
    assert (s + z)[..d] == s[..d];
    assert (s + z)[d..] == s[d..] + z;
  }

  lemma PadBlocks(d: nat, q: nat, a: nat, b: nat)
    requires q >= 2 && d * (q - 1) < a && a + b == d * q
    ensures d < a && d * (q - 2) < a - d && (a - d) + b == d * (q - 1)
  {
    MulStep(d, q);
    MulStep(d, q - 1);
  }

  /** Data that fit one block make one code word. */
  lemma EncodeOne(s: seq<bool>, n: nat)
    requires 1 <= |s| <= DataCount(n)
    ensures EncodeBlocks(s, n) == EncodeBlock(s, n)
  {
    assert s[..|s|] == s && s[|s|..] == [];
  }

  /** Data longer than one block: the first code word and the rest. */
  lemma EncodeFirst(s: seq<bool>, n: nat)
    requires 1 <= DataCount(n) < |s|
    ensures EncodeBlocks(s, n) == EncodeBlock(s[..DataCount(n)], n) + EncodeBlocks(s[DataCount(n)..], n)
  {
  }

  /** Laying out data followed by zeros is laying out the data. */
  lemma PlaceZeros(d: seq<bool>, z: seq<bool>, n: nat)
    requires forall j :: 0 <= j < |z| ==> !z[j]
    ensures EncodeBlock(d + z, n) == EncodeBlock(d, n)
  {
    assert Place(d + z, n) == Place(d, n);
  }

  /** The whole bytes of a file's bits followed by k zero bits. */
  lemma PackZeroTail(data: seq<bv8>, k: nat)
    ensures PackWhole(Bits(data) + Zeros(k)) == data + ZeroBytes(k / 8)
  {
    WholeZeros(Bits(data), k);
    PackZeroBytes(data, k / 8);
  }

  /** The whole bytes of a whole-byte stream followed by k zeros: the stream and 8 * (k / 8) zeros. */
  lemma WholeZeros(a: seq<bool>, k: nat)
    requires |a| % 8 == 0
    ensures var s := a + Zeros(k); s[..WholeLength(s)] == a + Zeros(8 * (k / 8))
  {
    DivAdd8(|a| / 8, k);
    assert WholeLength(a + Zeros(k)) == |a| + 8 * (k / 8);
  }

  lemma PackZeroBytes(data: seq<bv8>, m: nat)
    ensures Pack(Bits(data) + Zeros(8 * m)) == data + ZeroBytes(m)
  {
    PackAppend(Bits(data), Zeros(8 * m));
    PackOfBits(data);
    BitsZeroBytes(m);
    PackOfBits(ZeroBytes(m));
  }

  lemma {:induction false} BitsZeroBytes(m: nat)
    ensures Bits(ZeroBytes(m)) == Zeros(8 * m)
  {
    if m > 0 {
      BitsZeroBytes(m - 1);
      assert ZeroBytes(m)[1..] == ZeroBytes(m - 1);
      assert ByteBits(0) == Zeros(8);
    }
  }

  /** When q code words fill whole bytes, the encoded file holds exactly the code words. */
  lemma EncodeFileAligned(data: seq<bv8>, n: nat, q: nat)
    requires 3 <= n <= 80 && DataCount(n) >= 1
    requires 8 * |data| == DataCount(n) * q && (n * q) % 8 == 0
    ensures Bits(EncodeFile(data, n)) == EncodeBlocks(Bits(data), n)
  {
    var body := EncodeBlocks(Bits(data), n);
    EncodeBlocksLength(Bits(data), n, q);
    assert [] + body == body;
    assert EncodedBits([], Bits(data), n) == body;
    PackWholeAligned(body);
    BitsOfPack(body);
  }

  /** Packing the bit stream of a file gives the file. */
  lemma PackWholeBits(data: seq<bv8>)
    ensures PackWhole(Bits(data)) == data
  {
    var s := Bits(data);
    assert |s| == 8 * |data|;
    DivAdd8(|data|, 0);
    PackWholeAligned(s);
    PackOfBits(data);
  }

  /** At the default block size 8, decoding the encoded file gives the file back. */
  lemma RoundTrip8(data: seq<bv8>)
    ensures DecodeFile(EncodeFile(data, 8), 8) == data
  {
    var q := Aligned8(data);
    FlipEachNone(Bits(EncodeFile(data, 8)), 8);
    RoundTripAligned(data, 8, q, [], EncodeFile(data, 8));
  }

  /**
   * At the default block size 8, a received file that differs from the
   * encoded one in at most one bit of every 8-bit code word still decodes
   * to the original file.
   */
  lemma RoundTrip8Flipped(data: seq<bv8>, flips: seq<int>, received: seq<bv8>)
    requires forall i :: 0 <= i < |flips| ==> 0 <= flips[i] <= 8
    requires Bits(received) == FlipEach(Bits(EncodeFile(data, 8)), flips, 8)
    ensures DecodeFile(received, 8) == data
  {
    var q := Aligned8(data);
    RoundTripAligned(data, 8, q, flips, received);
  }

  /** At block size 8 the bits of a file make 2 code words per byte, ending on a byte boundary. */
  lemma Aligned8(data: seq<bv8>) returns (q: nat)
    ensures DataCount(8) == 4 && 8 * |data| == DataCount(8) * q && (8 * q) % 8 == 0
  {
    DataCount8();
    q := 2 * |data|;
    DivAdd8(q, 0);
    assert 8 * q + 0 == 8 * q;
  }

  /** An empty file encodes to an empty file. */
  lemma EncodeEmpty(n: nat)
    requires n >= 1 && DataCount(n) >= 1
    ensures EncodeFile([], n) == []
  {
    assert Bits([]) == [];
    assert EncodedBits([], [], n) == [];
  }

  /**
   * The end-of-input pad: the encoder's output is the pushed bits cut to
   * whole bytes, and every code word bit (with the bits already pending)
   * reaches the file exactly when the code words end on a byte boundary or
   * the block - 1 zero bits of the pad complete the last byte.
   */
  lemma PadFlush(pending: seq<bool>, s: seq<bool>, n: nat)
    requires n >= 1 && DataCount(n) >= 1
    ensures var out := PackWhole(EncodedBits(pending, s, n));
      Bits(out) == EncodedBits(pending, s, n)[..8 * |out|]
    ensures var body, out := pending + EncodeBlocks(s, n), PackWhole(EncodedBits(pending, s, n));
      8 * |out| >= |body| <==> |body| % 8 == 0 || n - 1 >= 8 - |body| % 8
  {
    var body := pending + EncodeBlocks(s, n);
    var all := EncodedBits(pending, s, n);
    BitsOfPackWhole(all);
    var len, total := |body|, |all|;
    assert total == if len % 8 != 0 then len + n - 1 else len;
    PadArith(len, n);
    assert 8 * |PackWhole(all)| == 8 * (total / 8);
  }

  lemma PadArith(len: nat, n: nat)
    requires n >= 1
    ensures var total := if len % 8 != 0 then len + n - 1 else len;
      8 * (total / 8) >= len <==> len % 8 == 0 || n - 1 >= 8 - len % 8
  {
    var a, b := len / 8, len % 8;
    if b != 0 {
      DivAdd8(a, b + n - 1);
    }
  }
}
