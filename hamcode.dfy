/**
 * The program itself: the bit reader and bit writer over its global
 * buffers, and the encoder and decoder loops that drive them.
 */
module Hamcode {
  import opened BitStreams
  import opened Hamming
  import opened Streams

  /** A file opened for reading: its bytes, the read position and the end-of-file flag. */
  class InFile {
    const data: seq<bv8>
    var pos: nat
    var eof: bool

    constructor (data: seq<bv8>)
      ensures this.data == data && pos == 0 && !eof
    {
      this.data := data;
      pos := 0;
      eof := false;
    }

    /** `fgetc`: the next byte as 0..255, or -1 with the end-of-file flag set. */
    method Getc() returns (c: int)
      modifies this
      ensures old(pos) < |data| ==> c == data[old(pos)] as int && pos == old(pos) + 1 && eof == old(eof)
      ensures old(pos) >= |data| ==> c == -1 && pos == old(pos) && eof
    {
      if pos < |data| {
        c := data[pos] as int;
        pos := pos + 1;
      } else {
        c := -1;
        eof := true;
      }
    }
  }

  /** A file opened for writing: the bytes written so far. */
  class OutFile {
    var written: seq<bv8>

    constructor ()
      ensures written == []
    {
      written := [];
    }

    /** `fputc`. */
    method Putc(c: bv8)
      modifies this
      ensures written == old(written) + [c]
    {
      written := written + [c];
    }
  }

  /**
   * The program's global state: the writer's ten-byte buffer and its bit
   * count, the reader's current byte and the number of its bits not yet
   * handed out.
   */
  class Codec {
    const pushBuffer: array<bv8>
    var popBuffer: bv8
    var pushPos: int
    var popPos: int

    constructor ()
      ensures fresh(pushBuffer) && WriterValid() && Pending() == []
      ensures popPos == 0 && popBuffer == 0
    {
      pushBuffer := new bv8[10](_ => 0);
      popBuffer := 0;
      pushPos := 0;
      popPos := 0;
      new;
      ZeroBits(pushBuffer[..]);
    }

    /** The reader's state is consistent with the file it reads. */
    ghost predicate ReaderValid(source: InFile)
      reads this`popPos, source
    {
      0 <= popPos < 8 && source.pos <= |source.data|
      && (source.eof ==> popPos == 0 && source.pos == |source.data|)
    }

    /** The reader's byte still has popPos bits to hand out. */
    ghost predicate Loaded(source: InFile)
      reads this`popPos, source
    {
      1 <= popPos <= 8 && source.pos <= |source.data| && !source.eof
    }

    /** The bits the reader still has to hand out: the rest of its byte, then the rest of the file. */
    ghost function Remaining(source: InFile): seq<bool>
      reads this`popBuffer, this`popPos, source
      requires ReaderValid(source)
    {
      Unread(popBuffer, popPos, source.data, source.pos)
    }

    /** The writer's buffer holds pushPos bits and zeros after them. */
    ghost predicate WriterValid()
      reads this`pushPos, pushBuffer
    {
      pushBuffer.Length == 10 && 0 <= pushPos <= 80
      && Bits(pushBuffer[..])[pushPos..] == Zeros(80 - pushPos)
    }

    /** The bits pushed but not yet written. */
    ghost function Pending(): seq<bool>
      reads this`pushPos, pushBuffer
      requires WriterValid()
    {
      Bits(pushBuffer[..])[..pushPos]
    }

    /**
     * `Pop`: the next bit of the input, most significant first, or -1 at
     * the end of the input.
     */
    method Pop(source: InFile) returns (bit: int)
      requires ReaderValid(source)
      modifies this`popBuffer, this`popPos, source
      ensures ReaderValid(source) && source.eof == (bit == -1)
      ensures old(Remaining(source)) == [] ==> bit == -1 && source.eof && Remaining(source) == []
      ensures old(Remaining(source)) != [] ==>
        && bit == (if old(Remaining(source))[0] then 1 else 0)
        && Remaining(source) == old(Remaining(source))[1..]
    {
      if popPos == 0 {
        var ended := Load(source);
        if ended {
          return -1;
        }
      } else {
        assert Loaded(source);
      }
      bit := Shift(source);
    }

    /** `Pop` when the bits still to read are those of s from k on. */
    method PopAt(source: InFile, ghost s: seq<bool>, ghost k: int) returns (bit: int)
      requires ReaderValid(source) && 0 <= k <= |s| && Remaining(source) == s[k..]
      modifies this`popBuffer, this`popPos, source
      ensures ReaderValid(source) && (bit == -1 <==> k == |s|)
      ensures bit == -1 ==> Remaining(source) == []
      ensures bit != -1 ==> bit == (if s[k] then 1 else 0) && Remaining(source) == s[k + 1..]
    {
      bit := Pop(source);
      if k < |s| {
        Behead(s, k);
      }
    }

    /** The `pop_pos == 0` branch of `Pop`: `fgetc` into the reader's byte, which the end of the file ends. */
    method Load(source: InFile) returns (ended: bool)
      requires ReaderValid(source) && popPos == 0
      modifies this`popBuffer, this`popPos, source
      ensures ended == source.eof
      ensures ended ==> ReaderValid(source) && old(Remaining(source)) == [] && Remaining(source) == []
      ensures !ended ==> popPos == 8 && Loaded(source) && Unread(popBuffer, popPos, source.data, source.pos) == old(Remaining(source))
    {
      ghost var p := source.pos;
      UnreadEmpty(popBuffer, 0, source.data, p);
      var c := source.Getc();
      popBuffer := (c % 256) as bv8;
      if source.eof {
        UnreadEmpty(popBuffer, 0, source.data, p);
        return true;
      }
      ByteOfInt(source.data[p]);
      UnreadLoad(old(popBuffer), popBuffer, source.data, p);
      popPos := 8;
      ended := false;
    }

    /** The rest of `Pop`: `pop_pos -= 1` and the bit of the reader's byte it then names. */
    method Shift(source: InFile) returns (bit: int)
      requires Loaded(source)
      modifies this`popPos
      ensures ReaderValid(source)
      ensures var u := old(Unread(popBuffer, popPos, source.data, source.pos));
        u != [] && bit == (if u[0] then 1 else 0) && Remaining(source) == u[1..]
    {
      UnreadStep(popBuffer, popPos, source.data, source.pos);
      popPos := popPos - 1;
      bit := if GetBit(popBuffer, popPos) then 1 else 0;
    }

    /**
     * `Write`: writes the whole bytes of the writer's buffer (a partial
     * last byte is dropped) and clears the buffer.
     */
    method Write(dest: OutFile)
      requires WriterValid()
      modifies this`pushPos, pushBuffer, dest
      ensures WriterValid() && Pending() == []
      ensures dest.written == old(dest.written) + PackWhole(old(Pending()))
    {
      ghost var before := pushBuffer[..];
      WholeBytes(before, pushPos);
      var i := 0;
      while i < pushPos / 8
        invariant 0 <= i <= pushPos / 8 <= 10
        invariant dest.written == old(dest.written) + before[..i]
        modifies dest
      {
        assert before[..i + 1] == before[..i] + [pushBuffer[i]];
        dest.Putc(pushBuffer[i]);
        i := i + 1;
      }
      forall j | 0 <= j < pushBuffer.Length {
        pushBuffer[j] := 0;
      }
      pushPos := 0;
      ZeroBits(pushBuffer[..]);
    }

    /**
     * `Push`: appends one bit to the writer's buffer and, when asked to,
     * writes the buffer out.
     */
    method Push(dest: OutFile, bit: bool, write: bool)
      requires WriterValid() && pushPos < 80
      modifies this`pushPos, pushBuffer, dest
      ensures WriterValid()
      ensures !write ==> Pending() == old(Pending()) + [bit] && dest.written == old(dest.written)
      ensures write ==> Pending() == [] && dest.written == old(dest.written) + PackWhole(old(Pending()) + [bit])
    {
      ghost var before := pushBuffer[..];
      pushPos := pushPos + 1;
      var t := pushPos - 1;
      var m: bv8 := if bit then Mask(7 - t % 8) else 0;
      pushBuffer[t / 8] := pushBuffer[t / 8] ^ m;
      BufferAppend(before, t, bit, pushBuffer[..]);
      if write {
        Write(dest);
      }
    }

    /**
     * The data-reading loop of `Encode`: pops the data bits of one block
     * into the data positions 3..block (not powers of two) of a cleared
     * buffer, until the block is full or the input ends.
     */
    method ReadData(source: InFile, buffer: array<bv8>, block: int) returns (got: int)
      requires 3 <= block <= 80 && ReaderValid(source)
      requires buffer.Length == 10 && Bits(buffer[..]) == Zeros(80)
      modifies this`popBuffer, this`popPos, source, buffer
      ensures ReaderValid(source)
      ensures got == Min(|old(Remaining(source))|, DataCount(block))
      ensures Remaining(source) == old(Remaining(source))[got..]
      ensures Bits(buffer[..]) == Place(old(Remaining(source))[..got], block) + Zeros(80 - block)
    {
      ghost var s := Remaining(source);
      got := 0;
      var ib := 3;
      ReadStart(s);
      while ib <= block
        invariant 3 <= ib <= block + 1 && ReaderValid(source)
        invariant got == DataCount(ib - 1) <= |s|
        invariant Remaining(source) == s[got..]
        invariant Bits(buffer[..]) == ReadView(s, got, ib - 1)
      {
        var ended;
        ended, got := ReadPos(source, buffer, ib, got, s);
        if ended {
          DataEnd(s, got, ib, block);
          return;
        }
        ib := ib + 1;
      }
      assert ib - 1 == block;
    }

    /**
     * One round of the data-reading loop: at a data position ib, pops a bit
     * into position ib of the buffer, or reports the end of the input; any
     * other position is left 0.
     */
    method ReadPos(source: InFile, buffer: array<bv8>, ib: int, got: int, ghost s: seq<bool>)
      returns (ended: bool, next: int)
      requires 3 <= ib <= 80 && ReaderValid(source) && buffer.Length == 10
      requires got == DataCount(ib - 1) <= |s| && Remaining(source) == s[got..]
      requires Bits(buffer[..]) == ReadView(s, got, ib - 1)
      modifies this`popBuffer, this`popPos, source, buffer
      ensures ReaderValid(source) && 0 <= next <= |s| && Remaining(source) == s[next..]
      ensures ended ==> DataPos(ib) && next == got && s[got..] == [] && Bits(buffer[..]) == ReadView(s, got, ib - 1)
      ensures !ended ==> next == DataCount(ib) <= |s| && Bits(buffer[..]) == ReadView(s, next, ib)
    {
      ended, next := false, got;
      if !IsPowOf2(ib) {
        var bit := PopAt(source, s, got);
        if bit == -1 {
          ended := true;
          return;
        }
        PlaceBit(buffer, ib, got, s, bit == 1);
        next := got + 1;
      } else {
        DataSkip(s, got, ib - 1);
      }
    }

    /** Data position ib of the buffer takes the next datum s[got]. */
    static method PlaceBit(buffer: array<bv8>, ib: int, got: int, ghost s: seq<bool>, b: bool)
      requires 3 <= ib <= 80 && DataPos(ib) && buffer.Length == 10
      requires got == DataCount(ib - 1) < |s| && b == s[got]
      requires Bits(buffer[..]) == ReadView(s, got, ib - 1)
      modifies buffer
      ensures Bits(buffer[..]) == ReadView(s, got + 1, ib) && got + 1 == DataCount(ib)
    {
      ghost var w := Bits(buffer[..]);
      SetBit(buffer, ib - 1, b);
      DataNext(s, got, ib - 1, w, b, Bits(buffer[..]));
    }

    /**
     * The writing loop of `Encode` (and its padding loop): pushes positions
     * 1..count of the buffer, writing a byte out whenever one fills up.
     */
    method PushBits(dest: OutFile, buffer: array<bv8>, count: int)
      requires WriterValid() && pushPos < 8 && buffer.Length == 10 && buffer != pushBuffer
      requires 0 <= count <= 80
      modifies this`pushPos, pushBuffer, dest
      ensures WriterValid() && pushPos < 8
      ensures Pending() == WholeTail(old(Pending()) + Bits(buffer[..])[..count])
      ensures dest.written == old(dest.written) + PackWhole(old(Pending()) + Bits(buffer[..])[..count])
    {
      ghost var p0 := Pending();
      ghost var w := Bits(buffer[..]);
      assert p0 + w[..0] == p0;
      var i := 1;
      while i <= count
        invariant 1 <= i <= count + 1 && WriterValid() && pushPos < 8 && buffer[..] == old(buffer[..])
        invariant Pending() == WholeTail(p0 + w[..i - 1])
        invariant dest.written == old(dest.written) + PackWhole(p0 + w[..i - 1])
      {
        PushOne(dest, buffer, i, old(dest.written), p0 + w[..i - 1]);
        SnocSlice(p0, w, i);
        i := i + 1;
      }
    }

    /**
     * One round of the writing loop: pushes position i of the buffer, x
     * being every bit pushed so far; the byte it completes is written.
     */
    method PushOne(dest: OutFile, buffer: array<bv8>, i: int, ghost base: seq<bv8>, ghost x: seq<bool>)
      requires WriterValid() && pushPos < 8 && buffer.Length == 10 && buffer != pushBuffer && 1 <= i <= 80
      requires Pending() == WholeTail(x) && dest.written == base + PackWhole(x)
      modifies this`pushPos, pushBuffer, dest
      ensures WriterValid() && pushPos < 8 && buffer[..] == old(buffer[..])
      ensures Pending() == WholeTail(x + [Bits(buffer[..])[i - 1]])
      ensures dest.written == base + PackWhole(x + [Bits(buffer[..])[i - 1]])
    {
      var bit := BufferBit(buffer[..], i);
      ghost var before, pending := dest.written, Pending();
      ghost var full := pushPos == 7;
      Push(dest, bit, pushPos == 7);
      WriterStep(base, x, bit, before, dest.written, pending, Pending(), full);
    }

    /**
     * `Encode`: reads the input block by block (DataCount(block) data bits
     * each, the last block zero-padded), sets the control bits and pushes
     * every code word; at the end of the input, if a byte is left half
     * full, pushes block - 1 zero bits after it.
     */
    method Encode(fin: InFile, fout: OutFile, block: int)
      requires 3 <= block <= 80 && ReaderValid(fin) && WriterValid() && pushPos < 8
      modifies this`popBuffer, this`popPos, this`pushPos, pushBuffer, fin, fout
      ensures ReaderValid(fin) && Remaining(fin) == [] && WriterValid() && DataCount(block) >= 1
      ensures fout.written == old(fout.written) + PackWhole(EncodedBits(old(Pending()), old(Remaining(fin)), block))
      ensures Pending() == WholeTail(EncodedBits(old(Pending()), old(Remaining(fin)), block))
    {
      DataCountPos(block);
      ghost var s0, p0, w0 := Remaining(fin), Pending(), fout.written;
      ghost var x, rest := p0, s0;
      ShortTail(p0);
      var buffer := new bv8[10];
      while true
        invariant buffer.Length == 10 && buffer != pushBuffer
        invariant ReaderValid(fin) && WriterValid() && pushPos < 8 && Remaining(fin) == rest
        invariant p0 + EncodeBlocks(s0, block) == x + EncodeBlocks(rest, block)
        invariant Pending() == WholeTail(x) && fout.written == w0 + PackWhole(x)
        decreases |rest|
      {
        var done, word, rest' := EncodeRound(fin, fout, buffer, block, x, w0, rest);
        if done {
          EncodeTail(p0, s0, x, block);
          return;
        }
        EncodeAdvance(p0 + EncodeBlocks(s0, block), x, word, EncodeBlocks(rest, block), EncodeBlocks(rest', block));
        x, rest := x + word, rest';
      }
    }

    /**
     * One round of the encoder loop: clears the buffer and reads the next
     * block of data into it; at the end of the input pushes the pad (if a
     * byte is left half full), otherwise sets the control bits and pushes
     * the code word. x is every bit pushed so far and w0 the file before.
     */
    method EncodeRound(fin: InFile, fout: OutFile, buffer: array<bv8>, block: int,
                       ghost x: seq<bool>, ghost w0: seq<bv8>, ghost s: seq<bool>)
      returns (done: bool, ghost word: seq<bool>, ghost rest: seq<bool>)
      requires 3 <= block <= 80 && DataCount(block) >= 1
      requires buffer.Length == 10 && buffer != pushBuffer
      requires ReaderValid(fin) && WriterValid() && pushPos < 8
      requires Pending() == WholeTail(x) && fout.written == w0 + PackWhole(x) && Remaining(fin) == s
      modifies this`popBuffer, this`popPos, this`pushPos, pushBuffer, fin, fout, buffer
      ensures ReaderValid(fin) && WriterValid() && pushPos < 8 && Remaining(fin) == rest
      ensures done ==> s == [] && rest == []
      ensures done ==> var all := if |x| % 8 != 0 then x + Zeros(block - 1) else x;
        fout.written == w0 + PackWhole(all) && Pending() == WholeTail(all)
      ensures !done ==> |rest| < |s| && EncodeBlocks(s, block) == word + EncodeBlocks(rest, block)
      ensures !done ==> Pending() == WholeTail(x + word) && fout.written == w0 + PackWhole(x + word)
    {
      ghost var pb := pushBuffer[..];
      Clear(buffer);
      var got := ReadData(fin, buffer, block);
      assert pushBuffer[..] == pb;
      rest := s[got..];
      done, word := EncodeRest(fout, buffer, block, x, w0, s, got);
    }

    /**
     * The writing half of an encoder round, once got bits of s are in the
     * buffer: the pad when nothing was read, otherwise the code word.
     */
    method EncodeRest(fout: OutFile, buffer: array<bv8>, block: int, ghost x: seq<bool>, ghost w0: seq<bv8>,
                      ghost s: seq<bool>, got: int)
      returns (done: bool, ghost word: seq<bool>)
      requires 3 <= block <= 80 && DataCount(block) >= 1 && buffer.Length == 10 && buffer != pushBuffer
      requires got == Min(|s|, DataCount(block))
      requires WriterValid() && pushPos < 8 && Pending() == WholeTail(x) && fout.written == w0 + PackWhole(x)
      requires Bits(buffer[..]) == Place(s[..got], block) + Zeros(80 - block)
      modifies this`pushPos, pushBuffer, fout, buffer
      ensures WriterValid() && pushPos < 8 && done == (got == 0)
      ensures done ==> s == [] && var all := if |x| % 8 != 0 then x + Zeros(block - 1) else x;
        fout.written == w0 + PackWhole(all) && Pending() == WholeTail(all)
      ensures !done ==> EncodeBlocks(s, block) == word + EncodeBlocks(s[got..], block)
      ensures !done ==> Pending() == WholeTail(x + word) && fout.written == w0 + PackWhole(x + word)
    {
      if got == 0 {
        PadBits(s, block, Bits(buffer[..]));
        EncodePad(fout, buffer, block, x, w0);
        return true, [];
      }
      word := EncodeWord(fout, buffer, block, x, w0, s, got);
      done := false;
    }

    /** The end of the input: block - 1 zero bits complete a half-full byte. */
    method EncodePad(fout: OutFile, buffer: array<bv8>, block: int, ghost x: seq<bool>, ghost w0: seq<bv8>)
      requires 3 <= block <= 80 && buffer.Length == 10 && buffer != pushBuffer
      requires WriterValid() && pushPos < 8 && Pending() == WholeTail(x) && fout.written == w0 + PackWhole(x)
      requires Bits(buffer[..])[..block - 1] == Zeros(block - 1)
      modifies this`pushPos, pushBuffer, fout
      ensures WriterValid() && pushPos < 8
      ensures var all := if |x| % 8 != 0 then x + Zeros(block - 1) else x;
        fout.written == w0 + PackWhole(all) && Pending() == WholeTail(all)
    {
      ghost var pending, before := Pending(), fout.written;
      if pushPos != 0 {
        PushBits(fout, buffer, block - 1);
        PushAccount(x, w0, Zeros(block - 1), pending, before, Pending(), fout.written);
      }
    }

    /** A block of data read: its control bits are set and the code word is pushed. */
    method EncodeWord(fout: OutFile, buffer: array<bv8>, block: int, ghost x: seq<bool>, ghost w0: seq<bv8>,
                      ghost s: seq<bool>, got: int)
      returns (ghost word: seq<bool>)
      requires 3 <= block <= 80 && DataCount(block) >= 1 && buffer.Length == 10 && buffer != pushBuffer
      requires s != [] && got == Min(|s|, DataCount(block))
      requires WriterValid() && pushPos < 8 && Pending() == WholeTail(x) && fout.written == w0 + PackWhole(x)
      requires Bits(buffer[..]) == Place(s[..got], block) + Zeros(80 - block)
      modifies this`pushPos, pushBuffer, fout, buffer
      ensures WriterValid() && pushPos < 8
      ensures EncodeBlocks(s, block) == word + EncodeBlocks(s[got..], block)
      ensures Pending() == WholeTail(x + word) && fout.written == w0 + PackWhole(x + word)
    {
      ghost var pb := pushBuffer[..];
      SetControlBits(buffer, block);
      assert pushBuffer[..] == pb;
      word := EncodeBlock(s[..got], block);
      EncodeNext(s, block, Bits(buffer[..]));
      ghost var pending, before := Pending(), fout.written;
      PushBits(fout, buffer, block);
      PushAccount(x, w0, word, pending, before, Pending(), fout.written);
    }

    // ------------------------------------------------------------ decoder

    /**
     * `Decode`: reads the input block by block; each full block's control
     * bits are checked, the position the failing checks name is inverted,
     * and the data positions are emitted; at the end of the input the bits
     * read of the last block are emitted by the end-of-input scan. Only
     * whole bytes reach the file.
     */
    method Decode(fin: InFile, fout: OutFile, block: int)
      requires 3 <= block <= 80 && ReaderValid(fin) && SyndromesFit(Remaining(fin), block)
      modifies this`popBuffer, this`popPos, this`pushPos, fin, fout
      ensures ReaderValid(fin) && Remaining(fin) == []
      ensures fout.written == old(fout.written) + PackWhole(DecodeBits(old(Remaining(fin)), block))
      ensures pushPos == 8 - |DecodeBits(old(Remaining(fin)), block)| % 8
    {
      var buffer := new bv8[10];
      var error := new int[10];
      var ctrl := new bool[10];
      pushPos := 8;
      DecodeLoop(fin, fout, buffer, ctrl, error, block);
    }

    /** The loop of `Decode`, with its three buffers allocated and the writer's byte empty. */
    method DecodeLoop(fin: InFile, fout: OutFile, buffer: array<bv8>, ctrl: array<bool>, error: array<int>, block: int)
      requires 3 <= block <= 80 && buffer.Length == 10 && ctrl.Length == 10 && error.Length == 10
      requires buffer as object != ctrl as object && buffer as object != error as object && ctrl as object != error as object
      requires ReaderValid(fin) && SyndromesFit(Remaining(fin), block) && pushPos == 8
      modifies this`popBuffer, this`popPos, this`pushPos, fin, fout, buffer, ctrl, error
      ensures ReaderValid(fin) && Remaining(fin) == []
      ensures fout.written == old(fout.written) + PackWhole(DecodeBits(old(Remaining(fin)), block))
      ensures pushPos == 8 - |DecodeBits(old(Remaining(fin)), block)| % 8
    {
      ghost var s0, w0 := Remaining(fin), fout.written;
      var pushByte: bv8 := 0;
      ZeroByteBits();
      ShortTail([]);
      ghost var e: seq<bool>, rest := [], s0;
      while true
        invariant ReaderValid(fin) && Remaining(fin) == rest && SyndromesFit(rest, block)
        invariant DecodeBits(s0, block) == e + DecodeBits(rest, block)
        invariant ByteHolds(pushByte, pushPos, e) && fout.written == w0 + PackWhole(e)
        decreases |rest|
      {
        var done;
        ghost var out, rest';
        pushByte, done, out, rest' := DecodeRound(fin, fout, buffer, ctrl, error, block, pushByte, e, w0, rest);
        if done {
          DecodeTail(s0, e, out, rest, block);
          return;
        }
        EncodeAdvance(DecodeBits(s0, block), e, out, DecodeBits(rest, block), DecodeBits(rest', block));
        e, rest := e + out, rest';
      }
    }

    /**
     * One round of the decoder loop: reads a block; a full block is checked,
     * corrected and its data bits emitted, a block cut short by the end of
     * the input is emitted by the end-of-input scan, which ends the decoder.
     */
    method DecodeRound(fin: InFile, fout: OutFile, buffer: array<bv8>, ctrl: array<bool>, error: array<int>,
                       block: int, byte: bv8, ghost e: seq<bool>, ghost w0: seq<bv8>, ghost s: seq<bool>)
      returns (byte': bv8, done: bool, ghost out: seq<bool>, ghost rest: seq<bool>)
      requires 3 <= block <= 80 && buffer.Length == 10 && ctrl.Length == 10 && error.Length == 10
      requires buffer as object != ctrl as object && buffer as object != error as object && ctrl as object != error as object
      requires ReaderValid(fin) && Remaining(fin) == s && SyndromesFit(s, block)
      requires ByteHolds(byte, pushPos, e) && fout.written == w0 + PackWhole(e)
      modifies this`popBuffer, this`popPos, this`pushPos, fin, fout, buffer, ctrl, error
      ensures ReaderValid(fin) && Remaining(fin) == rest && SyndromesFit(rest, block)
      ensures ByteHolds(byte', pushPos, e + out) && fout.written == w0 + PackWhole(e + out)
      ensures done ==> rest == [] && out == DecodeBits(s, block)
      ensures !done ==> |rest| < |s| && DecodeBits(s, block) == out + DecodeBits(rest, block)
    {
      Clear(buffer);
      var full := ReadBlock(fin, buffer, ctrl, block, s);
      if !full {
        out := TailBits(s, block);
        byte' := WriteRemain(fout, buffer, byte, e, w0);
        return byte', true, out, [];
      }
      ghost var r := s[..block];
      byte' := DecodeFull(fout, buffer, ctrl, error, block, byte, e, w0, r);
      out, rest, done := DecodeBlock(r), s[block..], false;
    }

    /**
     * The rest of a round for a full block r: sets the control bits the
     * data bits call for, compares them with the ones read, inverts the
     * position the failing checks name and emits the data positions.
     */
    method DecodeFull(fout: OutFile, buffer: array<bv8>, ctrl: array<bool>, error: array<int>,
                      block: int, byte: bv8, ghost e: seq<bool>, ghost w0: seq<bv8>, ghost r: seq<bool>)
      returns (byte': bv8)
      requires 3 <= block <= 80 && |r| == block && Syndrome(r) <= 80
      requires buffer.Length == 10 && ctrl.Length == 10 && error.Length == 10
      requires buffer as object != ctrl as object && buffer as object != error as object && ctrl as object != error as object
      requires Bits(buffer[..]) == Working(r, block) + Zeros(80 - block)
      requires ctrl[..ControlCount(block)] == Controls(r, ControlCount(block))
      requires ByteHolds(byte, pushPos, e) && fout.written == w0 + PackWhole(e)
      modifies this`pushPos, fout, buffer, error
      ensures ByteHolds(byte', pushPos, e + DecodeBlock(r)) && fout.written == w0 + PackWhole(e + DecodeBlock(r))
    {
      WorkingControls(r, block, Bits(buffer[..]));
      SetControlBits(buffer, block);
      WorkingSet(r, block, Bits(buffer[..]));
      var count := CompareControls(buffer, ctrl, error, block, r);
      Correct(buffer, error, count, block, r);
      byte' := WriteData(fout, buffer, block, byte, e, w0);
    }

    /**
     * The reading loop of `Decode`: pops up to block bits. The control
     * positions below block go to ctrl, in increasing order, and stay 0 in
     * the buffer; every other position, block included, keeps the bit read.
     */
    method ReadBlock(source: InFile, buffer: array<bv8>, ctrl: array<bool>, block: int, ghost s: seq<bool>)
      returns (full: bool)
      requires 3 <= block <= 80 && ReaderValid(source) && Remaining(source) == s
      requires buffer.Length == 10 && ctrl.Length == 10 && buffer as object != ctrl as object
      requires Bits(buffer[..]) == Zeros(80)
      modifies this`popBuffer, this`popPos, source, buffer, ctrl
      ensures ReaderValid(source) && full == (|s| >= block)
      ensures full ==> Remaining(source) == s[block..] && Bits(buffer[..]) == Working(s[..block], block) + Zeros(80 - block)
      ensures full ==> ctrl[..ControlCount(block)] == Controls(s[..block], ControlCount(block))
      ensures !full ==> Remaining(source) == [] && Bits(buffer[..]) == Working(s, block) + Zeros(80 - |s|)
    {
      var ended, i := ReadLoop(source, buffer, ctrl, block, s);
      if ended {
        return false;
      }
      BlockRead(s, block, i, Bits(buffer[..]), ctrl[..i]);
      return true;
    }

    /** The loop of ReadBlock itself, which stops early at the end of the input. */
    method ReadLoop(source: InFile, buffer: array<bv8>, ctrl: array<bool>, block: int, ghost s: seq<bool>)
      returns (ended: bool, i: int)
      requires 3 <= block <= 80 && ReaderValid(source) && Remaining(source) == s
      requires buffer.Length == 10 && ctrl.Length == 10 && buffer as object != ctrl as object
      requires Bits(buffer[..]) == Zeros(80)
      modifies this`popBuffer, this`popPos, source, buffer, ctrl
      ensures ReaderValid(source)
      ensures ended ==> |s| < block && Remaining(source) == [] && Bits(buffer[..]) == Working(s, block) + Zeros(80 - |s|)
      ensures !ended ==> block <= |s| && Remaining(source) == s[block..] && Bits(buffer[..]) == DecodeView(s, block, block)
      ensures !ended ==> CtrlsRead(i, block + 1, block) && ctrl[..i] == Controls(s, i)
    {
      var ib := 1;
      i, ended := 0, false;
      DecodeStart(s, block);
      while ib <= block && !ended
        invariant ReaderValid(source)
        invariant ended ==> |s| < block && Remaining(source) == [] && Bits(buffer[..]) == Working(s, block) + Zeros(80 - |s|)
        invariant !ended ==> 1 <= ib <= block + 1 && ib - 1 <= |s| && Remaining(source) == s[ib - 1..]
        invariant !ended ==> Bits(buffer[..]) == DecodeView(s, ib - 1, block)
        invariant !ended ==> CtrlsRead(i, ib, block) && ctrl[..i] == Controls(s, i)
        decreases block + 1 - ib
      {
        ended, i := ReadOne(source, buffer, ctrl, block, ib, i, s);
        ib := ib + 1;
      }
    }

    /** One round of the decoder's reading loop, at position ib. */
    method ReadOne(source: InFile, buffer: array<bv8>, ctrl: array<bool>, block: int, ib: int, i: int,
                   ghost s: seq<bool>)
      returns (ended: bool, i': int)
      requires 1 <= ib <= block <= 80 && ib - 1 <= |s| && ReaderValid(source) && Remaining(source) == s[ib - 1..]
      requires buffer.Length == 10 && ctrl.Length == 10 && buffer as object != ctrl as object
      requires Bits(buffer[..]) == DecodeView(s, ib - 1, block)
      requires CtrlsRead(i, ib, block) && ctrl[..i] == Controls(s, i)
      modifies this`popBuffer, this`popPos, source, buffer, ctrl
      ensures ReaderValid(source)
      ensures ended ==> |s| == ib - 1 && Remaining(source) == [] && Bits(buffer[..]) == Working(s, block) + Zeros(80 - |s|)
      ensures !ended ==> ib <= |s| && Remaining(source) == s[ib..] && Bits(buffer[..]) == DecodeView(s, ib, block)
      ensures !ended ==> ib <= |s| && CtrlsRead(i', ib + 1, block) && ctrl[..i'] == Controls(s, i')
    {
      i' := i;
      var bit := PopAt(source, s, ib - 1);
      if bit == -1 {
        DecodeEnd(s, ib, block);
        return true, i;
      }
      ended := false;
      i' := TakeBit(buffer, ctrl, block, ib, i, s, bit == 1);
    }

    /**
     * The bit read at position ib: a control position below block goes to
     * ctrl[i] and stays 0 in the buffer, any other goes into the buffer.
     */
    static method TakeBit(buffer: array<bv8>, ctrl: array<bool>, block: int, ib: int, i: int,
                          ghost s: seq<bool>, bit: bool)
      returns (i': int)
      requires 1 <= ib <= block <= 80 && ib <= |s| && bit == s[ib - 1]
      requires buffer.Length == 10 && ctrl.Length == 10 && buffer as object != ctrl as object
      requires Bits(buffer[..]) == DecodeView(s, ib - 1, block)
      requires CtrlsRead(i, ib, block) && ctrl[..i] == Controls(s, i)
      modifies buffer, ctrl
      ensures Bits(buffer[..]) == DecodeView(s, ib, block)
      ensures CtrlsRead(i', ib + 1, block) && ctrl[..i'] == Controls(s, i')
    {
      if IsPowOf2(ib) && ib != block {
        TakeData(buffer, block, ib, s, false);
        CtrlNext(i, ib, block);
        TakeControl(ctrl, block, ib, i, s, bit);
        i' := i + 1;
      } else {
        TakeData(buffer, block, ib, s, bit);
        CtrlSame(i, ib, block);
        i' := i;
      }
    }

    /** A control position below block: the bit goes to ctrl[i]. */
    static method TakeControl(ctrl: array<bool>, block: int, ib: int, i: int, ghost s: seq<bool>, bit: bool)
      requires 1 <= ib < block <= 80 && ib <= |s| && IsPowOf2(ib) && bit == s[ib - 1]
      requires ctrl.Length == 10 && CtrlsRead(i, ib, block) && ib == Pow2(i) && ctrl[..i] == Controls(s, i)
      modifies ctrl
      ensures CtrlsRead(i + 1, ib + 1, block) && ctrl[..i + 1] == Controls(s, i + 1)
    {
      ghost var taken := ctrl[..i];
      ControlsSnoc(s, i, ib, block, taken, bit);
      ctrl[i] := bit;
      assert ctrl[..i + 1] == taken + [bit];
    }

    /** Position ib of the buffer takes b: the bit read, or 0 at a control position below block. */
    static method TakeData(buffer: array<bv8>, block: int, ib: int, ghost s: seq<bool>, b: bool)
      requires 1 <= ib <= block <= 80 && ib <= |s| && b == (!IsControl(ib, block) && s[ib - 1])
      requires buffer.Length == 10 && Bits(buffer[..]) == DecodeView(s, ib - 1, block)
      modifies buffer
      ensures Bits(buffer[..]) == DecodeView(s, ib, block)
    {
      ghost var w := Bits(buffer[..]);
      SetBit(buffer, ib - 1, b);
      DecodeNext(s, ib - 1, block, w, b, Bits(buffer[..]));
    }

    /**
     * One step of the decoder's output: `push_byte` takes the bit at
     * pushPos - 1 and, once full, is written out and cleared.
     */
    method PutBit(dest: OutFile, byte: bv8, bit: bool, ghost e: seq<bool>, ghost w0: seq<bv8>) returns (byte': bv8)
      requires ByteHolds(byte, pushPos, e) && dest.written == w0 + PackWhole(e)
      modifies this`pushPos, dest
      ensures ByteHolds(byte', pushPos, e + [bit]) && dest.written == w0 + PackWhole(e + [bit])
    {
      var pos := pushPos - 1;
      var b := byte ^ (if bit then Mask(pos) else 0);
      PutStep(byte, pos + 1, e, bit, b);
      if pos == 0 {
        dest.Putc(b);
        assert dest.written == w0 + (PackWhole(e) + [b]);
        pushPos, byte' := 8, 0;
      } else {
        pushPos, byte' := pos, b;
      }
    }

    /** The writing loop of `Decode`: emits the data positions 3..block of the buffer. */
    method WriteData(dest: OutFile, buffer: array<bv8>, block: int, byte: bv8, ghost e: seq<bool>, ghost w0: seq<bv8>)
      returns (byte': bv8)
      requires 3 <= block <= 80 && buffer.Length == 10
      requires ByteHolds(byte, pushPos, e) && dest.written == w0 + PackWhole(e)
      modifies this`pushPos, dest
      ensures ByteHolds(byte', pushPos, e + DataBits(Bits(buffer[..])[..block]))
      ensures dest.written == w0 + PackWhole(e + DataBits(Bits(buffer[..])[..block]))
    {
      ghost var w := Bits(buffer[..]);
      DataBitsStart(w);
      assert e + [] == e;
      byte' := byte;
      var i := 3;
      while i <= block
        invariant 3 <= i <= block + 1
        invariant ByteHolds(byte', pushPos, e + DataBits(w[..i - 1]))
        invariant dest.written == w0 + PackWhole(e + DataBits(w[..i - 1]))
      {
        ghost var x := e + DataBits(w[..i - 1]);
        if !IsPowOf2(i) {
          var bit := BufferBit(buffer[..], i);
          byte' := PutBit(dest, byte', bit, x, w0);
        }
        EmitStep(e, w, i, x);
        i := i + 1;
      }
    }

    /**
     * The end-of-input loop of `Decode`: from position 3, while the byte
     * holding position i is not 0, emits every position that is not a
     * power of two (stopping at the end of the buffer).
     */
    method WriteRemain(dest: OutFile, buffer: array<bv8>, byte: bv8, ghost e: seq<bool>, ghost w0: seq<bv8>)
      returns (byte': bv8)
      requires buffer.Length == 10
      requires ByteHolds(byte, pushPos, e) && dest.written == w0 + PackWhole(e)
      modifies this`pushPos, dest
      ensures ByteHolds(byte', pushPos, e + Scan(Bits(buffer[..]), 3))
      ensures dest.written == w0 + PackWhole(e + Scan(Bits(buffer[..]), 3))
    {
      ghost var w := Bits(buffer[..]);
      ghost var x := e;
      byte' := byte;
      var i := 3;
      assert e + Scan(w, 3) == x + Scan(w, i);
      while i <= 80 && buffer[(i - 1) / 8] != 0
        invariant 3 <= i <= 81
        invariant ByteHolds(byte', pushPos, x) && dest.written == w0 + PackWhole(x)
        invariant e + Scan(w, 3) == x + Scan(w, i)
        decreases 81 - i
      {
        ScanNext(buffer[..], i);
        if !IsPowOf2(i) {
          var bit := BufferBit(buffer[..], i);
          byte' := PutBit(dest, byte', bit, x, w0);
          EmitBit(e + Scan(w, 3), x, bit, Scan(w, i + 1));
          x := x + [bit];
        } else {
          assert [] + Scan(w, i + 1) == Scan(w, i + 1);
        }
        i := i + 1;
      }
      ScanStop(buffer[..], i);
      assert x + [] == x;
    }
  }

  /** One run of the program in encode mode, from fresh globals, over a whole file. */
  method RunEncode(data: seq<bv8>, block: int) returns (encoded: seq<bv8>)
    requires 3 <= block <= 80
    ensures DataCount(block) >= 1 && encoded == EncodeFile(data, block)
  {
    var codec := new Codec();
    var fin := new InFile(data);
    var fout := new OutFile();
    assert data[0..] == data;
    assert codec.Remaining(fin) == Bits(data);
    codec.Encode(fin, fout, block);
    encoded := fout.written;
  }

  /** One run of the program in decode mode, from fresh globals, over a whole file. */
  method RunDecode(data: seq<bv8>, block: int) returns (decoded: seq<bv8>)
    requires 3 <= block <= 80 && SyndromesFit(Bits(data), block)
    ensures decoded == DecodeFile(data, block)
  {
    var codec := new Codec();
    var fin := new InFile(data);
    var fout := new OutFile();
    assert data[0..] == data;
    assert codec.Remaining(fin) == Bits(data);
    codec.Decode(fin, fout, block);
    decoded := fout.written;
  }

  /**
   * Two runs of the program at the default block size 8: one encodes a
   * file, the other decodes what the first wrote, with at most one bit of
   * every code word inverted on the way; the decoded file is the original.
   */
  method EncodeThenDecode8(data: seq<bv8>, flips: seq<int>, received: seq<bv8>) returns (encoded: seq<bv8>, decoded: seq<bv8>)
    requires forall i :: 0 <= i < |flips| ==> 0 <= flips[i] <= 8
    requires Bits(received) == FlipEach(Bits(EncodeFile(data, 8)), flips, 8)
    ensures encoded == EncodeFile(data, 8) && decoded == data
  {
    encoded := RunEncode(data, 8);
    var q := Aligned8(data);
    EncodeFileAligned(data, 8, q);
    RoundTripBlocks(Bits(data), 8, q, flips);
    decoded := RunDecode(received, 8);
    RoundTrip8Flipped(data, flips, received);
  }

  /** `memset(buffer, 0, ...)` on a ten-byte buffer. */
  method Clear(buffer: array<bv8>)
    requires buffer.Length == 10
    modifies buffer
    ensures Bits(buffer[..]) == Zeros(80)
  {
    forall j | 0 <= j < buffer.Length {
      buffer[j] := 0;
    }
    ZeroBits(buffer[..]);
  }

  /**
   * The writer's accounting over one `PushBits`: with x pushed so far
   * (its whole bytes written after w0, the rest pending), pushing w leaves
   * x + w accounted for in the same way.
   */
  lemma PushAccount(x: seq<bool>, w0: seq<bv8>, w: seq<bool>, pending: seq<bool>, before: seq<bv8>,
                    pending': seq<bool>, after: seq<bv8>)
    requires pending == WholeTail(x) && before == w0 + PackWhole(x)
    requires pending' == WholeTail(pending + w) && after == before + PackWhole(pending + w)
    ensures pending' == WholeTail(x + w) && after == w0 + PackWhole(x + w)
  {
    PackWholeSplit(x, w);
  }

  /** The encoder's output once the input has run out, as `EncodedBits` describes it. */
  lemma EncodeTail(p0: seq<bool>, s0: seq<bool>, x: seq<bool>, block: int)
    requires 3 <= block <= 80 && DataCount(block) >= 1
    requires p0 + EncodeBlocks(s0, block) == x + EncodeBlocks([], block)
    ensures EncodedBits(p0, s0, block) == if |x| % 8 != 0 then x + Zeros(block - 1) else x
  {
    assert x + [] == x;
  }

  /** The encoder loop's invariant carried over one code word. */
  lemma EncodeAdvance(all: seq<bool>, x: seq<bool>, word: seq<bool>, e: seq<bool>, e': seq<bool>)
    requires all == x + e && e == word + e'
    ensures all == (x + word) + e'
  {
  }

  /** The bits a reader has still to hand out: the last k bits of its byte b, then the file from pos on. */
  ghost function Unread(b: bv8, k: int, data: seq<bv8>, pos: int): seq<bool>
    requires 0 <= k <= 8 && 0 <= pos <= |data|
  {
    ByteBits(b)[8 - k..] + Bits(data[pos..])
  }

  lemma UnreadEmpty(b: bv8, k: int, data: seq<bv8>, pos: int)
    requires 0 <= k <= 8 && 0 <= pos <= |data|
    ensures Unread(b, k, data, pos) == [] <==> k == 0 && pos == |data|
  {
    assert |Unread(b, k, data, pos)| == k + 8 * (|data| - pos);
  }

  /** Loading the next byte of the file into the reader hands out the same bits. */
  lemma UnreadLoad(b0: bv8, x: bv8, data: seq<bv8>, pos: int)
    requires 0 <= pos < |data| && x == data[pos]
    ensures Unread(b0, 0, data, pos) == Unread(x, 8, data, pos + 1)
  {
    BitsCons(data, pos);
    assert ByteBits(b0)[8..] == [];
    assert ByteBits(x)[0..] == ByteBits(x);
  }

  /** The next bit handed out is bit k - 1 of the byte. */
  lemma UnreadStep(b: bv8, k: int, data: seq<bv8>, pos: int)
    requires 1 <= k <= 8 && 0 <= pos <= |data|
    ensures Unread(b, k, data, pos) != []
    ensures Unread(b, k, data, pos)[0] == GetBit(b, k - 1)
    ensures Unread(b, k, data, pos)[1..] == Unread(b, k - 1, data, pos)
  {
    DropFirst(ByteBits(b), 8 - k, Bits(data[pos..]));
  }

  lemma BitsCons(data: seq<bv8>, p: int)
    requires 0 <= p < |data|
    ensures Bits(data[p..]) == ByteBits(data[p]) + Bits(data[p + 1..])
  {
    assert data[p..][1..] == data[p + 1..];
  }

  lemma Behead(s: seq<bool>, k: int)
    requires 0 <= k < |s|
    ensures s[k..][0] == s[k] && s[k..][1..] == s[k + 1..]
  {
  }

  lemma DropFirst(b: seq<bool>, k: int, rest: seq<bool>)
    requires 0 <= k < |b|
    ensures (b[k..] + rest)[0] == b[k] && (b[k..] + rest)[1..] == b[k + 1..] + rest
  {
    assert (b[k..] + rest)[1..] == b[k..][1..] + rest;
  }

  /** The writer's buffer after the bit at position t is set to `bit`. */
  lemma BufferAppend(before: seq<bv8>, t: int, bit: bool, after: seq<bv8>)
    requires |before| == 10 && 0 <= t < 80 && Bits(before)[t..] == Zeros(80 - t)
    requires after == before[t / 8 := before[t / 8] ^ (if bit then Mask(7 - t % 8) else 0)]
    ensures Bits(after)[..t + 1] == Bits(before)[..t] + [bit]
    ensures Bits(after)[t + 1..] == Zeros(80 - (t + 1))
  {
    AppendBit(before, t, bit);
  }

  /** The first p / 8 bytes of a buffer are the whole bytes of its first p bits. */
  lemma Floor8(p: int, n: int)
    requires 0 <= p <= 8 * n
    ensures 0 <= p / 8 <= n && 0 <= p - 8 * (p / 8) < 8
  {
  }

  lemma WholeBytes(bytes: seq<bv8>, p: int)
    requires 0 <= p <= 8 * |bytes|
    ensures PackWhole(Bits(bytes)[..p]) == bytes[..p / 8]
  {
    Floor8(p, |bytes|);
    WholeOfPrefix(Bits(bytes), p, 8 * (p / 8));
    PackPrefix(bytes, p / 8);
  }

  /** The whole bytes of the first p bits are the first m bits packed, m being p rounded down to bytes. */
  lemma WholeOfPrefix(bits: seq<bool>, p: int, m: int)
    requires 0 <= m <= p <= |bits| && m == 8 * (p / 8)
    ensures PackWhole(bits[..p]) == Pack(bits[..m])
  {
    assert WholeLength(bits[..p]) == m;
    assert bits[..p][..m] == bits[..m];
  }

  /** The first k bytes packed back from the first 8 * k bits. */
  lemma PackPrefix(bytes: seq<bv8>, k: int)
    requires 0 <= k <= |bytes|
    ensures Pack(Bits(bytes)[..8 * k]) == bytes[..k]
  {
    BitsPrefix(bytes, k);
    PackOfBits(bytes[..k]);
  }

  // ---------------------------------------------------------------- reading a block

  lemma {:induction false} DataCountMono(a: nat, b: nat)
    requires a <= b
    ensures DataCount(a) <= DataCount(b)
    decreases b
  {
    if a < b {
      DataCountMono(a, b - 1);
    }
  }

  /** Laying out a prefix of the data over more positions adds only zeros. */
  lemma PlaceExtend(d: seq<bool>, m: nat, n: nat)
    requires |d| <= DataCount(m) && m <= n
    ensures Place(d, n) == Place(d, m) + Zeros(n - m)
  {
    forall t | m <= t < n
      ensures !Place(d, n)[t]
    {
      DataCountMono(m, t);
    }
  }

  /** The buffer after reading the first got bits of s into positions 1..m. */
  ghost function ReadView(s: seq<bool>, got: int, m: int): seq<bool>
    requires 0 <= got <= |s| && 0 <= m <= 80
  {
    Place(s[..got], m) + Zeros(80 - m)
  }

  lemma ReadStart(s: seq<bool>)
    ensures ReadView(s, 0, 2) == Zeros(80)
  {
    assert Place(s[..0], 2) + Zeros(78) == Zeros(80);
  }

  lemma DataNext(s: seq<bool>, got: int, m: nat, w: seq<bool>, b: bool, w': seq<bool>)
    requires 0 <= got < |s| && got == DataCount(m) && DataPos(m + 1) && m < 80
    requires w == ReadView(s, got, m) && b == s[got]
    requires w' == w[..m] + [b] + Zeros(80 - (m + 1))
    ensures w' == ReadView(s, got + 1, m + 1)
  {
    var d := s[..got + 1];
    assert d[..got] == s[..got];
    PlaceSnoc(d, m);
    assert w[..m] == Place(s[..got], m);
  }

  /** The data position m + 1 takes the datum after the DataCount(m) before it. */
  lemma PlaceSnoc(d: seq<bool>, m: nat)
    requires |d| == DataCount(m) + 1 && DataPos(m + 1)
    ensures Place(d, m + 1) == Place(d[..|d| - 1], m) + [d[|d| - 1]]
  {
    var k := |d| - 1;
    var a, c := Place(d, m + 1), Place(d[..k], m) + [d[k]];
    forall t | 0 <= t <= m
      ensures a[t] == c[t]
    {
      if t < m {
        DataCountMono(t + 1, m);
      }
    }
  }

  /** A position that is not a data position stays 0. */
  lemma DataSkip(s: seq<bool>, got: int, m: nat)
    requires 0 <= got <= |s| && got == DataCount(m) && !DataPos(m + 1) && m < 80
    ensures ReadView(s, got, m + 1) == ReadView(s, got, m) && DataCount(m + 1) == got
  {
    assert Place(s[..got], m + 1) == Place(s[..got], m) + [false];
  }

  /** The input ran out at data position ib: all of it was read, the rest of the block stays 0. */
  lemma DataEnd(s: seq<bool>, got: int, ib: int, block: int)
    requires 3 <= ib <= block <= 80 && DataPos(ib) && 0 <= got == DataCount(ib - 1) <= |s| && s[got..] == []
    ensures got == Min(|s|, DataCount(block))
    ensures ReadView(s, got, ib - 1) == Place(s[..got], block) + Zeros(80 - block)
  {
    DataCountMono(ib, block);
    assert |s| == got < DataCount(block);
    var d := s[..got];
    PlaceExtend(d, ib - 1, block);
    ZerosJoin(Place(d, ib - 1), block - (ib - 1), 80 - block);
  }

  /** Two runs of zeros after a prefix are one run. */
  lemma ZerosJoin(p: seq<bool>, a: nat, b: nat)
    ensures p + Zeros(a) + Zeros(b) == p + Zeros(a + b)
  {
  }

  /** At the end of the input the buffer is all zero (the padding the encoder pushes). */
  lemma PadBits(s: seq<bool>, block: int, w: seq<bool>)
    requires 3 <= block <= 80 && w == Place(s[..0], block) + Zeros(80 - block)
    ensures w[..block - 1] == Zeros(block - 1)
  {
  }

  /** One full round of the encoder loop pushes the code word of the next data chunk. */
  lemma EncodeNext(s: seq<bool>, block: int, w: seq<bool>)
    requires 3 <= block <= 80 && s != [] && DataCount(block) >= 1
    requires w == SetControls((Place(s[..Min(|s|, DataCount(block))], block) + Zeros(80 - block))[..block])
      + (Place(s[..Min(|s|, DataCount(block))], block) + Zeros(80 - block))[block..]
    ensures w[..block] == EncodeBlock(s[..Min(|s|, DataCount(block))], block)
    ensures EncodeBlocks(s, block) == w[..block] + EncodeBlocks(s[Min(|s|, DataCount(block))..], block)
  {
    var p := Place(s[..Min(|s|, DataCount(block))], block);
    assert (p + Zeros(80 - block))[..block] == p;
  }

  // ---------------------------------------------------------------- control bits

  /** Position v of the buffer, read with `GET_BIT` from the byte that holds it. */
  function BufferBit(buffer: seq<bv8>, v: int): (r: bool)
    requires |buffer| == 10 && 1 <= v <= 80
    ensures r == Bits(buffer)[v - 1]
  {
    BitsAt(buffer, v - 1);
    GetBit(buffer[(v - 1) / 8], 7 - (v - 1) % 8)
  }

  /** `buffer[t / 8] ^= 1 << (7 - t % 8)`: inverts bit t (0-based) of the buffer. */
  method FlipBit(buffer: array<bv8>, t: int)
    requires buffer.Length == 10 && 0 <= t < 80
    modifies buffer
    ensures Bits(buffer[..]) == old(Bits(buffer[..]))[t := !old(Bits(buffer[..]))[t]]
  {
    FlipBitAt(buffer[..], t);
    buffer[t / 8] := buffer[t / 8] ^ Mask(7 - t % 8);
  }

  /**
   * `buffer[t / 8] ^= bit << (7 - t % 8)` on a buffer that is 0 from
   * bit t on: bit t becomes `bit`.
   */
  method SetBit(buffer: array<bv8>, t: int, bit: bool)
    requires buffer.Length == 10 && 0 <= t < 80 && Bits(buffer[..])[t..] == Zeros(80 - t)
    modifies buffer
    ensures Bits(buffer[..]) == old(Bits(buffer[..]))[..t] + [bit] + Zeros(80 - (t + 1))
  {
    ghost var before := buffer[..];
    buffer[t / 8] := buffer[t / 8] ^ (if bit then Mask(7 - t % 8) else 0);
    BufferAppend(before, t, bit, buffer[..]);
    Rejoin(Bits(buffer[..]), t + 1);
  }

  /**
   * One `Push` of the writing loop, accounted for in terms of all the bits x
   * pushed since the start: what is written and what is pending stay the
   * whole bytes and the tail of x.
   */
  lemma WriterStep(base: seq<bv8>, x: seq<bool>, bit: bool, before: seq<bv8>, after: seq<bv8>,
                   pending: seq<bool>, pending': seq<bool>, full: bool)
    requires before == base + PackWhole(x) && pending == WholeTail(x) && full == (|pending| == 7)
    requires !full ==> pending' == pending + [bit] && after == before
    requires full ==> pending' == [] && after == before + PackWhole(pending + [bit])
    ensures after == base + PackWhole(x + [bit]) && pending' == WholeTail(x + [bit])
  {
    PackWholeSplit(x, [bit]);
    if full {
      PackOne(pending + [bit]);
    }
  }

  lemma SnocSlice(p: seq<bool>, w: seq<bool>, i: int)
    requires 1 <= i <= |w|
    ensures p + w[..i] == (p + w[..i - 1]) + [w[i - 1]]
  {
    assert w[..i] == w[..i - 1] + [w[i - 1]];
  }

  lemma Rejoin(x: seq<bool>, k: int)
    requires 0 <= k <= |x|
    ensures x == x[..k] + x[k..]
  {
  }

  /**
   * One pass of the control loop: control position ib of the buffer gets
   * the parity of its group among positions 1..block, visited run by run
   * ([i, i + ib) for i = ib, 3 ib, 5 ib, ...).
   */
  method SetControlBit(buffer: array<bv8>, block: int, ib: int)
    requires buffer.Length == 10 && 3 <= block <= 80 && IsControl(ib, block)
    requires !Bits(buffer[..])[ib - 1]
    modifies buffer
    ensures Bits(buffer[..]) == old(Bits(buffer[..]))[ib - 1 := ParityUpTo(old(Bits(buffer[..])), ib, block)]
  {
    ghost var w0 := Bits(buffer[..]);
    ParityBelow(w0, ib, ib - 1);
    assert w0[ib - 1 := false] == w0;
    var i := ib;
    ghost var q := 1;
    while i <= block
      invariant ib <= i && (i <= block ==> i == q * ib && q % 2 == 1)
      invariant Bits(buffer[..]) == w0[ib - 1 := ParityUpTo(w0, ib, Min(i - 1, block))]
      decreases block + 1 - i
    {
      i, q := NextRunStart(buffer, block, ib, i, w0, q);
    }
  }

  /** A run of the control loop and the step `i += ib` past the gap after it. */
  method NextRunStart(buffer: array<bv8>, block: int, ib: int, i: int, ghost w0: seq<bool>, ghost q: int)
      returns (i': int, ghost q': int)
    requires buffer.Length == 10 && |w0| == 80 && 3 <= block <= 80
    requires 1 <= ib <= i <= block && i == q * ib && q % 2 == 1 && !w0[ib - 1]
    requires Bits(buffer[..]) == w0[ib - 1 := ParityUpTo(w0, ib, i - 1)]
    modifies buffer
    ensures i < i' && (i' <= block ==> i' == q' * ib && q' % 2 == 1)
    ensures Bits(buffer[..]) == w0[ib - 1 := ParityUpTo(w0, ib, Min(i' - 1, block))]
  {
    var v := VisitRun(buffer, block, ib, i, w0, q);
    NextRun(w0, block, ib, i, q, v);
    i', q' := v + ib, q + 2;
  }

  /**
   * The innermost loop of the control loop: adds the run [i, i + ib) of
   * group ib, cut at the end of the block, to control position ib.
   */
  method VisitRun(buffer: array<bv8>, block: int, ib: int, i: int, ghost w0: seq<bool>, ghost q: int)
      returns (v: int)
    requires buffer.Length == 10 && |w0| == 80 && 3 <= block <= 80
    requires 1 <= ib <= i <= block && i == q * ib && q % 2 == 1 && !w0[ib - 1]
    requires Bits(buffer[..]) == w0[ib - 1 := ParityUpTo(w0, ib, i - 1)]
    modifies buffer
    ensures v == Min(i + ib, block + 1)
    ensures Bits(buffer[..]) == w0[ib - 1 := ParityUpTo(w0, ib, v - 1)]
  {
    v := i;
    while v < i + ib && v <= block
      invariant i <= v <= i + ib && v <= block + 1
      invariant Bits(buffer[..]) == w0[ib - 1 := ParityUpTo(w0, ib, v - 1)]
      decreases block + 1 - v
    {
      DivBetween(v, ib, q);
      VisitOne(buffer, ib, v, w0);
      v := v + 1;
    }
  }

  /** Position v of a run of group ib: a set bit there inverts control position ib. */
  method VisitOne(buffer: array<bv8>, ib: int, v: int, ghost w0: seq<bool>)
    requires buffer.Length == 10 && |w0| == 80 && 1 <= ib <= v <= 80
    requires InGroup(v, ib) && !w0[ib - 1]
    requires Bits(buffer[..]) == w0[ib - 1 := ParityUpTo(w0, ib, v - 1)]
    modifies buffer
    ensures Bits(buffer[..]) == w0[ib - 1 := ParityUpTo(w0, ib, v)]
  {
    if BufferBit(buffer[..], v) {
      RunFlip(Bits(buffer[..]), w0, ib, v);
      FlipBit(buffer, ib - 1);
    } else {
      RunKeep(buffer[..], w0, ib, v);
    }
  }

  /** Visiting a set bit of group ib inverts the control bit. */
  lemma RunFlip(cur: seq<bool>, w0: seq<bool>, ib: int, v: int)
    requires |w0| == 80 && 1 <= ib <= v <= 80
    requires InGroup(v, ib) && !w0[ib - 1]
    requires cur == w0[ib - 1 := ParityUpTo(w0, ib, v - 1)] && cur[v - 1]
    ensures cur[ib - 1 := !cur[ib - 1]] == w0[ib - 1 := ParityUpTo(w0, ib, v)]
  {
    ControlStep(w0, ib, v);
  }

  /** Visiting a clear bit of group ib leaves the parity alone. */
  lemma RunKeep(before: seq<bv8>, w0: seq<bool>, ib: int, v: int)
    requires |before| == 10 && |w0| == 80 && 1 <= ib <= v <= 80
    requires InGroup(v, ib) && !w0[ib - 1]
    requires Bits(before) == w0[ib - 1 := ParityUpTo(w0, ib, v - 1)] && !Bits(before)[v - 1]
    ensures Bits(before) == w0[ib - 1 := ParityUpTo(w0, ib, v)]
  {
    ControlStep(w0, ib, v);
  }

  /** After a run of group ib the next one starts 2 ib further on, and the gap adds nothing. */
  lemma NextRun(w0: seq<bool>, block: int, ib: int, i: int, q: int, v: int)
    requires |w0| == 80 && 3 <= block <= 80
    requires 1 <= ib <= i <= block && i == q * ib && q % 2 == 1 && v == Min(i + ib, block + 1)
    ensures v + ib <= block ==> v + ib == (q + 2) * ib && (q + 2) % 2 == 1
    ensures ParityUpTo(w0, ib, Min(v + ib - 1, block)) == ParityUpTo(w0, ib, v - 1)
  {
    assert (q + 1) * ib == i + ib && (q + 2) * ib == i + 2 * ib;
    if v == i + ib {
      ParityGap(w0, ib, q + 1, Min(v + ib - 1, block));
    }
  }

  /** Visiting position v of a run of group ib adds its bit to the parity. */
  lemma ControlStep(w0: seq<bool>, ib: int, v: int)
    requires 1 <= ib <= v <= |w0| && InGroup(v, ib) && !w0[ib - 1]
    ensures ParityUpTo(w0, ib, v) == (ParityUpTo(w0, ib, v - 1) != w0[ib - 1 := ParityUpTo(w0, ib, v - 1)][v - 1])
  {
    if v == ib {
      ParityBelow(w0, ib, ib - 1);
    }
  }

  /** The positions between two runs of a group add nothing to its parity. */
  lemma {:induction false} ParityGap(b: seq<bool>, c: int, q: int, m: int)
    requires c >= 1 && q >= 2 && q % 2 == 0 && q * c - 1 <= m < q * c + c && m <= |b|
    ensures ParityUpTo(b, c, m) == ParityUpTo(b, c, q * c - 1)
    decreases m
  {
    if m > q * c - 1 {
      DivBetween(m, c, q);
      ParityGap(b, c, q, m - 1);
    }
  }

  /** The block w with the control positions below m set to their groups' parities over 1..n. */
  ghost function ControlsBelow(w: seq<bool>, n: int, m: int): (r: seq<bool>)
    requires 1 <= n <= |w|
    ensures |r| == |w|
  {
    seq(|w|, t requires 0 <= t < |w| => if IsControl(t + 1, n) && t + 1 < m then ParityUpTo(w, t + 1, n) else w[t])
  }

  /**
   * The control loop: every control position of the block (positions
   * 1, 2, 4, ... below block) gets the parity of its group; the rest of
   * the buffer is left alone.
   */
  method SetControlBits(buffer: array<bv8>, block: int)
    requires buffer.Length == 10 && 3 <= block <= 80
    requires forall p :: IsControl(p, block) ==> !Bits(buffer[..])[p - 1]
    modifies buffer
    ensures Bits(buffer[..]) == SetControls(old(Bits(buffer[..]))[..block]) + old(Bits(buffer[..]))[block..]
  {
    ghost var w0 := Bits(buffer[..]);
    var ib := 1;
    ghost var k: nat := 0;
    while ib < block
      invariant ib == Pow2(k)
      invariant Bits(buffer[..]) == ControlsBelow(w0, block, ib)
      decreases block - ib
    {
      PowOf2IsPow2(k);
      ControlsNext(w0, block, k);
      SetControlBit(buffer, block, ib);
      ib := ib * 2;
      k := k + 1;
    }
    ControlsAll(w0, block, ib);
  }

  /** Setting control position 2^k extends the set control positions to those below 2^(k+1). */
  lemma ControlsNext(w0: seq<bool>, n: int, k: nat)
    requires 1 <= n <= |w0| && Pow2(k) < n && IsPowOf2(Pow2(k))
    requires forall p :: IsControl(p, n) ==> !w0[p - 1]
    ensures var cur := ControlsBelow(w0, n, Pow2(k));
      && !cur[Pow2(k) - 1]
      && cur[Pow2(k) - 1 := ParityUpTo(cur, Pow2(k), n)] == ControlsBelow(w0, n, Pow2(k + 1))
  {
    var c := Pow2(k);
    var cur := ControlsBelow(w0, n, c);
    assert !cur[c - 1] by {
      assert IsControl(c, n);
    }
    forall u | 1 <= u <= n && InGroup(u, c)
      ensures cur[u - 1] == w0[u - 1]
    {
      if u < c {
        BelowGroup(u, c);
      }
    }
    ParityAgree(cur, w0, c, n);
    var next := cur[c - 1 := ParityUpTo(cur, c, n)];
    forall t | 0 <= t < |w0|
      ensures next[t] == ControlsBelow(w0, n, Pow2(k + 1))[t]
    {
      if IsControl(t + 1, n) && t + 1 < Pow2(k + 1) {
        PowBelow(k, t + 1);
      }
    }
  }

  /** A power of two below 2^(k+1) is at most 2^k. */
  lemma PowBelow(k: nat, p: int)
    requires IsPowOf2(p) && p < Pow2(k + 1)
    ensures p <= Pow2(k)
  {
    PowOf2Iff(p);
    var j := Log2(p);
    Pow2Order(j, k + 1);
    if j < k {
      Pow2Mono(j, k);
    }
  }

  /** Once every control position is below m the block is the one SetControls gives. */
  lemma ControlsAll(w0: seq<bool>, n: int, m: int)
    requires 1 <= n <= |w0| && m >= n
    ensures ControlsBelow(w0, n, m) == SetControls(w0[..n]) + w0[n..]
  {
    forall t | 0 <= t < |w0|
      ensures ControlsBelow(w0, n, m)[t] == (SetControls(w0[..n]) + w0[n..])[t]
    {
      if t < n && IsControl(t + 1, n) {
        ParityPrefix(w0, t + 1, n, n);
      }
    }
  }

  // ---------------------------------------------------------------- decoder

  /**
   * The comparison loop of `Decode`: each recomputed control bit is checked
   * against the received one, and the failing positions are listed in `error`.
   */
  method CompareControls(buffer: array<bv8>, ctrl: array<bool>, error: array<int>, block: int, ghost r: seq<bool>)
    returns (count: int)
    requires 3 <= block <= 80 && |r| == block
    requires buffer.Length == 10 && ctrl.Length == 10 && error.Length == 10
    requires buffer as object != error as object && ctrl as object != error as object
    requires Bits(buffer[..])[..block] == SetControls(Working(r, block))
    requires ctrl[..ControlCount(block)] == Controls(r, ControlCount(block))
    modifies error
    ensures 0 <= count <= 7 && error[..count] == Errors(r)
  {
    count := 0;
    var ib, i := 1, 0;
    while ib < block
      invariant 0 <= i <= 7 && ib == Pow2(i) && 0 <= count <= i
      invariant Bits(buffer[..])[..block] == SetControls(Working(r, block))
      invariant ctrl[..ControlCount(block)] == Controls(r, ControlCount(block))
      invariant error[..count] + ErrorsFrom(r, i) == Errors(r)
      decreases block - ib
    {
      Pow2Small(i);
      count := CompareOne(buffer, ctrl, error, block, r, i, ib, count);
      assert Pow2(i + 1) == ib * 2;
      i, ib := i + 1, ib * 2;
    }
    assert Pow2(i) >= |r|;
    assert ErrorsFrom(r, i) == [];
    assert error[..count] + [] == error[..count];
  }

  /** One round of the comparison loop, at control position ib = 2^i. */
  method CompareOne(buffer: array<bv8>, ctrl: array<bool>, error: array<int>, block: int, ghost r: seq<bool>,
                    i: int, ib: int, count: int)
    returns (count': int)
    requires 3 <= block <= 80 && |r| == block
    requires buffer.Length == 10 && ctrl.Length == 10 && error.Length == 10
    requires buffer as object != error as object
    requires Bits(buffer[..])[..block] == SetControls(Working(r, block))
    requires 0 <= count <= i <= 7 && ib == Pow2(i) < block
    requires ctrl[..ControlCount(block)] == Controls(r, ControlCount(block))
    requires error[..count] + ErrorsFrom(r, i) == Errors(r)
    modifies error
    ensures count <= count' <= count + 1 && error[..count'] + ErrorsFrom(r, i + 1) == Errors(r)
  {
    Pow2Small(i);
    Pow2Order(i, ControlCount(block));
    ControlsAt(r, ControlCount(block), i);
    assert ctrl[i] == ctrl[..ControlCount(block)][i];
    ghost var before := error[..count];
    var c := BufferBit(buffer[..], ib);
    ErrorsNext(r, block, i, Bits(buffer[..]), c);
    if ctrl[i] != c {
      error[count] := ib;
      assert error[..count + 1] == before + [ib];
      count' := count + 1;
    } else {
      count' := count;
    }
    ErrorsKeep(before, ib, ctrl[i] != c, ErrorsFrom(r, i), ErrorsFrom(r, i + 1), Errors(r), error[..count']);
  }

  lemma ErrorsKeep(before: seq<int>, ib: int, m: bool, es: seq<int>, es': seq<int>, all: seq<int>, after: seq<int>)
    requires before + es == all && es == (if m then [ib] else []) + es'
    requires after == if m then before + [ib] else before
    ensures after + es' == all
  {
    if !m {
      assert es == es';
    }
  }

  /**
   * The correction step of `Decode`: if any check failed, the position the
   * failing positions add up to (at most 127, so the `unsigned char` sum
   * never wraps) is inverted; the data positions then hold the decoded data.
   */
  method Correct(buffer: array<bv8>, error: array<int>, count: int, block: int, ghost r: seq<bool>)
    requires 3 <= block <= 80 && |r| == block && buffer.Length == 10 && error.Length == 10
    requires 0 <= count <= 7 && error[..count] == Errors(r) && Syndrome(r) <= 80
    requires Bits(buffer[..])[..block] == SetControls(Working(r, block))
    modifies buffer
    ensures count > 0 ==> 1 <= Syndrome(r) && Bits(buffer[..]) == old(Bits(buffer[..]))[Syndrome(r) - 1 := !old(Bits(buffer[..]))[Syndrome(r) - 1]]
    ensures count == 0 ==> buffer[..] == old(buffer[..])
    ensures DataBits(Bits(buffer[..])[..block]) == DecodeBlock(r)
  {
    ghost var w := Bits(buffer[..]);
    if count > 0 {
      var badBit := SumErrors(error, count);
      assert badBit == Syndrome(r);
      SyndromeBound(r);
      assert |Errors(r)| == count;
      FlipBit(buffer, badBit - 1);
      CorrectData(r, block, w, badBit);
    } else {
      NoCorrect(r, block, w);
    }
  }

  /** The loop adding up the failing positions: `bad_bit += error[i]`. */
  method SumErrors(error: array<int>, count: int) returns (sum: int)
    requires 0 <= count <= error.Length
    ensures sum == Sum(error[..count])
  {
    sum := 0;
    var i := 0;
    while i < count
      invariant 0 <= i <= count && sum == Sum(error[..i])
    {
      SumSnoc(error[..count], i);
      assert error[..count][..i + 1] == error[..i + 1] && error[..count][..i] == error[..i];
      sum := sum + error[i];
      i := i + 1;
    }
  }

  /** The decoder's buffer after reading the first m bits of s into a block of size block. */
  ghost function DecodeView(s: seq<bool>, m: int, block: int): seq<bool>
    requires 0 <= m <= |s| && m <= 80
  {
    Working(s[..m], block) + Zeros(80 - m)
  }

  lemma DecodeStart(s: seq<bool>, block: int)
    ensures DecodeView(s, 0, block) == Zeros(80)
  {
    assert Working(s[..0], block) == [];
  }

  /** One more bit read: a control position below block stays 0, any other takes the bit. */
  lemma DecodeNext(s: seq<bool>, m: int, block: int, w: seq<bool>, b: bool, w': seq<bool>)
    requires 0 <= m < |s| && m < 80 && w == DecodeView(s, m, block)
    requires b == (!IsControl(m + 1, block) && s[m])
    requires w' == w[..m] + [b] + Zeros(80 - (m + 1))
    ensures w' == DecodeView(s, m + 1, block)
  {
    assert w[..m] == Working(s[..m], block);
    var a, c := Working(s[..m + 1], block), Working(s[..m], block) + [b];
    forall t | 0 <= t <= m
      ensures a[t] == c[t]
    {
    }
  }

  /** The input ran out before position ib: the buffer holds all of it. */
  lemma DecodeEnd(s: seq<bool>, ib: int, block: int)
    requires 1 <= ib <= 81 && |s| == ib - 1
    ensures DecodeView(s, ib - 1, block) == Working(s, block) + Zeros(80 - |s|)
  {
    assert s[..ib - 1] == s;
  }

  /**
   * Reading position ib, the control bits taken so far are those of the
   * powers of two 2^0 .. 2^(i-1), which are exactly the ones below ib (and
   * below block).
   */
  ghost predicate CtrlsRead(i: int, ib: int, block: int)
  {
    0 <= i <= 7 && (i == 0 || (Pow2(i - 1) < ib && Pow2(i - 1) < block)) && (Pow2(i) >= ib || Pow2(i) >= block)
  }

  /** A control position: it is the next power of two, 2^i. */
  lemma CtrlNext(i: int, ib: int, block: int)
    requires CtrlsRead(i, ib, block) && 1 <= ib < block <= 80 && IsPowOf2(ib)
    ensures ib == Pow2(i) && i < 7 && CtrlsRead(i + 1, ib + 1, block)
  {
    PowOf2Iff(ib);
    PowExact(i, Log2(ib));
    assert Pow2(7) == 128;
    Pow2Order(i, 7);
  }

  /** The control bit at 2^i read after the first i. */
  lemma ControlsSnoc(s: seq<bool>, i: int, ib: int, block: int, taken: seq<bool>, bit: bool)
    requires CtrlsRead(i, ib, block) && 1 <= ib < block <= 80 && IsPowOf2(ib)
    requires ib <= |s| && bit == s[ib - 1] && taken == Controls(s, i)
    ensures CtrlsRead(i + 1, ib + 1, block) && taken + [bit] == Controls(s, i + 1)
  {
    CtrlNext(i, ib, block);
  }

  /** The power 2^k lies above 2^(i-1) and not above 2^i: it is 2^i. */
  lemma PowExact(i: nat, k: nat)
    requires Pow2(k) <= Pow2(i) && (i == 0 || Pow2(i - 1) < Pow2(k))
    ensures i == k
  {
    Pow2Order(k, i);
    if i > 0 {
      Pow2Order(i - 1, k);
    }
  }

  /** Any other position: the count of control bits read stays. */
  lemma CtrlSame(i: int, ib: int, block: int)
    requires CtrlsRead(i, ib, block) && 1 <= ib <= block && !(IsPowOf2(ib) && ib != block)
    ensures CtrlsRead(i, ib + 1, block)
  {
    PowOf2IsPow2(i);
  }

  /** A full block read: the buffer and the control bits as ReadBlock promises them. */
  lemma BlockRead(s: seq<bool>, block: int, i: int, w: seq<bool>, c: seq<bool>)
    requires 3 <= block <= 80 && block <= |s| && CtrlsRead(i, block + 1, block)
    requires w == DecodeView(s, block, block) && c == Controls(s, i)
    ensures i == ControlCount(block) && w == Working(s[..block], block) + Zeros(80 - block)
    ensures c == Controls(s[..block], ControlCount(block))
  {
    CtrlsAll(i, block);
    ControlsPrefix(s, i, block);
  }

  /** After the whole block, every power of two below block was taken. */
  lemma CtrlsAll(i: int, block: int)
    requires CtrlsRead(i, block + 1, block) && 1 <= block <= 80
    ensures i == ControlCount(block)
  {
    StopAt(block, 0, i);
  }

  /** StopFrom(n, k) is the one exponent i from k on with 2^(i-1) < n <= 2^i. */
  lemma {:induction false} StopAt(n: int, k: nat, i: nat)
    requires k <= i && Pow2(i) >= n && (i == 0 || Pow2(i - 1) < n)
    ensures StopFrom(n, k) == i
    decreases i - k
  {
    if Pow2(k) >= n {
      if k < i {
        Pow2Order(k, i - 1);
      }
    } else {
      StopAt(n, k + 1, i);
    }
  }

  /** The number of control positions of an n-bit block: the powers of two below n. */
  function ControlCount(n: int): (k: nat)
    requires 1 <= n <= 80
    ensures k <= 7 && Pow2(k) >= n && (k == 0 || Pow2(k - 1) < n)
  {
    var k := StopFrom(n, 0);
    assert Pow2(7) == 128;
    if k > 0 then Pow2Order(k - 1, 7); k else k
  }

  /** The received control bits of s, at positions 2^0 .. 2^(k-1), in the order the decoder takes them. */
  ghost function Controls(s: seq<bool>, k: nat): (c: seq<bool>)
    requires k == 0 || Pow2(k - 1) <= |s|
    ensures |c| == k
  {
    if k == 0 then [] else Controls(s, k - 1) + [s[Pow2(k - 1) - 1]]
  }

  lemma {:induction false} ControlsAt(s: seq<bool>, k: nat, j: nat)
    requires (k == 0 || Pow2(k - 1) <= |s|) && j < k
    ensures Pow2(j) <= |s| && Controls(s, k)[j] == s[Pow2(j) - 1]
  {
    if j < k - 1 {
      ControlsAt(s, k - 1, j);
    }
  }

  lemma {:induction false} ControlsPrefix(s: seq<bool>, k: nat, m: int)
    requires (k == 0 || Pow2(k - 1) <= m) && 0 <= m <= |s|
    ensures Controls(s[..m], k) == Controls(s, k)
  {
    if k > 0 {
      ControlsPrefix(s, k - 1, m);
    }
  }

  /** The control positions of the decoder's working buffer are 0. */
  lemma WorkingControls(r: seq<bool>, block: int, w: seq<bool>)
    requires |r| == block <= 80 && w == Working(r, block) + Zeros(80 - block)
    ensures forall p :: IsControl(p, block) ==> !w[p - 1]
  {
  }

  /** The control loop leaves the recomputed parities in positions 1..block. */
  lemma WorkingSet(r: seq<bool>, block: int, w: seq<bool>)
    requires |r| == block <= 80
    requires w == SetControls((Working(r, block) + Zeros(80 - block))[..block]) + (Working(r, block) + Zeros(80 - block))[block..]
    ensures |w| == 80 && w[..block] == SetControls(Working(r, block))
  {
    assert (Working(r, block) + Zeros(80 - block))[..block] == Working(r, block);
  }

  lemma Pow2Small(i: nat)
    requires Pow2(i) < 80
    ensures i < 7
  {
    assert Pow2(7) == 128;
    Pow2Order(i, 7);
  }

  /**
   * Comparing the received control bit at 2^i with the recomputed one c
   * adds 2^i to the failing positions exactly when they differ.
   */
  lemma ErrorsNext(r: seq<bool>, block: int, i: nat, w: seq<bool>, c: bool)
    requires |r| == block <= |w| && Pow2(i) < block
    requires w[..block] == SetControls(Working(r, block)) && c == w[Pow2(i) - 1]
    ensures ErrorsFrom(r, i) == (if r[Pow2(i) - 1] != c then [Pow2(i)] else []) + ErrorsFrom(r, i + 1)
  {
    PowOf2IsPow2(i);
    assert c == SetControls(Working(r, |r|))[Pow2(i) - 1];
  }

  lemma {:induction false} SumSnoc(s: seq<int>, i: int)
    requires 0 <= i < |s|
    ensures Sum(s[..i + 1]) == Sum(s[..i]) + s[i]
    decreases i
  {
    if i == 0 {
      assert s[..1][1..] == [];
    } else {
      SumSnoc(s[1..], i - 1);
      assert s[..i + 1][1..] == s[1..][..i];
      assert s[..i][1..] == s[1..][..i - 1];
    }
  }

  /** Inverting the syndrome's position of the recomputed block corrects its data positions. */
  lemma CorrectData(r: seq<bool>, block: int, w: seq<bool>, e: int)
    requires |r| == block <= 80 && |w| == 80 && w[..block] == SetControls(Working(r, block))
    requires |Errors(r)| > 0 && e == Syndrome(r) && 1 <= e <= 80
    ensures DataBits(w[e - 1 := !w[e - 1]][..block]) == DecodeBlock(r)
  {
    var a, b := w[e - 1 := !w[e - 1]][..block], Corrected(r);
    forall p | 1 <= p <= block && DataPos(p)
      ensures a[p - 1] == b[p - 1]
    {
      assert SetControls(Working(r, block))[p - 1] == r[p - 1];
    }
    DataBitsAgree(a, b);
  }

  /** No check failed: the data positions are those received. */
  lemma NoCorrect(r: seq<bool>, block: int, w: seq<bool>)
    requires |r| == block <= 80 && |w| == 80 && w[..block] == SetControls(Working(r, block))
    requires |Errors(r)| == 0
    ensures DataBits(w[..block]) == DecodeBlock(r)
  {
    var a := w[..block];
    forall p | 1 <= p <= block && DataPos(p)
      ensures a[p - 1] == r[p - 1]
    {
      assert SetControls(Working(r, block))[p - 1] == r[p - 1];
    }
    DataBitsAgree(a, r);
  }

  /**
   * The decoder's output byte holds the bits emitted since the last whole
   * byte in its top 8 - pos bits and zeros below them.
   */
  ghost predicate ByteHolds(byte: bv8, pos: int, e: seq<bool>)
  {
    1 <= pos <= 8 && |e| % 8 == 8 - pos && ByteBits(byte) == WholeTail(e) + Zeros(pos)
  }

  /** Setting the next bit of the output byte, which completes it when pos was 1. */
  lemma PutStep(byte: bv8, pos: int, e: seq<bool>, bit: bool, byte': bv8)
    requires ByteHolds(byte, pos, e) && byte' == byte ^ (if bit then Mask(pos - 1) else 0)
    ensures pos == 1 ==> ByteHolds(0, 8, e + [bit]) && PackWhole(e + [bit]) == PackWhole(e) + [byte']
    ensures pos > 1 ==> ByteHolds(byte', pos - 1, e + [bit]) && PackWhole(e + [bit]) == PackWhole(e)
  {
    var tail := WholeTail(e);
    SetByteBit(byte, pos, bit, byte');
    TailBit(tail, pos, bit, ByteBits(byte), ByteBits(byte'));
    if pos == 1 {
      SnocCompletes(e, bit);
      PackByteBits(byte');
      ZeroByteBits();
    } else {
      SnocPending(e, bit);
    }
  }

  /** `byte ^= bit << (pos - 1)` sets bit 8 - pos (most significant first) of a byte where it is 0. */
  lemma SetByteBit(byte: bv8, pos: int, bit: bool, byte': bv8)
    requires 1 <= pos <= 8 && !ByteBits(byte)[8 - pos] && byte' == byte ^ (if bit then Mask(pos - 1) else 0)
    ensures ByteBits(byte') == ByteBits(byte)[8 - pos := bit]
  {
    if bit {
      FlipByte(byte, 8 - pos);
    } else {
      XorZero(byte);
    }
  }

  lemma TailBit(tail: seq<bool>, pos: int, bit: bool, b: seq<bool>, b': seq<bool>)
    requires 1 <= pos <= 8 && |tail| == 8 - pos && b == tail + Zeros(pos) && b' == b[8 - pos := bit]
    ensures b' == (tail + [bit]) + Zeros(pos - 1)
  {
    assert b'[..8 - pos] == tail;
  }

  lemma DataBitsStart(w: seq<bool>)
    requires |w| >= 2
    ensures DataBits(w[..2]) == []
  {
    assert w[..2][..1] == w[..1];
    assert w[..1][..0] == [];
  }

  /** Position i of the write loop: emitted exactly when it is a data position. */
  lemma EmitStep(e: seq<bool>, w: seq<bool>, i: int, x: seq<bool>)
    requires 3 <= i <= |w| && x == e + DataBits(w[..i - 1])
    ensures e + DataBits(w[..i]) == if DataPos(i) then x + [w[i - 1]] else x
  {
    assert w[..i][..i - 1] == w[..i - 1];
  }

  lemma EmitBit(all: seq<bool>, x: seq<bool>, bit: bool, rest: seq<bool>)
    requires all == x + ([bit] + rest)
    ensures all == (x + [bit]) + rest
  {
  }

  /** One step of the end-of-input scan over a ten-byte buffer. */
  lemma ScanNext(bytes: seq<bv8>, i: int)
    requires |bytes| == 10 && 1 <= i <= 80 && bytes[(i - 1) / 8] != 0
    ensures Scan(Bits(bytes), i) == (if IsPowOf2(i) then [] else [Bits(bytes)[i - 1]]) + Scan(Bits(bytes), i + 1)
  {
    var k, w := (i - 1) / 8, Bits(bytes);
    ByteOfBits(bytes, k);
    NonzeroByte(bytes[k]);
    assert true in w[8 * k .. 8 * k + 8];
  }

  /** The scan stops past the buffer or at a byte that is 0. */
  lemma ScanStop(bytes: seq<bv8>, i: int)
    requires |bytes| == 10 && 1 <= i <= 81 && (i <= 80 ==> bytes[(i - 1) / 8] == 0)
    ensures Scan(Bits(bytes), i) == []
  {
    if i <= 80 {
      var k, w := (i - 1) / 8, Bits(bytes);
      ByteOfBits(bytes, k);
      NonzeroByte(bytes[k]);
      assert !(true in w[8 * k .. 8 * k + 8]);
    }
  }

  /** The decoder's output once the input has run out. */
  lemma DecodeTail(s0: seq<bool>, e: seq<bool>, out: seq<bool>, rest: seq<bool>, block: int)
    requires 3 <= block <= 80 && DecodeBits(s0, block) == e + DecodeBits(rest, block) && out == DecodeBits(rest, block)
    ensures DecodeBits(s0, block) == e + out
  {
  }
}
