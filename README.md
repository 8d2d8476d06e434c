# Hamming codec (hamcode) in Dafny

This project models the bit-level Hamming codec of `hamcode`, and proves
properties about the model. The codec has five parts:

- **Bit reader.** `Pop` hands out the bits of the input file one at a time,
  most significant first, through the globals `pop_buffer` and `pop_pos`.
- **Bit writer.** `Push` and `Write` pack bits most significant first into
  the ten-byte `push_buffer`, and write only whole bytes.
- **Encoder.** `Encode` lays out each block of `block` bits, numbered
  1..block:
  - data bits go at the positions from 3 on that are not powers of two;
  - each power-of-two position c below block gets the parity of its group,
    which is the positions whose c bit is set.
- **Decoder.** `Decode` reads a block and takes out its control bits. It
  recomputes the parity with the same loop and collects the control
  positions whose checks fail. It inverts the bit at the sum of those
  positions (the syndrome) and emits the data positions.
- **Stream drivers.** The `while (1)` loops of both functions, including a
  final block that the end of the input cuts short.

## Files

- `bits.dfy` (module `BitStreams`): bytes as bit streams, most significant
  bit first.
  - `Bits` and `Pack` convert between bytes and bits.
  - `PackWhole` gives the whole bytes of a stream and `WholeTail` its
    partial last byte.
  - `Mask` and `GetBit` are the C bit tests and masks.
- `hamming.dfy` (module `Hamming`): one code word as a pure specification.
  - `Place` lays out the data and `SetControls` sets the control bits;
    together they make `EncodeBlock`.
  - `Working`, `Errors`, `Syndrome`, `Corrected` and `DecodeBlock` describe
    the decoder.
  - The main lemmas: the parity invariant, the syndrome of a single
    inverted bit, and the correction of any single-bit error.
- `streams.dfy` (module `Streams`): whole files as pure specifications.
  - `EncodeBlocks`, `EncodedBits` and `EncodeFile` give what the encoder
    writes.
  - `Scan`, `TailBits`, `DecodeBits` and `DecodeFile` give what the
    decoder writes.
  - The file round trip is proved here.
- `hamcode.dfy` (module `Hamcode`): the program itself, as imperative
  Dafny.
  - Class `Codec` holds the four globals and has `Pop`, `Push`, `Write`,
    `Encode` and `Decode` as methods. The ten-byte `buffer` of `Encode` and
    `Decode`, and the decoder's `ctrl_bit` and `error`, are arrays updated
    in place.
  - `InFile` and `OutFile` stand for the two `FILE *`:
    - `Getc` is `fgetc`, and its `eof` field is the `feof` flag;
    - `Putc` is `fputc`, appending to `written`.
  - `RunEncode` and `RunDecode` are each one run of the program over a
    whole file, from fresh globals. `EncodeThenDecode8` chains the two at
    block size 8.
  - Every loop of the source is a `while` loop with its invariants. Each
    one is proved against the specification functions of the other
    modules.

Where this model departs from a plain reading of the codec's description,
it follows `main.c`:

- Position 1 is a control bit like every other power of two below `block`.
- A final block cut short by the end of the input is zero-padded and
  encoded as a full code word.
- When `block` is itself a power of two, position `block` is neither a
  control nor a data position. The encoder always leaves it 0. The decoder
  keeps the received bit in its buffer but never emits it.
- At the end of the input the encoder pushes `block - 1` zero bits, and
  only when a byte is pending. So the bits of a pending byte reach the file
  only when `block - 1` is at least the number missing from that byte;
  `Streams.PadFlush` states this exactly.
- The decoder never writes a partial last byte.
- A final block cut short is zero-padded, and the decoder emits that
  padding as data. So the decoded file can be longer than the original,
  with zero bytes at its end. At block size 32, for example, a one-byte
  file decodes to that byte followed by two zero bytes
  (`Streams.PadExtraPow2`).
- So the byte-for-byte round trip is proved under two hypotheses: the data
  bits fill a whole number q of blocks, and q code words end on a byte
  boundary (`Streams.RoundTripAligned`). At the default block size 8 both
  always hold, so any file round trips (`Streams.RoundTrip8`). When the
  last block is short and the code words still end on a byte boundary, the
  decoded file is the original followed by the whole bytes of the padding
  (`Streams.RoundTripPadded`).

## Model

| member | source | states |
|---|---|---|
| Hamcode.RunEncode | main.c:264-348 | one encoding run from fresh globals over a whole file writes exactly `EncodeFile(data, block)` |
| Hamcode.RunDecode | main.c:351-462 | one decoding run from fresh globals over a whole file whose syndromes fit writes exactly `DecodeFile(data, block)` |
| Hamcode.EncodeThenDecode8 | main.c:264-462 | an encoding run at block size 8, then a decoding run over its output with at most one inverted bit per code word, gives back the original file; the decoder's `SyndromesFit` requirement is discharged |
| Hamcode.Codec.constructor | main.c:79-82 | the globals start at zero: empty writer buffer, no bits pending, reader byte empty |
| Hamming.PowOf2Iff | main.c:202-204 | `isPowOf2(v)` holds exactly when v is at least 1 and equal to 2 to the power floor(log2 v) |
| Hamming.PowOf2Step | main.c:202-204 | for v at least 2, v passes `isPowOf2` exactly when v is even and v / 2 passes it |
| Hamming.PowOf2IsPow2 | main.c:202-204 | every 2^k passes `isPowOf2` |
| Hamcode.Codec.Write | main.c:208-220 | appends to the file the whole bytes of the pending bits, in order (a partial last byte is dropped); afterwards the buffer is all zero and nothing is pending |
| Hamcode.Codec.Push | main.c:226-242 | without `write`, the pending bits grow by exactly the new bit and the file is unchanged; with `write`, the whole bytes of the old pending bits plus the new bit are written and nothing is left pending |
| BitStreams.BitsAt | main.c:236 | bit t of a byte stream is bit t % 8, most significant first, of byte t / 8 (the placement `Push` uses for bit `push_pos - 1`) |
| Hamcode.Codec.Pop | main.c:247-261 | returns the first of the bits still to read (1 or 0) and drops it from them; with none left it returns -1 and sets the end-of-file flag; the reader stays valid (`pop_pos` in 0..7), so every later call also returns -1 |
| Hamcode.Codec.Load | main.c:252-258 | `fgetc` into the reader's byte: at the end of the file nothing is left to read; otherwise `pop_pos` is 8 and the byte's eight bits, then the rest of the file, are what remains |
| Hamcode.Codec.Shift | main.c:259-260 | hands out bit `pop_pos - 1` of the reader's byte, which is the first bit still to read |
| Hamcode.Codec.PopAt | main.c:247-261 | `Pop` at offset k of a known bit stream s: -1 exactly when k is its end, otherwise bit s[k], after which the rest from k + 1 is still to read |
| Hamcode.Codec.Encode | main.c:264-348 | reads the whole input; the file gains the whole bytes of `EncodedBits(pending, input, block)` (the bits already pending, every code word, and the `block - 1` zero pad when they end inside a byte), and the partial last byte of that stream is left pending |
| Hamcode.Codec.EncodeRound | main.c:279-347 | one turn of the encoder loop: either the input was empty, and the pad is accounted for, or a code word `word` was pushed, with `EncodeBlocks(s) == word + EncodeBlocks(rest)` and strictly less input left |
| Hamcode.Codec.EncodeRest | main.c:289-346 | after a block was read: with no data read (exactly when got is 0) the input is empty and the pad is pushed; otherwise the next code word is pushed |
| Hamcode.Codec.ReadData | main.c:283-316 | reads min(remaining, DataCount(block)) bits, in order, into the data positions 3..block of the cleared buffer (`Place`); every other position stays 0, and exactly those bits are consumed |
| Hamcode.Codec.ReadPos | main.c:284-315 | at a data position reads the next datum into position ib, or reports the end of the input with nothing consumed; at a power of two reads nothing |
| Hamcode.Codec.PlaceBit | main.c:314 | position ib of the buffer takes the next datum, and the buffer is the layout of one more datum |
| Hamcode.Codec.EncodePad | main.c:290-309 | the end-of-input path: with a byte pending, pushes positions 1..block-1 of the all-zero buffer; the written bytes and pending bits are those of `x + Zeros(block - 1)`, or of x when nothing was pending |
| Hamcode.Codec.EncodeWord | main.c:318-346 | sets the control bits, then pushes positions 1..block; what was pushed is the code word `EncodeBlock` of the data read, the first code word of `EncodeBlocks(s)` |
| Hamcode.Codec.PushBits | main.c:293-307 | pushing positions 1..count of the buffer, writing a byte whenever `push_pos` reaches 8: the file gains the whole bytes of the pending bits followed by those count bits, and their tail stays pending (`push_pos` stays in 0..7) |
| Hamcode.Codec.PushOne | main.c:333-345 | one `Push` with `write` set exactly when `push_pos == 7`: the written bytes and pending bits follow the stream x extended by the bit at position i |
| Hamcode.SetControlBits | main.c:319-329 | the control loop: the first block positions become `SetControls` of themselves (every control position gets its group's parity, nothing else changes) and positions after block are untouched |
| Hamcode.SetControlBit | main.c:320-328 | one pass of the `ib` loop: only position ib changes, and it becomes the parity of group ib over positions 1..block |
| Hamcode.NextRunStart | main.c:320-327 | one run of the `i` loop and the jump `i = v; i += ib` past the gap: control position ib holds the parity up to the end of the run, and the next start is an odd multiple of ib |
| Hamcode.VisitRun | main.c:321-326 | the innermost loop adds the run [i, i + ib) cut at block to control position ib's parity and stops at min(i + ib, block + 1) |
| Hamcode.VisitOne | main.c:322-325 | a set bit at a position of group ib inverts control position ib, and a clear one leaves it alone |
| Hamcode.BufferBit | main.c:297 | the test `(buffer[(i-1)/8] & (1 << (7 - (i-1)%8))) && 1` (also main.c:303, 323, 336, 342, 389, 416, 427 and 449) reads position i, counted from 1, of the buffer's bit stream |
| Hamcode.FlipBit | main.c:324 | `buffer[t / 8] ^= 1 << (7 - t % 8)` inverts bit t of the buffer and no other |
| Hamcode.SetBit | main.c:314 | XOR-ing a bit into a buffer that is 0 from position t on sets position t to that bit and leaves the rest |
| Hamming.EncodeParity | main.c:319-329 | every control position of a code word equals the parity of the other positions of its group (its whole group has even parity) |
| Hamming.EncodeWorking | main.c:319-329 | clearing the control positions of a code word gives back the data layout, so no data position is changed by the control loop |
| Hamming.EncodeData | main.c:283-316 | the data positions of a code word, read in order, are the data bits (zero-padded if fewer than DataCount(block)) |
| Hamming.EncodeLast | main.c:319 | when block is a power of two, position block of every code word is 0 |
| Hamming.PlaceData | main.c:283-316 | the data positions of the layout `Place(d, n)`, read in order, are d cut or zero-padded to DataCount(n) |
| Hamcode.Codec.Decode | main.c:351-462 | with every full block's syndrome inside the buffer: reads the whole input; the file gains the whole bytes of `DecodeBits(input, block)` and `push_pos` is 8 minus the number of bits of its partial last byte |
| Hamcode.Codec.DecodeLoop | main.c:372-461 | the `while (1)` loop of `Decode`, from `push_pos == 8` and an empty output byte: same contract as `Decode` |
| Hamcode.Codec.DecodeRound | main.c:372-461 | one turn: a short block is emitted by the end-of-input scan and ends the decoder (`TailBits`); a full block r emits `DecodeBlock(r)` and leaves strictly less input |
| Hamcode.Codec.DecodeFull | main.c:411-456 | for a full block r whose syndrome fits: recompute, compare, correct and emit; the emitted bits are `DecodeBlock(r)` |
| Hamcode.Codec.ReadBlock | main.c:378-409 | reads up to block bits: full exactly when block bits were left; the buffer holds the bits read with the control positions below block cleared (`Working`), and ctrl holds the control bits in increasing order; a short read consumes everything |
| Hamcode.Codec.ReadLoop | main.c:380-409 | the reading loop: either the input ended inside the block (then all of it is in the buffer in working form) or block bits were read, with the control bits taken so far recorded |
| Hamcode.Codec.ReadOne | main.c:381-408 | one step of the reading loop at position ib, or the end of the input with the buffer in working form |
| Hamcode.Codec.TakeBit | main.c:400-408 | a control position below block goes to ctrl[i] (and i advances) and stays 0 in the buffer; any other position, block included, keeps the bit read |
| Hamcode.Codec.TakeControl | main.c:403-404 | `ctrl_bit[i] = bit; i++`: ctrl holds the control bits of positions 1, 2, ... up to ib |
| Hamcode.Codec.TakeData | main.c:402-407 | position ib of the buffer becomes the bit read, or 0 at a control position below block |
| Hamcode.CompareControls | main.c:424-432 | error[0..count) lists, in increasing order, exactly the control positions whose received bit differs from the recomputed one (`Errors`) |
| Hamcode.CompareOne | main.c:426-431 | one comparison: position ib is appended to the error list exactly when its check fails |
| Hamcode.Correct | main.c:434-443 | with failing checks, the sum of the failing positions is at least 1 and the buffer is the old one with exactly that bit inverted; with none, the buffer is unchanged; either way the data positions then read `DecodeBlock(r)` |
| Hamcode.SumErrors | main.c:437-440 | `bad_bit` is the sum of error[0..count) |
| Hamcode.Codec.WriteData | main.c:446-456 | emits the data positions 3..block of the buffer in order, each byte written as soon as 8 bits are in it |
| Hamcode.Codec.PutBit | main.c:448-454 | puts one bit at `push_pos - 1` of the output byte, most significant first; a full byte is written and a new one started |
| Hamcode.Codec.WriteRemain | main.c:386-396 | the end-of-input scan: emits `Scan(buffer, 3)`, the positions from 3 that are not powers of two while the byte holding the position is nonzero |
| Hamcode.Clear | main.c:280 | `memset(buffer, 0, 10)`: all 80 bits are 0 |
| Hamming.MismatchSingle | main.c:424-432 | for a code word with position e inverted (0 for none), the check of control position c fails exactly when e lies in c's group |
| Hamming.SyndromeSingle | main.c:434-441 | the syndrome of a code word with position e inverted is e, or 0 when e is block and block is a power of two |
| Hamming.CorrectsSingleError | main.c:434-456 | decoding a code word with at most one inverted bit gives back its data bits |
| Hamming.RoundTripBlock | main.c:264-462 | for DataCount(n) data bits d, decoding the code word of d with at most one inverted bit gives d |
| Hamming.ErrorsBound | main.c:437-440 | the failing positions from 2^k on add up to at most 2^s - 2^k (2^s being the first power of two reaching the block size), and to at least 1 when there is one |
| Hamming.SyndromeBound | main.c:437-441 | in a block of at most 80 bits, the syndrome is below 128, so the `unsigned char bad_bit` never wraps; it is at least 1 when a check fails |
| Streams.RoundTrip8 | main.c:264-462 | at the default block size 8 (the default of `main`), decoding the encoding of any file gives the file back |
| Streams.RoundTrip8Flipped | main.c:264-462 | at block size 8, a received file with at most one inverted bit in each code word still decodes to the original file |
| Streams.RoundTripAligned | main.c:264-462 | when the data bits fill exactly q blocks (8 times the file length is q times the data positions per block) and q code words end on a byte boundary, decoding the encoded file with at most one inverted bit per code word gives the original file |
| Streams.RoundTripPadded | main.c:264-462 | when the data bits need q blocks, the last one zero-padded, and q code words end on a byte boundary, decoding the encoded file with at most one inverted bit per code word gives the original file followed by the whole bytes of the padding, as zero bytes |
| Streams.PadExtraPow2 | main.c:283-316 | at block size 2^k (16, 32 or 64) there are 2^k - k - 1 data positions, a one-byte file encodes to 2^k / 8 bytes, and it decodes to that byte followed by (2^k - k - 9) / 8 zero bytes |
| Streams.EncodePadded | main.c:283-316 | zero-padding the data of a short last block does not change the code words |
| Hamming.DataCountPow2 | main.c:283-316 | a block of 2^k bits, for k at least 1, has 2^k - k - 1 data positions |
| Streams.RoundTripBlocks | main.c:372-461 | decoding the code-word stream of q full blocks of data, each with at most one inverted bit, gives the data back, and every syndrome fits the buffer |
| Streams.EncodeFileAligned | main.c:332-346 | when the code words end on a byte boundary, the encoded file holds exactly the code words |
| Streams.EncodeEmpty | main.c:289-309 | an empty input writes nothing |
| Streams.PadFlush | main.c:290-309 | the encoded file is the pushed stream cut to whole bytes; every code word bit reaches the file exactly when the stream ends on a byte boundary or block - 1 is at least the number of bits missing from the last byte |
| Streams.TailEmpty | main.c:384-397 | an input that ends at a block boundary leaves nothing for the end-of-input scan to emit |
| Streams.ScanZeros | main.c:386 | over an all-zero buffer the end-of-input scan emits nothing |
| Streams.PackWholeBits | main.c:215-216 | packing the bit stream of a file gives the file back |
| BitStreams.BitsOfPackWhole | main.c:215-216 | the bits of the written whole bytes are the pushed stream without its partial last byte |
| BitStreams.FlipBitAt | main.c:324 | XOR-ing `Mask(7 - t % 8)` into byte t / 8 inverts bit t of the stream and no other (the same update as main.c:417 and main.c:441) |
| BitStreams.GetBit | main.c:34-35 | `GET_BIT(x, s)` is bit 7 - s, most significant first, of x |

## Left out

- `main` and `ChangeExtension`: they are argument parsing and file naming,
  not part of the codec.
- `fopen` and `fclose`: files are modelled as `InFile` (a byte sequence, a
  read position and the end-of-file flag) and `OutFile` (the bytes written).
- Console messages (`printerr`) and the null-pointer checks, including the
  -2 result of `Pop`: the files are never null here.
- `block` outside 3..80: with block below 3 the encoder's read loop never
  reads and `Encode` loops forever; above 80 the ten-byte buffer overflows.
  Every operation requires 3 <= block <= 80.
- Hamcode.Codec.Decode: requires every full block's syndrome to be at most
  80 (`SyndromesFit`). A block with several inverted bits can name a
  position past the buffer, which the source writes out of bounds.
  `Streams.RoundTripBlocks` proves that this holds for any code-word stream
  with at most one inverted bit per block.
- The file round trip when the code words do not end on a byte boundary
  is not stated as a lemma. There the `block - 1` zero bits of the pad
  decide which bits reach the file, and `Streams.PadFlush` states exactly
  when they all do.
- Hamcode.Codec.WriteRemain: the end-of-input scan stops at position 80.
  The source has no bound there, and reads past the buffer when all ten of
  its bytes are nonzero.
- The re-check of the end of file after the writing loop of `Decode` is not
  modelled. It can never succeed: a full block ends with a successful
  `Pop`, which leaves the end-of-file flag clear.
- The `memset` of `ctrl_bit` and `error` at the start of each decoder round
  is not modelled. The model reads only entries written in the same round.
- `error_count` and `bad_bit` are locals of each round (`count`, `sum`).
  In the source, `bad_bit` is reset at the start of every round, and
  `error_count` is back to 0 after every correction.
- Platform details: `CHAR_BIT` is 8. Signed `char` values are modelled as
  their bit patterns (`bv8`), and a byte from `fgetc` is stored in the
  reader's byte as `c % 256`.
