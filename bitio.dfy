/** Bit packing of the payload. Bits go into bytes most significant bit
    first; the last, partial byte is padded with zero bits. Three forms of
    the same packing appear: the `BitWriter`/`BitReader` structs, the global
    `bitBuffer[8]`/`bitIndex` writer whose flush shifts the pending bits up,
    and the `readBit(in, &bitPos, &currentByte)` reader. */
module BitIO {
  import opened Types
  import opened Codes

  // ----- The packing, as functions -----

  /** The byte with only bit `i` set, counting from the most significant. */
  function Mask(i: nat): byte
    requires i < 8
  {
    if i == 0 then 0x80 else if i == 1 then 0x40 else if i == 2 then 0x20 else if i == 3 then 0x10
    else if i == 4 then 0x08 else if i == 5 then 0x04 else if i == 6 then 0x02 else 0x01
  }

  /** Bit `i` of a byte, counting from the most significant. */
  function BitAt(b: byte, i: nat): Bit
    requires i < 8
  {
    if b & Mask(i) == 0 then 0 else 1
  }

  /** The eight bits of a byte, most significant first. */
  function ByteBits(b: byte): (bits: seq<Bit>)
    ensures |bits| == 8 && forall i :: 0 <= i < 8 ==> bits[i] == BitAt(b, i)
  {
    seq(8, i requires 0 <= i < 8 => BitAt(b, i))
  }

  /** The bits a reader takes out of a byte stream, in order. */
  function UnpackBits(bytes: seq<byte>): (bits: seq<Bit>)
    ensures |bits| == 8 * |bytes|
  {
    if bytes == [] then [] else ByteBits(bytes[0]) + UnpackBits(bytes[1..])
  }

  function Zeros(n: nat): (z: seq<Bit>)
    ensures |z| == n && forall i :: 0 <= i < n ==> z[i] == 0
  {
    seq(n, _ => 0)
  }

  /** The number of pad bits after `n` payload bits. */
  function PadLength(n: nat): nat
  {
    (8 - n % 8) % 8
  }

  /** A full byte of bits does not change the padding. */
  lemma PadLengthShift(n: nat)
    requires n >= 8
    ensures PadLength(n) == PadLength(n - 8)
  {
    assert n % 8 == (n - 8) % 8;
  }

  /** The byte whose bits, most significant first, are `x`. */
  function ByteFrom(x: seq<Bit>): byte
    requires |x| == 8
  {
    (if x[0] == 1 then 0x80 else 0) | (if x[1] == 1 then 0x40 else 0) |
    (if x[2] == 1 then 0x20 else 0) | (if x[3] == 1 then 0x10 else 0) |
    (if x[4] == 1 then 0x08 else 0) | (if x[5] == 1 then 0x04 else 0) |
    (if x[6] == 1 then 0x02 else 0) | (if x[7] == 1 then 0x01 else 0)
  }

  /** The bytes a writer emits for `bits` once flushed. */
  function PackBits(bits: seq<Bit>): seq<byte>
    decreases |bits|
  {
    if |bits| == 0 then []
    else if |bits| >= 8 then [ByteFrom(bits[..8])] + PackBits(bits[8..])
    else [ByteFrom(bits + Zeros(8 - |bits|))]
  }

  // ----- Facts about single bytes -----

  lemma ByteFromBits(x: seq<Bit>)
    requires |x| == 8
    ensures ByteBits(ByteFrom(x)) == x
  {
  }

  lemma BitsDetermineByte(a: byte, b: byte)
    requires ByteBits(a) == ByteBits(b)
    ensures a == b
  {
    assert BitAt(a, 0) == BitAt(b, 0) && BitAt(a, 1) == BitAt(b, 1);
    assert BitAt(a, 2) == BitAt(b, 2) && BitAt(a, 3) == BitAt(b, 3);
    assert BitAt(a, 4) == BitAt(b, 4) && BitAt(a, 5) == BitAt(b, 5);
    assert BitAt(a, 6) == BitAt(b, 6) && BitAt(a, 7) == BitAt(b, 7);
  }

  /** `(b >> (7 - k)) & 1`. */
  function BitOf(b: byte, k: nat): int
    requires k < 8
  {
    ((b >> (7 - k)) & 1) as int
  }

  /** Shifting bit `k` down and masking it off reads bit `k`. */
  lemma ReadIsBitAt(b: byte, k: nat)
    requires k < 8
    ensures BitOf(b, k) == BitAt(b, k)
  {
    if k == 0 {} else if k == 1 {} else if k == 2 {} else if k == 3 {}
    else if k == 4 {} else if k == 5 {} else if k == 6 {} else {}
  }

  lemma MaskShift(k: nat)
    requires k < 8
    ensures (1 as byte) << (7 - k) == Mask(k)
  {
    if k == 0 {} else if k == 1 {} else if k == 2 {} else if k == 3 {}
    else if k == 4 {} else if k == 5 {} else if k == 6 {} else {}
  }

  lemma BitOfSetBit(b: byte, k: nat, i: nat)
    requires k < 8 && i < 8
    ensures BitAt(b | Mask(k), i) == if i == k then 1 else BitAt(b, i)
  {
    if k == 0 {} else if k == 1 {} else if k == 2 {} else if k == 3 {}
    else if k == 4 {} else if k == 5 {} else if k == 6 {} else {}
  }

  /** `buffer | (1 << (7 - k))`. */
  function WithBit(b: byte, k: nat): byte
    requires k < 8
  {
    b | (1 << (7 - k))
  }

  /** Setting bit `k` changes bit `k` and no other. */
  lemma SetBit(b: byte, k: nat)
    requires k < 8
    ensures ByteBits(WithBit(b, k)) == ByteBits(b)[k := 1]
  {
    MaskShift(k);
    var c := b | Mask(k);
    forall i | 0 <= i < 8 ensures ByteBits(c)[i] == ByteBits(b)[k := 1][i] {
      BitOfSetBit(b, k, i);
    }
  }

  /** `(byte << 1) | d` shifts the bits up and appends `d` at the bottom. */
  lemma ShiftIn(b: byte, d: Bit)
    ensures ByteBits((b << 1) | (d as byte)) == ByteBits(b)[1..] + [d]
  {
  }

  lemma BitOfShiftLeft(b: byte, s: nat, i: nat)
    requires s <= 8 && i < 8
    ensures BitAt(b << s, i) == if i + s < 8 then BitAt(b, i + s) else 0
  {
    if s == 0 {} else if s == 1 {} else if s == 2 {} else if s == 3 {}
    else if s == 4 {} else if s == 5 {} else if s == 6 {} else if s == 7 {} else {}
  }

  /** `byte <<= s` drops the top `s` bits and fills zeros at the bottom. */
  lemma ShiftLeft(b: byte, s: nat)
    requires s <= 8
    ensures ByteBits(b << s) == ByteBits(b)[s..] + Zeros(s)
  {
    forall i | 0 <= i < 8 ensures ByteBits(b << s)[i] == (ByteBits(b)[s..] + Zeros(s))[i] {
      BitOfShiftLeft(b, s, i);
    }
  }

  lemma ZeroByte()
    ensures ByteBits(0) == Zeros(8)
  {
  }

  // ----- Facts about streams -----

  lemma {:induction false} UnpackAppend(a: seq<byte>, b: seq<byte>)
    ensures UnpackBits(a + b) == UnpackBits(a) + UnpackBits(b)
    decreases |a|
  {
    if a == [] {
      assert a + b == b;
    } else {
      assert (a + b)[1..] == a[1..] + b;
      UnpackAppend(a[1..], b);
    }
  }

  /** Bit `k` of the stream is bit `k % 8` of byte `k / 8`. */
  lemma {:induction false} UnpackIndex(bytes: seq<byte>, k: nat)
    requires k < 8 * |bytes|
    ensures UnpackBits(bytes)[k] == BitAt(bytes[k / 8], k % 8)
    decreases |bytes|
  {
    if k >= 8 {
      UnpackIndex(bytes[1..], k - 8);
      UnpackIndexStep(bytes, k);
    }
  }

  lemma UnpackIndexStep(bytes: seq<byte>, k: nat)
    requires 8 <= k < 8 * |bytes|
    requires UnpackBits(bytes[1..])[k - 8] == BitAt(bytes[1..][(k - 8) / 8], (k - 8) % 8)
    ensures UnpackBits(bytes)[k] == BitAt(bytes[k / 8], k % 8)
  {
    assert (k - 8) / 8 == k / 8 - 1 && (k - 8) % 8 == k % 8;
    assert UnpackBits(bytes)[k] == UnpackBits(bytes[1..])[k - 8];
  }

  /** Different byte streams unpack to different bit streams. */
  lemma {:induction false} UnpackInjective(a: seq<byte>, b: seq<byte>)
    requires UnpackBits(a) == UnpackBits(b)
    ensures a == b
    decreases |a|
  {
    if a != [] {
      assert UnpackBits(a)[..8] == ByteBits(a[0]);
      assert UnpackBits(b)[..8] == ByteBits(b[0]);
      BitsDetermineByte(a[0], b[0]);
      assert UnpackBits(a)[8..] == UnpackBits(a[1..]);
      assert UnpackBits(b)[8..] == UnpackBits(b[1..]);
      UnpackInjective(a[1..], b[1..]);
    }
  }

  /** Packing then unpacking gives the bits back followed by the zero pad,
      in one byte per started group of eight bits. */
  lemma {:induction false} UnpackPack(bits: seq<Bit>)
    ensures UnpackBits(PackBits(bits)) == bits + Zeros(PadLength(|bits|))
    ensures |PackBits(bits)| == (|bits| + 7) / 8
    decreases |bits|
  {
    if |bits| == 0 {
    } else if |bits| >= 8 {
      UnpackPack(bits[8..]);
      UnpackPackFull(bits);
    } else {
      UnpackPackLast(bits);
    }
  }

  /** A group of eight bits packs into one byte ahead of the rest. */
  lemma UnpackPackFull(bits: seq<Bit>)
    requires |bits| >= 8
    requires UnpackBits(PackBits(bits[8..])) == bits[8..] + Zeros(PadLength(|bits| - 8))
    requires |PackBits(bits[8..])| == (|bits| - 8 + 7) / 8
    ensures UnpackBits(PackBits(bits)) == bits + Zeros(PadLength(|bits|))
    ensures |PackBits(bits)| == (|bits| + 7) / 8
  {
    var y := ByteFrom(bits[..8]);
    var rest := PackBits(bits[8..]);
    ByteFromBits(bits[..8]);
    assert PackBits(bits) == [y] + rest;
    UnpackCons(y, rest);
    PadLengthShift(|bits|);
    SplitEight(bits, Zeros(PadLength(|bits|)));
  }

  lemma SplitEight(bits: seq<Bit>, pad: seq<Bit>)
    requires |bits| >= 8
    ensures bits[..8] + (bits[8..] + pad) == bits + pad
  {
    assert bits == bits[..8] + bits[8..];
  }

  /** Emitting one byte adds its eight bits to the stream. */
  lemma UnpackSnoc(out: seq<byte>, b: byte)
    ensures UnpackBits(out + [b]) == UnpackBits(out) + ByteBits(b)
  {
    UnpackAppend(out, [b]);
    assert UnpackBits([b]) == ByteBits(b) + UnpackBits([]);
  }

  lemma UnpackCons(y: byte, rest: seq<byte>)
    ensures UnpackBits([y] + rest) == ByteBits(y) + UnpackBits(rest)
  {
    assert ([y] + rest)[1..] == rest;
  }

  /** Fewer than eight bits pack into one zero-padded byte. */
  lemma UnpackPackLast(bits: seq<Bit>)
    requires 0 < |bits| < 8
    ensures UnpackBits(PackBits(bits)) == bits + Zeros(PadLength(|bits|))
    ensures |PackBits(bits)| == (|bits| + 7) / 8
  {
    var x := bits + Zeros(8 - |bits|);
    ByteFromBits(x);
    assert PackBits(bits) == [ByteFrom(x)];
    assert UnpackBits([ByteFrom(x)]) == ByteBits(ByteFrom(x)) + UnpackBits([]);
  }

  /** A byte stream is the packing of its bits when it unpacks to those
      bits and the pad. */
  lemma PackedIsPackBits(out: seq<byte>, bits: seq<Bit>)
    requires UnpackBits(out) == bits + Zeros(PadLength(|bits|))
    ensures out == PackBits(bits)
  {
    UnpackPack(bits);
    UnpackInjective(out, PackBits(bits));
  }

  // ----- `BitWriter` -----

  /** The bytes `out` already emitted and a buffer whose top `k` bits are
      pending (the rest zero) together hold the bits `written`. */
  ghost predicate WriterState(out: seq<byte>, buffer: byte, k: int, written: seq<Bit>)
  {
    0 <= k < 8 && k == |written| % 8 &&
    UnpackBits(out) == written[..|written| - k] &&
    ByteBits(buffer) == written[|written| - k..] + Zeros(8 - k)
  }

  /** One `writeBit` below the eighth bit: the buffer with bit `k` set to
      `d` holds one more pending bit. */
  lemma WriterGrow(out: seq<byte>, buffer: byte, k: int, written: seq<Bit>, d: Bit, next: byte)
    requires WriterState(out, buffer, k, written) && k < 7
    requires (d == 1 && ByteBits(next) == ByteBits(buffer)[k := 1]) || (d == 0 && next == buffer)
    ensures WriterState(out, next, k + 1, written + [d])
  {
    var w := written + [d];
    var pending := written[|written| - k..];
    assert ByteBits(next) == pending + [d] + Zeros(7 - k);
    assert w[|w| - (k + 1)..] == pending + [d];
    assert w[..|w| - (k + 1)] == written[..|written| - k];
  }

  /** The eighth `writeBit`: the full buffer is emitted and an empty one
      follows. */
  lemma WriterFull(out: seq<byte>, buffer: byte, written: seq<Bit>, d: Bit, next: byte)
    requires WriterState(out, buffer, 7, written)
    requires (d == 1 && ByteBits(next) == ByteBits(buffer)[7 := 1]) || (d == 0 && next == buffer)
    ensures WriterState(out + [next], 0, 0, written + [d])
  {
    var w := written + [d];
    var pending := written[|written| - 7..];
    assert ByteBits(next) == pending + [d];
    UnpackSnoc(out, next);
    CompleteByte(written, d);
    ZeroByte();
  }

  /** The bits before the last seven, those seven and one more are the
      whole stream, with nothing pending. */
  lemma CompleteByte(written: seq<Bit>, d: Bit)
    requires |written| >= 7
    ensures var w := written + [d];
      written[..|written| - 7] + (written[|written| - 7..] + [d]) == w[..|w| - 0] &&
      w[|w| - 0..] == []
  {
    assert written == written[..|written| - 7] + written[|written| - 7..];
  }

  /** Emitting the last, partial byte completes the stream with the pad. */
  lemma LastByte(out: seq<byte>, b: byte, head: seq<Bit>, pending: seq<Bit>, written: seq<Bit>)
    requires UnpackBits(out) == head && written == head + pending
    requires 0 < |pending| < 8 && |written| % 8 == |pending|
    requires ByteBits(b) == pending + Zeros(8 - |pending|)
    ensures UnpackBits(out + [b]) == written + Zeros(PadLength(|written|))
  {
    UnpackSnoc(out, b);
    assert PadLength(|written|) == 8 - |pending|;
  }

  /** What `flushBitWriter` leaves in the stream. */
  lemma FlushedBits(out: seq<byte>, buffer: byte, k: int, written: seq<Bit>)
    requires WriterState(out, buffer, k, written)
    ensures UnpackBits(out + (if k > 0 then [buffer] else [])) == written + Zeros(PadLength(|written|))
  {
    if k > 0 {
      var head, pending := written[..|written| - k], written[|written| - k..];
      assert written == head + pending;
      LastByte(out, buffer, head, pending, written);
    } else {
      assert out + [] == out;
      assert written[..|written|] == written && Zeros(0) == [];
    }
  }

  /** `BitWriter`: the bits not yet emitted sit at the top of `buffer`; the
      bytes already `fputc`'d form `out`. `written` is every bit handed to
      `writeBit` so far. */
  class BitWriter {
    var buffer: byte
    var bitCount: int
    var out: seq<byte>
    ghost var written: seq<Bit>

    ghost predicate Valid()
      reads this
    {
      WriterState(out, buffer, bitCount, written)
    }

    /** `initBitWriter`. */
    constructor ()
      ensures Valid() && written == [] && out == []
      ensures buffer == 0 && bitCount == 0
    {
      buffer := 0;
      bitCount := 0;
      out := [];
      written := [];
    }

    /** `writeBit`: set bit `7 - bitCount` when `bit` is nonzero; after the
        eighth bit emit the byte and start an empty one. */
    method WriteBit(bit: int)
      requires Valid()
      modifies this
      ensures Valid() && written == old(written) + [if bit != 0 then 1 else 0]
      ensures old(bitCount) < 7 ==> out == old(out) && bitCount == old(bitCount) + 1
      ensures old(bitCount) == 7 ==> |out| == |old(out)| + 1 && bitCount == 0 && buffer == 0
    {
      var d: Bit := if bit != 0 then 1 else 0;
      ghost var before := buffer;
      if bit != 0 {
        SetBit(buffer, bitCount);
        buffer := WithBit(buffer, bitCount);
      }
      bitCount := bitCount + 1;
      if bitCount == 8 {
        WriterFull(out, before, written, d, buffer);
        out := out + [buffer];
        buffer := 0;
        bitCount := 0;
      } else {
        WriterGrow(out, before, bitCount - 1, written, d, buffer);
      }
      written := written + [d];
    }

    /** `flushBitWriter`: emit the partial byte, if any. The writer is not
        reset. */
    method Flush()
      requires Valid()
      modifies this
      ensures buffer == old(buffer) && bitCount == old(bitCount) && written == old(written)
      ensures out == old(out) + (if bitCount > 0 then [buffer] else [])
      ensures UnpackBits(out) == written + Zeros(PadLength(|written|))
      ensures out == PackBits(written)
    {
      FlushedBits(out, buffer, bitCount, written);
      if bitCount > 0 {
        out := out + [buffer];
      } else {
        assert out + [] == out;
      }
      PackedIsPackBits(out, written);
    }
  }

  // ----- `bitBuffer[8]` / `bitIndex` -----

  /** The file `out` and the pending characters `chars` hold the bits
      `written`. */
  ghost predicate GlobalState(out: seq<byte>, chars: seq<char>, written: seq<Bit>)
  {
    |chars| < 8 && |chars| == |written| % 8 &&
    UnpackBits(out) == written[..|written| - |chars|] &&
    chars == Digits(written[|written| - |chars|..])
  }

  /** One more character in the buffer, while it is not yet full. */
  lemma GlobalAdvance(out: seq<byte>, chars: seq<char>, written: seq<Bit>, d: Bit)
    requires GlobalState(out, chars, written) && |chars| < 7
    ensures GlobalState(out, chars + [Digit(d)], written + [d])
  {
    var w := written + [d];
    var k := |chars|;
    assert w[|w| - (k + 1)..] == written[|written| - k..] + [d];
    assert w[..|w| - (k + 1)] == written[..|written| - k];
  }

  /** The eighth character: the byte packed from all eight is emitted and
      the buffer is empty again. */
  lemma GlobalEmit(out: seq<byte>, chars: seq<char>, written: seq<Bit>, d: Bit, b: byte)
    requires GlobalState(out, chars, written) && |chars| == 7
    requires ByteBits(b) == written[|written| - 7..] + [d]
    ensures GlobalState(out + [b], [], written + [d])
  {
    var w := written + [d];
    var head := written[..|written| - 7];
    var pending := written[|written| - 7..];
    assert written == head + pending;
    assert w == head + (pending + [d]);
    UnpackSnoc(out, b);
    assert UnpackBits(out + [b]) == w;
    assert w[..|w|] == w;
    assert w[|w|..] == [];
  }

  /** The pending characters spell the pending bits. */
  lemma PendingDigits(chars: seq<char>, written: seq<Bit>, d: Bit)
    requires |chars| <= |written| && chars == Digits(written[|written| - |chars|..])
    ensures chars + [Digit(d)] == Digits(written[|written| - |chars|..] + [d])
  {
  }

  /** What `flushBits` emits: the pending bits shifted to the top. */
  lemma GlobalFlushed(out: seq<byte>, chars: seq<char>, written: seq<Bit>, b: byte)
    requires GlobalState(out, chars, written) && |chars| > 0
    requires ByteBits(b) == written[|written| - |chars|..] + Zeros(8 - |chars|)
    ensures UnpackBits(out + [b]) == written + Zeros(PadLength(|written|))
  {
    var k := |chars|;
    var head, pending := written[..|written| - k], written[|written| - k..];
    assert written == head + pending;
    LastByte(out, b, head, pending, written);
  }

  /** No pending character: the file already holds every bit. */
  lemma GlobalEmpty(out: seq<byte>, written: seq<Bit>)
    requires GlobalState(out, [], written)
    ensures UnpackBits(out) == written + Zeros(PadLength(|written|))
  {
    assert written[..|written|] == written && Zeros(0) == [];
  }

  /** The global `bitBuffer`/`bitIndex` pair: pending bits are kept as the
      characters '0'/'1' and packed only when eight are there or on flush.
      The file the bytes go to is passed in and returned. */
  class GlobalBitBuffer {
    const bitBuffer: array<char>
    var bitIndex: int

    constructor ()
      ensures fresh(bitBuffer) && bitBuffer.Length == 8 && bitIndex == 0
    {
      bitBuffer := new char[8](_ => '0');
      bitIndex := 0;
    }

    /** The file `out` and the pending characters hold the bits `written`. */
    ghost predicate Holds(out: seq<byte>, written: seq<Bit>)
      reads this, bitBuffer
    {
      bitBuffer.Length == 8 && 0 <= bitIndex < 8 &&
      GlobalState(out, bitBuffer[..bitIndex], written)
    }

    /** `bitIndex = 0` in `compressFile`: whatever the buffer holds, nothing
        is pending. */
    method ResetIndex()
      requires bitBuffer.Length == 8
      modifies this
      ensures Holds([], [])
    {
      bitIndex := 0;
      assert bitBuffer[..bitIndex] == [];
    }

    /** `writeBit(out, bit)`: store '1' or '0'; after the eighth character
        pack all eight into one byte and emit it. */
    method WriteBit(out: seq<byte>, bit: int, ghost written: seq<Bit>) returns (out': seq<byte>)
      requires Holds(out, written)
      modifies this, bitBuffer
      ensures Holds(out', written + [if bit != 0 then 1 else 0])
      ensures old(bitIndex) < 7 ==> out' == out && bitIndex == old(bitIndex) + 1
      ensures old(bitIndex) == 7 ==> |out'| == |out| + 1 && out'[..|out|] == out && bitIndex == 0
    {
      var d: Bit := if bit != 0 then 1 else 0;
      ghost var chars := bitBuffer[..bitIndex];
      PendingDigits(chars, written, d);
      bitBuffer[bitIndex] := if bit != 0 then '1' else '0';
      assert bitBuffer[..bitIndex + 1] == chars + [Digit(d)];
      bitIndex := bitIndex + 1;
      out' := out;
      if bitIndex == 8 {
        var byte := PackDigits(bitBuffer, 8, written[|written| - 7..] + [d]);
        assert Zeros(0) + (written[|written| - 7..] + [d]) == written[|written| - 7..] + [d];
        GlobalEmit(out, chars, written, d, byte);
        out' := out + [byte];
        bitIndex := 0;
        assert bitBuffer[..bitIndex] == [];
        assert out'[..|out|] == out;
      } else {
        GlobalAdvance(out, chars, written, d);
      }
    }

    /** `flushBits(out)`: pack the pending characters, shift them to the top
        of the byte, emit it and empty the buffer. */
    method FlushBits(out: seq<byte>, ghost written: seq<Bit>) returns (out': seq<byte>)
      requires Holds(out, written)
      modifies this
      ensures bitIndex == 0
      ensures UnpackBits(out') == written + Zeros(PadLength(|written|))
      ensures out' == PackBits(written)
    {
      ghost var chars := bitBuffer[..bitIndex];
      out' := out;
      if bitIndex > 0 {
        ghost var pending := written[|written| - bitIndex..];
        var byte := PackDigits(bitBuffer, bitIndex, pending);
        ShiftLeft(byte, 8 - bitIndex);
        assert (Zeros(8 - bitIndex) + pending)[8 - bitIndex..] == pending;
        byte := byte << (8 - bitIndex);
        GlobalFlushed(out, chars, written, byte);
        out' := out + [byte];
      } else {
        GlobalEmpty(out, written);
      }
      bitIndex := 0;
      PackedIsPackBits(out', written);
    }
  }

  /** The packing loop of `writeBit`/`flushBits`: `byte = (byte << 1) |
      (bitBuffer[i] - '0')` over the first `n` characters. */
  method PackDigits(a: array<char>, n: nat, ghost bits: seq<Bit>) returns (b: byte)
    requires n <= a.Length && n <= 8 && a[..n] == Digits(bits)
    ensures ByteBits(b) == Zeros(8 - n) + bits
  {
    b := 0;
    var i := 0;
    while i < n
      invariant 0 <= i <= n && ByteBits(b) == Zeros(8 - i) + bits[..i]
    {
      assert a[i] == Digit(bits[i]);
      ShiftIn(b, bits[i]);
      ShiftInStep(bits, i);
      b := (b << 1) | ((a[i] as int - '0' as int) as byte);
      i := i + 1;
    }
    assert bits[..n] == bits;
  }

  lemma ShiftInStep(bits: seq<Bit>, i: nat)
    requires i < |bits| <= 8
    ensures (Zeros(8 - i) + bits[..i])[1..] + [bits[i]] == Zeros(8 - (i + 1)) + bits[..i + 1]
  {
    assert bits[..i + 1] == bits[..i] + [bits[i]];
  }

  // ----- `BitReader` -----

  /** `BitReader` over the bytes that follow the header: `bitCount` bits of
      the byte in `buffer` are used up; `pos` bytes have been read. */
  class BitReader {
    const src: seq<byte>
    var pos: nat
    var buffer: byte
    var bitCount: int

    ghost predicate Valid()
      reads this
    {
      0 <= bitCount <= 8 && pos <= |src| &&
      (pos == 0 ==> bitCount == 8) && (pos > 0 ==> buffer == src[pos - 1])
    }

    /** The number of bits handed out so far. */
    function Delivered(): int
      reads this
    {
      8 * pos - 8 + bitCount
    }

    /** `initBitReader`: `bitCount` starts at 8 so that the first call
        reads a byte. */
    constructor (src: seq<byte>)
      ensures Valid() && this.src == src && Delivered() == 0
      ensures buffer == 0 && bitCount == 8
    {
      this.src := src;
      pos := 0;
      buffer := 0;
      bitCount := 8;
    }

    /** `readBit`: the next bit of the stream, most significant first, or
        -1 once every byte is used up. */
    method ReadBit() returns (bit: int)
      requires Valid()
      modifies this
      ensures Valid() && 0 <= Delivered() <= 8 * |src|
      ensures old(Delivered()) == 8 * |src| ==> bit == -1 && Delivered() == old(Delivered())
      ensures old(Delivered()) < 8 * |src| ==>
                bit == UnpackBits(src)[old(Delivered())] && Delivered() == old(Delivered()) + 1
      ensures bit != -1 ==> 1 <= bitCount <= 8
    {
      if bitCount == 8 {
        if pos == |src| {
          return -1;
        }
        buffer := src[pos];
        pos := pos + 1;
        bitCount := 0;
      }
      UnpackIndex(src, Delivered());
      assert Delivered() / 8 == pos - 1 && Delivered() % 8 == bitCount;
      ReadIsBitAt(buffer, bitCount);
      bit := BitOf(buffer, bitCount);
      bitCount := bitCount + 1;
    }
  }

  /** Reading back what a flushed writer emitted gives the bits written,
      then the zero pad, then the end of the stream. */
  lemma ReadBack(bits: seq<Bit>, k: nat)
    requires k < 8 * |PackBits(bits)|
    ensures k < |bits| ==> UnpackBits(PackBits(bits))[k] == bits[k]
    ensures k >= |bits| ==> UnpackBits(PackBits(bits))[k] == 0
    ensures 8 * |PackBits(bits)| == |bits| + PadLength(|bits|)
  {
    UnpackPack(bits);
  }
}
