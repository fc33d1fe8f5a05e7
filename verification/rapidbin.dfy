/** Decoding of one RapidBin event word (`try_parse_event` and its bit
    constants, src/analyzer.rs:245-262 and 345-370). A word is eight bytes
    read as a big-endian signed 64-bit integer; four fields are cut out of it
    with masks and arithmetic right shifts. */
module RapidBin {
  import opened Common
  import Parser

  type Byte = bv8

  const NUM_THREAD_BITS: bv64 := 10
  const THREAD_BITS_OFFSET: bv64 := 0
  const NUM_OPERATION_BITS: bv64 := 4
  const OPERATION_BITS_OFFSET: bv64 := THREAD_BITS_OFFSET
  const NUM_OPERAND_BITS: bv64 := 34
  const OPERAND_BITS_OFFSET: bv64 := NUM_THREAD_BITS + NUM_OPERATION_BITS
  const NUM_LOCATION_BITS: bv64 := 15
  const LOCATION_BITS_OFFSET: bv64 := NUM_THREAD_BITS + NUM_OPERATION_BITS + NUM_OPERAND_BITS

  // The masks are built exactly as the constants are. The operation mask
  // and the operand mask start at OPERATION_BITS_OFFSET, which is 0, so the
  // thread, operation and operand fields overlap.
  const THREAD_MASK: bv64 := ((1 << NUM_THREAD_BITS) - 1) << THREAD_BITS_OFFSET
  const OPERATION_MASK: bv64 := ((1 << NUM_OPERATION_BITS) - 1) << OPERATION_BITS_OFFSET
  const OPERAND_MASK: bv64 := ((1 << NUM_OPERAND_BITS) - 1) << OPERATION_BITS_OFFSET
  const LOCATION_MASK: bv64 := ((1 << NUM_LOCATION_BITS) - 1) << LOCATION_BITS_OFFSET

  /** `i64::from_be_bytes`, as the 64 bits of the two's-complement value. */
  function FromBeBytes(b: seq<Byte>): (w: bv64)
    requires |b| == 8
  {
    (b[0] as bv64 << 56) | (b[1] as bv64 << 48) | (b[2] as bv64 << 40) | (b[3] as bv64 << 32)
    | (b[4] as bv64 << 24) | (b[5] as bv64 << 16) | (b[6] as bv64 << 8) | b[7] as bv64
  }

  /** Byte `k` of a word, counting from the least significant. */
  function ByteOf(w: bv64, k: nat): Byte
    requires k < 8
  {
    match k
    case 0 => (w & 0xFF) as Byte
    case 1 => ((w >> 8) & 0xFF) as Byte
    case 2 => ((w >> 16) & 0xFF) as Byte
    case 3 => ((w >> 24) & 0xFF) as Byte
    case 4 => ((w >> 32) & 0xFF) as Byte
    case 5 => ((w >> 40) & 0xFF) as Byte
    case 6 => ((w >> 48) & 0xFF) as Byte
    case 7 => (w >> 56) as Byte
  }

  /** The unsigned value of the 64 bits, byte by byte. */
  function Unsigned(w: bv64): (v: nat)
    ensures v < 0x1_0000_0000_0000_0000
  {
    ByteOf(w, 0) as int + ByteOf(w, 1) as int * 0x100 + ByteOf(w, 2) as int * 0x1_0000
    + ByteOf(w, 3) as int * 0x100_0000 + ByteOf(w, 4) as int * 0x1_0000_0000
    + ByteOf(w, 5) as int * 0x100_0000_0000 + ByteOf(w, 6) as int * 0x1_0000_0000_0000
    + ByteOf(w, 7) as int * 0x100_0000_0000_0000
  }

  /** The sign bit is the top bit of the most significant byte. */
  lemma SignBitOf(w: bv64)
    ensures w < 1 << 63 <==> ByteOf(w, 7) < 0x80
  {
  }

  /** The top byte decides which half of the unsigned range a word is in. */
  lemma UnsignedHalves(w: bv64)
    ensures ByteOf(w, 7) < 0x80 <==> Unsigned(w) < 0x8000_0000_0000_0000
  {
    var top := ByteOf(w, 7) as int;
    var rest := Unsigned(w) - top * 0x100_0000_0000_0000;
    assert 0 <= rest < 0x100_0000_0000_0000;
    assert ByteOf(w, 7) < 0x80 <==> top < 0x80;
  }

  /** The `i64` a bit pattern stands for in two's complement. */
  function Signed(w: bv64): (v: i64)
    ensures v >= 0 <==> w < 1 << 63
    ensures v >= 0 ==> v == Unsigned(w)
  {
    SignBitOf(w);
    UnsignedHalves(w);
    if w < 1 << 63 then Unsigned(w) else Unsigned(w) - 0x1_0000_0000_0000_0000
  }

  /** `>>` on `i64`: an arithmetic shift, which copies the sign bit into the
      vacated high bits. */
  function ShiftRight(w: bv64, k: bv64): (r: bv64)
    requires k < 64
    ensures w < 1 << 63 ==> r == w >> k
  {
    if w < 1 << 63 then w >> k else (w >> k) | !(0xFFFF_FFFF_FFFF_FFFF >> k)
  }

  /** `(raw_event & mask) >> offset`, read back as an `i64`. */
  function Field(raw: bv64, mask: bv64, offset: bv64): i64
    requires offset < 64
  {
    Signed(ShiftRight(raw & mask, offset))
  }

  /** `try_parse_event`: None when the operation code names no operation. */
  function TryParseEvent(bytes: seq<Byte>): (r: Option<Parser.Event>)
    requires |bytes| == 8
    ensures r.Some? ==> Parser.WellFormedEvent(r.value)
  {
    var raw := FromBeBytes(bytes);
    var threadIdentifier := Field(raw, THREAD_MASK, THREAD_BITS_OFFSET);
    var operationId := Field(raw, OPERATION_MASK, OPERATION_BITS_OFFSET);
    var operandId := Field(raw, OPERAND_MASK, OPERAND_BITS_OFFSET);
    var loc := Field(raw, LOCATION_MASK, LOCATION_BITS_OFFSET);
    match Parser.OperationNew(operationId)
    case None => None
    case Some(operation) =>
      Some(Parser.Event(threadIdentifier, operation, Parser.OperandNew(operation, operandId), loc))
  }

  // An independent reading of the same fields straight off the bytes.

  /** Bits 0-9: the low two bits of byte 6 and all of byte 7. */
  function ThreadOfBytes(b: seq<Byte>): int
    requires |b| == 8
  {
    (b[6] & 3) as int * 256 + b[7] as int
  }

  /** Bits 0-3: the low nibble of byte 7. */
  function OperationCodeOfBytes(b: seq<Byte>): int
    requires |b| == 8
  {
    (b[7] & 0xF) as int
  }

  /** Bits 14-33: the low two bits of byte 3, bytes 4 and 5, and the top two
      bits of byte 6. */
  function OperandOfBytes(b: seq<Byte>): int
    requires |b| == 8
  {
    (b[3] & 3) as int * 0x4_0000 + b[4] as int * 1024 + b[5] as int * 4 + (b[6] >> 6) as int
  }

  /** Bits 48-62: the low seven bits of byte 0 and all of byte 1. */
  function LocationOfBytes(b: seq<Byte>): int
    requires |b| == 8
  {
    (b[0] & 0x7F) as int * 256 + b[1] as int
  }

  /** The mask values; each leaves the sign bit clear, so each masked value is
      non-negative and the arithmetic shift is a plain one. */
  lemma MaskValues()
    ensures THREAD_MASK == 0x3FF && OPERATION_MASK == 0xF
    ensures OPERAND_MASK == 0x3_FFFF_FFFF && LOCATION_MASK == 0x7FFF_0000_0000_0000
    ensures THREAD_BITS_OFFSET == 0 && OPERATION_BITS_OFFSET == 0
    ensures OPERAND_BITS_OFFSET == 14 && LOCATION_BITS_OFFSET == 48
  {
  }

  /** A field is the unsigned value of its masked, shifted bits. */
  lemma FieldValue(raw: bv64, mask: bv64, offset: bv64)
    requires offset < 64 && mask < 1 << 63
    ensures Field(raw, mask, offset) == Unsigned((raw & mask) >> offset)
  {
    assert raw & mask < 1 << 63;
    assert (raw & mask) >> offset < 1 << 63;
  }

  // The bytes of each masked, shifted word, read off the event bytes.

  lemma ThreadWordBytes(b: seq<Byte>)
    requires |b| == 8
    ensures var w := (FromBeBytes(b) & 0x3FF) >> 0;
      && ByteOf(w, 0) == b[7] && ByteOf(w, 1) == b[6] & 3
      && ByteOf(w, 2) == 0 && ByteOf(w, 3) == 0 && ByteOf(w, 4) == 0
      && ByteOf(w, 5) == 0 && ByteOf(w, 6) == 0 && ByteOf(w, 7) == 0
  {
  }

  lemma OperationWordBytes(b: seq<Byte>)
    requires |b| == 8
    ensures var w := (FromBeBytes(b) & 0xF) >> 0;
      && ByteOf(w, 0) == b[7] & 0xF && ByteOf(w, 1) == 0
      && ByteOf(w, 2) == 0 && ByteOf(w, 3) == 0 && ByteOf(w, 4) == 0
      && ByteOf(w, 5) == 0 && ByteOf(w, 6) == 0 && ByteOf(w, 7) == 0
  {
  }

  lemma OperandWordBytes(b: seq<Byte>)
    requires |b| == 8
    ensures var w := (FromBeBytes(b) & 0x3_FFFF_FFFF) >> 14;
      && ByteOf(w, 0) == (b[6] >> 6) | ((b[5] & 0x3F) << 2)
      && ByteOf(w, 1) == (b[5] >> 6) | ((b[4] & 0x3F) << 2)
      && ByteOf(w, 2) == (b[4] >> 6) | ((b[3] & 3) << 2)
      && ByteOf(w, 3) == 0 && ByteOf(w, 4) == 0
      && ByteOf(w, 5) == 0 && ByteOf(w, 6) == 0 && ByteOf(w, 7) == 0
  {
  }

  lemma LocationWordBytes(b: seq<Byte>)
    requires |b| == 8
    ensures var w := (FromBeBytes(b) & 0x7FFF_0000_0000_0000) >> 48;
      && ByteOf(w, 0) == b[1] && ByteOf(w, 1) == b[0] & 0x7F
      && ByteOf(w, 2) == 0 && ByteOf(w, 3) == 0 && ByteOf(w, 4) == 0
      && ByteOf(w, 5) == 0 && ByteOf(w, 6) == 0 && ByteOf(w, 7) == 0
  {
  }

  /** Two bytes spliced at bit 2: the low six bits of `high` go above the
      top two bits of `low`. */
  lemma Splice(low: Byte, high: Byte)
    ensures ((low >> 6) | ((high & 0x3F) << 2)) as int == (low >> 6) as int + (high & 0x3F) as int * 4
    ensures high as int == (high & 0x3F) as int + (high >> 6) as int * 64
  {
  }

  // Each decoded field is the byte-level reading of it.

  lemma ThreadField(b: seq<Byte>)
    requires |b| == 8
    ensures Field(FromBeBytes(b), THREAD_MASK, THREAD_BITS_OFFSET) == ThreadOfBytes(b)
  {
    MaskValues();
    FieldValue(FromBeBytes(b), THREAD_MASK, THREAD_BITS_OFFSET);
    ThreadWordBytes(b);
  }

  lemma OperationField(b: seq<Byte>)
    requires |b| == 8
    ensures Field(FromBeBytes(b), OPERATION_MASK, OPERATION_BITS_OFFSET) == OperationCodeOfBytes(b)
  {
    MaskValues();
    FieldValue(FromBeBytes(b), OPERATION_MASK, OPERATION_BITS_OFFSET);
    OperationWordBytes(b);
  }

  lemma OperandField(b: seq<Byte>)
    requires |b| == 8
    ensures Field(FromBeBytes(b), OPERAND_MASK, OPERAND_BITS_OFFSET) == OperandOfBytes(b)
  {
    MaskValues();
    FieldValue(FromBeBytes(b), OPERAND_MASK, OPERAND_BITS_OFFSET);
    OperandUnsigned(b);
  }

  lemma OperandUnsigned(b: seq<Byte>)
    requires |b| == 8
    ensures Unsigned((FromBeBytes(b) & 0x3_FFFF_FFFF) >> 14) == OperandOfBytes(b)
  {
    OperandWordBytes(b);
    OperandWordValue((FromBeBytes(b) & 0x3_FFFF_FFFF) >> 14, b[3], b[4], b[5], b[6]);
  }

  /** The value of a word whose three low bytes are spliced from four event
      bytes as the operand's are. */
  lemma OperandWordValue(w: bv64, b3: Byte, b4: Byte, b5: Byte, b6: Byte)
    requires ByteOf(w, 0) == (b6 >> 6) | ((b5 & 0x3F) << 2)
    requires ByteOf(w, 1) == (b5 >> 6) | ((b4 & 0x3F) << 2)
    requires ByteOf(w, 2) == (b4 >> 6) | ((b3 & 3) << 2)
    requires ByteOf(w, 3) == 0 && ByteOf(w, 4) == 0 && ByteOf(w, 5) == 0 && ByteOf(w, 6) == 0 && ByteOf(w, 7) == 0
    ensures Unsigned(w) == (b3 & 3) as int * 0x4_0000 + b4 as int * 1024 + b5 as int * 4 + (b6 >> 6) as int
  {
    Splice(b6, b5);
    Splice(b5, b4);
    Splice(b4, b3 & 3);
    assert (b3 & 3) & 0x3F == b3 & 3;
    Regroup((b6 >> 6) as int, (b5 & 0x3F) as int, (b5 >> 6) as int,
      (b4 & 0x3F) as int, (b4 >> 6) as int, (b3 & 3) as int);
  }

  /** Three 8-bit pieces of the operand, regrouped by source byte. */
  lemma Regroup(b6hi: int, b5lo: int, b5hi: int, b4lo: int, b4hi: int, b3lo: int)
    ensures (b6hi + b5lo * 4) + (b5hi + b4lo * 4) * 0x100 + (b4hi + b3lo * 4) * 0x1_0000
         == b3lo * 0x4_0000 + (b4lo + b4hi * 64) * 1024 + (b5lo + b5hi * 64) * 4 + b6hi
  {
  }

  lemma LocationField(b: seq<Byte>)
    requires |b| == 8
    ensures Field(FromBeBytes(b), LOCATION_MASK, LOCATION_BITS_OFFSET) == LocationOfBytes(b)
  {
    MaskValues();
    FieldValue(FromBeBytes(b), LOCATION_MASK, LOCATION_BITS_OFFSET);
    LocationWordBytes(b);
  }

  /** The decoder agrees with the byte-level reading: it fails exactly when
      the low nibble of the last byte is 10 or more, and otherwise every field
      is the one the reference reads. */
  lemma TryParseEventBytes(b: seq<Byte>)
    requires |b| == 8
    ensures TryParseEvent(b).None? <==> OperationCodeOfBytes(b) >= 10
    ensures TryParseEvent(b).Some? ==>
      var e := TryParseEvent(b).value;
      && e.threadIdentifier == ThreadOfBytes(b)
      && Parser.OperationNew(OperationCodeOfBytes(b)) == Some(e.operation)
      && e.operand == Parser.OperandNew(e.operation, OperandOfBytes(b))
      && e.loc == LocationOfBytes(b)
  {
    ThreadField(b);
    OperationField(b);
    OperandField(b);
    LocationField(b);
  }

  /** The pieces of a byte the reference reads are small. */
  lemma PieceBounds(x: Byte)
    ensures (x & 3) as int < 4 && (x >> 6) as int < 4 && (x & 0xF) as int < 16 && (x & 0x7F) as int < 128
  {
  }

  /** Field bounds: every decoded field is non-negative and fits its width;
      the operand has only the 20 bits left above the 14-bit offset. */
  lemma TryParseEventBounds(b: seq<Byte>)
    requires |b| == 8
    requires TryParseEvent(b).Some?
    ensures var e := TryParseEvent(b).value;
      && 0 <= e.threadIdentifier < 0x400
      && 0 <= Parser.OperationCode(e.operation) < 10
      && (Parser.HasOperand(e.operation) ==> 0 <= Parser.Id(e.operand).value < 0x10_0000)
      && 0 <= e.loc < 0x8000
  {
    TryParseEventBytes(b);
    Parser.OperationCodeBijection(OperationCodeOfBytes(b));
    PieceBounds(b[0]);
    PieceBounds(b[3]);
    PieceBounds(b[6]);
  }

  /** The overlapping masks tie the thread to the operation: the low four bits
      of every decoded thread identifier are the operation code. */
  lemma ThreadCarriesOperation(b: seq<Byte>)
    requires |b| == 8
    requires TryParseEvent(b).Some?
    ensures TryParseEvent(b).value.threadIdentifier % 16 == Parser.OperationCode(TryParseEvent(b).value.operation)
  {
    TryParseEventBytes(b);
    Parser.OperationCodeBijection(OperationCodeOfBytes(b));
    LowNibble(b[7]);
    SkipHighBits((b[6] & 3) as int, b[7] as int);
  }

  lemma LowNibble(x: Byte)
    ensures (x & 0xF) as int == x as int % 16
  {
  }

  lemma SkipHighBits(high: int, low: int)
    ensures (high * 256 + low) % 16 == low % 16
  {
    assert high * 256 + low == 16 * (high * 16) + low;
  }

  /** The 8-byte words `read_exact` fills one after the other; a short tail
      ends the loop and is never decoded. */
  function Words(bytes: seq<Byte>): (ws: seq<seq<Byte>>)
    ensures |ws| == |bytes| / 8
    ensures forall i :: 0 <= i < |ws| ==> ws[i] == bytes[8 * i .. 8 * i + 8]
    decreases |bytes|
  {
    if |bytes| < 8 then [] else [bytes[..8]] + Words(bytes[8..])
  }
}
