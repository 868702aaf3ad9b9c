/**
 * The firmware-image checksum of the update engine.
 *
 * The companion MCU checks each pushed chunk with its hardware CRC unit, which
 * computes CRC-32/MPEG-2: polynomial 0x04C11DB7, initial value 0xFFFFFFFF, no
 * reflection of input or output, no final XOR.  The unit consumes 32-bit
 * little-endian words most significant byte first, so the host feeds the bytes
 * of every 4-byte word in the order 3, 2, 1, 0.
 */
module Crc {

  const POLY: bv32 := 0x04C1_1DB7
  const INITIAL: bv32 := 0xFFFF_FFFF
  const TOP_BIT: bv32 := 0x8000_0000
  /** Bits of one byte, shifted through the register per table entry. */
  const BYTE_BITS: nat := 8

  /** One step of the MSB-first polynomial division. */
  function ShiftBit(c: bv32): bv32 {
    if c & TOP_BIT != 0 then (c << 1) ^ POLY else c << 1
  }

  function ShiftBits(c: bv32, n: nat): bv32
    decreases n
  {
    if n == 0 then c else ShiftBits(ShiftBit(c), n - 1)
  }

  /** Entry i of the 256-entry lookup table, generated from the polynomial. */
  function TableEntry(i: bv8): bv32 {
    ShiftBits((i as bv32) << 24, BYTE_BITS)
  }

  /** The table-driven update by one byte, as each line of the word loop does it. */
  function ByteStep(crc: bv32, b: bv8): bv32 {
    (crc << 8) ^ TableEntry(((crc >> 24) as bv8) ^ b)
  }

  /** Plain byte-wise CRC-32/MPEG-2 (the reference definition), from register value crc. */
  function Mpeg2(crc: bv32, data: seq<bv8>): bv32
    decreases |data|
  {
    if data == [] then crc else Mpeg2(ByteStep(crc, data[0]), data[1..])
  }

  /** One 4-byte word fed most significant byte first: bytes 3, 2, 1, 0. */
  function WordStep(crc: bv32, w: seq<bv8>): bv32
    requires |w| == 4
  {
    ByteStep(ByteStep(ByteStep(ByteStep(crc, w[3]), w[2]), w[1]), w[0])
  }

  /** What the word loop computes over a buffer whose length is a multiple of 4. */
  function Checksum(crc: bv32, data: seq<bv8>): bv32
    requires |data| % 4 == 0
    decreases |data|
  {
    if data == [] then crc else Checksum(WordStep(crc, data[..4]), data[4..])
  }

  /**
   * The word loop as a total function: buffers whose length is not a multiple
   * of 4 never occur (the firmware engine pads every chunk) and leave the
   * register as it is.
   */
  function Accumulate(crc: bv32, data: seq<bv8>): bv32 {
    if |data| % 4 == 0 then Checksum(crc, data) else crc
  }

  /**
   * f is the word loop: it agrees with Accumulate at every argument. The only trigger is Accumulate itself,
   * so a proof that merely carries f around never unfolds the register arithmetic.
   */
  ghost predicate Computes(f: (bv32, seq<bv8>) -> bv32) {
    forall crc: bv32, data: seq<bv8> {:trigger Accumulate(crc, data)} :: f(crc, data) == Accumulate(crc, data)
  }

  /** The buffer with the bytes of every 4-byte word reversed. */
  function WordReversed(data: seq<bv8>): (r: seq<bv8>)
    requires |data| % 4 == 0
    ensures |r| == |data|
    decreases |data|
  {
    if data == [] then [] else [data[3], data[2], data[1], data[0]] + WordReversed(data[4..])
  }

  /**
   * The word loop: consumes len bytes of buf four at a time.  The source's loop
   * counter is unsigned and is decremented by 4, so a length that is not a
   * multiple of 4 never reaches 0: callers must pass a multiple of 4.
   */
  method CalculateCrc(crc: bv32, buf: array<bv8>, len: nat) returns (r: bv32)
    requires len <= buf.Length && len % 4 == 0
    ensures r == Checksum(crc, buf[..len])
    ensures r == Mpeg2(crc, WordReversed(buf[..len]))
  {
    r := crc;
    var pos, remaining := 0, len;
    ghost var words := len / 4;
    while remaining > 0
      invariant pos + remaining == len && remaining == 4 * words
      invariant Checksum(crc, buf[..len]) == Checksum(r, buf[pos..len])
    {
      assert buf[pos..len][..4] == buf[pos..pos + 4];
      assert buf[pos..len][4..] == buf[pos + 4..len];
      r := ByteStep(r, buf[pos + 3]);
      r := ByteStep(r, buf[pos + 2]);
      r := ByteStep(r, buf[pos + 1]);
      r := ByteStep(r, buf[pos]);
      pos, remaining, words := pos + 4, remaining - 4, words - 1;
    }
    assert buf[..len][0..] == buf[..len];
    assert buf[pos..len] == [];
    ChecksumIsMpeg2OfReversedWords(crc, buf[..len]);
  }

  /** CalculateCrc seen through a function f that Computes the word loop: the result is f's value. */
  method CalculateCrcBy(ghost f: (bv32, seq<bv8>) -> bv32, crc: bv32, buf: array<bv8>, len: nat) returns (r: bv32)
    requires Computes(f) && len <= buf.Length && len % 4 == 0
    ensures r == f(crc, buf[..len])
  {
    r := CalculateCrc(crc, buf, len);
    assert r == Accumulate(crc, buf[..len]);
  }

  lemma {:induction false} Mpeg2Append(crc: bv32, a: seq<bv8>, b: seq<bv8>)
    ensures Mpeg2(crc, a + b) == Mpeg2(Mpeg2(crc, a), b)
    decreases |a|
  {
    if a == [] {
      assert a + b == b;
    } else {
      assert (a + b)[0] == a[0];
      assert (a + b)[1..] == a[1..] + b;
      Mpeg2Append(ByteStep(crc, a[0]), a[1..], b);
    }
  }

  lemma Mpeg2Cons(crc: bv32, b: bv8, rest: seq<bv8>)
    ensures Mpeg2(crc, [b] + rest) == Mpeg2(ByteStep(crc, b), rest)
  {
    assert ([b] + rest)[1..] == rest;
  }

  lemma Mpeg2OfWord(crc: bv32, w: seq<bv8>)
    requires |w| == 4
    ensures Mpeg2(crc, [w[3], w[2], w[1], w[0]]) == WordStep(crc, w)
  {
    var c1 := ByteStep(crc, w[3]);
    var c2 := ByteStep(c1, w[2]);
    var c3 := ByteStep(c2, w[1]);
    Mpeg2Cons(c3, w[0], []);
    assert [w[0]] + [] == [w[0]];
    Mpeg2Cons(c2, w[1], [w[0]]);
    Mpeg2Cons(c1, w[2], [w[1], w[0]]);
    Mpeg2Cons(crc, w[3], [w[2], w[1], w[0]]);
  }

  /** The word-reversed checksum is the reference CRC of the word-reversed bytes. */
  lemma {:induction false} ChecksumIsMpeg2OfReversedWords(crc: bv32, data: seq<bv8>)
    requires |data| % 4 == 0
    ensures Checksum(crc, data) == Mpeg2(crc, WordReversed(data))
    decreases |data|
  {
    if data != [] {
      var w := data[..4];
      assert [data[3], data[2], data[1], data[0]] == [w[3], w[2], w[1], w[0]];
      Mpeg2Append(crc, [w[3], w[2], w[1], w[0]], WordReversed(data[4..]));
      Mpeg2OfWord(crc, w);
      ChecksumIsMpeg2OfReversedWords(WordStep(crc, w), data[4..]);
    }
  }

  /** Chunk-by-chunk accumulation equals one pass over the concatenation. */
  lemma {:induction false} ChecksumConcat(crc: bv32, a: seq<bv8>, b: seq<bv8>)
    requires |a| % 4 == 0 && |b| % 4 == 0
    ensures Checksum(crc, a + b) == Checksum(Checksum(crc, a), b)
    decreases |a|
  {
    if a == [] {
      assert a + b == b;
    } else {
      assert (a + b)[..4] == a[..4];
      assert (a + b)[4..] == a[4..] + b;
      ChecksumConcat(WordStep(crc, a[..4]), a[4..], b);
    }
  }

  /** The published check value of CRC-32/MPEG-2: "123456789" gives 0x0376E6E7. */
  lemma Mpeg2CheckValue()
    ensures Mpeg2(INITIAL, [0x31, 0x32, 0x33, 0x34, 0x35, 0x36, 0x37, 0x38, 0x39]) == 0x0376_E6E7
  {
    Mpeg2CheckValueHead();
    Mpeg2CheckValueTail();
    var head: seq<bv8>, tail: seq<bv8> := [0x31, 0x32, 0x33, 0x34, 0x35], [0x36, 0x37, 0x38, 0x39];
    Mpeg2Append(INITIAL, head, tail);
    assert head + tail == [0x31, 0x32, 0x33, 0x34, 0x35, 0x36, 0x37, 0x38, 0x39];
  }

  lemma Mpeg2CheckValueHead()
    ensures Mpeg2(INITIAL, [0x31, 0x32, 0x33, 0x34, 0x35]) == 0xBD9A_B747
  {
    var d: seq<bv8> := [0x31, 0x32, 0x33, 0x34, 0x35];
    assert ByteStep(INITIAL, 0x31) == 0x9EFB_CF93;
    assert ByteStep(0x9EFB_CF93, 0x32) == 0x3FEC_5E6A;
    assert ByteStep(0x3FEC_5E6A, 0x33) == 0xD952_F164;
    assert ByteStep(0xD952_F164, 0x34) == 0xA695_C4AA;
    assert ByteStep(0xA695_C4AA, 0x35) == 0xBD9A_B747;
    assert d[1..][1..][1..][1..][1..] == [];
  }

  lemma Mpeg2CheckValueTail()
    ensures Mpeg2(0xBD9A_B747, [0x36, 0x37, 0x38, 0x39]) == 0x0376_E6E7
  {
    var d: seq<bv8> := [0x36, 0x37, 0x38, 0x39];
    assert ByteStep(0xBD9A_B747, 0x36) == 0xD8F0_6C8F;
    assert ByteStep(0xD8F0_6C8F, 0x37) == 0x0D8A_14C4;
    assert ByteStep(0x0D8A_14C4, 0x38) == 0x49E3_C2FB;
    assert ByteStep(0x49E3_C2FB, 0x39) == 0x0376_E6E7;
    assert d[1..][1..][1..][1..] == [];
  }

  lemma ChecksumOfWord(crc: bv32, w: seq<bv8>)
    requires |w| == 4
    ensures Checksum(crc, w) == WordStep(crc, w)
  {
    assert w[..4] == w && w[4..] == [];
  }

  /** The word order in action: the 8 bytes "12345678" are fed as "4321" "8765". */
  lemma ChecksumCheckValue(d: seq<bv8>)
    requires |d| == 8 && d[0] == 0x31 && d[1] == 0x32 && d[2] == 0x33 && d[3] == 0x34
    requires d[4] == 0x35 && d[5] == 0x36 && d[6] == 0x37 && d[7] == 0x38
    ensures Checksum(INITIAL, d) == 0xFEFC_54F9
  {
    ChecksumConcat(INITIAL, d[..4], d[4..]);
    assert d[..4] + d[4..] == d;
    ChecksumOfWord(INITIAL, d[..4]);
    ChecksumFirstWord(d[..4]);
    ChecksumOfWord(0xC209_1428, d[4..]);
    ChecksumSecondWord(d[4..]);
  }

  lemma ChecksumFirstWord(w: seq<bv8>)
    requires |w| == 4 && w[0] == 0x31 && w[1] == 0x32 && w[2] == 0x33 && w[3] == 0x34
    ensures WordStep(INITIAL, w) == 0xC209_1428
  {
    assert ByteStep(INITIAL, 0x34) == 0x893E_A4F8;
    assert ByteStep(0x893E_A4F8, 0x33) == 0xAC10_A3A8;
    assert ByteStep(0xAC10_A3A8, 0x32) == 0x0930_3394;
    assert ByteStep(0x0930_3394, 0x31) == 0xC209_1428;
  }

  lemma ChecksumSecondWord(w: seq<bv8>)
    requires |w| == 4 && w[0] == 0x35 && w[1] == 0x36 && w[2] == 0x37 && w[3] == 0x38
    ensures WordStep(0xC209_1428, w) == 0xFEFC_54F9
  {
    assert ByteStep(0xC209_1428, 0x38) == 0xAF26_03DF;
    assert ByteStep(0xAF26_03DF, 0x37) == 0x2516_0926;
    assert ByteStep(0x2516_0926, 0x36) == 0x575B_DBA9;
    assert ByteStep(0x575B_DBA9, 0x35) == 0xFEFC_54F9;
  }
}
