/**
 * Stored checksums: bytes and 32-bit words as numbers (util/coding.h), the masking of util/crc32c.h,
 * and the checksum of Crc32c in these terms.
 */
module Checksums {
  import Crc32c

  type Byte = b: int | 0 <= b < 256
  type FourBytes = b: seq<Byte> | |b| == 4 witness [0, 0, 0, 0]
  const WORDS := 0x1_0000_0000
  type Word = w: int | 0 <= w < WORDS

  // Words as bytes

  function EncodeFixed32(w: Word): FourBytes {
    [w % 256, w / 256 % 256, w / 65536 % 256, w / 16777216]
  }

  lemma DecodeEncode(w: Word)
    ensures DecodeFixed32(EncodeFixed32(w)) == w
  {
    assert w == w / 256 * 256 + w % 256;
    assert w / 256 == w / 65536 * 256 + w / 256 % 256;
    assert w / 65536 == w / 16777216 * 256 + w / 65536 % 256;
  }

  function DecodeFixed32(b: seq<Byte>): Word
    requires |b| >= 4
  {
    var b0: int, b1: int, b2: int, b3: int := b[0], b[1], b[2], b[3];
    b0 + 256 * b1 + 65536 * b2 + 16777216 * b3
  }

  // Numbers as bits, the lowest first

  function BitsOf(n: nat, k: nat): (r: seq<bool>)
    ensures |r| == k
  {
    if k == 0 then [] else [n % 2 == 1] + BitsOf(n / 2, k - 1)
  }

  function NumberOf(bits: seq<bool>): (n: nat)
    ensures n < Power2(|bits|)
  {
    if bits == [] then 0 else (if bits[0] then 1 else 0) + 2 * NumberOf(bits[1..])
  }

  function Power2(k: nat): nat {
    if k == 0 then 1 else 2 * Power2(k - 1)
  }

  lemma {:induction false} BitsOfNumber(bits: seq<bool>)
    ensures BitsOf(NumberOf(bits), |bits|) == bits
  {
    if bits != [] {
      BitsOfNumber(bits[1..]);
    }
  }

  // The checksum, as a number

  function ByteBits(b: Byte): Crc32c.Byte {
    BitsOf(b, 8)
  }

  function AllBits(data: seq<Byte>): seq<Crc32c.Byte> {
    seq(|data|, i requires 0 <= i < |data| => ByteBits(data[i]))
  }

  /** crc32c::Extend. */
  function Extend(crc: Word, data: seq<Byte>): Word {
    WordOf(Crc32c.Checksum(BitsOf(crc, 32), AllBits(data)))
  }

  function WordOf(bits: Crc32c.Word): Word {
    assert Power2(32) == WORDS by { PowersOf2(); }
    NumberOf(bits)
  }

  lemma PowersOf2()
    ensures Power2(32) == WORDS
  {
    assert Power2(8) == 256;
    PowerAdds(8, 8);
    PowerAdds(16, 16);
  }

  lemma {:induction false} PowerAdds(m: nat, n: nat)
    ensures Power2(m + n) == Power2(m) * Power2(n)
  {
    if n > 0 {
      PowerAdds(m, n - 1);
    }
  }

  /** crc32c::Value. */
  function Value(data: seq<Byte>): Word {
    Extend(0, data)
  }

  lemma ExtendAppend(crc: Word, a: seq<Byte>, b: seq<Byte>)
    ensures Extend(Extend(crc, a), b) == Extend(crc, a + b)
  {
    var w := Crc32c.Checksum(BitsOf(crc, 32), AllBits(a));
    assert BitsOf(WordOf(w), 32) == w by { BitsOfNumber(w); }
    Crc32c.ChecksumAppend(BitsOf(crc, 32), AllBits(a), AllBits(b));
    AllBitsAppend(a, b);
  }

  lemma AllBitsAppend(a: seq<Byte>, b: seq<Byte>)
    ensures AllBits(a + b) == AllBits(a) + AllBits(b)
  {
  }

  // Masking

  const MASK_DELTA: Word := 0xa282ead8

  /** Rotate right by 15 bits and add a constant, with the wrap-around of 32 bits. */
  function Mask(crc: Word): Word {
    (crc / 0x8000 + crc % 0x8000 * 0x2_0000 + MASK_DELTA) % WORDS
  }

  function Unmask(masked: Word): Word {
    var rot := (masked - MASK_DELTA) % WORDS;
    rot / 0x2_0000 + rot % 0x2_0000 * 0x8000
  }

  lemma UnmaskMask(crc: Word)
    ensures Unmask(Mask(crc)) == crc
  {
    var rot := crc / 0x8000 + crc % 0x8000 * 0x2_0000;
    assert 0 <= rot < WORDS;
    assert (Mask(crc) - MASK_DELTA) % WORDS == rot;
    assert rot / 0x2_0000 == crc % 0x8000 && rot % 0x2_0000 == crc / 0x8000;
  }

  lemma MaskUnmask(masked: Word)
    ensures Mask(Unmask(masked)) == masked
  {
    var rot := (masked - MASK_DELTA) % WORDS;
    var crc := Unmask(masked);
    assert crc / 0x8000 == rot % 0x2_0000 && crc % 0x8000 == rot / 0x2_0000;
    assert crc / 0x8000 + crc % 0x8000 * 0x2_0000 == rot;
    assert (rot + MASK_DELTA) % WORDS == masked;
  }

  // Checksums in files

  /** How a file stores the checksum of `data`. */
  function Stored(data: seq<Byte>): FourBytes {
    EncodeFixed32(Mask(Value(data)))
  }

  /** What the log writer stores for a type byte and a payload, from the checksum of the type byte alone. */
  lemma StoredInTwoSteps(t: Byte, payload: seq<Byte>)
    ensures EncodeFixed32(Mask(Extend(Value([t]), payload))) == Stored([t] + payload)
  {
    ExtendAppend(0, [t], payload);
  }

  /** The check of the readers holds just for the bytes that a writer stores. */
  lemma CheckIsExact(stored: FourBytes, data: seq<Byte>)
    ensures Unmask(DecodeFixed32(stored)) == Value(data) <==> stored == Stored(data)
  {
    UnmaskMask(Value(data));
    MaskUnmask(DecodeFixed32(stored));
    EncodeDecode(stored);
    DecodeEncode(Mask(Value(data)));
  }

  lemma EncodeDecode(b: FourBytes)
    ensures EncodeFixed32(DecodeFixed32(b)) == b
  {
    var b0: int, b1: int, b2: int, b3: int := b[0], b[1], b[2], b[3];
    Digit(b0, b1 + 256 * (b2 + 256 * b3));
    Digit(b1, b2 + 256 * b3);
    Digit(b2, b3);
    Quotients(DecodeFixed32(b));
  }

  lemma Digit(b: Byte, rest: nat)
    ensures (b + 256 * rest) % 256 == b && (b + 256 * rest) / 256 == rest
  {
  }

  lemma Quotients(w: nat)
    ensures w / 65536 == w / 256 / 256 && w / 16777216 == w / 256 / 256 / 256
  {
  }
}
