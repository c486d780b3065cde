/**
 * nanopb: messages by descriptor, and the bytes they stand for (pb.h, pb_encode.c). The wire format is
 * that of the Protocol Buffers Encoding specification, "Base 128 Varints" and "Message Structure".
 */
module NanopbFormat {
  import opened DbFormat
  import opened Checksums
  import opened Coding

  /** The type of a field's data; sizes in bytes, capacities as declared. */
  datatype LType =
    | Bool
    | VarintType(size: nat)
    | UvarintType(size: nat)
    | SvarintType(size: nat)
    | Fixed32
    | Fixed64
    | BytesType(capacity: nat)
    | StringType(capacity: nat)
    | FixedBytes(length: nat)
    | Submessage(fields: seq<Field>)

  /** How often a field occurs; Singular is optional without a has_ field; a oneof names its union. */
  datatype HType = Required | Optional | Singular | Repeated(max: nat) | Oneof(union: nat)

  datatype Field = Field(tag: nat, ltype: LType, htype: HType)

  /** The data of a field: what a required or singular field has, what others have if present. */
  datatype Value = Number(n: int) | Text(bytes: seq<Byte>) | Message(slots: seq<Slot>)
  datatype Slot = Slot(values: seq<Value>)

  predicate Packable(t: LType) {
    !t.BytesType? && !t.StringType? && !t.FixedBytes? && !t.Submessage?
  }

  predicate IntegerSize(size: nat) {
    size == 1 || size == 2 || size == 4 || size == 8
  }

  function Range(size: nat): nat {
    if size == 1 then 0x100 else if size == 2 then 0x1_0000 else if size == 4 then WORDS else DWORDS
  }

  /** A signed number of `size` bytes. */
  predicate InRange(size: nat, n: int) {
    0 <= n + Range(size) / 2 < Range(size)
  }

  /** What C's types say of the data. */
  predicate Typed(t: LType, v: Value)
    decreases v, 1
  {
    match t
    case Bool => v.Number? && (v.n == 0 || v.n == 1)
    case VarintType(size) => IntegerSize(size) && v.Number? && InRange(size, v.n)
    case UvarintType(size) => IntegerSize(size) && v.Number? && 0 <= v.n < Range(size)
    case SvarintType(size) => IntegerSize(size) && v.Number? && InRange(size, v.n)
    case Fixed32 => v.Number? && 0 <= v.n < WORDS
    case Fixed64 => v.Number? && 0 <= v.n < DWORDS
    case BytesType(capacity) => v.Text?
    case StringType(capacity) => v.Text? && |v.bytes| <= capacity && forall i :: 0 <= i < |v.bytes| ==> v.bytes[i] != 0
    case FixedBytes(length) => v.Text? && |v.bytes| == length
    case Submessage(fields) => v.Message? && TypedSlots(fields, v.slots)
  }

  predicate TypedSlots(fields: seq<Field>, slots: seq<Slot>)
    decreases slots, 1
  {
    |slots| == |fields| && forall i :: 0 <= i < |fields| ==> TypedSlot(fields[i], slots[i])
  }

  predicate TypedSlot(f: Field, s: Slot)
    decreases s, 2
  {
    && (f.htype.Required? || f.htype.Singular? ==> |s.values| == 1)
    && (f.htype.Optional? || f.htype.Oneof? ==> |s.values| <= 1)
    && forall k :: 0 <= k < |s.values| ==> Typed(f.ltype, s.values[k])
  }

  // Defaults

  function Default(t: LType): Value
    decreases t, 1
  {
    match t
    case BytesType(_) => Text([])
    case StringType(_) => Text([])
    case FixedBytes(length) => Text(seq(length, _ => 0))
    case Submessage(fields) => Message(Defaults(fields, |fields|))
    case Bool => Number(0)
    case VarintType(_) => Number(0)
    case UvarintType(_) => Number(0)
    case SvarintType(_) => Number(0)
    case Fixed32 => Number(0)
    case Fixed64 => Number(0)
  }

  /** pb_message_set_to_defaults, for the first `n` fields. */
  function Defaults(fields: seq<Field>, n: nat): (r: seq<Slot>)
    requires n <= |fields|
    ensures |r| == n
    decreases fields, n
  {
    if n == 0 then [] else Defaults(fields, n - 1) + [FieldDefault(fields[n - 1])]
  }

  function FieldDefault(f: Field): Slot
    decreases f, 0
  {
    Slot(if f.htype.Required? || f.htype.Singular? then [Default(f.ltype)] else [])
  }

  /** pb_check_proto3_default_value, for the data of a singular field. */
  predicate IsDefault(t: LType, v: Value)
    requires Typed(t, v)
    decreases v, 0
  {
    match t
    case BytesType(_) => v.bytes == []
    case StringType(_) => v.bytes == []
    case FixedBytes(length) => length == 0
    case Submessage(fields) =>
      TypedSlots(fields, v.slots) && forall i :: 0 <= i < |fields| ==> IsDefaultSlot(fields[i], v.slots[i])
    case Bool => v.n == 0
    case VarintType(_) => v.n == 0
    case UvarintType(_) => v.n == 0
    case SvarintType(_) => v.n == 0
    case Fixed32 => v.n == 0
    case Fixed64 => v.n == 0
  }

  predicate IsDefaultSlot(f: Field, s: Slot)
    requires TypedSlot(f, s)
    decreases s, 1
  {
    match f.htype
    case Required => false
    case Singular => IsDefault(f.ltype, s.values[0])
    case Optional => s.values == []
    case Repeated(_) => s.values == []
    case Oneof(_) => s.values == []
  }

  // Encoding

  const WT_VARINT: nat := 0
  const WT_64BIT: nat := 1
  const WT_STRING: nat := 2
  const WT_32BIT: nat := 5

  function WireType(t: LType): nat {
    match t
    case Bool => WT_VARINT
    case VarintType(_) => WT_VARINT
    case UvarintType(_) => WT_VARINT
    case SvarintType(_) => WT_VARINT
    case Fixed32 => WT_32BIT
    case Fixed64 => WT_64BIT
    case BytesType(_) => WT_STRING
    case StringType(_) => WT_STRING
    case FixedBytes(_) => WT_STRING
    case Submessage(_) => WT_STRING
  }

  function TagBytes(wireType: nat, tag: nat): seq<Byte> {
    Varint(tag * 8 + wireType)
  }

  /** The two's complement of a 64-bit number. */
  function Unsigned(n: int): nat {
    n % DWORDS
  }

  function ZigZag(n: int): nat {
    if n < 0 then -2 * n - 1 else 2 * n
  }

  function Fixed(n: nat, size: nat): seq<Byte> {
    if size == 0 then [] else [n % 256] + Fixed(n / 256, size - 1)
  }

  /** The bytes of a value, without a tag. */
  ghost function Encoded(t: LType, v: Value): seq<Byte>
    requires Typed(t, v)
    decreases v, 2
  {
    match t
    case Bool => Varint(if v.n != 0 then 1 else 0)
    case VarintType(_) => Varint(Unsigned(v.n))
    case UvarintType(_) => Varint(v.n)
    case SvarintType(_) => Varint(ZigZag(v.n))
    case Fixed32 => Fixed(v.n, 4)
    case Fixed64 => Fixed(v.n, 8)
    case BytesType(_) => Prefixed(v.bytes)
    case StringType(_) => Prefixed(v.bytes)
    case FixedBytes(_) => Prefixed(v.bytes)
    case Submessage(fields) => Prefixed(EncodedUpTo(fields, v.slots, |fields|))
  }

  /** The first `n` values, one after the other. */
  ghost function Packed(t: LType, s: Slot, n: nat): seq<Byte>
    requires n <= |s.values| && forall k :: 0 <= k < |s.values| ==> Typed(t, s.values[k])
    decreases s, n
  {
    if n == 0 then [] else Packed(t, s, n - 1) + Encoded(t, s.values[n - 1])
  }

  /** The first `n` values, each with its tag. */
  ghost function Tagged(f: Field, s: Slot, n: nat): seq<Byte>
    requires n <= |s.values| && forall k :: 0 <= k < |s.values| ==> Typed(f.ltype, s.values[k])
    decreases s, n
  {
    if n == 0 then []
    else Tagged(f, s, n - 1) + (TagBytes(WireType(f.ltype), f.tag) + Encoded(f.ltype, s.values[n - 1]))
  }

  /** A repeated field of numbers is one record; anything else is one record a value, none for a default. */
  ghost function EncodedField(f: Field, s: Slot): seq<Byte>
    requires TypedSlot(f, s)
    decreases s, |s.values| + 1
  {
    if f.htype.Singular? && IsDefault(f.ltype, s.values[0]) then []
    else if f.htype.Repeated? && Packable(f.ltype) then
      if s.values == [] then [] else TagBytes(WT_STRING, f.tag) + Prefixed(Packed(f.ltype, s, |s.values|))
    else
      Tagged(f, s, |s.values|)
  }

  /** The first `n` fields of a message. */
  ghost function EncodedUpTo(fields: seq<Field>, slots: seq<Slot>, n: nat): seq<Byte>
    requires TypedSlots(fields, slots) && n <= |fields|
    decreases slots, n
  {
    if n == 0 then [] else EncodedUpTo(fields, slots, n - 1) + EncodedField(fields[n - 1], slots[n - 1])
  }

  ghost function EncodedMessage(fields: seq<Field>, slots: seq<Slot>): seq<Byte>
    requires TypedSlots(fields, slots)
  {
    EncodedUpTo(fields, slots, |fields|)
  }

  // The format against its specification

  /** `z` has the sign as its lowest bit, then the bits of `number`, turned over if the sign is set. */
  ghost predicate ZigZagged(z: seq<bool>, number: seq<bool>, sign: bool) {
    && |z| == |number| > 0 && z[0] == sign
    && forall i, j :: 0 <= i && j == i + 1 && j < |z| ==> z[j] == (number[i] != sign)
  }

  /** The zigzag form in bits: the two's complement, turned over if negative, moved up by one, and the sign. */
  lemma ZigZagBits(n: int)
    requires InRange(8, n)
    ensures ZigZag(n) < DWORDS
    ensures ZigZagged(BitsOf(ZigZag(n), 64), BitsOf(Unsigned(n), 64), n < 0)
  {
    PowerOf64();
    if n < 0 { NegativeBits(Unsigned(n), -n - 1, 63, 64); } else { PositiveBits(n, 63, 64); }
  }

  lemma {:induction false} PositiveBits(n: nat, k: nat, all: nat)
    requires all == k + 1
    ensures ZigZagged(BitsOf(2 * n, all), BitsOf(n, all), false)
  {
    BitsPrefix(n, k, 1, all);
    FirstBit(2 * n, all);
    var z, whole := BitsOf(2 * n, all), BitsOf(n, all);
    forall i, j | 0 <= i && j == i + 1 && j < all ensures z[j] == whole[i] { assert whole[..k][i] == whole[i]; }
  }

  lemma FirstBit(n: nat, k: nat)
    requires k > 0
    ensures BitsOf(n, k) == [n % 2 == 1] + BitsOf(n / 2, k - 1)
  {
  }

  lemma NegativeBits(u: nat, m: nat, k: nat, all: nat)
    requires all == k + 1 && u + m == Power2(all) - 1
    ensures ZigZagged(BitsOf(2 * m + 1, all), BitsOf(u, all), true)
  {
    Complement(m, u, all);
    BitsPrefix(m, k, 1, all);
    FirstBit(2 * m + 1, all);
    var z, number, whole := BitsOf(2 * m + 1, all), BitsOf(u, all), BitsOf(m, all);
    forall i, j | 0 <= i && j == i + 1 && j < all ensures z[j] == !number[i] { assert whole[..k][i] == whole[i]; }
  }

  lemma PowerOf64()
    ensures Power2(64) == DWORDS
  {
    PowersOf2();
    PowerAdds(32, 32);
  }

  lemma {:induction false} BitsPrefix(n: nat, k: nat, more: nat, all: nat)
    requires all == k + more
    ensures BitsOf(n, all)[..k] == BitsOf(n, k)
  {
    if k > 0 {
      BitsPrefix(n / 2, k - 1, more, all - 1);
      FirstBit(n, all);
      FirstBit(n, k);
    }
  }

  /** Taking away from all ones turns every bit over. */
  lemma {:induction false} Complement(m: nat, u: nat, k: nat)
    requires u + m == Power2(k) - 1
    ensures forall i :: 0 <= i < k ==> BitsOf(u, k)[i] == !BitsOf(m, k)[i]
  {
    if k > 0 {
      assert u / 2 + m / 2 == Power2(k - 1) - 1;
      Complement(m / 2, u / 2, k - 1);
      FirstBit(m, k);
      FirstBit(u, k);
    }
  }

  lemma {:induction false} OneField(f: Field, s: Slot)
    requires TypedSlot(f, s)
    ensures TypedSlots([f], [s]) && EncodedMessage([f], [s]) == EncodedField(f, s)
  {
    assert EncodedUpTo([f], [s], 0) == [];
    assert EncodedUpTo([f], [s], 1) == EncodedField(f, s);
  }

  lemma {:induction false} OneValue(f: Field, v: Value)
    requires Typed(f.ltype, v) && f.htype.Optional?
    ensures TypedSlots([f], [Slot([v])])
    ensures EncodedMessage([f], [Slot([v])]) == TagBytes(WireType(f.ltype), f.tag) + Encoded(f.ltype, v)
  {
    var s := Slot([v]);
    OneField(f, s);
    assert Tagged(f, s, 0) == [];
    assert Tagged(f, s, 1) == TagBytes(WireType(f.ltype), f.tag) + Encoded(f.ltype, v);
  }

  const TEST1 := Field(1, VarintType(4), Optional)
  const TEST2 := Field(2, StringType(7), Optional)
  const TEST3 := Field(3, Submessage([TEST1]), Optional)
  const TEST4 := Field(4, VarintType(4), Repeated(3))

  lemma SpecifiedNumber()
    ensures TypedSlots([TEST1], [Slot([Number(150)])])
    ensures EncodedMessage([TEST1], [Slot([Number(150)])]) == [0x08, 0x96, 0x01]
  {
    OneValue(TEST1, Number(150));
    assert Varint(150) == [0x96] + Varint(1);
  }

  lemma SpecifiedString()
    ensures TypedSlots([TEST2], [Slot([Text([0x74, 0x65, 0x73, 0x74, 0x69, 0x6e, 0x67])])])
    ensures EncodedMessage([TEST2], [Slot([Text([0x74, 0x65, 0x73, 0x74, 0x69, 0x6e, 0x67])])]) ==
      [0x12, 0x07, 0x74, 0x65, 0x73, 0x74, 0x69, 0x6e, 0x67]
  {
    OneValue(TEST2, Text([0x74, 0x65, 0x73, 0x74, 0x69, 0x6e, 0x67]));
  }

  lemma SpecifiedSubmessage()
    ensures TypedSlots([TEST3], [Slot([Message([Slot([Number(150)])])])])
    ensures EncodedMessage([TEST3], [Slot([Message([Slot([Number(150)])])])]) == [0x1a, 0x03, 0x08, 0x96, 0x01]
  {
    SpecifiedNumber();
    var m := Message([Slot([Number(150)])]);
    OneValue(TEST3, m);
    assert Encoded(TEST3.ltype, m) == Prefixed(EncodedMessage([TEST1], m.slots));
  }

  /** A packed array of numbers of one, two and three bytes. */
  lemma SpecifiedPacked()
    ensures TypedSlots([TEST4], [Slot([Number(3), Number(270), Number(86942)])])
    ensures EncodedMessage([TEST4], [Slot([Number(3), Number(270), Number(86942)])]) ==
      [0x22, 0x06, 0x03, 0x8e, 0x02, 0x9e, 0xa7, 0x05]
  {
    var s := Slot([Number(3), Number(270), Number(86942)]);
    assert TypedSlot(TEST4, s);
    OneField(TEST4, s);
    PackedValues(s);
  }

  lemma {:induction false} PackedValues(s: Slot)
    requires s == Slot([Number(3), Number(270), Number(86942)])
    ensures Packed(TEST4.ltype, s, 3) == [0x03, 0x8e, 0x02, 0x9e, 0xa7, 0x05]
  {
    var t := TEST4.ltype;
    assert Varint(270) == [0x8e] + Varint(2);
    assert Varint(86942) == [0x9e] + Varint(679) && Varint(679) == [0xa7] + Varint(5);
    assert Packed(t, s, 0) == [];
    assert Packed(t, s, 1) == [0x03];
    assert Packed(t, s, 2) == [0x03, 0x8e, 0x02];
  }

  /** The other wire types, each with its number in the lowest bits of the tag. */
  lemma SpecifiedFixed32()
    ensures EncodedAlone(Fixed32, 0x0403_0201) == [0x0d, 1, 2, 3, 4]
  {
    assert Fixed(0x0403_0201, 4) == [1] + Fixed(0x04_0302, 3) && Fixed(0x04_0302, 3) == [2, 3, 4];
  }

  lemma SpecifiedFixed64(n: Byte)
    ensures EncodedAlone(Fixed64, n) == [0x09, n, 0, 0, 0, 0, 0, 0, 0]
  {
    assert Fixed(n, 8) == [n] + Fixed(0, 7) && Fixed(0, 7) == [0, 0, 0, 0, 0, 0, 0];
  }

  /** Field 1 of type `t` with a number. */
  ghost function EncodedAlone(t: LType, n: int): seq<Byte>
    requires Typed(t, Number(n))
  {
    TagBytes(WireType(t), 1) + Encoded(t, Number(n))
  }

  // What the encoder accepts

  /** No array has more entries and no bytes more length than declared. */
  ghost predicate Encodable(t: LType, v: Value)
    requires Typed(t, v)
    decreases v, 0
  {
    match t
    case BytesType(capacity) => |v.bytes| <= capacity
    case Submessage(fields) => EncodableSlots(fields, v.slots, |fields|)
    case _ => true
  }

  ghost predicate EncodableSlot(f: Field, s: Slot)
    requires TypedSlot(f, s)
    decreases s, 1
  {
    && (f.htype.Repeated? ==> |s.values| <= f.htype.max)
    && forall k :: 0 <= k < |s.values| ==> Encodable(f.ltype, s.values[k])
  }

  ghost predicate EncodableSlots(fields: seq<Field>, slots: seq<Slot>, n: nat)
    requires TypedSlots(fields, slots) && n <= |fields|
    decreases slots, 0
  {
    forall i :: 0 <= i < n ==> EncodableSlot(fields[i], slots[i])
  }
}
