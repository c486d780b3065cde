/**
 * The nanopb encoder (pb_encode.c): submessages and packed arrays are encoded twice, once only to count
 * their bytes. The count is exact, and encoding fails just when the data break a declared limit or do not fit.
 */
module NanopbEncode {
  import opened DbFormat
  import opened Checksums
  import opened Coding
  import opened NanopbFormat

  /** An output stream; a sizing stream only counts. */
  class OStream {
    const sizing: bool
    const maxSize: nat
    var written: seq<Byte>
    var bytesWritten: nat

    constructor (sizing: bool, maxSize: nat)
      ensures Valid() && written == [] && bytesWritten == 0 && this.sizing == sizing && this.maxSize == maxSize
    {
      this.sizing, this.maxSize, written, bytesWritten := sizing, maxSize, [], 0;
    }

    predicate Valid()
      reads this
    {
      sizing || bytesWritten <= maxSize
    }

    predicate Room(n: nat)
      reads this
    {
      sizing || bytesWritten + n <= maxSize
    }

    /** pb_write. */
    method Write(buf: seq<Byte>) returns (ok: bool)
      requires Valid()
      modifies this
      ensures Valid() && (ok <==> old(Room(|buf|)))
      ensures ok ==> Added(buf, old(written), old(bytesWritten))
    {
      if |buf| > 0 && !sizing && bytesWritten + |buf| > maxSize {
        return false;
      }
      bytesWritten := bytesWritten + |buf|;
      if !sizing {
        written := written + buf;
      }
      return true;
    }

    /** pb_write of bytes that are only counted. */
    method Count(n: nat)
      requires sizing
      modifies this
      ensures Valid() && bytesWritten == old(bytesWritten) + n && written == old(written)
    {
      bytesWritten := bytesWritten + n;
    }

    /** There is no room for `n` bytes more than at `count`. */
    predicate TooMuch(count: nat, n: nat) {
      !sizing && count + n > maxSize
    }

    /** `buf` was added to what was written. */
    predicate Added(buf: seq<Byte>, before: seq<Byte>, count: nat)
      reads this
    {
      bytesWritten == count + |buf| && (sizing ==> written == before) && (!sizing ==> written == before + buf)
    }
  }

  /** pb_encode_varint. */
  method WriteVarint(stream: OStream, value: nat) returns (ok: bool)
    requires stream.Valid()
    modifies stream
    ensures stream.Valid() && (ok <==> old(stream.Room(|Varint(value)|)))
    ensures ok ==> stream.Added(Varint(value), old(stream.written), old(stream.bytesWritten))
  {
    var buffer := EncodeVarint64(value);
    ok := stream.Write(buffer);
  }

  /** pb_encode_tag. */
  method WriteTag(stream: OStream, wireType: nat, tag: nat) returns (ok: bool)
    requires stream.Valid()
    modifies stream
    ensures stream.Valid() && (ok <==> old(stream.Room(|TagBytes(wireType, tag)|)))
    ensures ok ==> stream.Added(TagBytes(wireType, tag), old(stream.written), old(stream.bytesWritten))
  {
    ok := WriteVarint(stream, tag * 8 + wireType);
  }

  /** pb_encode_string. */
  method WriteString(stream: OStream, bytes: seq<Byte>) returns (ok: bool)
    requires stream.Valid()
    modifies stream
    ensures stream.Valid() && (ok <==> old(stream.Room(|Prefixed(bytes)|)))
    ensures ok ==> stream.Added(Prefixed(bytes), old(stream.written), old(stream.bytesWritten))
  {
    ok := WriteVarint(stream, |bytes|);
    if ok {
      ok := stream.Write(bytes);
    }
  }

  /** The field encoders, pb_enc_bool to pb_enc_fixed_length_bytes. */
  method EncodeValue(stream: OStream, t: LType, v: Value) returns (ok: bool)
    requires stream.Valid() && Typed(t, v)
    modifies stream
    ensures stream.Valid() && (ok <==> Encodable(t, v) && old(stream.Room(|Encoded(t, v)|)))
    ensures ok ==> stream.Added(Encoded(t, v), old(stream.written), old(stream.bytesWritten))
    decreases v, 1
  {
    match t
    case Bool => ok := WriteVarint(stream, if v.n != 0 then 1 else 0);
    case VarintType(size) => ok := WriteVarint(stream, Unsigned(v.n));
    case UvarintType(size) => ok := WriteVarint(stream, v.n);
    case SvarintType(size) => ok := WriteVarint(stream, ZigZag(v.n));
    case Fixed32 => ok := stream.Write(Fixed(v.n, 4));
    case Fixed64 => ok := stream.Write(Fixed(v.n, 8));
    case BytesType(capacity) =>
      if |v.bytes| > capacity {
        return false;
      }
      ok := WriteString(stream, v.bytes);
    case StringType(capacity) => ok := WriteString(stream, v.bytes);
    case FixedBytes(length) => ok := WriteString(stream, v.bytes);
    case Submessage(fields) => ok := EncodeSubmessage(stream, fields, v.slots);
  }

  /** pb_encode_submessage: one pass for the size, one to write. */
  method EncodeSubmessage(stream: OStream, fields: seq<Field>, slots: seq<Slot>) returns (ok: bool)
    requires stream.Valid() && TypedSlots(fields, slots)
    modifies stream
    ensures stream.Valid()
    ensures ok <==> EncodableSlots(fields, slots, |fields|) && old(stream.Room(|Prefixed(EncodedMessage(fields, slots))|))
    ensures ok ==> stream.Added(Prefixed(EncodedMessage(fields, slots)), old(stream.written), old(stream.bytesWritten))
    decreases slots, 2
  {
    var substream := new OStream(true, 0);
    ok := Encode(substream, fields, slots);
    if !ok {
      return;
    }
    var size := substream.bytesWritten;
    ok := WriteVarint(stream, size);
    if !ok {
      return;
    }
    if stream.sizing {
      stream.Count(size);
      return;
    }
    if stream.bytesWritten + size > stream.maxSize {
      return false;
    }
    substream := new OStream(false, size);
    ok := Encode(substream, fields, slots);
    stream.bytesWritten := stream.bytesWritten + substream.bytesWritten;
    stream.written := stream.written + substream.written;
    if substream.bytesWritten != size {
      return false;
    }
  }

  /** pb_encode. */
  method Encode(stream: OStream, fields: seq<Field>, slots: seq<Slot>) returns (ok: bool)
    requires stream.Valid() && TypedSlots(fields, slots)
    modifies stream
    ensures stream.Valid()
    ensures ok <==> EncodableSlots(fields, slots, |fields|) && old(stream.Room(|EncodedMessage(fields, slots)|))
    ensures ok ==> stream.Added(EncodedMessage(fields, slots), old(stream.written), old(stream.bytesWritten))
    decreases slots, 1
  {
    ghost var before, count := stream.written, stream.bytesWritten;
    for i := 0 to |fields|
      invariant stream.Valid() && EncodableSlots(fields, slots, i)
      invariant stream.Added(EncodedUpTo(fields, slots, i), before, count)
    {
      EncodableMore(fields, slots, i);
      var done := EncodeNext(stream, fields, slots, i, before, count);
      if !done {
        return false;
      }
    }
    return true;
  }

  lemma EncodableMore(fields: seq<Field>, slots: seq<Slot>, i: nat)
    requires TypedSlots(fields, slots) && i < |fields| && EncodableSlots(fields, slots, i)
    ensures EncodableSlot(fields[i], slots[i]) ==> EncodableSlots(fields, slots, i + 1)
  {
  }

  /** One turn of the loop in pb_encode. */
  method EncodeNext(stream: OStream, fields: seq<Field>, slots: seq<Slot>, i: nat, ghost before: seq<Byte>, ghost count: nat)
      returns (ok: bool)
    requires stream.Valid() && TypedSlots(fields, slots) && i < |fields|
    requires stream.Added(EncodedUpTo(fields, slots, i), before, count)
    modifies stream
    ensures stream.Valid()
    ensures ok ==> EncodableSlot(fields[i], slots[i]) && stream.Added(EncodedUpTo(fields, slots, i + 1), before, count)
    ensures !ok ==> !EncodableSlots(fields, slots, |fields|) || stream.TooMuch(count, |EncodedMessage(fields, slots)|)
    decreases slots, 0
  {
    ghost var c0 := stream.bytesWritten;
    ghost var x, y, more, all := FieldParts(fields, slots, i);
    ok := EncodeField(stream, fields[i], slots[i]);
    NextOutcome(x, y, more, all, before, count, c0, stream.maxSize);
  }

  /** What one more field adds. */
  lemma FieldParts(fields: seq<Field>, slots: seq<Slot>, i: nat)
      returns (x: seq<Byte>, y: seq<Byte>, more: seq<Byte>, all: seq<Byte>)
    requires TypedSlots(fields, slots) && i < |fields|
    ensures x == EncodedUpTo(fields, slots, i) && y == EncodedField(fields[i], slots[i])
    ensures more == EncodedUpTo(fields, slots, i + 1) && all == EncodedMessage(fields, slots)
    ensures more == x + y && |more| <= |all|
    ensures EncodableSlots(fields, slots, |fields|) ==> EncodableSlot(fields[i], slots[i])
  {
    x, y := EncodedUpTo(fields, slots, i), EncodedField(fields[i], slots[i]);
    more, all := EncodedUpTo(fields, slots, i + 1), EncodedMessage(fields, slots);
    EncodedGrows(fields, slots, i + 1, |fields|);
  }

  lemma NextOutcome(x: seq<Byte>, y: seq<Byte>, more: seq<Byte>, all: seq<Byte>, before: seq<Byte>, count: nat,
      c0: nat, maxSize: nat)
    requires more == x + y && |more| <= |all| && c0 == count + |x|
    ensures (before + x) + y == before + more && c0 + |y| == count + |more|
    ensures c0 + |y| > maxSize ==> count + |all| > maxSize
  {
  }

  lemma {:induction false} EncodedGrows(fields: seq<Field>, slots: seq<Slot>, i: nat, n: nat)
    requires TypedSlots(fields, slots) && i <= n <= |fields|
    ensures |EncodedUpTo(fields, slots, i)| <= |EncodedUpTo(fields, slots, n)|
  {
    if i < n {
      EncodedGrows(fields, slots, i, n - 1);
    }
  }

  lemma {:induction false} TaggedGrows(f: Field, s: Slot, i: nat, n: nat)
    requires i <= n <= |s.values| && forall k :: 0 <= k < |s.values| ==> Typed(f.ltype, s.values[k])
    ensures |Tagged(f, s, i)| <= |Tagged(f, s, n)|
  {
    if i < n {
      TaggedGrows(f, s, i, n - 1);
    }
  }

  lemma PackedStep(t: LType, s: Slot, i: nat)
    requires i < |s.values| && forall k :: 0 <= k < |s.values| ==> Typed(t, s.values[k])
    ensures |Packed(t, s, i + 1)| == |Packed(t, s, i)| + |Encoded(t, s.values[i])|
    ensures Packed(t, s, i + 1) == Packed(t, s, i) + Encoded(t, s.values[i])
  {
  }

  lemma {:induction false} PackedGrows(t: LType, s: Slot, i: nat, n: nat)
    requires i <= n <= |s.values| && forall k :: 0 <= k < |s.values| ==> Typed(t, s.values[k])
    ensures |Packed(t, s, i)| <= |Packed(t, s, n)|
  {
    if i < n {
      PackedGrows(t, s, i, n - 1);
      PackedStep(t, s, n - 1);
    }
  }

  /** encode_basic_field. */
  method EncodeField(stream: OStream, f: Field, s: Slot) returns (ok: bool)
    requires stream.Valid() && TypedSlot(f, s)
    modifies stream
    ensures stream.Valid() && (ok <==> EncodableSlot(f, s) && old(stream.Room(|EncodedField(f, s)|)))
    ensures ok ==> stream.Added(EncodedField(f, s), old(stream.written), old(stream.bytesWritten))
    decreases s, 4
  {
    match f.htype
    case Required => ok := EncodeTagged(stream, f, s);
    case Optional => ok := EncodeTagged(stream, f, s);
    case Oneof(_) => ok := EncodeTagged(stream, f, s);
    case Singular =>
      if IsDefault(f.ltype, s.values[0]) {
        DefaultIsEncodable(f.ltype, s.values[0]);
        return true;
      }
      ok := EncodeTagged(stream, f, s);
    case Repeated(max) =>
      if |s.values| == 0 {
        return true;
      }
      if |s.values| > max {
        return false;
      }
      if Packable(f.ltype) {
        ok := EncodePacked(stream, f, s);
      } else {
        ok := EncodeTagged(stream, f, s);
      }
  }

  lemma {:induction false} DefaultIsEncodable(t: LType, v: Value)
    requires Typed(t, v) && IsDefault(t, v)
    ensures Encodable(t, v)
    decreases v, 1
  {
    if t.Submessage? {
      forall i | 0 <= i < |t.fields|
        ensures EncodableSlot(t.fields[i], v.slots[i])
      {
        DefaultSlotIsEncodable(t.fields[i], v.slots[i]);
      }
    }
  }

  lemma {:induction false} DefaultSlotIsEncodable(f: Field, s: Slot)
    requires TypedSlot(f, s) && IsDefaultSlot(f, s)
    ensures EncodableSlot(f, s)
    decreases s, 2
  {
    if f.htype.Singular? {
      DefaultIsEncodable(f.ltype, s.values[0]);
    }
  }

  /** Each value with its tag: a single value, or the unpacked part of encode_array. */
  method EncodeTagged(stream: OStream, f: Field, s: Slot) returns (ok: bool)
    requires stream.Valid() && TypedSlot(f, s)
    modifies stream
    ensures stream.Valid()
    ensures ok <==>
      (forall k :: 0 <= k < |s.values| ==> Encodable(f.ltype, s.values[k])) && old(stream.Room(|Tagged(f, s, |s.values|)|))
    ensures ok ==> stream.Added(Tagged(f, s, |s.values|), old(stream.written), old(stream.bytesWritten))
    decreases s, 2
  {
    ghost var before, count := stream.written, stream.bytesWritten;
    for i := 0 to |s.values|
      invariant stream.Valid() && forall k :: 0 <= k < i ==> Encodable(f.ltype, s.values[k])
      invariant stream.Added(Tagged(f, s, i), before, count)
    {
      ok := EncodeTaggedValue(stream, f, s, i, before, count);
      if !ok {
        return;
      }
    }
    return true;
  }

  method EncodeTaggedValue(stream: OStream, f: Field, s: Slot, i: nat, ghost before: seq<Byte>,
      ghost count: nat) returns (ok: bool)
    requires stream.Valid() && TypedSlot(f, s) && i < |s.values|
    requires stream.Added(Tagged(f, s, i), before, count)
    modifies stream
    ensures stream.Valid()
    ensures ok ==> Encodable(f.ltype, s.values[i]) && stream.Added(Tagged(f, s, i + 1), before, count)
    ensures !ok ==> !Encodable(f.ltype, s.values[i]) || stream.TooMuch(count, |Tagged(f, s, |s.values|)|)
    decreases s, 1
  {
    ghost var c0 := stream.bytesWritten;
    ghost var x, y, z, more, all := TaggedParts(f, s, i);
    ok := WriteTag(stream, WireType(f.ltype), f.tag);
    NextOutcome(x, y, x + y, all, before, count, c0, stream.maxSize);
    if ok {
      ok := EncodeValue(stream, f.ltype, s.values[i]);
      NextOutcome(x + y, z, more, all, before, count, c0 + |y|, stream.maxSize);
    }
  }

  /** What one more tagged value adds. */
  lemma TaggedParts(f: Field, s: Slot, i: nat) returns (x: seq<Byte>, y: seq<Byte>, z: seq<Byte>, more: seq<Byte>, all: seq<Byte>)
    requires TypedSlot(f, s) && i < |s.values|
    ensures x == Tagged(f, s, i) && y == TagBytes(WireType(f.ltype), f.tag) && z == Encoded(f.ltype, s.values[i])
    ensures more == Tagged(f, s, i + 1) && all == Tagged(f, s, |s.values|)
    ensures more == x + y + z && |more| <= |all|
  {
    x, y, z := Tagged(f, s, i), TagBytes(WireType(f.ltype), f.tag), Encoded(f.ltype, s.values[i]);
    more, all := Tagged(f, s, i + 1), Tagged(f, s, |s.values|);
    TaggedGrows(f, s, i + 1, |s.values|);
  }

  /** The packed part of encode_array. */
  method EncodePacked(stream: OStream, f: Field, s: Slot) returns (ok: bool)
    requires stream.Valid() && TypedSlot(f, s) && Packable(f.ltype) && s.values != []
    modifies stream
    ensures stream.Valid()
    ensures ok <==> old(stream.Room(|TagBytes(WT_STRING, f.tag) + Prefixed(Packed(f.ltype, s, |s.values|))|))
    ensures ok ==> stream.Added(TagBytes(WT_STRING, f.tag) + Prefixed(Packed(f.ltype, s, |s.values|)),
                                old(stream.written), old(stream.bytesWritten))
    decreases s, 3
  {
    ghost var before, count := stream.written, stream.bytesWritten;
    ghost var x, y := TagBytes(WT_STRING, f.tag), Prefixed(Packed(f.ltype, s, |s.values|));
    ghost var all := x + y;
    ok := WriteTag(stream, WT_STRING, f.tag);
    NextOutcome([], x, x, all, before, count, count, stream.maxSize);
    if ok {
      ok := EncodeLengthAndValues(stream, f.ltype, s);
      NextOutcome(x, y, all, all, before, count, count + |x|, stream.maxSize);
    }
  }

  /** The size of a packed array and its values. */
  method EncodeLengthAndValues(stream: OStream, t: LType, s: Slot) returns (ok: bool)
    requires stream.Valid() && Packable(t) && forall k :: 0 <= k < |s.values| ==> Typed(t, s.values[k])
    modifies stream
    ensures stream.Valid() && (ok <==> old(stream.Room(|Prefixed(Packed(t, s, |s.values|))|)))
    ensures ok ==> stream.Added(Prefixed(Packed(t, s, |s.values|)), old(stream.written), old(stream.bytesWritten))
    decreases s, 2
  {
    var size := PackedSize(t, s);
    ghost var before, count := stream.written, stream.bytesWritten;
    ghost var x, y, all := Varint(size), Packed(t, s, |s.values|), Prefixed(Packed(t, s, |s.values|));
    ok := WriteVarint(stream, size);
    NextOutcome([], x, x, all, before, count, count, stream.maxSize);
    if !ok {
      return;
    }
    NextOutcome(x, y, all, all, before, count, count + |x|, stream.maxSize);
    if stream.sizing {
      stream.Count(size);
      return;
    }
    ok := WritePacked(stream, t, s);
  }

  /** The total size of a packed array, by its type or by a sizing pass. */
  method PackedSize(t: LType, s: Slot) returns (size: nat)
    requires Packable(t) && forall k :: 0 <= k < |s.values| ==> Typed(t, s.values[k])
    ensures size == |Packed(t, s, |s.values|)|
    decreases s, 1
  {
    if t.Fixed32? {
      FixedSize(t, s, |s.values|, 4);
      return 4 * |s.values|;
    }
    if t.Fixed64? {
      FixedSize(t, s, |s.values|, 8);
      return 8 * |s.values|;
    }
    var sizestream := new OStream(true, 0);
    var ok := WritePacked(sizestream, t, s);
    return sizestream.bytesWritten;
  }

  lemma {:induction false} FixedSize(t: LType, s: Slot, n: nat, size: nat)
    requires n <= |s.values| && forall k :: 0 <= k < |s.values| ==> Typed(t, s.values[k])
    requires (t.Fixed32? && size == 4) || (t.Fixed64? && size == 8)
    ensures |Packed(t, s, n)| == if size == 4 then 4 * n else 8 * n
  {
    if n > 0 {
      FixedSize(t, s, n - 1, size);
      FixedStep(t, s, n - 1, n, size);
    }
  }

  lemma {:induction false} FixedStep(t: LType, s: Slot, i: nat, n: nat, size: nat)
    requires n == i + 1 <= |s.values| && forall k :: 0 <= k < |s.values| ==> Typed(t, s.values[k])
    requires (t.Fixed32? && size == 4) || (t.Fixed64? && size == 8)
    ensures |Packed(t, s, n)| == |Packed(t, s, i)| + size
  {
    PackedStep(t, s, i);
    FixedLength(s.values[i].n, size);
  }

  lemma {:induction false} FixedLength(n: nat, size: nat)
    ensures |Fixed(n, size)| == size
  {
    if size > 0 {
      FixedLength(n / 256, size - 1);
    }
  }

  method WritePacked(stream: OStream, t: LType, s: Slot) returns (ok: bool)
    requires stream.Valid() && Packable(t) && forall k :: 0 <= k < |s.values| ==> Typed(t, s.values[k])
    modifies stream
    ensures stream.Valid() && (ok <==> old(stream.Room(|Packed(t, s, |s.values|)|)))
    ensures ok ==> stream.Added(Packed(t, s, |s.values|), old(stream.written), old(stream.bytesWritten))
    decreases s, 0, 1
  {
    ghost var before, count := stream.written, stream.bytesWritten;
    for i := 0 to |s.values|
      invariant stream.Valid() && stream.Added(Packed(t, s, i), before, count)
    {
      ok := WritePackedValue(stream, t, s, i, before, count);
      if !ok {
        return;
      }
    }
    return true;
  }

  method WritePackedValue(stream: OStream, t: LType, s: Slot, i: nat, ghost before: seq<Byte>,
      ghost count: nat) returns (ok: bool)
    requires stream.Valid() && Packable(t) && forall k :: 0 <= k < |s.values| ==> Typed(t, s.values[k])
    requires i < |s.values| && stream.Added(Packed(t, s, i), before, count)
    modifies stream
    ensures stream.Valid()
    ensures ok ==> stream.Added(Packed(t, s, i + 1), before, count)
    ensures !ok ==> stream.TooMuch(count, |Packed(t, s, |s.values|)|)
    decreases s, 0, 0
  {
    ghost var c0 := stream.bytesWritten;
    ghost var x, y, more, all := PackedParts(t, s, i);
    ok := EncodeValue(stream, t, s.values[i]);
    NextOutcome(x, y, more, all, before, count, c0, stream.maxSize);
  }

  /** What one more value adds. */
  lemma PackedParts(t: LType, s: Slot, i: nat) returns (x: seq<Byte>, y: seq<Byte>, more: seq<Byte>, all: seq<Byte>)
    requires Packable(t) && (forall k :: 0 <= k < |s.values| ==> Typed(t, s.values[k])) && i < |s.values|
    ensures x == Packed(t, s, i) && y == Encoded(t, s.values[i]) && Encodable(t, s.values[i])
    ensures more == Packed(t, s, i + 1) && all == Packed(t, s, |s.values|)
    ensures more == x + y && |more| <= |all|
  {
    x, y := Packed(t, s, i), Encoded(t, s.values[i]);
    more, all := Packed(t, s, i + 1), Packed(t, s, |s.values|);
    PackedStep(t, s, i);
    PackedGrows(t, s, i + 1, |s.values|);
  }
}
