/**
 * Reading messages (pb_decode.c, pb_common.c). Whatever the bytes, what is decoded is what they mean, within
 * its declared limits, and what is refused means nothing; a run of records in any order, with records of
 * unknown fields between, is applied one by one; what the encoder wrote for a message comes back as it.
 */
module NanopbReader {
  import opened DbFormat
  import opened Checksums
  import opened Coding
  import opened NanopbFormat
  import opened NanopbDecode
  import opened NanopbRecords
  import opened NanopbMeaning

  // Values

  ghost function Num(v: Value): int {
    if v.Number? then v.n else 0
  }

  ghost function Bytes(v: Value): seq<Byte> {
    if v.Text? then v.bytes else []
  }

  /** The input goes on with the value `v`. */
  ghost predicate Waits(input: seq<Byte>, pos: nat, t: LType, v: Value) {
    Readable(t, v) && Holds(input, pos, Encoded(t, v))
  }

  /** pb_dec_bool, pb_dec_varint, pb_dec_uvarint, pb_dec_svarint, pb_dec_fixed32 and pb_dec_fixed64. */
  method DecodeNumber(input: seq<Byte>, pos: nat, t: LType, ghost v: Value) returns (ok: bool, value: Value, end: nat)
    requires pos <= |input| && Packable(t) && ValidType(t)
    ensures pos <= end <= |input|
    ensures ok ==> pos < end && Typed(t, value)
    ensures ok ==> NumberAt(input, pos, t, end, value.n)
    ensures !ok ==> forall e: nat, n: int :: !NumberAt(input, pos, t, e, n)
    ensures Waits(input, pos, t, v) ==> ok && value == v && end == pos + |Encoded(t, v)|
  {
    value := Number(0);
    if t.Fixed32? || t.Fixed64? {
      ok, value, end := DecodeFixed(input, pos, t, v);
    } else if t.Bool? {
      var n, eof;
      ok, n, end, eof := DecodeVarint32(input, pos, if Num(v) != 0 then 1 else 0);
      value := Number(if n != 0 then 1 else 0);
      assert ok ==> BoolAt(input, pos, end, value.n);
    } else {
      ok, value, end := DecodeInteger(input, pos, t, v);
    }
  }

  method DecodeFixed(input: seq<Byte>, pos: nat, t: LType, ghost v: Value) returns (ok: bool, value: Value, end: nat)
    requires pos <= |input| && (t.Fixed32? || t.Fixed64?)
    ensures pos <= end <= |input|
    ensures ok ==> pos < end && Typed(t, value)
    ensures ok ==> NumberAt(input, pos, t, end, value.n)
    ensures !ok ==> forall e: nat, n: int :: !NumberAt(input, pos, t, e, n)
    ensures Waits(input, pos, t, v) ==> ok && value == v && end == pos + |Encoded(t, v)|
  {
    var size := if t.Fixed32? then 4 else 8;
    var bytes;
    ok, bytes, end := NanopbDecode.Read(input, pos, size);
    Powers256();
    if Waits(input, pos, t, v) {
      FixedBack(Num(v), size);
      HoldsSlice(input, pos, Encoded(t, v));
    }
    FromFixedBound(bytes);
    FixedOnto(bytes);
    value := Number(FromFixed(bytes));
    assert ok ==> FixedAt(input, pos, size, end, value.n);
  }

  method DecodeInteger(input: seq<Byte>, pos: nat, t: LType, ghost v: Value) returns (ok: bool, value: Value, end: nat)
    requires pos <= |input| && ValidType(t) && (t.VarintType? || t.UvarintType? || t.SvarintType?)
    ensures pos <= end <= |input|
    ensures ok ==> pos < end && Typed(t, value)
    ensures ok ==> NumberAt(input, pos, t, end, value.n)
    ensures !ok ==> forall e: nat, n: int :: !NumberAt(input, pos, t, e, n)
    ensures Waits(input, pos, t, v) ==> ok && value == v && end == pos + |Encoded(t, v)|
  {
    value := Number(0);
    ghost var waited: nat := if t.VarintType? then Unsigned(Num(v)) else if t.SvarintType? then ZigZag(Num(v))
                             else if Num(v) >= 0 then Num(v) else 0;
    if Waits(input, pos, t, v) {
      if t.VarintType? { SignedBack(v.n, t.size); }
      ZigZagBack(Num(v));
    }
    var n;
    ok, n, end := DecodeVarint(input, pos, waited);
    if ok {
      var number := FromVarint(t, n);
      FromVarintIs(input, pos, t, end, n);
      ok := number.Some?;
      value := Number(if ok then number.value else 0);
    }
  }

  /** What a varint stands for, if it is in range. */
  function FromVarint(t: LType, n: nat): Option<int>
    requires t.VarintType? || t.UvarintType? || t.SvarintType?
  {
    match t
    case VarintType(size) => Signed(n, size)
    case UvarintType(size) => if n < Range(size) then Some(n) else None
    case SvarintType(size) => if InRange(size, FromZigZag(n)) then Some(FromZigZag(n)) else None
  }

  lemma {:induction false} FromVarintIs(input: seq<Byte>, pos: nat, t: LType, end: nat, n: nat)
    requires (t.VarintType? || t.UvarintType? || t.SvarintType?) && ValidType(t) && Number64At(input, pos, end, n)
    ensures match FromVarint(t, n)
      case Some(number) => NumberAt(input, pos, t, end, number)
      case None => forall e: nat, m: int :: !NumberAt(input, pos, t, e, m)
  {
    var size := t.size;
    if t.SvarintType? { ZigZagOnto(n); }
    match FromVarint(t, n)
    case Some(number) =>
      if t.VarintType? { SignedIs(n, size, number); }
    case None =>
      forall e: nat, m: int ensures !NumberAt(input, pos, t, e, m) {
        if NumberAt(input, pos, t, e, m) { FromVarintOnly(input, pos, t, end, n, e, m); }
      }
  }

  lemma {:induction false} FromVarintOnly(input: seq<Byte>, pos: nat, t: LType, end: nat, n: nat, e: nat, m: int)
    requires (t.VarintType? || t.UvarintType? || t.SvarintType?) && ValidType(t) && Number64At(input, pos, end, n)
    requires NumberAt(input, pos, t, e, m)
    ensures FromVarint(t, n) == Some(m)
  {
    match t
    case VarintType(size) =>
      var x: nat :| Number64At(input, pos, e, x) && SameBits(m, x, size);
      Number64Once(input, pos, end, n, e, x);
      SignedIs(n, size, m);
    case UvarintType(size) => Number64Once(input, pos, end, n, e, m);
    case SvarintType(size) =>
      Number64Once(input, pos, end, n, e, ZigZag(m));
      ZigZagBack(m);
  }

  /** pb_decode_varint. */
  method DecodeVarint(input: seq<Byte>, pos: nat, ghost v: nat) returns (ok: bool, value: nat, end: nat)
    requires pos <= |input|
    ensures pos <= end <= |input| && (ok ==> value < DWORDS && pos < end)
    ensures ok ==> Number64At(input, pos, end, value)
    ensures !ok ==> forall e: nat, n: nat :: !Number64At(input, pos, e, n)
    ensures v < DWORDS && Holds(input, pos, Varint(v)) ==> ok && value == v && end == pos + |Varint(v)|
  {
    Powers();
    ok, value, end := GetVarint(input, pos, 10, DWORDS, v);
  }

  /** pb_dec_bytes, pb_dec_string and pb_dec_fixed_length_bytes. */
  method DecodeText(input: seq<Byte>, pos: nat, t: LType, ghost v: Value) returns (ok: bool, value: Value, end: nat)
    requires pos <= |input| && (t.BytesType? || t.StringType? || t.FixedBytes?)
    ensures pos <= end <= |input|
    ensures ok ==> pos < end && Typed(t, value) && Fits(t, value)
    ensures ok ==> TextAt(input, pos, t, end, value.bytes)
    ensures !ok ==> forall e: nat, b: seq<Byte> :: !TextAt(input, pos, t, e, b)
    ensures Waits(input, pos, t, v) ==> ok && value == v && end == pos + |Encoded(t, v)|
  {
    var bytes;
    ok, bytes, end := DecodePrefixed(input, pos, t);
    value := Text(bytes);
    if ok { TextIsTyped(input, pos, t, end, bytes); }
    if Waits(input, pos, t, v) {
      WaitsForText(input, pos, t, v);
      TextBack(input, pos, t, v.bytes, ok, bytes, end);
    }
  }

  lemma {:induction false} TextIsTyped(input: seq<Byte>, pos: nat, t: LType, end: nat, b: seq<Byte>)
    requires (t.BytesType? || t.StringType? || t.FixedBytes?) && TextAt(input, pos, t, end, b)
    ensures Typed(t, Text(b)) && Fits(t, Text(b))
  {
  }

  lemma TextBack(input: seq<Byte>, pos: nat, t: LType, b: seq<Byte>, ok: bool, bytes: seq<Byte>, end: nat)
    requires (t.BytesType? || t.StringType? || t.FixedBytes?) && TextFits(t, b) && Holds(input, pos, Prefixed(b))
    requires ok ==> TextAt(input, pos, t, end, bytes)
    requires !ok ==> forall e: nat, other: seq<Byte> :: !TextAt(input, pos, t, e, other)
    ensures ok && bytes == b && end == pos + |Prefixed(b)|
  {
    TextThere(input, pos, t, b);
    if ok { TextOnce(input, pos, t, end, bytes, pos + |Prefixed(b)|, b); }
  }

  /** A length and its bytes. */
  method DecodePrefixed(input: seq<Byte>, pos: nat, t: LType) returns (ok: bool, bytes: seq<Byte>, end: nat)
    requires pos <= |input| && (t.BytesType? || t.StringType? || t.FixedBytes?)
    ensures pos <= end <= |input| && (ok ==> pos < end)
    ensures ok ==> TextAt(input, pos, t, end, bytes)
    ensures !ok ==> forall e: nat, b: seq<Byte> :: !TextAt(input, pos, t, e, b)
  {
    var size, start, eof;
    ok, size, start, eof := DecodeVarint32(input, pos, 0);
    bytes, end := [], start;
    if ok {
      TextStarts(input, pos, start, size, t);
      ok, bytes, end := DecodeBytes(input, start, size, t);
    }
  }

  /** Bytes of a length that the field's type allows; in a string there is no zero. */
  ghost predicate TextFits(t: LType, b: seq<Byte>)
    requires t.BytesType? || t.StringType? || t.FixedBytes?
  {
    SizeFits(t, |b|) && |b| < WORDS && (t.StringType? ==> forall i :: 0 <= i < |b| ==> b[i] != 0)
  }

  lemma {:induction false} WaitsForText(input: seq<Byte>, pos: nat, t: LType, v: Value)
    requires (t.BytesType? || t.StringType? || t.FixedBytes?) && Waits(input, pos, t, v)
    ensures v.Text? && TextFits(t, v.bytes) && Encoded(t, v) == Prefixed(v.bytes) && Holds(input, pos, Prefixed(v.bytes))
  {
  }

  /** What is written for bytes or a string means it. */
  lemma TextThere(input: seq<Byte>, pos: nat, t: LType, b: seq<Byte>)
    requires (t.BytesType? || t.StringType? || t.FixedBytes?) && TextFits(t, b) && Holds(input, pos, Prefixed(b))
    ensures TextAt(input, pos, t, pos + |Prefixed(b)|, b)
  {
    var start := pos + |Varint(|b|)|;
    PrefixedParts(input, pos, b);
    assert Accepts(input, pos, start, |b|) by { WrittenIsAccepted(input, pos, |b|); }
    assert TextFrom(input, start, |b|, t, start + |b|, b);
  }

  /** The rest, after the length. */
  method DecodeBytes(input: seq<Byte>, start: nat, size: nat, t: LType) returns (ok: bool, b: seq<Byte>, end: nat)
    requires start <= |input| && (t.BytesType? || t.StringType? || t.FixedBytes?)
    ensures start <= end <= |input|
    ensures ok ==> TextFrom(input, start, size, t, end, b)
    ensures !ok ==> forall e: nat, other: seq<Byte> :: !TextFrom(input, start, size, t, e, other)
  {
    if t.FixedBytes? && size == 0 {
      return true, seq(t.length, _ => 0), start;
    }
    if !SizeFits(t, size) {
      return false, [], start;
    }
    ok, b, end := NanopbDecode.Read(input, start, size);
    if t.StringType? {
      b := Terminated(b);
    }
  }

  /** The length is read first. */
  lemma TextStarts(input: seq<Byte>, pos: nat, start: nat, size: nat, t: LType)
    requires (t.BytesType? || t.StringType? || t.FixedBytes?) && Accepts(input, pos, start, size)
    ensures forall e: nat, b: seq<Byte> :: TextAt(input, pos, t, e, b) ==> TextFrom(input, start, size, t, e, b)
  {
    forall e: nat, b: seq<Byte> | TextAt(input, pos, t, e, b) ensures TextFrom(input, start, size, t, e, b) {
      var s: nat, n: nat :| Accepts(input, pos, s, n) && TextFrom(input, s, n, t, e, b);
      AcceptedOnce(input, pos, start, size, s, n);
    }
  }

  /** The bytes before the first zero byte: what C sees of a string. */
  function Terminated(b: seq<Byte>): (r: seq<Byte>)
    ensures IsCString(r, b)
  {
    if b == [] || b[0] == 0 then [] else [b[0]] + Terminated(b[1..])
  }

  /** A field decoder: `base` is what the field's memory holds, into which a submessage is read. */
  method DecodeValue(input: seq<Byte>, pos: nat, t: LType, base: Value, ghost v: Value)
      returns (ok: bool, value: Value, end: nat)
    requires pos <= |input| && ValidType(t) && Typed(t, base) && Fits(t, base)
    ensures pos <= end <= |input|
    ensures ok ==> pos < end && Typed(t, value) && Fits(t, value)
    ensures ok ==> ValueAt(input, pos, t, base, end, value)
    ensures !ok ==> forall e: nat, w: Value :: !ValueAt(input, pos, t, base, e, w)
    ensures Waits(input, pos, t, v) && (t.Submessage? ==> base == Default(t)) ==>
      ok && value == v && end == pos + |Encoded(t, v)|
    decreases t, 0
  {
    if Packable(t) {
      ok, value, end := DecodeNumber(input, pos, t, v);
    } else if t.Submessage? {
      var slots;
      ok, slots, end := DecodeSubmessage(input, pos, t.fields, base.slots, v);
      value := Message(slots);
    } else {
      ok, value, end := DecodeText(input, pos, t, v);
    }
  }

  /** pb_dec_submessage. */
  method DecodeSubmessage(input: seq<Byte>, pos: nat, fields: seq<Field>, base: seq<Slot>, ghost v: Value)
      returns (ok: bool, slots: seq<Slot>, end: nat)
    requires pos <= |input| && ValidFields(fields) && TypedSlots(fields, base) && FitsSlots(fields, base)
    ensures pos <= end <= |input|
    ensures ok ==> pos < end && TypedSlots(fields, slots) && FitsSlots(fields, slots)
    ensures ok ==> SubmessageAt(input, pos, fields, base, end, slots)
    ensures !ok ==> forall e: nat, other: seq<Slot> :: !SubmessageAt(input, pos, fields, base, e, other)
    ensures Waits(input, pos, Submessage(fields), v) && base == Defaults(fields, |fields|) ==>
      ok && Message(slots) == v && end == pos + |Encoded(Submessage(fields), v)|
    decreases fields, 6
  {
    slots := base;
    ghost var good := Waits(input, pos, Submessage(fields), v) && base == Defaults(fields, |fields|);
    ghost var body, recs := [], [];
    if good {
      body, recs := EncodedMessage(fields, v.slots), Recs(fields, v.slots);
      WrittenFollows(fields, v.slots);
    }
    var bytes;
    ok, bytes, end := Substream(input, pos, body);
    if ok {
      forall e: nat, other: seq<Byte> | StringAt(input, pos, e, other) ensures other == bytes {
        StringOnce(input, pos, end, bytes, e, other);
      }
      ok, slots := DecodeMessage(bytes, fields, base, recs);
    }
  }

  // Fields

  /** The bytes are these values, one after the other. */
  ghost predicate PackedIn(bytes: seq<Byte>, t: LType, s: Slot) {
    (forall k :: 0 <= k < |s.values| ==> Readable(t, s.values[k])) && bytes == Packed(t, s, |s.values|)
  }

  /** A packed array: values until the bytes or the array are used up. */
  method DecodePacked(bytes: seq<Byte>, t: LType, max: nat, have: seq<Value>, ghost s: Slot)
      returns (ok: bool, values: seq<Value>)
    requires Packable(t) && ValidType(t) && |have| <= max && forall k :: 0 <= k < |have| ==> Typed(t, have[k])
    ensures ok ==> |values| <= max && forall k :: 0 <= k < |values| ==> Typed(t, values[k])
    ensures ok ==> ArrayAt(bytes, t, have, values)
    ensures !ok ==> forall other: seq<Value> :: ArrayAt(bytes, t, have, other) ==> |other| > max
    ensures PackedIn(bytes, t, s) && |have| + |s.values| <= max ==> ok && values == have + s.values
  {
    ghost var good := PackedIn(bytes, t, s) && |have| + |s.values| <= max;
    values := have;
    var pos: nat, k: nat := 0, 0;
    ghost var ends: seq<nat> := [0];
    while pos < |bytes| && |values| < max
      invariant pos <= |bytes| && |have| <= |values| <= max && k == |values| - |have|
      invariant forall j :: 0 <= j < |values| ==> Typed(t, values[j])
      invariant Items(bytes, t, have, ends, values) && ends[k] == pos
      invariant good ==> PackedSoFar(bytes, t, s, have, values, pos, k)
    {
      var value, end;
      ok, value, end := DecodeItem(bytes, pos, t, have, values, ends, good, s, k);
      if !ok {
        return false, values;
      }
      values, ends, pos, k := values + [value], ends + [end], end, k + 1;
    }
    if good { PackedDone(bytes, t, s, have, values, pos, k, max); }
    ok := pos == |bytes|;
    if !ok { TooMany(bytes, t, have, ends, values); }
  }

  /** After `k` values of a packed array. */
  ghost predicate PackedSoFar(bytes: seq<Byte>, t: LType, s: Slot, have: seq<Value>, values: seq<Value>, pos: nat, k: nat) {
    PackedIn(bytes, t, s) && k <= |s.values| && pos == |Packed(t, s, k)| && values == have + s.values[..k]
  }

  lemma {:induction false} PackedMore(bytes: seq<Byte>, t: LType, s: Slot, have: seq<Value>, values: seq<Value>,
      pos: nat, k: nat, value: Value, end: nat)
    requires PackedSoFar(bytes, t, s, have, values, pos, k) && k < |s.values|
    requires value == s.values[k] && end == |Packed(t, s, k + 1)|
    ensures PackedSoFar(bytes, t, s, have, values + [value], end, k + 1)
  {
    TakeMore(have, s.values, k);
  }

  lemma PackedDone(bytes: seq<Byte>, t: LType, s: Slot, have: seq<Value>, values: seq<Value>, pos: nat, k: nat, max: nat)
    requires Packable(t) && PackedSoFar(bytes, t, s, have, values, pos, k) && |have| + |s.values| <= max
    requires pos >= |bytes| || |values| >= max
    ensures pos == |bytes| && values == have + s.values
  {
    if k < |s.values| { PackedAt(t, s, k); }
  }

  lemma ItemMore(bytes: seq<Byte>, t: LType, have: seq<Value>, ends: seq<nat>, values: seq<Value>, end: nat, v: Value)
    requires Items(bytes, t, have, ends, values) && v.Number? && NumberAt(bytes, ends[|ends| - 1], t, end, v.n)
    ensures Items(bytes, t, have, ends + [end], values + [v])
  {
    forall j | 0 <= j < |values| + 1 - |have| ensures ItemAt(bytes, t, have, ends + [end], values + [v], j) {
      if j < |values| - |have| { assert ItemAt(bytes, t, have, ends, values, j); }
    }
  }

  /** Where there is no number the bytes are no array. */
  lemma {:induction false} NoItem(bytes: seq<Byte>, t: LType, have: seq<Value>, ends: seq<nat>, values: seq<Value>, pos: nat)
    requires ValidType(t) && Items(bytes, t, have, ends, values) && ends[|ends| - 1] == pos < |bytes|
    requires forall e: nat, n: int :: !NumberAt(bytes, pos, t, e, n)
    ensures forall other: seq<Value> :: !ArrayAt(bytes, t, have, other)
  {
    forall other: seq<Value> ensures !ArrayAt(bytes, t, have, other) {
      if ArrayAt(bytes, t, have, other) { var e, n := LongerArray(bytes, t, have, ends, values, other); }
    }
  }

  /** With bytes left the array is longer. */
  lemma {:induction false} TooMany(bytes: seq<Byte>, t: LType, have: seq<Value>, ends: seq<nat>, values: seq<Value>)
    requires ValidType(t) && Items(bytes, t, have, ends, values) && ends[|ends| - 1] < |bytes|
    ensures forall other: seq<Value> :: ArrayAt(bytes, t, have, other) ==> |other| > |values|
  {
    forall other: seq<Value> | ArrayAt(bytes, t, have, other) ensures |other| > |values| {
      var e, n := LongerArray(bytes, t, have, ends, values, other);
    }
  }

  lemma LongerArray(bytes: seq<Byte>, t: LType, have: seq<Value>, ends: seq<nat>, values: seq<Value>, other: seq<Value>)
      returns (e: nat, n: int)
    requires ValidType(t) && Items(bytes, t, have, ends, values) && ends[|ends| - 1] < |bytes|
    requires ArrayAt(bytes, t, have, other)
    ensures |other| > |values| && NumberAt(bytes, ends[|ends| - 1], t, e, n)
  {
    var ends2 :| Items(bytes, t, have, ends2, other) && ends2[|ends2| - 1] == |bytes|;
    var k := |ends| - 1;
    ItemsEnd(bytes, t, have, ends2, other, ends, values);
    ItemsOnce(bytes, t, have, ends, values, ends2, other, k);
    assert ItemAt(bytes, t, have, ends2, other, k);
    e, n := ends2[k + 1], other[|have| + k].n;
  }

  /** The next value of a packed array. */
  method DecodeItem(bytes: seq<Byte>, pos: nat, t: LType, ghost have: seq<Value>, ghost values: seq<Value>, ghost ends: seq<nat>,
      ghost good: bool, ghost s: Slot, ghost k: nat) returns (ok: bool, value: Value, end: nat)
    requires pos < |bytes| && Packable(t) && ValidType(t)
    requires Items(bytes, t, have, ends, values) && ends[|ends| - 1] == pos
    requires good ==> PackedSoFar(bytes, t, s, have, values, pos, k)
    ensures pos <= end <= |bytes| && (ok ==> pos < end && Typed(t, value))
    ensures ok ==> Items(bytes, t, have, ends + [end], values + [value])
    ensures !ok ==> forall other: seq<Value> :: !ArrayAt(bytes, t, have, other)
    ensures good ==> ok && PackedSoFar(bytes, t, s, have, values + [value], end, k + 1)
  {
    ghost var v := Number(0);
    if good {
      PackedAt(t, s, k);
      v := s.values[k];
    }
    ok, value, end := DecodeNumber(bytes, pos, t, v);
    if good { PackedMore(bytes, t, s, have, values, pos, k, value, end); }
    if ok { ItemMore(bytes, t, have, ends, values, end, value); } else { NoItem(bytes, t, have, ends, values, pos); }
  }

  lemma TakeMore<T>(have: seq<T>, all: seq<T>, k: nat)
    requires k < |all|
    ensures have + all[..k] + [all[k]] == have + all[..k + 1]
  {
  }

  /** Where the value `k` of a packed array is. */
  lemma PackedAt(t: LType, s: Slot, k: nat)
    requires Packable(t) && k < |s.values| && forall j :: 0 <= j < |s.values| ==> Typed(t, s.values[j])
    ensures Holds(Packed(t, s, |s.values|), |Packed(t, s, k)|, Encoded(t, s.values[k]))
    ensures |Packed(t, s, k + 1)| == |Packed(t, s, k)| + |Encoded(t, s.values[k])|
    ensures |Packed(t, s, k)| < |Packed(t, s, |s.values|)|
  {
    PackedPrefix(t, s, k + 1, |s.values|);
    PrefixHolds(Packed(t, s, |s.values|), Packed(t, s, k), Encoded(t, s.values[k]));
  }

  lemma {:induction false} PackedPrefix(t: LType, s: Slot, k: nat, n: nat)
    requires k <= n <= |s.values| && forall j :: 0 <= j < |s.values| ==> Typed(t, s.values[j])
    ensures Packed(t, s, k) <= Packed(t, s, n)
  {
    if k < n {
      PackedPrefix(t, s, k, n - 1);
    }
  }

  ghost function After(f: Field, now: Slot, r: Rec): Slot
    requires r.Rec?
  {
    if f.htype.Repeated? then Slot(now.values + r.values) else Slot(r.values)
  }

  ghost predicate Announced(input: seq<Byte>, pos: nat, wireType: nat, f: Field, now: Slot, r: Rec) {
    && r.Rec? && TypedRec(f, r) && Finds(f, now, r)
    && wireType == RecWire(f, r) && Holds(input, pos, RecPayload(f, r))
  }

  /** decode_static_field: the field's data after the record at `pos`. */
  method DecodeSlot(input: seq<Byte>, pos: nat, wireType: nat, f: Field, now: Slot, ghost r: Rec)
      returns (ok: bool, s: Slot, end: nat)
    requires pos <= |input| && ValidField(f) && TypedSlot(f, now) && FitsSlot(f, now)
    ensures pos <= end <= |input|
    ensures ok ==> TypedSlot(f, s) && FitsSlot(f, s)
    ensures ok ==> SlotAt(input, pos, wireType, f, now, end, s)
    ensures !ok ==> forall e: nat, other: Slot :: !SlotAt(input, pos, wireType, f, now, e, other)
    ensures Announced(input, pos, wireType, f, now, r) ==>
      ok && s == After(f, now, r) && end == pos + |RecPayload(f, r)|
    decreases f, 1
  {
    if f.htype.Repeated? && wireType == WT_STRING && Packable(f.ltype) {
      ok, s, end := DecodeArray(input, pos, f, now, r);
    } else {
      ok, s, end := DecodeOne(input, pos, wireType, f, now, r);
    }
  }

  method DecodeArray(input: seq<Byte>, pos: nat, f: Field, now: Slot, ghost r: Rec) returns (ok: bool, s: Slot, end: nat)
    requires pos <= |input| && ValidField(f) && TypedSlot(f, now) && FitsSlot(f, now)
    requires f.htype.Repeated? && Packable(f.ltype)
    ensures pos <= end <= |input|
    ensures ok ==> TypedSlot(f, s) && FitsSlot(f, s)
    ensures ok ==> SlotAt(input, pos, WT_STRING, f, now, end, s)
    ensures !ok ==> forall e: nat, other: Slot :: !SlotAt(input, pos, WT_STRING, f, now, e, other)
    ensures Announced(input, pos, WT_STRING, f, now, r) ==>
      ok && s == After(f, now, r) && end == pos + |RecPayload(f, r)|
  {
    s := now;
    ghost var wanted, packed := s, [];
    if Announced(input, pos, WT_STRING, f, now, r) {
      wanted, packed := Slot(r.values), Packed(f.ltype, Slot(r.values), |r.values|);
    }
    var bytes, values;
    ok, bytes, end := Substream(input, pos, packed);
    if ok {
      forall e: nat, other: seq<Byte> | StringAt(input, pos, e, other) ensures other == bytes {
        StringOnce(input, pos, end, bytes, e, other);
      }
      ok, values := DecodePacked(bytes, f.ltype, f.htype.max, now.values, wanted);
      s := Slot(values);
    }
  }

  method DecodeOne(input: seq<Byte>, pos: nat, wireType: nat, f: Field, now: Slot, ghost r: Rec)
      returns (ok: bool, s: Slot, end: nat)
    requires pos <= |input| && ValidField(f) && TypedSlot(f, now) && FitsSlot(f, now)
    requires !(f.htype.Repeated? && wireType == WT_STRING && Packable(f.ltype))
    ensures pos <= end <= |input|
    ensures ok ==> TypedSlot(f, s) && FitsSlot(f, s)
    ensures ok ==> SlotAt(input, pos, wireType, f, now, end, s)
    ensures !ok ==> forall e: nat, other: Slot :: !SlotAt(input, pos, wireType, f, now, e, other)
    ensures r.Rec? && !r.packed && Announced(input, pos, WireType(f.ltype), f, now, r) ==>
      ok && s == After(f, now, r) && end == pos + |RecPayload(f, r)|
    decreases f, 0
  {
    if f.htype.Repeated? && |now.values| >= f.htype.max {
      return false, now, pos;
    }
    DefaultFits(f.ltype);
    var base := Base(f, now);
    ghost var v := if r.Rec? && |r.values| == 1 then r.values[0] else base;
    var value;
    ok, value, end := DecodeValue(input, pos, f.ltype, base, v);
    s := WithOne(f, now, value);
    OneIs(input, pos, wireType, f, now, end, value);
  }

  /** The field's data with one more value, or another one. */
  function WithOne(f: Field, now: Slot, value: Value): Slot {
    Slot(if f.htype.Repeated? then now.values + [value] else [value])
  }

  lemma {:induction false} OneIs(input: seq<Byte>, pos: nat, wireType: nat, f: Field, now: Slot, end: nat, value: Value)
    requires !(f.htype.Repeated? && wireType == WT_STRING && Packable(f.ltype)) && TypedSlot(f, now) && FitsSlot(f, now)
    requires f.htype.Repeated? ==> |now.values| < f.htype.max
    ensures Typed(f.ltype, value) && Fits(f.ltype, value) ==>
      TypedSlot(f, WithOne(f, now, value)) && FitsSlot(f, WithOne(f, now, value))
    ensures ValueAt(input, pos, f.ltype, Base(f, now), end, value) ==>
      SlotAt(input, pos, wireType, f, now, end, WithOne(f, now, value))
  {
  }

  /** The other fields of the union go when a field of it comes. */
  lemma StoredKeeps(fields: seq<Field>, cur: seq<Slot>, i: nat, s: Slot)
    requires TypedSlots(fields, cur) && FitsSlots(fields, cur) && i < |fields|
    requires TypedSlot(fields[i], s) && FitsSlot(fields[i], s)
    ensures TypedSlots(fields, WithoutUnion(fields, cur, i)[i := s]) && FitsSlots(fields, WithoutUnion(fields, cur, i)[i := s])
    ensures forall j :: 0 <= j < |fields| && j != i ==>
      WithoutUnion(fields, cur, i)[j] == if fields[i].htype.Oneof? && fields[j].htype == fields[i].htype then Slot([]) else cur[j]
    ensures !fields[i].htype.Oneof? ==> WithoutUnion(fields, cur, i) == cur
  {
    var after := WithoutUnion(fields, cur, i)[i := s];
    forall j | 0 <= j < |fields| ensures TypedSlot(fields[j], after[j]) && FitsSlot(fields[j], after[j]) {}
    assert TypedSlots(fields, after);
    assert OneofsOk(fields, after);
  }

  /** decode_field for a static field: the message after the record at `pos`. */
  method DecodeField(input: seq<Byte>, pos: nat, wireType: nat, fields: seq<Field>, i: nat, cur: seq<Slot>, ghost r: Rec)
      returns (ok: bool, slots: seq<Slot>, end: nat)
    requires pos <= |input| && i < |fields| && ValidFields(fields) && TypedSlots(fields, cur) && FitsSlots(fields, cur)
    ensures pos <= end <= |input|
    ensures ok ==> TypedSlots(fields, slots) && FitsSlots(fields, slots)
    ensures ok ==> Changed(input, pos, wireType, fields, i, cur, end, slots)
    ensures !ok ==> forall e: nat, s: Slot :: !SlotAt(input, pos, wireType, fields[i], cur[i], e, s)
    ensures Announced(input, pos, wireType, fields[i], cur[i], r) && r.index == i ==>
      ok && slots == Apply(fields, cur, r) && end == pos + |RecPayload(fields[i], r)|
    decreases fields, 1
  {
    slots := cur;
    var s;
    ok, s, end := DecodeSlot(input, pos, wireType, fields[i], cur[i], r);
    if ok {
      StoredKeeps(fields, cur, i, s);
      slots := (if fields[i].htype.Oneof? then WithoutUnion(fields, cur, i) else cur)[i := s];
    }
  }

  // The field iterator

  /** pb_field_iter_next: the next field, or the first again, and the number of required ones before it. */
  function IterNext(fields: seq<Field>, pos: nat, required: nat): (nat, nat)
    requires pos < |fields|
  {
    if pos + 1 == |fields| then (0, 0)
    else (pos + 1, if fields[pos].htype.Required? then required + 1 else required)
  }

  /** pb_field_iter_find: goes round from where the last search ended. */
  method IterFind(fields: seq<Field>, pos: nat, required: nat, tag: nat) returns (found: bool, i: nat, before: nat)
    requires pos < |fields| && required == RequiredBefore(fields, pos)
    ensures i < |fields| && before == RequiredBefore(fields, i)
    ensures found ==> fields[i].tag == tag
    ensures !found ==> NoField(fields, tag)
  {
    i, before := pos, required;
    var steps := 0;
    while true
      invariant i < |fields| && before == RequiredBefore(fields, i)
      invariant steps == (if i >= pos then i - pos else |fields| - pos + i) && steps < |fields|
      invariant forall k :: 0 <= k < |fields| && (if i >= pos then pos <= k < i else k >= pos || k < i) ==> fields[k].tag != tag
      decreases |fields| - steps
    {
      if fields[i].tag == tag {
        return true, i, before;
      }
      var next := IterNext(fields, i, before);
      i, before := next.0, next.1;
      if i == pos {
        return false, i, before;
      }
      steps := steps + 1;
    }
  }

  // Messages

  /** What a record marks as seen: the number of its field among the required ones, if it is small enough. */
  ghost function Marks(fields: seq<Field>, met: set<nat>): set<nat> {
    set i | i in met && Checked(fields, i) :: RequiredBefore(fields, i)
  }

  lemma MarksMore(fields: seq<Field>, met: set<nat>, more: set<nat>)
    ensures Marks(fields, met + more) == Marks(fields, met) + Marks(fields, more)
  {
  }

  /** The fields that a record is of. */
  ghost function Met(r: Rec): set<nat> {
    if r.Rec? then {r.index} else {}
  }

  ghost predicate Next(input: seq<Byte>, pos: nat, fields: seq<Field>, cur: seq<Slot>, r: Rec)
    requires |cur| == |fields|
  {
    RecOk(fields, r) && FindsIn(fields, cur, r) && Holds(input, pos, RecBytes(fields, r))
  }

  /** One turn of the loop in pb_decode_noinit; `eof` when the message ends here. */
  method DecodeRecord(input: seq<Byte>, pos: nat, fields: seq<Field>, cur: seq<Slot>, at: nat, required: nat,
      ghost have: set<nat>, ghost r: Rec)
      returns (ok: bool, eof: bool, slots: seq<Slot>, i: nat, before: nat, marks: set<nat>, end: nat, ghost met: set<nat>)
    requires pos <= |input| && ValidFields(fields) && TypedSlots(fields, cur) && FitsSlots(fields, cur)
    requires if fields == [] then at == required == 0 else at < |fields| && required == RequiredBefore(fields, at)
    ensures pos <= end <= |input| && (ok ==> pos < end)
    ensures if fields == [] then i == before == 0 else i < |fields| && before == RequiredBefore(fields, i)
    ensures TypedSlots(fields, slots) && FitsSlots(fields, slots) && marks == Marks(fields, met)
    ensures ok ==> TurnAt(input, fields, Turn(pos, cur, have), Turn(end, slots, have + met))
    ensures (eof <==> EndsAt(input, pos)) && (eof ==> met == {}) && (!ok ==> slots == cur)
    ensures !ok ==> forall b: Turn :: !TurnAt(input, fields, Turn(pos, cur, have), b)
    ensures Next(input, pos, fields, cur, r) ==>
      ok && slots == Apply(fields, cur, r) && met == Met(r) && end == pos + |RecBytes(fields, r)|
    decreases fields, 3
  {
    slots, i, before, marks, met := cur, at, required, {}, {};
    if Next(input, pos, fields, cur, r) { NextIsTagged(input, pos, fields, cur, r); }
    var wireType, tag, start;
    ok, wireType, tag, start, eof := DecodeTag(input, pos, WireOf(fields, r), TagOf(fields, r));
    end := start;
    if !ok {
      NoTurn(input, pos, fields, cur, have);
    } else {
      ghost var found;
      ok, slots, i, before, marks, end, found := DecodeTagged(input, start, wireType, tag, fields, cur, at, required, r);
      met := if found then {i} else {};
      TurnIs(input, pos, start, wireType, tag, fields, i, found, cur, have, ok, end, slots);
    }
  }

  ghost predicate Tagged(input: seq<Byte>, start: nat, wireType: nat, tag: nat, fields: seq<Field>, cur: seq<Slot>, r: Rec)
    requires |cur| == |fields|
  {
    && RecOk(fields, r) && FindsIn(fields, cur, r) && wireType == WireOf(fields, r) && tag == TagOf(fields, r)
    && Holds(input, start, RecBody(fields, r))
  }

  lemma NextIsTagged(input: seq<Byte>, pos: nat, fields: seq<Field>, cur: seq<Slot>, r: Rec)
    requires |cur| == |fields| && TagsOk(fields) && Next(input, pos, fields, cur, r)
    ensures WireOf(fields, r) < 8 && 0 < TagOf(fields, r) < 0x2000_0000 && Holds(input, pos, RecTag(fields, r))
    ensures Tagged(input, pos + |RecTag(fields, r)|, WireOf(fields, r), TagOf(fields, r), fields, cur, r)
    ensures |RecBytes(fields, r)| == |RecTag(fields, r)| + |RecBody(fields, r)|
  {
    HoldsParts(input, pos, RecTag(fields, r), RecBody(fields, r));
  }

  /** What follows a tag: the field's data, or something to skip. */
  method DecodeTagged(input: seq<Byte>, start: nat, wireType: nat, tag: nat, fields: seq<Field>, cur: seq<Slot>,
      at: nat, required: nat, ghost r: Rec)
      returns (ok: bool, slots: seq<Slot>, i: nat, before: nat, marks: set<nat>, end: nat, ghost found: bool)
    requires start <= |input| && ValidFields(fields) && TypedSlots(fields, cur) && FitsSlots(fields, cur)
    requires if fields == [] then at == required == 0 else at < |fields| && required == RequiredBefore(fields, at)
    ensures start <= end <= |input|
    ensures if fields == [] then i == before == 0 else i < |fields| && before == RequiredBefore(fields, i)
    ensures TypedSlots(fields, slots) && FitsSlots(fields, slots) && (!ok ==> slots == cur)
    ensures if found then i < |fields| && fields[i].tag == tag else NoField(fields, tag)
    ensures marks == Marks(fields, if found then {i} else {})
    ensures !found && ok ==> Skipped(input, start, wireType, end) && slots == cur
    ensures !found && !ok ==> forall e: nat :: !Skipped(input, start, wireType, e)
    ensures found && ok ==> Changed(input, start, wireType, fields, i, cur, end, slots)
    ensures found && !ok ==> forall e: nat, s: Slot :: !SlotAt(input, start, wireType, fields[i], cur[i], e, s)
    ensures Tagged(input, start, wireType, tag, fields, cur, r) ==>
      ok && slots == Apply(fields, cur, r) && (if found then {i} else {}) == Met(r) && end == start + |RecBody(fields, r)|
    decreases fields, 2
  {
    slots, i, before, marks := cur, at, required, {};
    var known := false;
    if fields != [] {
      known, i, before := IterFind(fields, at, required, tag);
    }
    found := known;
    if Tagged(input, start, wireType, tag, fields, cur, r) { FoundIs(fields, r, i, known); }
    if !known {
      ok, end := SkipUnknown(input, start, wireType, r);
      return;
    }
    if fields[i].htype.Required? && before < MAX_REQUIRED_FIELDS {
      marks := {before};
    }
    var after;
    ok, after, end := DecodeField(input, start, wireType, fields, i, cur, r);
    if ok {
      slots := after;
    }
  }

  /** The search finds the field of a record. */
  lemma FoundIs(fields: seq<Field>, r: Rec, i: nat, found: bool)
    requires RecOk(fields, r) && TagsOk(fields)
    requires if found then i < |fields| && fields[i].tag == TagOf(fields, r) else NoField(fields, TagOf(fields, r))
    ensures if found then r.Rec? && r.index == i else r.Unknown?
  {
  }

  method SkipUnknown(input: seq<Byte>, pos: nat, wireType: nat, ghost r: Rec) returns (ok: bool, end: nat)
    requires pos <= |input|
    ensures pos <= end <= |input|
    ensures ok ==> Skipped(input, pos, wireType, end)
    ensures !ok ==> forall e: nat :: !Skipped(input, pos, wireType, e)
    ensures r.Unknown? && BodyOk(r) && wireType == r.wireType && Holds(input, pos, UnknownBytes(r)) ==>
      ok && end == pos + |UnknownBytes(r)|
  {
    ok, end := SkipField(input, pos, wireType, if r.Unknown? then r.number else 0, if r.Unknown? then r.body else []);
  }

  /** The fields of which there are records among the first `n`. */
  ghost function MetBy(recs: seq<Rec>, n: nat): set<nat>
    requires n <= |recs|
  {
    if n == 0 then {} else MetBy(recs, n - 1) + Met(recs[n - 1])
  }

  ghost predicate RequiredSeen(fields: seq<Field>, recs: seq<Rec>) {
    AllMet(fields, MetBy(recs, |recs|))
  }

  lemma {:induction false} RequiredGrows(fields: seq<Field>, i: nat, j: nat)
    requires i < j <= |fields| && fields[i].htype.Required?
    ensures RequiredBefore(fields, i) < RequiredBefore(fields, j)
  {
    if i < j - 1 {
      RequiredGrows(fields, i, j - 1);
    }
  }

  lemma {:induction false} RequiredAt(fields: seq<Field>, n: nat, x: nat) returns (i: nat)
    requires n <= |fields| && x < RequiredBefore(fields, n)
    ensures i < n && fields[i].htype.Required? && RequiredBefore(fields, i) == x
  {
    if x < RequiredBefore(fields, n - 1) {
      i := RequiredAt(fields, n - 1, x);
    } else {
      i := n - 1;
    }
  }

  predicate AllSeen(count: nat, seen: set<nat>) {
    forall x: nat :: x < count ==> x in seen
  }

  /** The required fields are all seen exactly if those that are checked were met. */
  lemma {:induction false} SeenAll(fields: seq<Field>, met: set<nat>)
    ensures var count := RequiredBefore(fields, |fields|);
      AllSeen(if count > MAX_REQUIRED_FIELDS then MAX_REQUIRED_FIELDS else count, Marks(fields, met)) <==> AllMet(fields, met)
  {
    var count := RequiredBefore(fields, |fields|);
    var m := if count > MAX_REQUIRED_FIELDS then MAX_REQUIRED_FIELDS else count;
    if AllSeen(m, Marks(fields, met)) {
      forall i: nat | Checked(fields, i) ensures i in met {
        RequiredGrows(fields, i, |fields|);
        assert RequiredBefore(fields, i) in Marks(fields, met);
        var k :| k in met && Checked(fields, k) && RequiredBefore(fields, k) == RequiredBefore(fields, i);
        if k < i { RequiredGrows(fields, k, i); } else if i < k { RequiredGrows(fields, i, k); }
      }
    }
    if AllMet(fields, met) {
      forall x: nat | x < m ensures x in Marks(fields, met) {
        var i := RequiredAt(fields, |fields|, x);
        assert Checked(fields, i);
      }
    }
  }

  /** The input is these records, and each comes as it may. */
  ghost predicate Follows(input: seq<Byte>, fields: seq<Field>, base: seq<Slot>, recs: seq<Rec>) {
    && |base| == |fields| && RecsOk(fields, recs) && Within(fields, recs)
    && input == Joined(Parts(fields, recs), |recs|)
    && forall q: nat :: q < |recs| ==> Comes(fields, base, recs, q)
  }

  /** After `q` records. */
  ghost predicate Amidst(fields: seq<Field>, base: seq<Slot>, recs: seq<Rec>, q: nat, pos: nat, cur: seq<Slot>, met: set<nat>)
    requires |base| == |fields| && RecsOk(fields, recs) && Within(fields, recs)
  {
    && q <= |recs| && pos == |Joined(Parts(fields, recs), q)| && cur == ApplyUpTo(fields, base, recs, q)
    && met == MetBy(recs, q)
  }

  /** Bytes that are left start with the next record. */
  lemma NextIs(input: seq<Byte>, fields: seq<Field>, base: seq<Slot>, recs: seq<Rec>, q: nat, pos: nat, cur: seq<Slot>,
      met: set<nat>)
    requires Follows(input, fields, base, recs) && Amidst(fields, base, recs, q, pos, cur, met) && pos < |input|
    ensures q < |recs| && Next(input, pos, fields, cur, recs[q])
  {
    assert RecOk(fields, recs[q]);
    assert FindsIn(fields, cur, recs[q]) by { assert Comes(fields, base, recs, q); }
    assert Holds(input, pos, RecBytes(fields, recs[q])) by {
      PartAt(Parts(fields, recs), q);
      assert Parts(fields, recs)[q] == RecBytes(fields, recs[q]);
    }
  }

  lemma TurnKeeps(input: seq<Byte>, fields: seq<Field>, base: seq<Slot>, recs: seq<Rec>, q: nat, pos: nat,
      cur: seq<Slot>, met: set<nat>)
    requires Follows(input, fields, base, recs) && Amidst(fields, base, recs, q, pos, cur, met) && q < |recs|
    ensures Amidst(fields, base, recs, q + 1, pos + |RecBytes(fields, recs[q])|, Apply(fields, cur, recs[q]), met + Met(recs[q]))
  {
    var next, after := |RecBytes(fields, recs[q])|, Apply(fields, cur, recs[q]);
    assert |Joined(Parts(fields, recs), q + 1)| == |Joined(Parts(fields, recs), q)| + next by {
      assert Parts(fields, recs)[q] == RecBytes(fields, recs[q]);
    }
    assert after == ApplyUpTo(fields, base, recs, q + 1);
  }

  lemma EndIs(input: seq<Byte>, fields: seq<Field>, base: seq<Slot>, recs: seq<Rec>, q: nat, pos: nat, cur: seq<Slot>,
      met: set<nat>)
    requires Follows(input, fields, base, recs) && Amidst(fields, base, recs, q, pos, cur, met) && pos == |input|
    ensures q == |recs|
  {
    if q < |recs| {
      JoinedPrefix(Parts(fields, recs), q + 1, |recs|);
    }
  }

  /** A turn of the loop, and what has been read so far; `good` if the input is the records `recs`. */
  method DecodeTurn(input: seq<Byte>, pos: nat, fields: seq<Field>, ghost base: seq<Slot>, cur: seq<Slot>, at: nat, required: nat,
      seen: set<nat>, ghost met: set<nat>, ghost run: seq<Turn>, ghost good: bool, ghost recs: seq<Rec>, ghost q: nat)
      returns (ok: bool, eof: bool, slots: seq<Slot>, i: nat, before: nat, now: set<nat>, end: nat,
        ghost more: set<nat>, ghost further: seq<Turn>)
    requires pos < |input| && ValidFields(fields) && TypedSlots(fields, cur) && FitsSlots(fields, cur)
    requires if fields == [] then at == required == 0 else at < |fields| && required == RequiredBefore(fields, at)
    requires seen == Marks(fields, met) && CameTo(input, fields, base, run, pos, cur, met, false)
    requires good ==> Follows(input, fields, base, recs) && Amidst(fields, base, recs, q, pos, cur, met)
    ensures pos <= end <= |input| && (ok ==> pos < end)
    ensures if fields == [] then i == before == 0 else i < |fields| && before == RequiredBefore(fields, i)
    ensures TypedSlots(fields, slots) && FitsSlots(fields, slots) && now == Marks(fields, more)
    ensures ok || eof ==> CameTo(input, fields, base, further, end, slots, more, !ok)
    ensures !ok && !eof ==> forall other: seq<Slot> :: !MessageAt(input, fields, base, other)
    ensures good ==> ok && Amidst(fields, base, recs, q + 1, end, slots, more)
    decreases fields, 4
  {
    ghost var r := Unknown(1, WT_VARINT, 0, []);
    if good {
      NextIs(input, fields, base, recs, q, pos, cur, met);
      r := recs[q];
      TurnKeeps(input, fields, base, recs, q, pos, cur, met);
    }
    var marks;
    ok, eof, slots, i, before, marks, end, more := DecodeRecord(input, pos, fields, cur, at, required, met, r);
    further := run;
    if ok {
      ComesTo(input, fields, base, run, pos, cur, met, Turn(end, slots, met + more));
      further := run + [Turn(end, slots, met + more)];
    } else if !eof {
      NoMessage(input, fields, base, run, Turn(pos, cur, met));
    }
    MarksMore(fields, met, more);
    now, more := seen + marks, met + more;
  }

  /**
   * pb_decode_noinit: reads records into `base`, in whatever order they come. What the bytes mean is what is
   * read, and bytes that mean nothing are refused. Records that can be read are accepted exactly if the
   * required fields that are checked are among them.
   */
  method DecodeMessage(input: seq<Byte>, fields: seq<Field>, base: seq<Slot>, ghost recs: seq<Rec>)
      returns (ok: bool, slots: seq<Slot>)
    requires ValidFields(fields) && TypedSlots(fields, base) && FitsSlots(fields, base)
    ensures TypedSlots(fields, slots) && FitsSlots(fields, slots)
    ensures ok ==> MessageAt(input, fields, base, slots)
    ensures !ok ==> forall other: seq<Slot> :: !MessageAt(input, fields, base, other)
    ensures Follows(input, fields, base, recs) ==> (ok <==> RequiredSeen(fields, recs))
    ensures Follows(input, fields, base, recs) ==> slots == ApplyUpTo(fields, base, recs, |recs|)
    decreases fields, 5
  {
    slots := base;
    var pos: nat, i: nat, before: nat := 0, 0, 0;
    var seen: set<nat>, done := {}, false;
    ghost var good, q := Follows(input, fields, base, recs), 0;
    ghost var met: set<nat>, run := {}, [Turn(0, base, {})];
    while pos < |input| && !done
      invariant pos <= |input| && TypedSlots(fields, slots) && FitsSlots(fields, slots)
      invariant if fields == [] then i == before == 0 else i < |fields| && before == RequiredBefore(fields, i)
      invariant seen == Marks(fields, met) && CameTo(input, fields, base, run, pos, slots, met, done)
      invariant good ==> !done && Amidst(fields, base, recs, q, pos, slots, met)
      decreases !done, |input| - pos
    {
      var ok1, eof;
      ok1, eof, slots, i, before, seen, pos, met, run := DecodeTurn(input, pos, fields, base, slots, i, before, seen,
        met, run, good, recs, q);
      if !ok1 && !eof {
        return false, slots;
      }
      done, q := !ok1, q + 1;
    }
    if good {
      EndIs(input, fields, base, recs, q, pos, slots, met);
    }
    MessageEnds(input, fields, base, run, pos, slots, met, done);
    SeenAll(fields, met);
    var count := RequiredBefore(fields, |fields|);
    ok := AllSeen(if count > MAX_REQUIRED_FIELDS then MAX_REQUIRED_FIELDS else count, seen);
  }

  // What was encoded

  lemma {:induction false} FlatMentions(groups: seq<seq<Rec>>, n: nat, flat: seq<Rec>, g: nat, i: nat)
    requires g < n <= |groups| && flat == Flat(groups, n) && i in MetBy(groups[g], |groups[g]|)
    ensures i in MetBy(flat, |flat|)
  {
    var before, mine := Flat(groups, n - 1), groups[n - 1];
    if g < n - 1 {
      FlatMentions(groups, n - 1, before, g, i);
      MentionedFirst(before, mine, flat, |before|, i);
      MentionedMore(flat, |before|, |flat|, i);
    } else {
      MentionedLast(before, mine, flat, |mine|, i);
    }
  }

  lemma {:induction false} RequiredIsMentioned(fields: seq<Field>, slots: seq<Slot>, recs: seq<Rec>, i: nat)
    requires TypedSlots(fields, slots) && i < |fields| && fields[i].htype.Required? && recs == Recs(fields, slots)
    ensures i in MetBy(recs, |recs|)
  {
    var groups := Groups(fields, slots);
    assert groups[i] == [Rec(i, [slots[i].values[0]], false)];
    FlatMentions(groups, |fields|, recs, i, i);
  }

  lemma {:induction false} MentionedMore(recs: seq<Rec>, k: nat, n: nat, i: nat)
    requires k <= n <= |recs| && i in MetBy(recs, k)
    ensures i in MetBy(recs, n)
  {
    if k < n {
      MentionedMore(recs, k, n - 1, i);
    }
  }

  lemma {:induction false} MentionedFirst(a: seq<Rec>, b: seq<Rec>, both: seq<Rec>, n: nat, i: nat)
    requires both == a + b && n <= |a| && i in MetBy(a, n)
    ensures i in MetBy(both, n)
  {
    if !(a[n - 1].Rec? && a[n - 1].index == i) {
      MentionedFirst(a, b, both, n - 1, i);
    }
  }

  lemma {:induction false} MentionedLast(a: seq<Rec>, b: seq<Rec>, both: seq<Rec>, m: nat, i: nat)
    requires both == a + b && m <= |b| && i in MetBy(b, m)
    ensures i in MetBy(both, |a| + m)
  {
    assert both[|a| + m - 1] == b[m - 1];
    if !(b[m - 1].Rec? && b[m - 1].index == i) {
      MentionedLast(a, b, both, m - 1, i);
    }
  }

  /** The encoding of a message is records that read as that message. */
  lemma {:induction false} WrittenFollows(fields: seq<Field>, slots: seq<Slot>)
    requires TypedSlots(fields, slots) && FitsSlots(fields, slots) && ShortSlots(fields, slots)
    ensures var recs := Recs(fields, slots);
      && Follows(EncodedMessage(fields, slots), fields, Defaults(fields, |fields|), recs)
      && RequiredSeen(fields, recs)
      && ApplyUpTo(fields, Defaults(fields, |fields|), recs, |recs|) == slots
  {
    var recs := Recs(fields, slots);
    EncodedIsRecords(fields, slots, recs);
    RecsApply(fields, slots, recs);
    forall q: nat | q < |recs| ensures Comes(fields, Defaults(fields, |fields|), recs, q) {
      StateBefore(fields, slots, recs, q);
    }
    forall i: nat | Checked(fields, i) ensures i in MetBy(recs, |recs|) {
      RequiredIsMentioned(fields, slots, recs, i);
    }
  }

  /** The input is the encoding of this message, which fits, with lengths of 32 bits. */
  ghost predicate WrittenAs(input: seq<Byte>, fields: seq<Field>, slots: seq<Slot>) {
    && TypedSlots(fields, slots) && FitsSlots(fields, slots) && ShortSlots(fields, slots)
    && input == EncodedMessage(fields, slots)
  }

  /**
   * pb_decode: the encoding of a message that fits its declared limits comes back as that message; of any
   * other input, what it means if it means anything.
   */
  method Decode(input: seq<Byte>, fields: seq<Field>, ghost written: seq<Slot>) returns (ok: bool, slots: seq<Slot>)
    requires ValidFields(fields)
    ensures TypedSlots(fields, slots) && FitsSlots(fields, slots)
    ensures ok ==> MessageAt(input, fields, Defaults(fields, |fields|), slots)
    ensures !ok ==> forall other: seq<Slot> :: !MessageAt(input, fields, Defaults(fields, |fields|), other)
    ensures WrittenAs(input, fields, written) ==> ok && slots == written
  {
    ghost var recs := [];
    if WrittenAs(input, fields, written) {
      WrittenFollows(fields, written);
      recs := Recs(fields, written);
    }
    DefaultsFit(fields);
    ok, slots := DecodeMessage(input, fields, Defaults(fields, |fields|), recs);
  }
}
