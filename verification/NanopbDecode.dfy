/**
 * The nanopb decoder (pb_decode.c, pb_common.c): what the encoder wrote for a message, the decoder reads
 * back. A message is a run of records; each changes the message decoded so far.
 */
module NanopbDecode {
  import opened DbFormat
  import opened Checksums
  import opened Coding
  import opened NanopbFormat

  // Numbers

  function Shift(bitpos: nat): nat {
    if bitpos == 7 then 0x80 else if bitpos == 14 then 0x4000 else if bitpos == 21 then 0x20_0000 else 0x1000_0000
  }

  /** What pb_decode_varint32 makes of a byte at `bitpos`; past the 32nd bit only padding or a sign may come. */
  function TakeByte(result: nat, bitpos: nat, byte: nat): (r: Option<nat>)
    ensures r.Some? && result < WORDS ==> r.value < WORDS
  {
    if bitpos >= 32 then
      var signExtension := if bitpos < 63 then 0xff else 0x01;
      if byte % 128 != 0 && (result < 0x8000_0000 || byte != signExtension) then None else Some(result)
    else
      Some((result + byte % 128 * Shift(bitpos)) % WORDS)
  }

  /** What may come past the 32nd bit: nothing, or the sign of a negative number. */
  predicate Padding(byte: Byte, i: nat, value: nat) {
    byte % 128 == 0 || (value >= 0x8000_0000 && byte == if i < 9 then 0xff else 1)
  }

  /** The input goes on with a varint that fits in 32 bits. */
  ghost predicate Accepts(input: seq<Byte>, pos: nat, end: nat, value: nat) {
    && VarintEnds(input, pos, end) && value == GroupSum(input[pos..end]) % WORDS
    && (end - pos == 5 ==> input[end - 1] < 16)
    && forall i :: pos + 5 <= i < end ==> Padding(input[i], i - pos, value)
  }

  /** No varint of 32 bits. */
  ghost predicate Refused(input: seq<Byte>, pos: nat) {
    forall e: nat, n: nat :: !Accepts(input, pos, e, n)
  }

  lemma {:induction false} ShiftIs(i: nat)
    requires 1 <= i <= 4
    ensures Shift(7 * i) == Power128(i)
  {
    assert Power128(1) == 128 && Power128(2) == 128 * 128 && Power128(3) == 128 * 128 * 128;
    assert Power128(4) == 128 * Power128(3);
  }

  /** Groups past the fifth do not reach the low 32 bits. */
  lemma {:induction false} HighGroup(k: nat, digit: nat) returns (q: nat)
    requires k >= 5
    ensures digit * Power128(k) == WORDS * q
  {
    if k == 5 {
      assert Power128(5) == 0x8_0000_0000;
      q := 8 * digit;
    } else {
      q := HighGroup(k - 1, 128 * digit);
      Reassociate(digit, Power128(k - 1));
    }
  }

  lemma Reassociate(digit: nat, power: nat)
    ensures digit * (128 * power) == 128 * digit * power
  {
  }

  lemma {:induction false} SumStays(b: seq<Byte>, x: Byte)
    requires |b| >= 5
    ensures GroupSum(b + [x]) % WORDS == GroupSum(b) % WORDS
  {
    var q := HighGroup(|b|, x % 128);
    var sum := GroupSum(b);
    assert GroupSum(b + [x]) == sum + WORDS * q by { MoreIs(b, x); }
    AddMultiple(sum, q, WORDS);
  }

  lemma {:induction false} SumIsSettled(input: seq<Byte>, pos: nat, m: nat, end: nat)
    requires pos + 5 <= m <= end <= |input|
    ensures GroupSum(input[pos..end]) % WORDS == GroupSum(input[pos..m]) % WORDS
  {
    if m < end {
      SumIsSettled(input, pos, m, end - 1);
      assert input[pos..end] == input[pos..end - 1] + [input[end - 1]];
      SumStays(input[pos..end - 1], input[end - 1]);
    }
  }

  /** What an encoder writes for a number of 32 bits fits. */
  lemma {:induction false} WrittenIsAccepted(input: seq<Byte>, pos: nat, v: nat)
    requires v < WORDS && Holds(input, pos, Varint(v))
    ensures Accepts(input, pos, pos + |Varint(v)|, v)
  {
    VarintThere(input, pos, v);
    Powers();
    VarintLength(v, 5);
    if |Varint(v)| == 5 {
      FifthGroup(input[pos..pos + 5]);
      assert input[pos..pos + 5][4] == input[pos + 4];
    }
  }

  lemma {:induction false} FifthGroup(b: seq<Byte>)
    requires |b| == 5 && GroupSum(b) < WORDS
    ensures b[4] % 128 < 16
  {
    var last: nat := b[4] % 128;
    assert Power128(4) == 0x1000_0000 by { ShiftIs(4); }
    assert b == b[..4] + [b[4]];
    MoreIs(b[..4], b[4]);
  }

  lemma AcceptedOnce(input: seq<Byte>, pos: nat, a: nat, v: nat, b: nat, w: nat)
    requires Accepts(input, pos, a, v) && Accepts(input, pos, b, w)
    ensures a == b && v == w
  {
    VarintEndsOnce(input, pos, a, b);
  }

  /** pb_decode_varint32_eof; `eof` says that there was nothing to read. */
  method DecodeVarint32(input: seq<Byte>, pos: nat, ghost v: nat) returns (ok: bool, value: nat, end: nat, eof: bool)
    requires pos <= |input|
    ensures pos <= end <= |input| && (ok ==> pos < end && value < WORDS)
    ensures eof <==> pos == |input|
    ensures ok ==> Accepts(input, pos, end, value)
    ensures !ok ==> Refused(input, pos)
    ensures v < WORDS && Holds(input, pos, Varint(v)) ==> ok && value == v && end == pos + |Varint(v)|
  {
    eof := pos == |input|;
    if eof {
      ok, value, end := false, 0, pos;
    } else {
      ok, value, end := DecodeGroups(input, pos);
    }
    if v < WORDS && Holds(input, pos, Varint(v)) {
      WrittenIsAccepted(input, pos, v);
      if ok { AcceptedOnce(input, pos, end, value, pos + |Varint(v)|, v); }
    }
  }

  /** The rest of pb_decode_varint32_eof, where there is a byte. */
  method DecodeGroups(input: seq<Byte>, pos: nat) returns (ok: bool, value: nat, end: nat)
    requires pos < |input|
    ensures pos <= end <= |input| && (ok ==> value < WORDS && Accepts(input, pos, end, value))
    ensures !ok ==> Refused(input, pos)
  {
    var byte := input[pos];
    end := pos + 1;
    FirstGroup(input, pos);
    if byte < 128 {
      GroupsEnd(input, pos, end, byte);
      return true, byte, end;
    }
    var result: nat, bitpos: nat, more := byte % 128, 7, true;
    while more
      invariant pos < end <= |input| && result < WORDS && bitpos == 7 * (end - pos) && byte == input[end - 1]
      invariant GroupsTaken(input, pos, end, result) && (more <==> byte >= 128) && (!more ==> end - pos > 1)
      decreases more, |input| - end
    {
      if end == |input| {
        NeverEnds(input, pos);
        return false, 0, end;
      }
      byte := input[end];
      var r := TakeByte(result, bitpos, byte);
      if r.None? {
        Overflows(input, pos, end, result);
        return false, 0, end + 1;
      }
      GroupTaken(input, pos, end, result, bitpos, r.value);
      end := end + 1;
      result, bitpos, more := r.value, bitpos + 7, byte >= 128;
    }
    GroupsEnd(input, pos, end, result);
    if bitpos == 35 && byte % 128 >= 16 {
      return false, 0, end;
    }
    return true, result, end;
  }

  /** The last byte decides; of a fifth group only four bits fit. */
  lemma GroupsEnd(input: seq<Byte>, pos: nat, end: nat, result: nat)
    requires GroupsTaken(input, pos, end, result) && input[end - 1] < 128
    ensures end - pos != 5 || input[end - 1] < 16 ==> Accepts(input, pos, end, result)
    ensures end - pos == 5 && input[end - 1] >= 16 ==> Refused(input, pos)
  {
    forall e: nat, n: nat | Accepts(input, pos, e, n) ensures e == end { VarintEndsOnce(input, pos, end, e); }
  }

  /** The groups so far: all but the last say that more follow, and those past the fifth are padding. */
  ghost predicate GroupsTaken(input: seq<Byte>, pos: nat, end: nat, result: nat) {
    && pos < end <= |input| && (forall i :: pos <= i < end - 1 ==> input[i] >= 128)
    && result == GroupSum(input[pos..end]) % WORDS
    && forall i :: pos + 5 <= i < end ==> Padding(input[i], i - pos, result)
  }

  lemma FirstGroup(input: seq<Byte>, pos: nat)
    requires pos < |input|
    ensures GroupsTaken(input, pos, pos + 1, input[pos] % 128)
  {
    assert input[pos..pos + 1] == [input[pos]];
  }

  lemma GroupTaken(input: seq<Byte>, pos: nat, end: nat, result: nat, bitpos: nat, next: nat)
    requires GroupsTaken(input, pos, end, result) && end < |input| && input[end - 1] >= 128 && bitpos == 7 * (end - pos)
    requires TakeByte(result, bitpos, input[end]) == Some(next)
    ensures GroupsTaken(input, pos, end + 1, next)
  {
    var b := input[pos..end];
    assert input[pos..end + 1] == b + [input[end]];
    if |b| >= 5 {
      SumStays(b, input[end]);
    } else {
      ShiftIs(|b|);
      SumMore(b, input[end], result, WORDS);
    }
  }

  lemma Overflows(input: seq<Byte>, pos: nat, end: nat, result: nat)
    requires GroupsTaken(input, pos, end, result) && end < |input| && input[end - 1] >= 128
    requires TakeByte(result, 7 * (end - pos), input[end]).None?
    ensures Refused(input, pos)
  {
    forall e: nat, n: nat ensures !Accepts(input, pos, e, n) {
      if Accepts(input, pos, e, n) && e > end {
        SumIsSettled(input, pos, end, e);
      }
    }
  }

  lemma NeverEnds(input: seq<Byte>, pos: nat)
    requires pos < |input| && forall i :: pos <= i < |input| ==> input[i] >= 128
    ensures Refused(input, pos)
  {
  }

  /** A tag is a varint of 32 bits other than 0: the wire type in its low three bits, the field number above. */
  ghost predicate TagAt(input: seq<Byte>, pos: nat, end: nat, wireType: nat, tag: nat) {
    Accepts(input, pos, end, tag * 8 + wireType) && wireType < 8 && tag * 8 + wireType > 0
  }

  /** The message ends: at the end of the input, or at a zero. */
  ghost predicate EndsAt(input: seq<Byte>, pos: nat) {
    pos == |input| || exists e: nat :: Accepts(input, pos, e, 0)
  }

  /** pb_decode_tag; `eof` at the end of the message or at a zero tag. */
  method DecodeTag(input: seq<Byte>, pos: nat, ghost wire: nat, ghost t: nat)
      returns (ok: bool, wireType: nat, tag: nat, end: nat, eof: bool)
    requires pos <= |input|
    ensures pos <= end <= |input| && (ok ==> pos < end && wireType < 8)
    ensures ok ==> TagAt(input, pos, end, wireType, tag) && !eof
    ensures eof <==> EndsAt(input, pos)
    ensures !ok ==> wireType == tag == 0
    ensures !ok ==> forall e: nat, w: nat, n: nat :: !TagAt(input, pos, e, w, n)
    ensures wire < 8 && 0 < t < 0x2000_0000 && Holds(input, pos, TagBytes(wire, t)) ==>
      ok && wireType == wire && tag == t && end == pos + |TagBytes(wire, t)|
  {
    var temp;
    ok, temp, end, eof := DecodeVarint32(input, pos, t * 8 + wire);
    wireType, tag := 0, 0;
    if ok {
      OnlyThis(input, pos, end, temp);
      if temp == 0 {
        ok, eof := false, true;
      } else {
        tag, wireType := temp / 8, temp % 8;
      }
      if wire < 8 { TagBack(wire, t); }
    } else {
      forall e: nat, w: nat, n: nat ensures !TagAt(input, pos, e, w, n) { assert !Accepts(input, pos, e, n * 8 + w); }
    }
  }

  lemma TagBack(wire: nat, t: nat)
    requires wire < 8
    ensures (t * 8 + wire) / 8 == t && (t * 8 + wire) % 8 == wire
  {
  }

  lemma OnlyThis(input: seq<Byte>, pos: nat, end: nat, v: nat)
    requires Accepts(input, pos, end, v)
    ensures forall e: nat, n: nat :: Accepts(input, pos, e, n) ==> n == v
    ensures pos < |input| && (EndsAt(input, pos) <==> v == 0)
    ensures v == 0 ==> forall e: nat, w: nat, n: nat :: !TagAt(input, pos, e, w, n)
  {
    forall e: nat, n: nat | Accepts(input, pos, e, n) ensures n == v { AcceptedOnce(input, pos, end, v, e, n); }
  }

  /** pb_read of `n` bytes. */
  method Read(input: seq<Byte>, pos: nat, n: nat) returns (ok: bool, bytes: seq<Byte>, end: nat)
    requires pos <= |input|
    ensures ok <==> pos + n <= |input|
    ensures ok ==> end == pos + n && bytes == input[pos..end]
    ensures !ok ==> end == pos
  {
    if |input| - pos < n {
      return false, [], pos;
    }
    return true, input[pos..pos + n], pos + n;
  }

  /** A string: its length, in 32 bits, and its bytes. */
  ghost predicate StringAt(input: seq<Byte>, pos: nat, end: nat, bytes: seq<Byte>) {
    exists start: nat :: StringFrom(input, pos, start, end, bytes)
  }

  ghost predicate StringFrom(input: seq<Byte>, pos: nat, start: nat, end: nat, bytes: seq<Byte>) {
    Accepts(input, pos, start, |bytes|) && start + |bytes| == end <= |input| && bytes == input[start..end]
  }

  lemma StringOnce(input: seq<Byte>, pos: nat, a: nat, b: seq<Byte>, c: nat, d: seq<Byte>)
    requires StringAt(input, pos, a, b) && StringAt(input, pos, c, d)
    ensures a == c && b == d
  {
    var s, t :| StringFrom(input, pos, s, a, b) && StringFrom(input, pos, t, c, d);
    AcceptedOnce(input, pos, s, |b|, t, |d|);
  }

  /** pb_make_string_substream: the bytes that a length announces. */
  method Substream(input: seq<Byte>, pos: nat, ghost b: seq<Byte>) returns (ok: bool, bytes: seq<Byte>, end: nat)
    requires pos <= |input|
    ensures pos <= end <= |input| && (ok ==> pos < end)
    ensures ok ==> StringAt(input, pos, end, bytes)
    ensures !ok ==> forall e: nat, other: seq<Byte> :: !StringAt(input, pos, e, other)
    ensures |b| < WORDS && Holds(input, pos, Prefixed(b)) ==> ok && bytes == b && end == pos + |Prefixed(b)|
  {
    ghost var good := |b| < WORDS && Holds(input, pos, Prefixed(b));
    if good { PrefixedParts(input, pos, b); }
    var size, eof;
    ok, size, end, eof := DecodeVarint32(input, pos, |b|);
    bytes := [];
    if ok {
      var start := end;
      ok, bytes, end := Read(input, start, size);
      assert ok ==> StringFrom(input, pos, start, end, bytes);
      forall e: nat, other: seq<Byte> | StringAt(input, pos, e, other) ensures ok {
        var s: nat :| StringFrom(input, pos, s, e, other);
        AcceptedOnce(input, pos, start, size, s, |other|);
      }
    }
  }

  lemma {:induction false} PrefixedParts(input: seq<Byte>, pos: nat, b: seq<Byte>)
    requires Holds(input, pos, Prefixed(b))
    ensures Holds(input, pos, Varint(|b|)) && pos + |Varint(|b|)| + |b| <= |input|
    ensures input[pos + |Varint(|b|)|..pos + |Varint(|b|)| + |b|] == b
  {
    HoldsParts(input, pos, Varint(|b|), b);
    HoldsSlice(input, pos + |Varint(|b|)|, b);
  }

  /** What a field that nobody wants takes up. */
  ghost predicate Skipped(input: seq<Byte>, pos: nat, wireType: nat, end: nat) {
    if wireType == WT_VARINT then VarintEnds(input, pos, end)
    else if wireType == WT_STRING then exists bytes :: StringAt(input, pos, end, bytes)
    else (wireType == WT_64BIT || wireType == WT_32BIT) && pos + (if wireType == WT_64BIT then 8 else 4) == end <= |input|
  }

  lemma SkippedOnce(input: seq<Byte>, pos: nat, wireType: nat, a: nat, b: nat)
    requires Skipped(input, pos, wireType, a) && Skipped(input, pos, wireType, b)
    ensures a == b
  {
    if wireType == WT_STRING {
      var s, t :| StringAt(input, pos, a, s) && StringAt(input, pos, b, t);
      StringOnce(input, pos, a, s, b, t);
    }
  }

  /** pb_skip_field: past a number, a string or a fixed count of bytes. */
  method SkipField(input: seq<Byte>, pos: nat, wireType: nat, ghost number: nat, ghost body: seq<Byte>)
      returns (ok: bool, end: nat)
    requires pos <= |input|
    ensures pos <= end <= |input|
    ensures wireType == WT_VARINT && Holds(input, pos, Varint(number)) ==> ok && end == pos + |Varint(number)|
    ensures wireType == WT_STRING && |body| < WORDS && Holds(input, pos, Prefixed(body)) ==> ok && end == pos + |Prefixed(body)|
    ensures wireType == WT_64BIT ==> (ok <==> pos + 8 <= |input|)
    ensures wireType == WT_32BIT ==> (ok <==> pos + 4 <= |input|)
    ensures ok ==> Skipped(input, pos, wireType, end)
    ensures !ok ==> forall e: nat :: !Skipped(input, pos, wireType, e)
  {
    end := pos;
    if wireType == WT_VARINT {
      ok, end := SkipVarint(input, pos, number);
    } else if wireType == WT_64BIT {
      var skipped;
      ok, skipped, end := Read(input, pos, 8);
    } else if wireType == WT_STRING {
      var skipped;
      ok, skipped, end := Substream(input, pos, body);
    } else if wireType == WT_32BIT {
      var skipped;
      ok, skipped, end := Read(input, pos, 4);
    } else {
      ok := false;
    }
  }

  /** pb_skip_varint. */
  method SkipVarint(input: seq<Byte>, pos: nat, ghost number: nat) returns (ok: bool, end: nat)
    requires pos <= |input|
    ensures pos <= end <= |input|
    ensures ok ==> VarintEnds(input, pos, end)
    ensures !ok ==> forall e: nat :: !VarintEnds(input, pos, e)
    ensures Holds(input, pos, Varint(number)) ==> ok && end == pos + |Varint(number)|
  {
    ghost var good := Holds(input, pos, Varint(number));
    if good { VarintThere(input, pos, number); }
    end := pos;
    var more := true;
    while more
      invariant pos <= end <= |input| && (more ==> forall i :: pos <= i < end ==> input[i] >= 128)
      invariant !more ==> VarintEnds(input, pos, end)
      decreases more, |input| - end
    {
      if end == |input| {
        return false, end;
      }
      more := input[end] >= 128;
      end := end + 1;
    }
    if good { VarintEndsOnce(input, pos, end, pos + |Varint(number)|); }
    return true, end;
  }

  function FromFixed(b: seq<Byte>): nat {
    if b == [] then 0 else b[0] as nat + 256 * FromFixed(b[1..])
  }

  lemma {:induction false} FixedBack(n: nat, size: nat)
    requires n < Power256(size)
    ensures |Fixed(n, size)| == size && FromFixed(Fixed(n, size)) == n
  {
    if size > 0 {
      FixedBack(n / 256, size - 1);
      assert Fixed(n, size)[1..] == Fixed(n / 256, size - 1);
    }
  }

  lemma {:induction false} FromFixedBound(b: seq<Byte>)
    ensures FromFixed(b) < Power256(|b|)
  {
    if b != [] {
      FromFixedBound(b[1..]);
    }
  }

  lemma {:induction false} FixedOnto(b: seq<Byte>)
    ensures Fixed(FromFixed(b), |b|) == b
  {
    if b != [] {
      var low: nat, rest := b[0], b[1..];
      FixedOnto(rest);
      BytesSplit(low, FromFixed(rest));
      assert b == [low] + rest;
    }
  }

  lemma BytesSplit(low: nat, high: nat)
    requires low < 256
    ensures (low + 256 * high) % 256 == low && (low + 256 * high) / 256 == high
  {
  }

  function Power256(k: nat): (p: nat)
    ensures p > 0
  {
    if k == 0 then 1 else 256 * Power256(k - 1)
  }

  lemma Powers256()
    ensures Power256(4) == WORDS && Power256(8) == DWORDS
  {
    assert Power256(4) == 256 * 256 * 256 * 256;
    assert Power256(8) == 256 * 256 * 256 * 256 * Power256(4);
  }

  /** The number that an unsigned 64-bit pattern stands for, in `size` bytes; None if it does not fit. */
  function Signed(value: nat, size: nat): Option<int> {
    var n := Wrapped(value, if size == 8 then DWORDS else WORDS);  // smaller sizes are cast to 32 bits first
    if IntegerSize(size) && InRange(size, n) then Some(n) else None
  }

  /** The number whose two's complement the low bits of `value` are. */
  function Wrapped(value: nat, limit: nat): int
    requires limit > 0
  {
    if value % limit >= limit / 2 then value % limit - limit else value % limit
  }

  /** A signed number with the bits of `value`, of which the smaller sizes take the low 32. */
  ghost predicate SameBits(n: int, value: nat, size: nat) {
    InRange(size, n) && (n - value) % (if size == 8 then DWORDS else WORDS) == 0
  }

  lemma SignedIs(value: nat, size: nat, n: int)
    requires IntegerSize(size)
    ensures Signed(value, size) == Some(n) <==> SameBits(n, value, size)
  {
    if InRange(size, n) {
      if size == 8 { Wraps64(value, n); } else { Wraps32(value, n); }
    }
  }

  lemma Wraps32(value: nat, n: int)
    requires -(WORDS / 2) <= n < WORDS / 2
    ensures (n - value) % WORDS == 0 <==> n == Wrapped(value, WORDS)
  {
  }

  lemma Wraps64(value: nat, n: int)
    requires -(DWORDS / 2) <= n < DWORDS / 2
    ensures (n - value) % DWORDS == 0 <==> n == Wrapped(value, DWORDS)
  {
  }

  lemma SignedBack(n: int, size: nat)
    requires IntegerSize(size) && InRange(size, n)
    ensures Unsigned(n) < DWORDS && Signed(Unsigned(n), size) == Some(n)
  {
    assert Unsigned(n) == if n < 0 then n + DWORDS else n;
    if size != 8 { LowWord(n); }
  }

  /** The low 32 bits of a small number's 64-bit pattern. */
  lemma LowWord(n: int)
    requires -(WORDS / 2) <= n < WORDS / 2
    ensures Unsigned(n) % WORDS == if n < 0 then n + WORDS else n
  {
    if n < 0 {
      assert n + DWORDS == (n + WORDS) + WORDS * 0xffff_ffff;
      assert Unsigned(n) == n + DWORDS;
    }
  }

  function FromZigZag(value: nat): int {
    if value % 2 == 1 then -(value / 2) - 1 else value / 2
  }

  lemma ZigZagBack(n: int)
    ensures ZigZag(n) >= 0 && FromZigZag(ZigZag(n)) == n
    ensures -(DWORDS / 2) <= n < DWORDS / 2 ==> ZigZag(n) < DWORDS
  {
  }

  lemma ZigZagOnto(value: nat)
    ensures ZigZag(FromZigZag(value)) == value
  {
  }

  // What the decoder stores

  /** What the generator guarantees of a descriptor: field numbers are distinct and in range, sizes are C's. */
  ghost predicate ValidType(t: LType)
    decreases t, 0
  {
    match t
    case VarintType(size) => IntegerSize(size)
    case UvarintType(size) => IntegerSize(size)
    case SvarintType(size) => IntegerSize(size)
    case StringType(capacity) => capacity > 0
    case Submessage(fields) => ValidFields(fields)
    case _ => true
  }

  ghost predicate ValidFields(fields: seq<Field>)
    decreases fields, 0
  {
    TagsOk(fields) && forall i :: 0 <= i < |fields| ==> ValidField(fields[i])
  }

  ghost predicate ValidField(f: Field)
    decreases f, 0
  {
    ValidType(f.ltype)
  }

  ghost predicate TagsOk(fields: seq<Field>) {
    && (forall i :: 0 <= i < |fields| ==> 0 < fields[i].tag < 0x2000_0000)
    && (forall i, j :: 0 <= i < j < |fields| ==> fields[i].tag != fields[j].tag)
  }

  /** Within its memory: strings are terminated, no array is overfull, of a union one field at most is present. */
  ghost predicate Fits(t: LType, v: Value)
    requires Typed(t, v)
    decreases v, 0
  {
    match t
    case BytesType(capacity) => |v.bytes| <= capacity
    case StringType(capacity) => |v.bytes| < capacity
    case Submessage(fields) => FitsSlots(fields, v.slots)
    case _ => true
  }

  ghost predicate FitsSlot(f: Field, s: Slot)
    requires TypedSlot(f, s)
    decreases s, 1
  {
    && (f.htype.Repeated? ==> |s.values| <= f.htype.max)
    && forall k :: 0 <= k < |s.values| ==> Fits(f.ltype, s.values[k])
  }

  ghost predicate FitsSlots(fields: seq<Field>, slots: seq<Slot>)
    requires TypedSlots(fields, slots)
    decreases slots, 0
  {
    (forall i :: 0 <= i < |fields| ==> FitsSlot(fields[i], slots[i])) && OneofsOk(fields, slots)
  }

  ghost predicate OneofsOk(fields: seq<Field>, slots: seq<Slot>)
    requires |slots| == |fields|
  {
    forall i, j :: 0 <= i < |fields| && 0 <= j < |fields| && i != j && SameUnion(fields[i], fields[j]) ==>
      slots[i].values == [] || slots[j].values == []
  }

  predicate SameUnion(f: Field, g: Field) {
    f.htype.Oneof? && g.htype.Oneof? && f.htype.union == g.htype.union
  }

  /** What fits, the encoder accepts. */
  lemma {:induction false} FitsEncodable(t: LType, v: Value)
    requires Typed(t, v) && Fits(t, v)
    ensures Encodable(t, v)
    decreases v, 0
  {
    if t.Submessage? {
      FitsEncodableSlots(t.fields, v.slots);
    }
  }

  lemma {:induction false} FitsEncodableSlots(fields: seq<Field>, slots: seq<Slot>)
    requires TypedSlots(fields, slots) && FitsSlots(fields, slots)
    ensures EncodableSlots(fields, slots, |fields|)
    decreases slots, 0
  {
    forall i | 0 <= i < |fields| ensures EncodableSlot(fields[i], slots[i]) {
      forall k | 0 <= k < |slots[i].values| ensures Encodable(fields[i].ltype, slots[i].values[k]) {
        FitsEncodable(fields[i].ltype, slots[i].values[k]);
      }
    }
  }

  lemma {:induction false} DefaultFits(t: LType)
    requires ValidType(t)
    ensures Typed(t, Default(t)) && Fits(t, Default(t))
    decreases t, 0
  {
    if t.Submessage? {
      DefaultsFit(t.fields);
    }
  }

  lemma {:induction false} DefaultsFit(fields: seq<Field>)
    requires ValidFields(fields)
    ensures TypedSlots(fields, Defaults(fields, |fields|)) && FitsSlots(fields, Defaults(fields, |fields|))
    decreases fields, 0
  {
    forall i | 0 <= i < |fields|
      ensures Defaults(fields, |fields|)[i] == FieldDefault(fields[i])
      ensures TypedSlot(fields[i], FieldDefault(fields[i])) && FitsSlot(fields[i], FieldDefault(fields[i]))
    {
      var i2: nat := i;
      DefaultsAt(fields, |fields|, i2);
      DefaultFieldFits(fields[i]);
    }
  }

  lemma {:induction false} DefaultFieldFits(f: Field)
    requires ValidField(f)
    ensures TypedSlot(f, FieldDefault(f)) && FitsSlot(f, FieldDefault(f))
    decreases f, 0
  {
    DefaultFits(f.ltype);
  }

  /** Lengths fit in the 32 bits in which they are read. */
  ghost predicate Short(t: LType, v: Value)
    requires Typed(t, v)
    decreases v, 0
  {
    match t
    case BytesType(_) => |v.bytes| < WORDS
    case StringType(_) => |v.bytes| < WORDS
    case FixedBytes(_) => |v.bytes| < WORDS
    case Submessage(fields) => |EncodedMessage(fields, v.slots)| < WORDS && ShortSlots(fields, v.slots)
    case _ => true
  }

  ghost predicate ShortSlot(f: Field, s: Slot)
    requires TypedSlot(f, s)
    decreases s, 1
  {
    && (f.htype.Repeated? && Packable(f.ltype) ==> |Packed(f.ltype, s, |s.values|)| < WORDS)
    && forall k :: 0 <= k < |s.values| ==> Short(f.ltype, s.values[k])
  }

  ghost predicate ShortSlots(fields: seq<Field>, slots: seq<Slot>)
    requires TypedSlots(fields, slots)
    decreases slots, 0
  {
    forall i :: 0 <= i < |fields| ==> ShortSlot(fields[i], slots[i])
  }

  /** A singular field that is not written has its default. */
  lemma {:induction false} DefaultIs(t: LType, v: Value)
    requires Typed(t, v) && IsDefault(t, v)
    ensures v == Default(t)
    decreases v, 1
  {
    match t
    case Submessage(fields) => DefaultsAre(fields, v.slots, |fields|);
    case _ =>
  }

  lemma {:induction false} DefaultsAre(fields: seq<Field>, slots: seq<Slot>, n: nat)
    requires TypedSlots(fields, slots) && n <= |fields|
    requires forall i :: 0 <= i < n ==> IsDefaultSlot(fields[i], slots[i])
    ensures slots[..n] == Defaults(fields, n)
    decreases slots, n
  {
    if n > 0 {
      DefaultsAre(fields, slots, n - 1);
      DefaultSlotIs(fields[n - 1], slots[n - 1]);
      assert slots[..n] == slots[..n - 1] + [slots[n - 1]];
    }
  }

  lemma {:induction false} DefaultSlotIs(f: Field, s: Slot)
    requires TypedSlot(f, s) && IsDefaultSlot(f, s)
    ensures s == FieldDefault(f)
    decreases s, 2
  {
    if f.htype.Singular? {
      DefaultIs(f.ltype, s.values[0]);
    }
  }

  lemma {:induction false} DefaultsAt(fields: seq<Field>, n: nat, i: nat)
    requires i < n <= |fields|
    ensures Defaults(fields, n)[i] == FieldDefault(fields[i])
  {
    if i < n - 1 {
      DefaultsAt(fields, n - 1, i);
    }
  }
}
