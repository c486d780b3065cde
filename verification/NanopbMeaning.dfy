/**
 * What bytes mean to the nanopb decoder, whoever wrote them (pb_decode.c, pb_common.c): a run of records,
 * each of which changes the message, until the input or a zero ends it. Bytes mean one message at most.
 */
module NanopbMeaning {
  import opened DbFormat
  import opened Checksums
  import opened Coding
  import opened NanopbFormat
  import opened NanopbDecode
  import opened NanopbRecords

  // Values

  ghost predicate BoolAt(input: seq<Byte>, pos: nat, end: nat, n: int) {
    exists m: nat :: Accepts(input, pos, end, m) && n == if m != 0 then 1 else 0
  }

  ghost predicate SignedAt(input: seq<Byte>, pos: nat, size: nat, end: nat, n: int) {
    exists m: nat :: Number64At(input, pos, end, m) && SameBits(n, m, size)
  }

  ghost predicate FixedAt(input: seq<Byte>, pos: nat, size: nat, end: nat, n: int) {
    pos + size == end <= |input| && 0 <= n < Power256(size) && input[pos..end] == Fixed(n, size)
  }

  /** From `pos` to `end` there is the number `n`. */
  ghost predicate NumberAt(input: seq<Byte>, pos: nat, t: LType, end: nat, n: int) {
    match t
    case Bool => BoolAt(input, pos, end, n)
    case VarintType(size) => SignedAt(input, pos, size, end, n)
    case UvarintType(size) => 0 <= n < Range(size) && Number64At(input, pos, end, n)
    case SvarintType(size) => InRange(size, n) && Number64At(input, pos, end, ZigZag(n))
    case Fixed32 => FixedAt(input, pos, 4, end, n)
    case Fixed64 => FixedAt(input, pos, 8, end, n)
    case _ => false
  }

  lemma {:induction false} NumberOnce(input: seq<Byte>, pos: nat, t: LType, a: nat, m: int, b: nat, n: int)
    requires ValidType(t) && NumberAt(input, pos, t, a, m) && NumberAt(input, pos, t, b, n)
    ensures a == b && m == n
  {
    match t
    case Bool =>
      var x: nat :| Accepts(input, pos, a, x) && m == if x != 0 then 1 else 0;
      var y: nat :| Accepts(input, pos, b, y) && n == if y != 0 then 1 else 0;
      AcceptedOnce(input, pos, a, x, b, y);
    case VarintType(size) =>
      var x: nat :| Number64At(input, pos, a, x) && SameBits(m, x, size);
      var y: nat :| Number64At(input, pos, b, y) && SameBits(n, y, size);
      Number64Once(input, pos, a, x, b, y);
      SignedIs(x, size, m);
      SignedIs(x, size, n);
    case UvarintType(size) => Number64Once(input, pos, a, m, b, n);
    case SvarintType(size) =>
      Number64Once(input, pos, a, ZigZag(m), b, ZigZag(n));
      ZigZagBack(m);
      ZigZagBack(n);
    case Fixed32 => FixedOnce(input, pos, 4, a, m, b, n);
    case Fixed64 => FixedOnce(input, pos, 8, a, m, b, n);
  }

  lemma FixedOnce(input: seq<Byte>, pos: nat, size: nat, a: nat, m: int, b: nat, n: int)
    requires FixedAt(input, pos, size, a, m) && FixedAt(input, pos, size, b, n)
    ensures a == b && m == n
  {
    FixedBack(m, size);
    FixedBack(n, size);
  }

  /** What C sees of these bytes as a string: those before the first zero. */
  ghost predicate IsCString(b: seq<Byte>, all: seq<Byte>) {
    && |b| <= |all| && b == all[..|b|] && (forall i :: 0 <= i < |b| ==> b[i] != 0)
    && (|b| < |all| ==> all[|b|] == 0)
  }

  lemma CStringOnce(a: seq<Byte>, b: seq<Byte>, all: seq<Byte>)
    requires IsCString(a, all) && IsCString(b, all)
    ensures a == b
  {
    ZeroOutside(a, b, all);
    ZeroOutside(b, a, all);
  }

  lemma ZeroOutside(a: seq<Byte>, b: seq<Byte>, all: seq<Byte>)
    requires IsCString(a, all) && IsCString(b, all)
    ensures |b| <= |a|
  {
    assert |a| < |all| ==> all[|a|] == 0;
    assert forall i :: 0 <= i < |b| ==> all[i] == b[i] != 0;
  }

  /** A string needs room for its zero. */
  predicate SizeFits(t: LType, size: nat)
    requires t.BytesType? || t.StringType? || t.FixedBytes?
  {
    if t.BytesType? then size <= t.capacity else if t.StringType? then size + 1 <= t.capacity else size == t.length
  }

  /** A length and as many bytes; of a fixed number of bytes, no length means that all are zero. */
  ghost predicate TextAt(input: seq<Byte>, pos: nat, t: LType, end: nat, b: seq<Byte>)
    requires t.BytesType? || t.StringType? || t.FixedBytes?
  {
    exists start: nat, size: nat :: Accepts(input, pos, start, size) && TextFrom(input, start, size, t, end, b)
  }

  ghost predicate TextFrom(input: seq<Byte>, start: nat, size: nat, t: LType, end: nat, b: seq<Byte>)
    requires t.BytesType? || t.StringType? || t.FixedBytes?
  {
    if t.FixedBytes? && size == 0 then
      end == start && |b| == t.length && forall i :: 0 <= i < |b| ==> b[i] == 0
    else
      && SizeFits(t, size) && start + size == end <= |input|
      && if t.StringType? then IsCString(b, input[start..end]) else b == input[start..end]
  }

  lemma TextOnce(input: seq<Byte>, pos: nat, t: LType, a: nat, b: seq<Byte>, c: nat, d: seq<Byte>)
    requires t.BytesType? || t.StringType? || t.FixedBytes?
    requires TextAt(input, pos, t, a, b) && TextAt(input, pos, t, c, d)
    ensures a == c && b == d
  {
    var s: nat, m: nat :| Accepts(input, pos, s, m) && TextFrom(input, s, m, t, a, b);
    var u: nat, n: nat :| Accepts(input, pos, u, n) && TextFrom(input, u, n, t, c, d);
    AcceptedOnce(input, pos, s, m, u, n);
    if t.StringType? { CStringOnce(b, d, input[s..a]); }
  }

  /** From `pos` to `end` there is the value `v`; a submessage is read into `base`. */
  ghost predicate ValueAt(input: seq<Byte>, pos: nat, t: LType, base: Value, end: nat, v: Value)
    decreases t, 0
  {
    match t
    case Submessage(fields) =>
      base.Message? && v.Message? && SubmessageAt(input, pos, fields, base.slots, end, v.slots)
    case BytesType(_) => v.Text? && TextAt(input, pos, t, end, v.bytes)
    case StringType(_) => v.Text? && TextAt(input, pos, t, end, v.bytes)
    case FixedBytes(_) => v.Text? && TextAt(input, pos, t, end, v.bytes)
    case _ => v.Number? && NumberAt(input, pos, t, end, v.n)
  }

  /** From `pos` to `end` there is a submessage, which makes `slots` of `base`. */
  ghost predicate SubmessageAt(input: seq<Byte>, pos: nat, fields: seq<Field>, base: seq<Slot>, end: nat, slots: seq<Slot>)
    decreases fields, 7
  {
    exists bytes :: StringAt(input, pos, end, bytes) && MessageAt(bytes, fields, base, slots)
  }

  // Fields

  /** The numbers of a packed array lie in the bytes from one of `ends` to the next. */
  ghost predicate Items(bytes: seq<Byte>, t: LType, have: seq<Value>, ends: seq<nat>, values: seq<Value>) {
    && have <= values && |ends| == |values| - |have| + 1 && ends[0] == 0
    && forall j :: 0 <= j < |values| - |have| ==> ItemAt(bytes, t, have, ends, values, j)
  }

  ghost predicate ItemAt(bytes: seq<Byte>, t: LType, have: seq<Value>, ends: seq<nat>, values: seq<Value>, j: nat)
    requires j < |values| - |have| < |ends|
  {
    var v := values[|have| + j];
    v.Number? && NumberAt(bytes, ends[j], t, ends[j + 1], v.n)
  }

  /** The packed array of all the bytes, added to what the field has. */
  ghost predicate ArrayAt(bytes: seq<Byte>, t: LType, have: seq<Value>, values: seq<Value>) {
    exists ends :: Items(bytes, t, have, ends, values) && ends[|ends| - 1] == |bytes|
  }

  lemma {:induction false} ItemsOnce(bytes: seq<Byte>, t: LType, have: seq<Value>,
      ends: seq<nat>, values: seq<Value>, ends2: seq<nat>, values2: seq<Value>, k: nat)
    requires ValidType(t) && Items(bytes, t, have, ends, values) && Items(bytes, t, have, ends2, values2)
    requires k < |ends| && k < |ends2|
    ensures ends[k] == ends2[k] && values[..|have| + k] == values2[..|have| + k]
  {
    if k > 0 {
      ItemsOnce(bytes, t, have, ends, values, ends2, values2, k - 1);
      assert ItemAt(bytes, t, have, ends, values, k - 1) && ItemAt(bytes, t, have, ends2, values2, k - 1);
      var v, w := values[|have| + k - 1], values2[|have| + k - 1];
      NumberOnce(bytes, ends[k - 1], t, ends[k], v.n, ends2[k], w.n);
      assert values[..|have| + k] == values[..|have| + k - 1] + [v] && values2[..|have| + k] == values2[..|have| + k - 1] + [w];
    }
  }

  /** After the last number there is none: the array is all the bytes. */
  lemma {:induction false} ItemsEnd(bytes: seq<Byte>, t: LType, have: seq<Value>, ends: seq<nat>, values: seq<Value>,
      ends2: seq<nat>, values2: seq<Value>)
    requires ValidType(t) && Items(bytes, t, have, ends, values) && Items(bytes, t, have, ends2, values2)
    requires ends[|ends| - 1] == |bytes|
    ensures |ends2| <= |ends|
  {
    if |ends2| > |ends| {
      var k := |ends| - 1;
      assert ItemAt(bytes, t, have, ends2, values2, k);
      ItemsOnce(bytes, t, have, ends, values, ends2, values2, k);
    }
  }

  lemma {:induction false} ArrayOnce(bytes: seq<Byte>, t: LType, have: seq<Value>, values: seq<Value>, values2: seq<Value>)
    requires ValidType(t) && ArrayAt(bytes, t, have, values) && ArrayAt(bytes, t, have, values2)
    ensures values == values2
  {
    var ends :| Items(bytes, t, have, ends, values) && ends[|ends| - 1] == |bytes|;
    var ends2 :| Items(bytes, t, have, ends2, values2) && ends2[|ends2| - 1] == |bytes|;
    ItemsEnd(bytes, t, have, ends, values, ends2, values2);
    ItemsEnd(bytes, t, have, ends2, values2, ends, values);
    ItemsOnce(bytes, t, have, ends, values, ends2, values2, |ends| - 1);
  }

  /** What a submessage is read into: a new one for an array, else the one that is there. */
  function Base(f: Field, now: Slot): Value {
    if f.htype.Repeated? || now.values == [] then Default(f.ltype) else now.values[0]
  }

  /** What a record of a field says makes `s` of the field's data `now`. */
  ghost predicate SlotAt(input: seq<Byte>, pos: nat, wireType: nat, f: Field, now: Slot, end: nat, s: Slot)
    decreases f, 0
  {
    if f.htype.Repeated? && wireType == WT_STRING && Packable(f.ltype) then
      && |s.values| <= f.htype.max
      && exists bytes :: StringAt(input, pos, end, bytes) && ArrayAt(bytes, f.ltype, now.values, s.values)
    else if f.htype.Repeated? then
      && |s.values| == |now.values| + 1 <= f.htype.max && now.values <= s.values
      && ValueAt(input, pos, f.ltype, Base(f, now), end, s.values[|now.values|])
    else
      |s.values| == 1 && ValueAt(input, pos, f.ltype, Base(f, now), end, s.values[0])
  }

  // Messages

  /** How many required fields there are among the first `n`. */
  function RequiredBefore(fields: seq<Field>, n: nat): (k: nat)
    requires n <= |fields|
    ensures k <= n
  {
    if n == 0 then 0 else RequiredBefore(fields, n - 1) + (if fields[n - 1].htype.Required? then 1 else 0)
  }

  const MAX_REQUIRED_FIELDS: nat := 64

  /** The required fields that are checked. */
  ghost predicate Checked(fields: seq<Field>, i: nat) {
    i < |fields| && fields[i].htype.Required? && RequiredBefore(fields, i) < MAX_REQUIRED_FIELDS
  }

  /** Where the decoder is, the message so far, and the fields of which there were records. */
  datatype Turn = Turn(pos: nat, slots: seq<Slot>, met: set<nat>)

  /** A record of the field `i`; the other fields of its union go. */
  ghost predicate FieldAt(input: seq<Byte>, start: nat, wireType: nat, fields: seq<Field>, i: nat, a: Turn, b: Turn)
    requires i < |fields| == |a.slots|
    decreases fields, 1
  {
    && |b.slots| == |fields| && b.met == a.met + {i}
    && SlotAt(input, start, wireType, fields[i], a.slots[i], b.pos, b.slots[i])
    && forall j :: 0 <= j < |fields| && j != i ==>
         b.slots[j] == if SameUnion(fields[i], fields[j]) then Slot([]) else a.slots[j]
  }

  /** A record with this tag: of a field, or of none and skipped. */
  ghost predicate RecordAt(input: seq<Byte>, start: nat, wireType: nat, tag: nat, fields: seq<Field>, a: Turn, b: Turn)
    requires |a.slots| == |fields|
    decreases fields, 2
  {
    if NoField(fields, tag) then Skipped(input, start, wireType, b.pos) && b.slots == a.slots && b.met == a.met
    else exists i: nat :: i < |fields| && fields[i].tag == tag && FieldAt(input, start, wireType, fields, i, a, b)
  }

  /** A record takes the decoder from `a` to `b`. */
  ghost predicate TurnAt(input: seq<Byte>, fields: seq<Field>, a: Turn, b: Turn)
    decreases fields, 3
  {
    && |a.slots| == |fields|
    && exists start: nat, wireType: nat, tag: nat ::
         TagAt(input, a.pos, start, wireType, tag) && RecordAt(input, start, wireType, tag, fields, a, b)
  }

  /** One record after the other. */
  ghost predicate IsRun(input: seq<Byte>, fields: seq<Field>, base: seq<Slot>, run: seq<Turn>)
    decreases fields, 4
  {
    && |run| > 0 && run[0] == Turn(0, base, {})
    && forall j, k :: 0 <= j && k == j + 1 && k < |run| ==> TurnAt(input, fields, run[j], run[k])
  }

  ghost predicate AllMet(fields: seq<Field>, met: set<nat>) {
    forall i: nat :: Checked(fields, i) ==> i in met
  }

  /** A run to the end of the message, with the required fields. */
  ghost predicate Reads(input: seq<Byte>, fields: seq<Field>, base: seq<Slot>, slots: seq<Slot>, run: seq<Turn>)
    decreases fields, 5
  {
    && IsRun(input, fields, base, run)
    && var last := run[|run| - 1]; EndsAt(input, last.pos) && last.slots == slots && AllMet(fields, last.met)
  }

  /** The bytes make the message `slots` of the message `base`. */
  ghost predicate MessageAt(input: seq<Byte>, fields: seq<Field>, base: seq<Slot>, slots: seq<Slot>)
    decreases fields, 6
  {
    exists run :: Reads(input, fields, base, slots, run)
  }

  // One meaning at most

  lemma MessageRun(input: seq<Byte>, fields: seq<Field>, base: seq<Slot>, slots: seq<Slot>) returns (run: seq<Turn>)
    requires MessageAt(input, fields, base, slots)
    ensures Reads(input, fields, base, slots, run)
  {
    run :| Reads(input, fields, base, slots, run);
  }

  lemma {:induction false} ValueOnce(input: seq<Byte>, pos: nat, t: LType, base: Value, a: nat, v: Value, b: nat, w: Value)
    requires ValidType(t) && ValueAt(input, pos, t, base, a, v) && ValueAt(input, pos, t, base, b, w)
    ensures a == b && v == w
    decreases t, 0
  {
    match t
    case Submessage(fields) =>
      var x :| StringAt(input, pos, a, x) && MessageAt(x, fields, base.slots, v.slots);
      var y :| StringAt(input, pos, b, y) && MessageAt(y, fields, base.slots, w.slots);
      StringOnce(input, pos, a, x, b, y);
      MessageOnce(x, fields, base.slots, v.slots, w.slots);
    case BytesType(_) => TextOnce(input, pos, t, a, v.bytes, b, w.bytes);
    case StringType(_) => TextOnce(input, pos, t, a, v.bytes, b, w.bytes);
    case FixedBytes(_) => TextOnce(input, pos, t, a, v.bytes, b, w.bytes);
    case _ => NumberOnce(input, pos, t, a, v.n, b, w.n);
  }

  lemma {:induction false} SlotOnce(input: seq<Byte>, pos: nat, wireType: nat, f: Field, now: Slot, a: nat, r: Slot,
      b: nat, s: Slot)
    requires ValidField(f) && SlotAt(input, pos, wireType, f, now, a, r) && SlotAt(input, pos, wireType, f, now, b, s)
    ensures a == b && r == s
    decreases f, 0
  {
    if f.htype.Repeated? && wireType == WT_STRING && Packable(f.ltype) {
      var x :| StringAt(input, pos, a, x) && ArrayAt(x, f.ltype, now.values, r.values);
      var y :| StringAt(input, pos, b, y) && ArrayAt(y, f.ltype, now.values, s.values);
      StringOnce(input, pos, a, x, b, y);
      ArrayOnce(x, f.ltype, now.values, r.values, s.values);
    } else {
      var k := if f.htype.Repeated? then |now.values| else 0;
      ValueOnce(input, pos, f.ltype, Base(f, now), a, r.values[k], b, s.values[k]);
      assert r.values == r.values[..k] + [r.values[k]] && s.values == s.values[..k] + [s.values[k]];
    }
  }

  lemma TagOnce(input: seq<Byte>, pos: nat, a: nat, w: nat, t: nat, b: nat, x: nat, u: nat)
    requires TagAt(input, pos, a, w, t) && TagAt(input, pos, b, x, u)
    ensures a == b && w == x && t == u
  {
    AcceptedOnce(input, pos, a, t * 8 + w, b, u * 8 + x);
  }

  lemma {:induction false} TurnOnce(input: seq<Byte>, fields: seq<Field>, a: Turn, b: Turn, c: Turn)
    requires ValidFields(fields) && TurnAt(input, fields, a, b) && TurnAt(input, fields, a, c)
    ensures b == c
    decreases fields, 3
  {
    var s: nat, w: nat, t: nat :| TagAt(input, a.pos, s, w, t) && RecordAt(input, s, w, t, fields, a, b);
    var s2: nat, w2: nat, t2: nat :| TagAt(input, a.pos, s2, w2, t2) && RecordAt(input, s2, w2, t2, fields, a, c);
    TagOnce(input, a.pos, s, w, t, s2, w2, t2);
    RecordOnce(input, s, w, t, fields, a, b, c);
  }

  lemma {:induction false} RecordOnce(input: seq<Byte>, start: nat, wireType: nat, tag: nat, fields: seq<Field>,
      a: Turn, b: Turn, c: Turn)
    requires |a.slots| == |fields| && ValidFields(fields)
    requires RecordAt(input, start, wireType, tag, fields, a, b) && RecordAt(input, start, wireType, tag, fields, a, c)
    ensures b == c
    decreases fields, 2
  {
    if NoField(fields, tag) {
      SkippedOnce(input, start, wireType, b.pos, c.pos);
    } else {
      var i: nat :| i < |fields| && fields[i].tag == tag && FieldAt(input, start, wireType, fields, i, a, b);
      var j: nat :| j < |fields| && fields[j].tag == tag && FieldAt(input, start, wireType, fields, j, a, c);
      assert i == j;
      SlotOnce(input, start, wireType, fields[i], a.slots[i], b.pos, b.slots[i], c.pos, c.slots[i]);
      assert b.slots == c.slots;
    }
  }

  lemma {:induction false} RunOnce(input: seq<Byte>, fields: seq<Field>, base: seq<Slot>, run: seq<Turn>,
      other: seq<Turn>, k: nat)
    requires ValidFields(fields) && IsRun(input, fields, base, run) && IsRun(input, fields, base, other)
    requires k < |run| && k < |other|
    ensures run[k] == other[k]
    decreases fields, 4, k
  {
    if k > 0 {
      RunOnce(input, fields, base, run, other, k - 1);
      TurnOnce(input, fields, run[k - 1], run[k], other[k]);
    }
  }

  /** Where a message ends there is no record. */
  lemma {:induction false} EndIsLast(input: seq<Byte>, fields: seq<Field>, a: Turn, b: Turn)
    requires EndsAt(input, a.pos)
    ensures !TurnAt(input, fields, a, b)
  {
    if a.pos != |input| {
      var e: nat :| Accepts(input, a.pos, e, 0);
      forall s: nat, w: nat, t: nat ensures !TagAt(input, a.pos, s, w, t) { NoTag(input, a.pos, e, s, w, t); }
    }
  }

  lemma NoTag(input: seq<Byte>, pos: nat, e: nat, s: nat, w: nat, t: nat)
    requires Accepts(input, pos, e, 0)
    ensures !TagAt(input, pos, s, w, t)
  {
    if VarintEnds(input, pos, s) { VarintEndsOnce(input, pos, e, s); }
  }

  /** A whole run is at least as long as any run. */
  lemma {:induction false} WholeIsLongest(input: seq<Byte>, fields: seq<Field>, base: seq<Slot>, run: seq<Turn>, whole: seq<Turn>)
    requires ValidFields(fields) && IsRun(input, fields, base, run) && IsRun(input, fields, base, whole)
    requires EndsAt(input, whole[|whole| - 1].pos)
    ensures |run| <= |whole| && run[|run| - 1] == whole[|run| - 1]
    decreases fields, 5
  {
    if |whole| < |run| {
      var k := |whole| - 1;
      RunOnce(input, fields, base, run, whole, k);
      EndIsLast(input, fields, run[k], run[k + 1]);
    } else {
      RunOnce(input, fields, base, run, whole, |run| - 1);
    }
  }

  lemma {:induction false} MessageOnce(input: seq<Byte>, fields: seq<Field>, base: seq<Slot>, slots: seq<Slot>, slots2: seq<Slot>)
    requires ValidFields(fields) && MessageAt(input, fields, base, slots) && MessageAt(input, fields, base, slots2)
    ensures slots == slots2
    decreases fields, 6
  {
    var run := MessageRun(input, fields, base, slots);
    var run2 := MessageRun(input, fields, base, slots2);
    WholeIsLongest(input, fields, base, run, run2);
    WholeIsLongest(input, fields, base, run2, run);
  }

  // Reading

  /** The message after a record of the field `i`. */
  ghost predicate Changed(input: seq<Byte>, pos: nat, wireType: nat, fields: seq<Field>, i: nat, cur: seq<Slot>,
      end: nat, slots: seq<Slot>)
    requires i < |fields| == |cur|
  {
    && |slots| == |fields| && SlotAt(input, pos, wireType, fields[i], cur[i], end, slots[i])
    && forall j :: 0 <= j < |fields| && j != i ==>
         slots[j] == if SameUnion(fields[i], fields[j]) then Slot([]) else cur[j]
  }

  /** A record whose tag is read is what follows the tag. */
  lemma {:induction false} TurnIs(input: seq<Byte>, pos: nat, start: nat, wireType: nat, tag: nat, fields: seq<Field>,
      i: nat, found: bool,
      cur: seq<Slot>, have: set<nat>, ok: bool, end: nat, slots: seq<Slot>)
    requires ValidFields(fields) && |cur| == |fields| && TagAt(input, pos, start, wireType, tag)
    requires if found then i < |fields| && fields[i].tag == tag else NoField(fields, tag)
    requires !found && ok ==> Skipped(input, start, wireType, end) && slots == cur
    requires !found && !ok ==> forall e: nat :: !Skipped(input, start, wireType, e)
    requires found && ok ==> Changed(input, start, wireType, fields, i, cur, end, slots)
    requires found && !ok ==> forall e: nat, s: Slot :: !SlotAt(input, start, wireType, fields[i], cur[i], e, s)
    ensures ok ==> TurnAt(input, fields, Turn(pos, cur, have), Turn(end, slots, have + if found then {i} else {}))
    ensures !ok ==> forall b: Turn :: !TurnAt(input, fields, Turn(pos, cur, have), b)
  {
    var a := Turn(pos, cur, have);
    if ok {
      var b := Turn(end, slots, have + if found then {i} else {});
      if found { assert FieldAt(input, start, wireType, fields, i, a, b); }
      assert RecordAt(input, start, wireType, tag, fields, a, b);
    } else {
      forall b: Turn ensures !TurnAt(input, fields, a, b) {
        if TurnAt(input, fields, a, b) {
          var s: nat, w: nat, t: nat :| TagAt(input, pos, s, w, t) && RecordAt(input, s, w, t, fields, a, b);
          TagOnce(input, pos, start, wireType, tag, s, w, t);
          NoRecord(input, start, wireType, tag, fields, i, found, a, b);
        }
      }
    }
  }

  lemma {:induction false} NoRecord(input: seq<Byte>, start: nat, wireType: nat, tag: nat, fields: seq<Field>, i: nat,
      found: bool, a: Turn, b: Turn)
    requires ValidFields(fields) && |a.slots| == |fields|
    requires if found then i < |fields| && fields[i].tag == tag else NoField(fields, tag)
    requires !found ==> forall e: nat :: !Skipped(input, start, wireType, e)
    requires found ==> forall e: nat, s: Slot :: !SlotAt(input, start, wireType, fields[i], a.slots[i], e, s)
    ensures !RecordAt(input, start, wireType, tag, fields, a, b)
  {
    if found && RecordAt(input, start, wireType, tag, fields, a, b) { FieldOf(input, start, wireType, tag, fields, i, a, b); }
  }

  lemma NoTurn(input: seq<Byte>, pos: nat, fields: seq<Field>, cur: seq<Slot>, have: set<nat>)
    requires forall e: nat, w: nat, n: nat :: !TagAt(input, pos, e, w, n)
    ensures forall b: Turn :: !TurnAt(input, fields, Turn(pos, cur, have), b)
  {
  }

  lemma {:induction false} FieldOf(input: seq<Byte>, start: nat, wireType: nat, tag: nat, fields: seq<Field>, i: nat,
      a: Turn, b: Turn)
    requires ValidFields(fields) && i < |fields| == |a.slots| && fields[i].tag == tag
    requires RecordAt(input, start, wireType, tag, fields, a, b)
    ensures FieldAt(input, start, wireType, fields, i, a, b)
  {
    var k: nat :| k < |fields| && fields[k].tag == tag && FieldAt(input, start, wireType, fields, k, a, b);
    assert k == i;
  }

  /** One more record. */
  lemma {:induction false} RunMore(input: seq<Byte>, fields: seq<Field>, base: seq<Slot>, run: seq<Turn>, next: Turn)
    requires IsRun(input, fields, base, run) && TurnAt(input, fields, run[|run| - 1], next)
    ensures IsRun(input, fields, base, run + [next])
  {
    var more := run + [next];
    forall j, k | 0 <= j && k == j + 1 && k < |more| ensures TurnAt(input, fields, more[j], more[k]) {
      if k < |run| { assert TurnAt(input, fields, run[j], run[k]); }
    }
  }

  /** The decoder has come to the end of `run`; `done` when the message ends there. */
  ghost predicate CameTo(input: seq<Byte>, fields: seq<Field>, base: seq<Slot>, run: seq<Turn>,
      pos: nat, slots: seq<Slot>, met: set<nat>, done: bool)
  {
    && IsRun(input, fields, base, run)
    && var last := run[|run| - 1];
      last.slots == slots && last.met == met && if done then EndsAt(input, last.pos) else last.pos == pos
  }

  lemma {:induction false} ComesTo(input: seq<Byte>, fields: seq<Field>, base: seq<Slot>, run: seq<Turn>, pos: nat,
      slots: seq<Slot>, met: set<nat>, next: Turn)
    requires CameTo(input, fields, base, run, pos, slots, met, false) && TurnAt(input, fields, Turn(pos, slots, met), next)
    ensures CameTo(input, fields, base, run + [next], next.pos, next.slots, next.met, false)
  {
    assert run[|run| - 1] == Turn(pos, slots, met);
    RunMore(input, fields, base, run, next);
  }

  /** Where there is neither an end nor a record the bytes mean nothing. */
  lemma {:induction false} NoMessage(input: seq<Byte>, fields: seq<Field>, base: seq<Slot>, run: seq<Turn>, last: Turn)
    requires ValidFields(fields) && CameTo(input, fields, base, run, last.pos, last.slots, last.met, false)
    requires !EndsAt(input, last.pos) && forall b: Turn :: !TurnAt(input, fields, last, b)
    ensures forall slots: seq<Slot> :: !MessageAt(input, fields, base, slots)
  {
    forall slots: seq<Slot> ensures !MessageAt(input, fields, base, slots) {
      if MessageAt(input, fields, base, slots) {
        var whole := MessageRun(input, fields, base, slots);
        WholeIsLongest(input, fields, base, run, whole);
        if |run| < |whole| { Linked(input, fields, base, whole, |run| - 1); }
      }
    }
  }

  lemma {:induction false} Linked(input: seq<Byte>, fields: seq<Field>, base: seq<Slot>, run: seq<Turn>, k: nat)
    requires IsRun(input, fields, base, run) && k < |run| - 1
    ensures TurnAt(input, fields, run[k], run[k + 1])
  {
  }

  /** Where the message ends its meaning is settled. */
  lemma {:induction false} MessageEnds(input: seq<Byte>, fields: seq<Field>, base: seq<Slot>, run: seq<Turn>, pos: nat,
      slots: seq<Slot>, met: set<nat>, done: bool)
    requires ValidFields(fields) && CameTo(input, fields, base, run, pos, slots, met, done) && (done || pos == |input|)
    ensures AllMet(fields, met) ==> MessageAt(input, fields, base, slots)
    ensures !AllMet(fields, met) ==> forall other: seq<Slot> :: !MessageAt(input, fields, base, other)
  {
    if AllMet(fields, met) {
      assert Reads(input, fields, base, slots, run);
    } else {
      forall other: seq<Slot> ensures !MessageAt(input, fields, base, other) {
        if MessageAt(input, fields, base, other) {
          var whole := MessageRun(input, fields, base, other);
          WholeIsLongest(input, fields, base, run, whole);
          WholeIsLongest(input, fields, base, whole, run);
        }
      }
    }
  }
}
