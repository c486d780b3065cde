/** The records of a message: they make up its bytes, and applying them in turn makes the message of its defaults. */
module NanopbRecords {
  import opened DbFormat
  import opened Checksums
  import opened Coding
  import opened NanopbFormat
  import opened NanopbDecode

  // Records

  /** A tag and what follows it: a value or a packed array of the field at `index`, or what no field wants. */
  datatype Rec =
    | Rec(index: nat, values: seq<Value>, packed: bool)
    | Unknown(tag: nat, wireType: nat, number: nat, body: seq<Byte>)

  ghost predicate RecOk(fields: seq<Field>, r: Rec) {
    if r.Rec? then r.index < |fields| && TypedRec(fields[r.index], r)
    else 0 < r.tag < 0x2000_0000 && NoField(fields, r.tag) && BodyOk(r)
  }

  predicate NoField(fields: seq<Field>, tag: nat) {
    forall i :: 0 <= i < |fields| ==> fields[i].tag != tag
  }

  predicate BodyOk(r: Rec)
    requires r.Unknown?
  {
    || r.wireType == WT_VARINT
    || (r.wireType == WT_64BIT && |r.body| == 8)
    || (r.wireType == WT_STRING && |r.body| < WORDS)
    || (r.wireType == WT_32BIT && |r.body| == 4)
  }

  function UnknownBytes(r: Rec): seq<Byte>
    requires r.Unknown?
  {
    if r.wireType == WT_VARINT then Varint(r.number) else if r.wireType == WT_STRING then Prefixed(r.body) else r.body
  }

  /** An array of numbers may come packed, or one value a record. */
  ghost predicate TypedRec(f: Field, r: Rec)
    requires r.Rec?
  {
    && (forall k :: 0 <= k < |r.values| ==> Readable(f.ltype, r.values[k]))
    && (if r.packed then f.htype.Repeated? && Packable(f.ltype) else |r.values| == 1)
    && (r.packed ==> |Packed(f.ltype, Slot(r.values), |r.values|)| < WORDS)
  }

  ghost predicate Readable(t: LType, v: Value) {
    Typed(t, v) && Fits(t, v) && Short(t, v)
  }

  ghost function RecWire(f: Field, r: Rec): nat
    requires r.Rec?
  {
    if r.packed then WT_STRING else WireType(f.ltype)
  }

  ghost function RecPayload(f: Field, r: Rec): seq<Byte>
    requires r.Rec? && TypedRec(f, r)
  {
    if r.packed then Prefixed(Packed(f.ltype, Slot(r.values), |r.values|)) else Encoded(f.ltype, r.values[0])
  }

  /** Wire type and field number of a record. */
  ghost function WireOf(fields: seq<Field>, r: Rec): nat {
    if r.Unknown? then r.wireType else if r.index < |fields| then RecWire(fields[r.index], r) else 0
  }

  ghost function TagOf(fields: seq<Field>, r: Rec): nat {
    if r.Unknown? then r.tag else if r.index < |fields| then fields[r.index].tag else 0
  }

  ghost function RecTag(fields: seq<Field>, r: Rec): seq<Byte> {
    TagBytes(WireOf(fields, r), TagOf(fields, r))
  }

  ghost function RecBody(fields: seq<Field>, r: Rec): seq<Byte>
    requires RecOk(fields, r)
  {
    if r.Rec? then RecPayload(fields[r.index], r) else UnknownBytes(r)
  }

  ghost function RecBytes(fields: seq<Field>, r: Rec): seq<Byte>
    requires RecOk(fields, r)
  {
    RecTag(fields, r) + RecBody(fields, r)
  }

  ghost predicate RecsOk(fields: seq<Field>, recs: seq<Rec>) {
    forall k :: 0 <= k < |recs| ==> RecOk(fields, recs[k])
  }

  ghost function Piece(fields: seq<Field>, r: Rec): seq<Byte> {
    if RecOk(fields, r) then RecBytes(fields, r) else []
  }

  /** The bytes of each record. */
  ghost function Parts(fields: seq<Field>, recs: seq<Rec>): seq<seq<Byte>> {
    Mapped(r => Piece(fields, r), recs)
  }

  ghost function Mapped<A, B>(f: A -> B, s: seq<A>): (m: seq<B>)
    ensures |m| == |s| && forall k :: 0 <= k < |s| ==> m[k] == f(s[k])
  {
    seq(|s|, k requires 0 <= k < |s| => f(s[k]))
  }

  lemma MappedSplit<A, B>(f: A -> B, a: seq<A>, b: seq<A>)
    ensures Mapped(f, a + b) == Mapped(f, a) + Mapped(f, b)
  {
  }

  /** The records of a field. */
  ghost function FieldRecs(f: Field, i: nat, s: Slot): seq<Rec>
    requires TypedSlot(f, s)
  {
    if f.htype.Singular? && IsDefault(f.ltype, s.values[0]) then []
    else if f.htype.Repeated? && Packable(f.ltype) then if s.values == [] then [] else [Rec(i, s.values, true)]
    else seq(|s.values|, k requires 0 <= k < |s.values| => Rec(i, [s.values[k]], false))
  }

  /** The records of each field. */
  ghost function Groups(fields: seq<Field>, slots: seq<Slot>): (groups: seq<seq<Rec>>)
    requires TypedSlots(fields, slots)
    ensures |groups| == |fields| && forall i :: 0 <= i < |fields| ==> groups[i] == FieldRecs(fields[i], i, slots[i])
  {
    seq(|fields|, i requires 0 <= i < |fields| => FieldRecs(fields[i], i, slots[i]))
  }

  /** The first `n` groups, one after the other. */
  ghost function Flat(groups: seq<seq<Rec>>, n: nat): seq<Rec>
    requires n <= |groups|
  {
    if n == 0 then [] else Flat(groups, n - 1) + groups[n - 1]
  }

  /** The records of a message. */
  ghost function Recs(fields: seq<Field>, slots: seq<Slot>): seq<Rec>
    requires TypedSlots(fields, slots)
  {
    Flat(Groups(fields, slots), |fields|)
  }

  // What a record does to the message

  /** Other fields of the union of field `i` are gone. */
  function WithoutUnion(fields: seq<Field>, cur: seq<Slot>, i: nat): seq<Slot>
    requires |cur| == |fields| && i < |fields|
  {
    seq(|cur|, j requires 0 <= j < |cur| => if j != i && SameUnion(fields[i], fields[j]) then Slot([]) else cur[j])
  }

  function Apply(fields: seq<Field>, cur: seq<Slot>, r: Rec): seq<Slot>
    requires |cur| == |fields| && (r.Rec? ==> r.index < |fields|)
  {
    if r.Unknown? then cur
    else
      var i := r.index;
      if fields[i].htype.Repeated? then cur[i := Slot(cur[i].values + r.values)]
      else WithoutUnion(fields, cur, i)[i := Slot(r.values)]
  }

  ghost function ApplyUpTo(fields: seq<Field>, cur: seq<Slot>, recs: seq<Rec>, n: nat): (r: seq<Slot>)
    requires |cur| == |fields| && n <= |recs| && Within(fields, recs)
    ensures |r| == |fields|
  {
    if n == 0 then cur else Apply(fields, ApplyUpTo(fields, cur, recs, n - 1), recs[n - 1])
  }

  ghost predicate Within(fields: seq<Field>, recs: seq<Rec>) {
    forall k :: 0 <= k < |recs| ==> recs[k].Rec? ==> recs[k].index < |fields|
  }

  // Applying the records of a message

  lemma {:induction false} ApplySame(fields: seq<Field>, cur: seq<Slot>, a: seq<Rec>, b: seq<Rec>, n: nat)
    requires |cur| == |fields| && Within(fields, b) && a <= b && n <= |a|
    ensures Within(fields, a) && ApplyUpTo(fields, cur, b, n) == ApplyUpTo(fields, cur, a, n)
  {
    forall k | 0 <= k < |a| ensures a[k].Rec? ==> a[k].index < |fields| { assert a[k] == b[k]; }
    if n > 0 {
      ApplySame(fields, cur, a, b, n - 1);
    }
  }

  lemma WithinBoth(fields: seq<Field>, a: seq<Rec>, b: seq<Rec>)
    requires Within(fields, a) && Within(fields, b)
    ensures Within(fields, a + b)
  {
  }

  lemma {:induction false} ApplyBoth(fields: seq<Field>, cur: seq<Slot>, a: seq<Rec>, b: seq<Rec>, both: seq<Rec>,
                                     k: nat, m: nat, n: nat)
    requires |cur| == |fields| && Within(fields, a) && Within(fields, b) && both == a + b
    requires k == |a| && m <= |b| && n == k + m
    ensures Within(fields, both)
    ensures ApplyUpTo(fields, cur, both, n) == ApplyUpTo(fields, ApplyUpTo(fields, cur, a, k), b, m)
  {
    WithinBoth(fields, a, b);
    if m > 0 {
      ApplyBoth(fields, cur, a, b, both, k, m - 1, n - 1);
      assert both[n - 1] == b[m - 1];
    } else {
      ApplySame(fields, cur, a, both, n);
    }
  }

  /** The message while the records of field `i` come in: `k` of them so far. */
  function Partial(f: Field, s: Slot, k: nat): Slot {
    if k == 0 then FieldDefault(f)
    else if f.htype.Repeated? && !Packable(f.ltype) && k <= |s.values| then Slot(s.values[..k])
    else s
  }

  /** No other field of the union of field `i` is present. */
  ghost predicate Alone(fields: seq<Field>, cur: seq<Slot>, i: nat)
    requires |cur| == |fields| && i < |fields|
  {
    forall j :: 0 <= j < |fields| && j != i && SameUnion(fields[i], fields[j]) ==> cur[j].values == []
  }

  lemma {:induction false} FieldApplies(fields: seq<Field>, cur: seq<Slot>, i: nat, s: Slot, k: nat)
    requires |cur| == |fields| && i < |fields| && TypedSlot(fields[i], s) && cur[i] == FieldDefault(fields[i])
    requires s.values != [] ==> Alone(fields, cur, i)
    requires k <= |FieldRecs(fields[i], i, s)|
    ensures Within(fields, FieldRecs(fields[i], i, s))
    ensures ApplyUpTo(fields, cur, FieldRecs(fields[i], i, s), k) == cur[i := Partial(fields[i], s, k)]
  {
    var recs := FieldRecs(fields[i], i, s);
    if k > 0 {
      FieldApplies(fields, cur, i, s, k - 1);
      OneApplies(fields, cur, i, s, k);
    }
  }

  lemma {:induction false} OneApplies(fields: seq<Field>, cur: seq<Slot>, i: nat, s: Slot, k: nat)
    requires |cur| == |fields| && i < |fields| && TypedSlot(fields[i], s) && cur[i] == FieldDefault(fields[i])
    requires s.values != [] ==> Alone(fields, cur, i)
    requires 0 < k <= |FieldRecs(fields[i], i, s)|
    ensures var recs := FieldRecs(fields[i], i, s);
      && recs[k - 1].Rec? && recs[k - 1].index == i
      && Apply(fields, cur[i := Partial(fields[i], s, k - 1)], recs[k - 1]) == cur[i := Partial(fields[i], s, k)]
  {
    var f := fields[i];
    var r := FieldRecs(f, i, s)[k - 1];
    if f.htype.Repeated? {
      if Packable(f.ltype) {
        assert r == Rec(i, s.values, true);
        Appends(fields, cur, i, Slot([]), r, s);
      } else {
        assert r == Rec(i, [s.values[k - 1]], false);
        PartialMore(f, s, k);
        Appends(fields, cur, i, Partial(f, s, k - 1), r, Partial(f, s, k));
      }
    } else {
      assert k == 1 && r.values == s.values;
      assert cur[i := Partial(f, s, 0)] == cur;
      Sets(fields, cur, i, r, s);
    }
  }

  lemma PartialMore(f: Field, s: Slot, k: nat)
    requires f.htype.Repeated? && !Packable(f.ltype) && 0 < k <= |s.values|
    ensures Partial(f, s, k - 1).values + [s.values[k - 1]] == Partial(f, s, k).values
  {
    assert s.values[..k] == s.values[..k - 1] + [s.values[k - 1]];
  }

  lemma Appends(fields: seq<Field>, cur: seq<Slot>, i: nat, was: Slot, r: Rec, s: Slot)
    requires |cur| == |fields| && i < |fields| && fields[i].htype.Repeated? && r.Rec? && r.index == i
      && was.values + r.values == s.values
    ensures Apply(fields, cur[i := was], r) == cur[i := s]
  {
    assert Slot(s.values) == s;
  }

  lemma Sets(fields: seq<Field>, cur: seq<Slot>, i: nat, r: Rec, s: Slot)
    requires |cur| == |fields| && i < |fields| && !fields[i].htype.Repeated? && r.Rec? && r.index == i && r.values == s.values
    requires Alone(fields, cur, i)
    ensures Apply(fields, cur, r) == cur[i := s]
  {
    forall j | 0 <= j < |fields| && j != i && SameUnion(fields[i], fields[j]) ensures cur[j] == Slot([]) {}
    assert WithoutUnion(fields, cur, i) == cur;
    assert Slot(s.values) == s;
  }

  /** All records of a field give its slot. */
  lemma {:induction false} FieldDone(f: Field, i: nat, s: Slot)
    requires TypedSlot(f, s)
    ensures Partial(f, s, |FieldRecs(f, i, s)|) == s
  {
    if f.htype.Singular? && IsDefault(f.ltype, s.values[0]) { DefaultSlotIs(f, s); }
    assert s.values[..|s.values|] == s.values;
  }

  /** The first `n` fields as they are to be, the others at their defaults. */
  ghost function Half(fields: seq<Field>, slots: seq<Slot>, n: nat): seq<Slot>
    requires |slots| == |fields| && n <= |fields|
  {
    slots[..n] + Defaults(fields, |fields|)[n..]
  }

  lemma HalfIsAlone(fields: seq<Field>, slots: seq<Slot>, i: nat)
    requires |slots| == |fields| && i < |fields| && OneofsOk(fields, slots)
    ensures Half(fields, slots, i)[i] == FieldDefault(fields[i])
    ensures slots[i].values != [] ==> Alone(fields, Half(fields, slots, i), i)
    ensures Half(fields, slots, i + 1) == Half(fields, slots, i)[i := slots[i]]
  {
    DefaultsAt(fields, |fields|, i);
    forall j | 0 <= j < |fields| && j != i && SameUnion(fields[i], fields[j])
      ensures slots[i].values != [] ==> Half(fields, slots, i)[j].values == []
    {
      DefaultsAt(fields, |fields|, j);
    }
  }

  lemma {:induction false} FieldStep(fields: seq<Field>, slots: seq<Slot>, i: nat)
    requires TypedSlots(fields, slots) && i < |fields| && OneofsOk(fields, slots)
    ensures var mine := FieldRecs(fields[i], i, slots[i]);
      && Within(fields, mine)
      && ApplyUpTo(fields, Half(fields, slots, i), mine, |mine|) == Half(fields, slots, i + 1)
  {
    HalfIsAlone(fields, slots, i);
    FieldApplies(fields, Half(fields, slots, i), i, slots[i], |FieldRecs(fields[i], i, slots[i])|);
    FieldDone(fields[i], i, slots[i]);
  }

  /** What a record finds: room in its array; a submessage is read into the default. */
  ghost predicate Finds(f: Field, now: Slot, r: Rec)
    requires r.Rec?
  {
    && (f.htype.Repeated? ==> |now.values| + |r.values| <= f.htype.max)
    && (!f.htype.Repeated? && f.ltype.Submessage? ==> now == FieldDefault(f))
  }

  /** The record comes as this state lets it. */
  ghost predicate FindsIn(fields: seq<Field>, cur: seq<Slot>, r: Rec)
    requires |cur| == |fields|
  {
    r.Rec? ==> r.index < |fields| && Finds(fields[r.index], cur[r.index], r)
  }

  lemma {:induction false} FieldFinds(f: Field, i: nat, s: Slot, k: nat)
    requires TypedSlot(f, s) && FitsSlot(f, s) && k < |FieldRecs(f, i, s)|
    ensures var r := FieldRecs(f, i, s)[k]; r.Rec? && Finds(f, Partial(f, s, k), r) && r.index == i
  {
  }

  lemma {:induction false} StateInField(fields: seq<Field>, slots: seq<Slot>, i: nat, k: nat)
    requires TypedSlots(fields, slots) && i < |fields| && FitsSlots(fields, slots)
    requires k < |FieldRecs(fields[i], i, slots[i])|
    ensures Comes(fields, Half(fields, slots, i), FieldRecs(fields[i], i, slots[i]), k)
  {
    HalfIsAlone(fields, slots, i);
    FieldApplies(fields, Half(fields, slots, i), i, slots[i], k);
    FieldFinds(fields[i], i, slots[i], k);
  }

  /** The record `q` comes in a state that lets it. */
  ghost predicate Comes(fields: seq<Field>, cur: seq<Slot>, recs: seq<Rec>, q: nat)
    requires |cur| == |fields|
  {
    q < |recs| && Within(fields, recs) && FindsIn(fields, ApplyUpTo(fields, cur, recs, q), recs[q])
  }

  lemma {:induction false} ComesLater(fields: seq<Field>, cur: seq<Slot>, mid: seq<Slot>, a: seq<Rec>, b: seq<Rec>,
      both: seq<Rec>,
                   k: nat, m: nat, n: nat)
    requires |cur| == |fields| == |mid| && Within(fields, a) && both == a + b && k == |a| && n == k + m
    requires ApplyUpTo(fields, cur, a, k) == mid && Comes(fields, mid, b, m)
    ensures Comes(fields, cur, both, n)
  {
    ApplyBoth(fields, cur, a, b, both, k, m, n);
    assert both[n] == b[m];
  }

  lemma StillComes(fields: seq<Field>, cur: seq<Slot>, a: seq<Rec>, b: seq<Rec>, q: nat)
    requires |cur| == |fields| && Within(fields, b) && a <= b && Comes(fields, cur, a, q)
    ensures Comes(fields, cur, b, q)
  {
    ApplySame(fields, cur, a, b, q);
  }

  lemma {:induction false} FieldRecsOk(fields: seq<Field>, i: nat, s: Slot)
    requires i < |fields| && TypedSlot(fields[i], s) && FitsSlot(fields[i], s) && ShortSlot(fields[i], s)
    ensures RecsOk(fields, FieldRecs(fields[i], i, s))
  {
    assert Slot(s.values) == s;
  }

  // The bytes of the records

  lemma PartsSplit(fields: seq<Field>, a: seq<Rec>, b: seq<Rec>)
    ensures Parts(fields, a + b) == Parts(fields, a) + Parts(fields, b)
  {
    MappedSplit((r: Rec) => Piece(fields, r), a, b);
  }

  lemma {:induction false} TaggedBytes(f: Field, s: Slot, parts: seq<seq<Byte>>, n: nat)
    requires TypedSlot(f, s) && n <= |parts| <= |s.values|
    requires forall k :: 0 <= k < |parts| ==> parts[k] == TagBytes(WireType(f.ltype), f.tag) + Encoded(f.ltype, s.values[k])
    ensures Joined(parts, n) == Tagged(f, s, n)
  {
    if n > 0 {
      TaggedBytes(f, s, parts, n - 1);
    }
  }

  lemma {:induction false} OneBytes(fields: seq<Field>, i: nat, v: Value)
    requires i < |fields| && Typed(fields[i].ltype, v) && RecOk(fields, Rec(i, [v], false))
    ensures RecBytes(fields, Rec(i, [v], false))
      == TagBytes(WireType(fields[i].ltype), fields[i].tag) + Encoded(fields[i].ltype, v)
  {
  }

  lemma {:induction false} PackedBytes(fields: seq<Field>, i: nat, s: Slot)
    requires i < |fields| && TypedSlot(fields[i], s) && RecsOk(fields, [Rec(i, s.values, true)])
    requires fields[i].htype.Repeated? && Packable(fields[i].ltype) && s.values != []
    ensures Joined(Parts(fields, [Rec(i, s.values, true)]), 1) == EncodedField(fields[i], s)
  {
    var rec := Rec(i, s.values, true);
    assert [rec][0] == rec;
    var parts := Parts(fields, [rec]);
    assert parts[0] == EncodedField(fields[i], s) by { PackedRecBytes(fields, i, s); }
    assert Joined(parts, 1) == Joined(parts, 0) + parts[0];
  }

  lemma {:induction false} PackedRecBytes(fields: seq<Field>, i: nat, s: Slot)
    requires i < |fields| && TypedSlot(fields[i], s) && RecOk(fields, Rec(i, s.values, true))
    requires fields[i].htype.Repeated? && Packable(fields[i].ltype) && s.values != []
    ensures RecBytes(fields, Rec(i, s.values, true)) == EncodedField(fields[i], s)
  {
    assert Slot(s.values) == s;
  }

  lemma {:induction false} ApartBytes(fields: seq<Field>, i: nat, s: Slot, recs: seq<Rec>)
    requires i < |fields| && TypedSlot(fields[i], s) && RecsOk(fields, recs) && |recs| == |s.values|
    requires forall k :: 0 <= k < |recs| ==> recs[k] == Rec(i, [s.values[k]], false)
    ensures Joined(Parts(fields, recs), |recs|) == Tagged(fields[i], s, |recs|)
  {
    var f, parts := fields[i], Parts(fields, recs);
    forall k | 0 <= k < |parts|
      ensures parts[k] == TagBytes(WireType(f.ltype), f.tag) + Encoded(f.ltype, s.values[k])
    {
      OneBytes(fields, i, s.values[k]);
    }
    TaggedBytes(f, s, parts, |parts|);
  }

  lemma {:induction false} FieldBytes(fields: seq<Field>, i: nat, s: Slot)
    requires i < |fields| && TypedSlot(fields[i], s) && RecsOk(fields, FieldRecs(fields[i], i, s))
    ensures Joined(Parts(fields, FieldRecs(fields[i], i, s)), |FieldRecs(fields[i], i, s)|) == EncodedField(fields[i], s)
  {
    var f, recs := fields[i], FieldRecs(fields[i], i, s);
    if f.htype.Repeated? && Packable(f.ltype) {
      if s.values != [] { PackedBytes(fields, i, s); }
    } else if recs != [] {
      ApartBytes(fields, i, s, recs);
    }
  }

  lemma {:induction false} BytesOfBoth(fields: seq<Field>, a: seq<Rec>, b: seq<Rec>, both: seq<Rec>)
    requires both == a + b
    ensures Joined(Parts(fields, both), |both|) == Joined(Parts(fields, a), |a|) + Joined(Parts(fields, b), |b|)
  {
    PartsSplit(fields, a, b);
    JoinedBoth(Parts(fields, a), Parts(fields, b), Parts(fields, both), |a|, |b|, |both|);
  }

  // Groups of records

  /** The records of group `i` lead from one state to the next, and each comes as it may. */
  ghost predicate Chains(fields: seq<Field>, states: seq<seq<Slot>>, groups: seq<seq<Rec>>, i: int) {
    && 0 <= i < |groups| && i + 1 < |states| && |states[i]| == |fields| && Within(fields, groups[i])
    && ApplyUpTo(fields, states[i], groups[i], |groups[i]|) == states[i + 1]
    && forall k: nat {:trigger Comes(fields, states[i], groups[i], k)} :: k < |groups[i]| ==>
         Comes(fields, states[i], groups[i], k)
  }

  ghost predicate AllChain(fields: seq<Field>, states: seq<seq<Slot>>, groups: seq<seq<Rec>>) {
    && |states| == |groups| + 1 && |states[0]| == |fields|
    && forall i {:trigger Chains(fields, states, groups, i)} :: 0 <= i < |groups| ==> Chains(fields, states, groups, i)
  }

  lemma {:induction false} FlatApplies(fields: seq<Field>, states: seq<seq<Slot>>, groups: seq<seq<Rec>>, n: nat, flat: seq<Rec>)
    requires AllChain(fields, states, groups) && n <= |groups| && flat == Flat(groups, n)
    ensures Within(fields, flat) && ApplyUpTo(fields, states[0], flat, |flat|) == states[n]
  {
    if n > 0 {
      var before := Flat(groups, n - 1);
      FlatApplies(fields, states, groups, n - 1, before);
      assert Chains(fields, states, groups, n - 1);
      ApplyBoth(fields, states[0], before, groups[n - 1], flat, |before|, |groups[n - 1]|, |flat|);
    }
  }

  lemma {:induction false} FlatComes(fields: seq<Field>, states: seq<seq<Slot>>, groups: seq<seq<Rec>>, n: nat,
                                     flat: seq<Rec>, q: nat)
    requires AllChain(fields, states, groups) && n <= |groups| && flat == Flat(groups, n) && q < |flat|
    ensures Comes(fields, states[0], flat, q)
  {
    var before, mine := Flat(groups, n - 1), groups[n - 1];
    FlatApplies(fields, states, groups, n, flat);
    FlatApplies(fields, states, groups, n - 1, before);
    if q < |before| {
      FlatComes(fields, states, groups, n - 1, before, q);
      StillComes(fields, states[0], before, flat, q);
    } else {
      assert Chains(fields, states, groups, n - 1);
      ComesLater(fields, states[0], states[n - 1], before, mine, flat, |before|, q - |before|, q);
    }
  }

  lemma {:induction false} FlatOk(fields: seq<Field>, groups: seq<seq<Rec>>, n: nat)
    requires n <= |groups| && forall i :: 0 <= i < n ==> RecsOk(fields, groups[i])
    ensures RecsOk(fields, Flat(groups, n))
  {
    if n > 0 {
      FlatOk(fields, groups, n - 1);
    }
  }

  // The records of a message

  lemma {:induction false} FieldChains(fields: seq<Field>, slots: seq<Slot>, states: seq<seq<Slot>>,
      groups: seq<seq<Rec>>, i: nat)
    requires TypedSlots(fields, slots) && FitsSlots(fields, slots) && i < |fields|
    requires |states| == |fields| + 1 && states[i] == Half(fields, slots, i) && states[i + 1] == Half(fields, slots, i + 1)
    requires groups == Groups(fields, slots)
    ensures Chains(fields, states, groups, i)
  {
    FieldStep(fields, slots, i);
    forall k: nat | k < |groups[i]| ensures Comes(fields, states[i], groups[i], k) {
      StateInField(fields, slots, i, k);
    }
  }

  /** From the defaults to the message, field by field. */
  lemma MessageChains(fields: seq<Field>, slots: seq<Slot>) returns (states: seq<seq<Slot>>)
    requires TypedSlots(fields, slots) && FitsSlots(fields, slots)
    ensures AllChain(fields, states, Groups(fields, slots))
    ensures states[0] == Defaults(fields, |fields|) && states[|fields|] == slots
  {
    states := seq(|fields| + 1, i requires 0 <= i <= |fields| => Half(fields, slots, i));
    forall i | 0 <= i < |fields| ensures Chains(fields, states, Groups(fields, slots), i) {
      FieldChains(fields, slots, states, Groups(fields, slots), i);
    }
  }

  /** The records of a message, applied to the defaults, make the message. */
  lemma {:induction false} RecsApply(fields: seq<Field>, slots: seq<Slot>, recs: seq<Rec>)
    requires TypedSlots(fields, slots) && FitsSlots(fields, slots) && recs == Recs(fields, slots)
    ensures Within(fields, recs) && ApplyUpTo(fields, Defaults(fields, |fields|), recs, |recs|) == slots
  {
    var states := MessageChains(fields, slots);
    FlatApplies(fields, states, Groups(fields, slots), |fields|, recs);
  }

  /** Each record finds its field at its default, or room in its array. */
  lemma {:induction false} StateBefore(fields: seq<Field>, slots: seq<Slot>, recs: seq<Rec>, q: nat)
    requires TypedSlots(fields, slots) && FitsSlots(fields, slots) && recs == Recs(fields, slots) && q < |recs|
    ensures Comes(fields, Defaults(fields, |fields|), recs, q)
  {
    var states := MessageChains(fields, slots);
    FlatComes(fields, states, Groups(fields, slots), |fields|, recs, q);
  }

  ghost function BytesUpTo(fields: seq<Field>, groups: seq<seq<Rec>>, n: nat): seq<Byte>
    requires n <= |groups|
  {
    Joined(Parts(fields, Flat(groups, n)), |Flat(groups, n)|)
  }

  lemma {:induction false} OneMoreGroup(fields: seq<Field>, slots: seq<Slot>, groups: seq<seq<Rec>>, i: nat)
    requires TypedSlots(fields, slots) && FitsSlots(fields, slots) && ShortSlots(fields, slots)
    requires groups == Groups(fields, slots) && i < |fields|
    ensures RecsOk(fields, groups[i])
    ensures BytesUpTo(fields, groups, i + 1) == BytesUpTo(fields, groups, i) + EncodedField(fields[i], slots[i])
  {
    var mine := groups[i];
    assert RecsOk(fields, mine) && Joined(Parts(fields, mine), |mine|) == EncodedField(fields[i], slots[i]) by {
      FieldRecsOk(fields, i, slots[i]);
      FieldBytes(fields, i, slots[i]);
    }
    BytesOfBoth(fields, Flat(groups, i), mine, Flat(groups, i + 1));
  }

  lemma {:induction false} GroupsAreEncoded(fields: seq<Field>, slots: seq<Slot>, groups: seq<seq<Rec>>, n: nat)
    requires TypedSlots(fields, slots) && FitsSlots(fields, slots) && ShortSlots(fields, slots)
    requires groups == Groups(fields, slots) && n <= |fields|
    ensures BytesUpTo(fields, groups, n) == EncodedUpTo(fields, slots, n)
  {
    if n == 0 {
      assert BytesUpTo(fields, groups, 0) == [];
    } else {
      var i := n - 1;
      var x, y := EncodedUpTo(fields, slots, i), EncodedField(fields[i], slots[i]);
      assert EncodedUpTo(fields, slots, n) == x + y;
      assert BytesUpTo(fields, groups, i) == x by { GroupsAreEncoded(fields, slots, groups, i); }
      assert BytesUpTo(fields, groups, n) == BytesUpTo(fields, groups, i) + y by { OneMoreGroup(fields, slots, groups, i); }
    }
  }

  /** A message is encoded as its records, one after the other. */
  lemma {:induction false} EncodedIsRecords(fields: seq<Field>, slots: seq<Slot>, recs: seq<Rec>)
    requires TypedSlots(fields, slots) && FitsSlots(fields, slots) && ShortSlots(fields, slots)
    requires recs == Recs(fields, slots)
    ensures RecsOk(fields, recs) && Joined(Parts(fields, recs), |recs|) == EncodedMessage(fields, slots)
  {
    var groups := Groups(fields, slots);
    GroupsAreEncoded(fields, slots, groups, |fields|);
    forall i | 0 <= i < |fields| ensures RecsOk(fields, groups[i]) { OneMoreGroup(fields, slots, groups, i); }
    FlatOk(fields, groups, |fields|);
  }
}
