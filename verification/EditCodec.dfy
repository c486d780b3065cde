/**
 * The manifest's records: VersionEdit::EncodeTo and DecodeFrom (db/version_edit.cc). Decoding into an edit
 * gives back what was encoded, after any compaction pointers the edit already had, which Clear keeps. Bytes
 * are accepted exactly if they are a run of fields, however written, and mean one run at most.
 */
module EditCodec {
  import opened DbFormat
  import opened Checksums
  import opened Coding

  type Text = seq<Byte>

  datatype NewFile = NewFile(level: nat, number: nat, size: nat, smallest: Text, largest: Text)

  datatype Edit = Edit(
    comparator: Option<Text>,
    logNumber: Option<nat>,
    prevLogNumber: Option<nat>,
    nextFileNumber: Option<nat>,
    lastSequence: Option<nat>,
    compactPointers: seq<(nat, Text)>,
    deleted: set<(nat, nat)>,
    newFiles: seq<NewFile>)

  /** One tagged field of a record. */
  datatype Field =
    | Comparator(name: Text)
    | LogNumber(number: nat)
    | PrevLogNumber(number: nat)
    | NextFileNumber(number: nat)
    | LastSequence(number: nat)
    | CompactPointer(level: nat, key: Text)
    | DeletedFile(level: nat, number: nat)
    | Added(file: NewFile)
  {
    function Tag(): nat {
      match this
      case Comparator(_) => 1
      case LogNumber(_) => 2
      case NextFileNumber(_) => 3
      case LastSequence(_) => 4
      case CompactPointer(_, _) => 5
      case DeletedFile(_, _) => 6
      case Added(_) => 7
      case PrevLogNumber(_) => 9
    }

    function Payload(): seq<Byte> {
      match this
      case Comparator(name) => Prefixed(name)
      case LogNumber(n) => Varint(n)
      case NextFileNumber(n) => Varint(n)
      case LastSequence(n) => Varint(n)
      case CompactPointer(level, key) => Varint(level) + Prefixed(key)
      case DeletedFile(level, n) => Varint(level) + Varint(n)
      case Added(f) =>
        Varint(f.level) + (Varint(f.number) + (Varint(f.size) + (Prefixed(f.smallest) + Prefixed(f.largest))))
      case PrevLogNumber(n) => Varint(n)
    }

    function Encoded(): seq<Byte> {
      Varint(Tag()) + Payload()
    }

    /** Numbers have 64 bits, levels exist, strings have 32-bit lengths. */
    predicate Fits() {
      match this
      case Comparator(name) => |name| < WORDS
      case LogNumber(n) => n < DWORDS
      case NextFileNumber(n) => n < DWORDS
      case LastSequence(n) => n < DWORDS
      case CompactPointer(level, key) => level < NUM_LEVELS && |key| < WORDS
      case DeletedFile(level, n) => level < NUM_LEVELS && n < DWORDS
      case Added(f) =>
        f.level < NUM_LEVELS && f.number < DWORDS && f.size < DWORDS && |f.smallest| < WORDS && |f.largest| < WORDS
      case PrevLogNumber(n) => n < DWORDS
    }
  }

  /** The fields in bytes: the tag, then numbers, and strings with their lengths before them. */
  lemma FieldFormats(a: Byte, b: Byte)
    requires a < 128 && b < 128
    ensures Comparator([a]).Encoded() == [1, 1, a]
    ensures LogNumber(a).Encoded() == [2, a] && NextFileNumber(a).Encoded() == [3, a]
    ensures LastSequence(a).Encoded() == [4, a] && PrevLogNumber(a).Encoded() == [9, a]
    ensures CompactPointer(a, [b]).Encoded() == [5, a, 1, b] && DeletedFile(a, b).Encoded() == [6, a, b]
  {
  }

  lemma NewFileFormat(a: Byte, b: Byte)
    requires a < 128 && b < 128
    ensures Added(NewFile(a, b, 3, [4], [5, 6])).Encoded() == [7, a, b, 3, 1, 4, 2, 5, 6]
  {
    assert Prefixed([4]) == [1, 4] && Prefixed([5, 6]) == [2, 5, 6];
  }

  function Parts(fields: seq<Field>): seq<seq<Byte>> {
    seq(|fields|, i requires 0 <= i < |fields| => fields[i].Encoded())
  }

  /** The bytes of a list of fields. */
  function Bytes(fields: seq<Field>): seq<Byte> {
    Joined(Parts(fields), |fields|)
  }

  function Apply(e: Edit, f: Field): Edit {
    match f
    case Comparator(name) => e.(comparator := Some(name))
    case LogNumber(n) => e.(logNumber := Some(n))
    case NextFileNumber(n) => e.(nextFileNumber := Some(n))
    case LastSequence(n) => e.(lastSequence := Some(n))
    case CompactPointer(level, key) => e.(compactPointers := e.compactPointers + [(level, key)])
    case DeletedFile(level, n) => e.(deleted := e.deleted + {(level, n)})
    case Added(file) => e.(newFiles := e.newFiles + [file])
    case PrevLogNumber(n) => e.(prevLogNumber := Some(n))
  }

  /** The edit that the first `k` fields make of `e`. */
  ghost function ApplyUpTo(e: Edit, fields: seq<Field>, k: nat): Edit
    requires k <= |fields|
  {
    if k == 0 then e else Apply(ApplyUpTo(e, fields, k - 1), fields[k - 1])
  }

  /** VersionEdit::Clear leaves the compaction pointers alone. */
  function Cleared(e: Edit): Edit {
    Edit(None, None, None, None, None, e.compactPointers, {}, [])
  }

  // Encoding

  function OptionFields(e: Edit): seq<Field> {
    (if e.comparator.Some? then [Comparator(e.comparator.value)] else [])
    + (if e.logNumber.Some? then [LogNumber(e.logNumber.value)] else [])
    + (if e.prevLogNumber.Some? then [PrevLogNumber(e.prevLogNumber.value)] else [])
    + (if e.nextFileNumber.Some? then [NextFileNumber(e.nextFileNumber.value)] else [])
    + (if e.lastSequence.Some? then [LastSequence(e.lastSequence.value)] else [])
  }

  function Pointers(ps: seq<(nat, Text)>): seq<Field> {
    seq(|ps|, i requires 0 <= i < |ps| => CompactPointer(ps[i].0, ps[i].1))
  }

  function Deletions(ds: seq<(nat, nat)>): seq<Field> {
    seq(|ds|, i requires 0 <= i < |ds| => DeletedFile(ds[i].0, ds[i].1))
  }

  function Additions(fs: seq<NewFile>): seq<Field> {
    seq(|fs|, i requires 0 <= i < |fs| => Added(fs[i]))
  }

  /** The fields of an edit, in the order they are written; the deleted files come in order `ds`. */
  function Fields(e: Edit, ds: seq<(nat, nat)>): seq<Field> {
    OptionFields(e) + Pointers(e.compactPointers) + Deletions(ds) + Additions(e.newFiles)
  }

  /** One more field. */
  method Put(dst: seq<Byte>, f: Field, ghost fields: seq<Field>) returns (r: seq<Byte>)
    requires dst == Bytes(fields)
    ensures r == Bytes(fields + [f])
  {
    var part := f.Encoded();
    r := dst + part;
    assert Parts(fields + [f]) == Parts(fields) + [part];
    JoinedSame(Parts(fields), Parts(fields) + [part], |fields|);
  }

  method PutOption(dst: seq<Byte>, f: Option<Field>, ghost fields: seq<Field>) returns (r: seq<Byte>)
    requires dst == Bytes(fields)
    ensures r == Bytes(fields + if f.Some? then [f.value] else [])
  {
    r := dst;
    if f.Some? {
      r := Put(dst, f.value, fields);
    } else {
      assert fields + [] == fields;
    }
  }

  /** The order of std::pair. */
  predicate PairLess(a: (nat, nat), b: (nat, nat)) {
    a.0 < b.0 || (a.0 == b.0 && a.1 < b.1)
  }

  ghost predicate Ascending(ds: seq<(nat, nat)>) {
    forall i, j :: 0 <= i < j < |ds| ==> PairLess(ds[i], ds[j])
  }

  /** VersionEdit::EncodeTo; `ds` are the deleted files in the order of the set. */
  method EncodeTo(e: Edit) returns (dst: seq<Byte>, ghost ds: seq<(nat, nat)>)
    ensures Elements(ds) == e.deleted && Ascending(ds)
    ensures dst == Bytes(Fields(e, ds))
  {
    dst := EncodeOptions(e);
    dst := EncodePointers(dst, e.compactPointers, OptionFields(e));
    dst, ds := EncodeDeletions(dst, e.deleted, OptionFields(e) + Pointers(e.compactPointers));
    dst := EncodeAdditions(dst, e.newFiles, OptionFields(e) + Pointers(e.compactPointers) + Deletions(ds));
  }

  method EncodeOptions(e: Edit) returns (dst: seq<Byte>)
    ensures dst == Bytes(OptionFields(e))
  {
    dst := [];
    dst := PutOption(dst, if e.comparator.Some? then Some(Comparator(e.comparator.value)) else None, []);
    ghost var f1 := [] + if e.comparator.Some? then [Comparator(e.comparator.value)] else [];
    dst := PutOption(dst, if e.logNumber.Some? then Some(LogNumber(e.logNumber.value)) else None, f1);
    ghost var f2 := f1 + if e.logNumber.Some? then [LogNumber(e.logNumber.value)] else [];
    dst := PutOption(dst, if e.prevLogNumber.Some? then Some(PrevLogNumber(e.prevLogNumber.value)) else None, f2);
    ghost var f3 := f2 + if e.prevLogNumber.Some? then [PrevLogNumber(e.prevLogNumber.value)] else [];
    dst := PutOption(dst, if e.nextFileNumber.Some? then Some(NextFileNumber(e.nextFileNumber.value)) else None, f3);
    ghost var f4 := f3 + if e.nextFileNumber.Some? then [NextFileNumber(e.nextFileNumber.value)] else [];
    dst := PutOption(dst, if e.lastSequence.Some? then Some(LastSequence(e.lastSequence.value)) else None, f4);
    assert f1 == if e.comparator.Some? then [Comparator(e.comparator.value)] else [];
  }

  lemma PointersStep(head: seq<Field>, ps: seq<(nat, Text)>, i: nat)
    requires i < |ps|
    ensures head + Pointers(ps[..i]) + [CompactPointer(ps[i].0, ps[i].1)] == head + Pointers(ps[..i + 1])
  {
  }

  lemma DeletionsStep(head: seq<Field>, ds: seq<(nat, nat)>, d: (nat, nat))
    ensures head + Deletions(ds) + [DeletedFile(d.0, d.1)] == head + Deletions(ds + [d])
    ensures Elements(ds + [d]) == Elements(ds) + {d}
  {
  }

  lemma AdditionsStep(head: seq<Field>, fs: seq<NewFile>, i: nat)
    requires i < |fs|
    ensures head + Additions(fs[..i]) + [Added(fs[i])] == head + Additions(fs[..i + 1])
  {
  }

  method EncodePointers(start: seq<Byte>, ps: seq<(nat, Text)>, ghost head: seq<Field>) returns (dst: seq<Byte>)
    requires start == Bytes(head)
    ensures dst == Bytes(head + Pointers(ps))
  {
    dst := start;
    assert head + Pointers(ps[..0]) == head;
    for i := 0 to |ps|
      invariant dst == Bytes(head + Pointers(ps[..i]))
    {
      dst := Put(dst, CompactPointer(ps[i].0, ps[i].1), head + Pointers(ps[..i]));
      PointersStep(head, ps, i);
    }
    assert ps[..|ps|] == ps;
  }

  method EncodeDeletions(start: seq<Byte>, deleted: set<(nat, nat)>, ghost head: seq<Field>)
      returns (dst: seq<Byte>, ghost ds: seq<(nat, nat)>)
    requires start == Bytes(head)
    ensures dst == Bytes(head + Deletions(ds))
    ensures Elements(ds) == deleted && Ascending(ds)
  {
    dst := start;
    var rest := deleted;
    ds := [];
    assert head + Deletions(ds) == head;
    while rest != {}
      invariant rest <= deleted && Elements(ds) == deleted - rest && Ascending(ds)
      invariant AllBelow(ds, rest)
      invariant dst == Bytes(head + Deletions(ds))
      decreases rest
    {
      LeastExists(rest);
      var d :| d in rest && IsLeast(d, rest);
      AscendingMore(ds, rest, d);
      dst := Put(dst, DeletedFile(d.0, d.1), head + Deletions(ds));
      DeletionsStep(head, ds, d);
      TakenOne(deleted, rest, Elements(ds), d);
      ds := ds + [d];
      rest := rest - {d};
    }
  }

  predicate IsLeast(d: (nat, nat), s: set<(nat, nat)>) {
    forall x :: x in s ==> d == x || PairLess(d, x)
  }

  ghost predicate AllBelow(ds: seq<(nat, nat)>, s: set<(nat, nat)>) {
    forall d, x :: d in ds && x in s ==> PairLess(d, x)
  }

  lemma {:induction false} LeastExists(s: set<(nat, nat)>)
    requires s != {}
    ensures exists d :: d in s && IsLeast(d, s)
  {
    var y :| y in s;
    if s - {y} != {} {
      LeastExists(s - {y});
      var d :| d in s - {y} && IsLeast(d, s - {y});
      assert forall x :: x in s ==> x == y || x in s - {y};
      var least := if PairLess(y, d) then y else d;
      assert least in s && IsLeast(least, s);
    } else {
      assert s == {y};
      assert IsLeast(y, s);
    }
  }

  lemma TakenOne<T>(all: set<T>, rest: set<T>, taken: set<T>, d: T)
    requires rest <= all && taken == all - rest && d in rest
    ensures taken + {d} == all - (rest - {d})
  {
  }

  /** The least of the rest comes next. */
  lemma AscendingMore(ds: seq<(nat, nat)>, rest: set<(nat, nat)>, d: (nat, nat))
    requires Ascending(ds) && AllBelow(ds, rest) && d in rest && IsLeast(d, rest)
    ensures Ascending(ds + [d]) && AllBelow(ds + [d], rest - {d})
  {
    assert forall i :: 0 <= i < |ds| ==> ds[i] in ds;
  }

  method EncodeAdditions(start: seq<Byte>, fs: seq<NewFile>, ghost head: seq<Field>) returns (dst: seq<Byte>)
    requires start == Bytes(head)
    ensures dst == Bytes(head + Additions(fs))
  {
    dst := start;
    assert head + Additions(fs[..0]) == head;
    for i := 0 to |fs|
      invariant dst == Bytes(head + Additions(fs[..i]))
    {
      dst := Put(dst, Added(fs[i]), head + Additions(fs[..i]));
      AdditionsStep(head, fs, i);
    }
    assert fs[..|fs|] == fs;
  }

  // What bytes mean

  ghost predicate LevelAt(input: seq<Byte>, pos: nat, end: nat, level: nat) {
    Number32At(input, pos, end, level) && level < NUM_LEVELS
  }

  ghost predicate PointerAt(input: seq<Byte>, pos: nat, end: nat, level: nat, key: Text) {
    exists m: nat :: LevelAt(input, pos, m, level) && Delimited(input, m, end, key)
  }

  ghost predicate DeletedAt(input: seq<Byte>, pos: nat, end: nat, level: nat, number: nat) {
    exists m: nat :: LevelAt(input, pos, m, level) && Number64At(input, m, end, number)
  }

  /** Level, number and size of a file. */
  ghost predicate SizedAt(input: seq<Byte>, pos: nat, end: nat, level: nat, number: nat, size: nat) {
    exists m: nat :: DeletedAt(input, pos, m, level, number) && Number64At(input, m, end, size)
  }

  ghost predicate RangeAt(input: seq<Byte>, pos: nat, end: nat, smallest: Text, largest: Text) {
    exists m: nat :: Delimited(input, pos, m, smallest) && Delimited(input, m, end, largest)
  }

  ghost predicate FileAt(input: seq<Byte>, pos: nat, end: nat, f: NewFile) {
    exists m: nat :: SizedAt(input, pos, m, f.level, f.number, f.size) && RangeAt(input, m, end, f.smallest, f.largest)
  }

  /** From `pos` to `end` there is what follows the tag of this field. */
  ghost predicate PayloadAt(input: seq<Byte>, pos: nat, end: nat, f: Field) {
    match f
    case Comparator(name) => Delimited(input, pos, end, name)
    case LogNumber(n) => Number64At(input, pos, end, n)
    case NextFileNumber(n) => Number64At(input, pos, end, n)
    case LastSequence(n) => Number64At(input, pos, end, n)
    case CompactPointer(level, key) => PointerAt(input, pos, end, level, key)
    case DeletedFile(level, n) => DeletedAt(input, pos, end, level, n)
    case Added(file) => FileAt(input, pos, end, file)
    case PrevLogNumber(n) => Number64At(input, pos, end, n)
  }

  ghost predicate FieldAt(input: seq<Byte>, pos: nat, end: nat, f: Field) {
    exists m: nat :: Number32At(input, pos, m, f.Tag()) && PayloadAt(input, m, end, f)
  }

  lemma PointerOnce(input: seq<Byte>, pos: nat, a: nat, l: nat, s: Text, b: nat, m: nat, t: Text)
    requires PointerAt(input, pos, a, l, s) && PointerAt(input, pos, b, m, t)
    ensures a == b && l == m && s == t
  {
    var p, q: nat :| LevelAt(input, pos, p, l) && Delimited(input, p, a, s)
                     && LevelAt(input, pos, q, m) && Delimited(input, q, b, t);
    Number32Once(input, pos, p, l, q, m);
    DelimitedOnce(input, p, a, s, b, t);
  }

  lemma DeletedOnce(input: seq<Byte>, pos: nat, a: nat, l: nat, x: nat, b: nat, m: nat, y: nat)
    requires DeletedAt(input, pos, a, l, x) && DeletedAt(input, pos, b, m, y)
    ensures a == b && l == m && x == y
  {
    var p, q: nat :| LevelAt(input, pos, p, l) && Number64At(input, p, a, x)
                     && LevelAt(input, pos, q, m) && Number64At(input, q, b, y);
    Number32Once(input, pos, p, l, q, m);
    Number64Once(input, p, a, x, b, y);
  }

  lemma SizedOnce(input: seq<Byte>, pos: nat, a: nat, f: NewFile, b: nat, g: NewFile)
    requires SizedAt(input, pos, a, f.level, f.number, f.size) && SizedAt(input, pos, b, g.level, g.number, g.size)
    ensures a == b && f.level == g.level && f.number == g.number && f.size == g.size
  {
    var p, q: nat :| DeletedAt(input, pos, p, f.level, f.number) && Number64At(input, p, a, f.size)
                     && DeletedAt(input, pos, q, g.level, g.number) && Number64At(input, q, b, g.size);
    DeletedOnce(input, pos, p, f.level, f.number, q, g.level, g.number);
    Number64Once(input, p, a, f.size, b, g.size);
  }

  lemma RangeOnce(input: seq<Byte>, pos: nat, a: nat, s: Text, t: Text, b: nat, u: Text, v: Text)
    requires RangeAt(input, pos, a, s, t) && RangeAt(input, pos, b, u, v)
    ensures a == b && s == u && t == v
  {
    var p, q: nat :| Delimited(input, pos, p, s) && Delimited(input, p, a, t)
                     && Delimited(input, pos, q, u) && Delimited(input, q, b, v);
    DelimitedOnce(input, pos, p, s, q, u);
    DelimitedOnce(input, p, a, t, b, v);
  }

  lemma FileOnce(input: seq<Byte>, pos: nat, a: nat, f: NewFile, b: nat, g: NewFile)
    requires FileAt(input, pos, a, f) && FileAt(input, pos, b, g)
    ensures a == b && f == g
  {
    var p: nat :| SizedAt(input, pos, p, f.level, f.number, f.size) && RangeAt(input, p, a, f.smallest, f.largest);
    var q: nat :| SizedAt(input, pos, q, g.level, g.number, g.size) && RangeAt(input, q, b, g.smallest, g.largest);
    SizedOnce(input, pos, p, f, q, g);
    RangeOnce(input, p, a, f.smallest, f.largest, b, g.smallest, g.largest);
  }

  lemma PayloadOnce(input: seq<Byte>, pos: nat, a: nat, f: Field, b: nat, g: Field)
    requires f.Tag() == g.Tag() && PayloadAt(input, pos, a, f) && PayloadAt(input, pos, b, g)
    ensures a == b && f == g
  {
    match f
    case Comparator(name) => DelimitedOnce(input, pos, a, name, b, g.name);
    case CompactPointer(level, key) => PointerOnce(input, pos, a, level, key, b, g.level, g.key);
    case DeletedFile(level, n) => DeletedOnce(input, pos, a, level, n, b, g.level, g.number);
    case Added(file) => FileOnce(input, pos, a, file, b, g.file);
    case _ => Number64Once(input, pos, a, f.number, b, g.number);
  }

  /** Bytes mean one field at most. */
  lemma FieldOnce(input: seq<Byte>, pos: nat, a: nat, f: Field, b: nat, g: Field)
    requires FieldAt(input, pos, a, f) && FieldAt(input, pos, b, g)
    ensures a == b && f == g
  {
    var m: nat :| Number32At(input, pos, m, f.Tag()) && PayloadAt(input, m, a, f);
    var n: nat :| Number32At(input, pos, n, g.Tag()) && PayloadAt(input, n, b, g);
    Number32Once(input, pos, m, f.Tag(), n, g.Tag());
    PayloadOnce(input, m, a, f, b, g);
  }

  /** These fields lie in the input from one of `ends` to the next. */
  ghost predicate FieldsAt(input: seq<Byte>, fields: seq<Field>, ends: seq<nat>) {
    && |ends| == |fields| + 1 && ends[0] == 0
    && forall k :: 0 <= k < |fields| ==> NthAt(input, fields, ends, k)
  }

  ghost predicate NthAt(input: seq<Byte>, fields: seq<Field>, ends: seq<nat>, k: nat)
    requires k < |fields| < |ends|
  {
    FieldAt(input, ends[k], ends[k + 1], fields[k])
  }

  /** The input is these fields, however their numbers are written. */
  ghost predicate IsEdit(input: seq<Byte>, fields: seq<Field>) {
    exists ends :: FieldsAt(input, fields, ends) && ends[|fields|] == |input|
  }

  lemma {:induction false} FieldsOnce(input: seq<Byte>, fields: seq<Field>, ends: seq<nat>, fields2: seq<Field>,
      ends2: seq<nat>, k: nat)
    requires FieldsAt(input, fields, ends) && FieldsAt(input, fields2, ends2) && k <= |fields| && k <= |fields2|
    ensures ends[k] == ends2[k] && fields[..k] == fields2[..k]
  {
    if k > 0 {
      FieldsOnce(input, fields, ends, fields2, ends2, k - 1);
      assert NthAt(input, fields, ends, k - 1) && NthAt(input, fields2, ends2, k - 1);
      FieldOnce(input, ends[k - 1], ends[k], fields[k - 1], ends2[k], fields2[k - 1]);
      assert fields[..k] == fields[..k - 1] + [fields[k - 1]] && fields2[..k] == fields2[..k - 1] + [fields2[k - 1]];
    }
  }

  lemma FieldsMore(input: seq<Byte>, fields: seq<Field>, ends: seq<nat>, f: Field, end: nat)
    requires FieldsAt(input, fields, ends) && FieldAt(input, ends[|fields|], end, f)
    ensures FieldsAt(input, fields + [f], ends + [end])
  {
    forall k | 0 <= k < |fields| + 1 ensures NthAt(input, fields + [f], ends + [end], k) {
      if k < |fields| { assert NthAt(input, fields, ends, k); }
    }
  }

  /** Where there is neither the end nor a field the input is no edit. */
  lemma NoEdit(input: seq<Byte>, fields: seq<Field>, ends: seq<nat>, pos: nat)
    requires FieldsAt(input, fields, ends) && ends[|fields|] == pos && pos < |input|
    requires forall e: nat, f: Field :: !FieldAt(input, pos, e, f)
    ensures forall other: seq<Field> :: !IsEdit(input, other)
  {
    forall other: seq<Field> ensures !IsEdit(input, other) {
      if IsEdit(input, other) { ReachesOn(input, fields, ends, other); }
    }
  }

  /** An edit that begins so goes on. */
  lemma ReachesOn(input: seq<Byte>, fields: seq<Field>, ends: seq<nat>, other: seq<Field>)
    requires FieldsAt(input, fields, ends) && ends[|fields|] < |input| && IsEdit(input, other)
    ensures |fields| < |other| && exists e: nat, f: Field :: FieldAt(input, ends[|fields|], e, f)
  {
    var ends2 :| FieldsAt(input, other, ends2) && ends2[|other|] == |input|;
    if |other| <= |fields| {
      FieldsOnce(input, fields, ends, other, ends2, |other|);
      if |other| < |fields| { BeforeEnd(input, fields, ends, |other|); }
    } else {
      FieldsOnce(input, fields, ends, other, ends2, |fields|);
      assert NthAt(input, other, ends2, |fields|);
    }
  }

  /** A field begins before the end of the input. */
  lemma BeforeEnd(input: seq<Byte>, fields: seq<Field>, ends: seq<nat>, k: nat)
    requires FieldsAt(input, fields, ends) && k < |fields|
    ensures ends[k] < |input|
  {
    assert NthAt(input, fields, ends, k);
  }

  // Decoding one field

  method GetLevel(input: seq<Byte>, pos: nat, ghost level: nat) returns (ok: bool, value: nat, end: nat)
    requires pos <= |input|
    ensures pos <= end <= |input| && (ok ==> value < NUM_LEVELS)
    ensures ok ==> LevelAt(input, pos, end, value)
    ensures !ok ==> forall e: nat, n: nat :: !LevelAt(input, pos, e, n)
    ensures level < NUM_LEVELS && Holds(input, pos, Varint(level)) ==> ok && value == level && end == pos + |Varint(level)|
  {
    ok, value, end := GetVarint32(input, pos, level);
    if ok {
      forall e: nat, n: nat | Number32At(input, pos, e, n) ensures n == value { Number32Once(input, pos, end, value, e, n); }
    }
    ok := ok && value < NUM_LEVELS;
  }

  /** The arms of the switch in DecodeFrom; None is a corruption. */
  method ReadPayload(input: seq<Byte>, pos: nat, tag: nat, ghost f: Field) returns (r: Option<Field>, end: nat)
    requires pos <= |input|
    ensures r.Some? ==> pos <= end <= |input| && r.value.Tag() == tag && PayloadAt(input, pos, end, r.value)
    ensures r.None? ==> forall e: nat, g: Field :: g.Tag() == tag ==> !PayloadAt(input, pos, e, g)
    ensures tag == f.Tag() && f.Fits() && Holds(input, pos, f.Payload()) ==> r == Some(f) && end == pos + |f.Payload()|
  {
    ghost var good := tag == f.Tag() && f.Fits() && Holds(input, pos, f.Payload());
    end := pos;
    if tag == 1 {
      var ok, s, p := GetLengthPrefixedSlice(input, pos, if good then f.name else []);
      if ok { return Some(Comparator(s)), p; }
    } else if tag == 2 || tag == 9 || tag == 3 || tag == 4 {
      var ok, n, p := GetVarint64(input, pos, if good then f.number else 0);
      if ok {
        var field := if tag == 2 then LogNumber(n) else if tag == 9 then PrevLogNumber(n)
                     else if tag == 3 then NextFileNumber(n) else LastSequence(n);
        return Some(field), p;
      }
    } else if tag == 5 {
      r, end := ReadPointer(input, pos, f);
      return;
    } else if tag == 6 {
      r, end := ReadDeleted(input, pos, f);
      return;
    } else if tag == 7 {
      r, end := ReadAdded(input, pos, f);
      return;
    }
    return None, pos;
  }

  method ReadPointer(input: seq<Byte>, pos: nat, ghost f: Field) returns (r: Option<Field>, end: nat)
    requires pos <= |input|
    ensures r.Some? ==> pos <= end <= |input| && r.value.CompactPointer? && PayloadAt(input, pos, end, r.value)
    ensures r.None? ==> forall e: nat, l: nat, t: Text :: !PointerAt(input, pos, e, l, t)
    ensures f.CompactPointer? && f.Fits() && Holds(input, pos, f.Payload()) ==> r == Some(f) && end == pos + |f.Payload()|
  {
    ghost var good := f.CompactPointer? && f.Fits() && Holds(input, pos, f.Payload());
    if good { HoldsParts(input, pos, Varint(f.level), Prefixed(f.key)); }
    var ok, level, p := GetLevel(input, pos, if good then f.level else 0);
    if !ok { return None, pos; }
    LevelFirst(input, pos, p, level);
    var ok2, key, q := GetLengthPrefixedSlice(input, p, if good then f.key else []);
    if !ok2 { return None, pos; }
    return Some(CompactPointer(level, key)), q;
  }

  method ReadDeleted(input: seq<Byte>, pos: nat, ghost f: Field) returns (r: Option<Field>, end: nat)
    requires pos <= |input|
    ensures r.Some? ==> pos <= end <= |input| && r.value.DeletedFile? && PayloadAt(input, pos, end, r.value)
    ensures r.None? ==> forall e: nat, l: nat, n: nat :: !DeletedAt(input, pos, e, l, n)
    ensures f.DeletedFile? && f.Fits() && Holds(input, pos, f.Payload()) ==> r == Some(f) && end == pos + |f.Payload()|
  {
    ghost var good := f.DeletedFile? && f.Fits() && Holds(input, pos, f.Payload());
    if good { HoldsParts(input, pos, Varint(f.level), Varint(f.number)); }
    var ok, level, n, q := ReadNumbered(input, pos, if good then f.level else 0, if good then f.number else 0);
    if !ok { return None, pos; }
    return Some(DeletedFile(level, n)), q;
  }

  method ReadAdded(input: seq<Byte>, pos: nat, ghost f: Field) returns (r: Option<Field>, end: nat)
    requires pos <= |input|
    ensures r.Some? ==> pos <= end <= |input| && r.value.Added? && PayloadAt(input, pos, end, r.value)
    ensures r.None? ==> forall e: nat, g: NewFile :: !FileAt(input, pos, e, g)
    ensures f.Added? && f.Fits() && Holds(input, pos, f.Payload()) ==> r == Some(f) && end == pos + |f.Payload()|
  {
    ghost var good := f.Added? && f.Fits() && Holds(input, pos, f.Payload());
    ghost var file := if good then f.file else NewFile(0, 0, 0, [], []);
    ghost var last := pos;
    if good { last := AddedParts(input, pos, f); }
    var ok, level, number, size, p := ReadNumbers(input, pos, file, last);
    if !ok { return None, pos; }
    SizeFirst(input, pos, p, level, number, size);
    var ok2, smallest, largest, q := ReadRange(input, p, file.smallest, file.largest);
    if !ok2 { return None, pos; }
    return Some(Added(NewFile(level, number, size, smallest, largest))), q;
  }

  /** The level is read first. */
  lemma LevelFirst(input: seq<Byte>, pos: nat, p: nat, level: nat)
    requires LevelAt(input, pos, p, level)
    ensures forall e: nat, l: nat, t: Text :: PointerAt(input, pos, e, l, t) ==> l == level && Delimited(input, p, e, t)
    ensures forall e: nat, l: nat, n: nat :: DeletedAt(input, pos, e, l, n) ==> l == level && Number64At(input, p, e, n)
  {
    forall m: nat, l: nat | LevelAt(input, pos, m, l) ensures m == p && l == level {
      Number32Once(input, pos, p, level, m, l);
    }
  }

  lemma SizeFirst(input: seq<Byte>, pos: nat, p: nat, level: nat, number: nat, size: nat)
    requires SizedAt(input, pos, p, level, number, size)
    ensures forall e: nat, g: NewFile :: FileAt(input, pos, e, g) ==> RangeAt(input, p, e, g.smallest, g.largest)
  {
    forall e: nat, g: NewFile | FileAt(input, pos, e, g) ensures RangeAt(input, p, e, g.smallest, g.largest) {
      var m: nat :| SizedAt(input, pos, m, g.level, g.number, g.size) && RangeAt(input, m, e, g.smallest, g.largest);
      SizedOnce(input, pos, p, NewFile(level, number, size, [], []), m, g);
    }
  }

  /** The numbers of a file, one after the other up to `last`. */
  ghost predicate NumbersAt(input: seq<Byte>, pos: nat, file: NewFile, last: nat) {
    && Holds(input, pos, Varint(file.level)) && Holds(input, pos + |Varint(file.level)|, Varint(file.number))
    && Holds(input, pos + |Varint(file.level)| + |Varint(file.number)|, Varint(file.size))
    && last == pos + |Varint(file.level)| + |Varint(file.number)| + |Varint(file.size)|
  }

  /** Level, number and size. */
  method ReadNumbers(input: seq<Byte>, pos: nat, ghost file: NewFile, ghost last: nat)
      returns (ok: bool, level: nat, number: nat, size: nat, end: nat)
    requires pos <= |input|
    ensures ok ==> pos <= end <= |input| && SizedAt(input, pos, end, level, number, size)
    ensures !ok ==> forall e: nat, l: nat, n: nat, z: nat :: !SizedAt(input, pos, e, l, n, z)
    ensures Added(file).Fits() && NumbersAt(input, pos, file, last) ==>
      ok && level == file.level && number == file.number && size == file.size && end == last
  {
    number, size := 0, 0;
    ok, level, number, end := ReadNumbered(input, pos, file.level, file.number);
    if !ok { return; }
    NumberFirst(input, pos, end, level, number);
    ok, size, end := GetVarint64(input, end, file.size);
  }

  /** Level and number. */
  method ReadNumbered(input: seq<Byte>, pos: nat, ghost l: nat, ghost n: nat)
      returns (ok: bool, level: nat, number: nat, end: nat)
    requires pos <= |input|
    ensures ok ==> pos <= end <= |input| && DeletedAt(input, pos, end, level, number)
    ensures !ok ==> forall e: nat, l: nat, n: nat :: !DeletedAt(input, pos, e, l, n)
    ensures l < NUM_LEVELS && n < DWORDS && Holds(input, pos, Varint(l)) && Holds(input, pos + |Varint(l)|, Varint(n)) ==>
      ok && level == l && number == n && end == pos + |Varint(l)| + |Varint(n)|
  {
    number := 0;
    ok, level, end := GetLevel(input, pos, l);
    if !ok { return; }
    LevelFirst(input, pos, end, level);
    ok, number, end := GetVarint64(input, end, n);
  }

  lemma NumberFirst(input: seq<Byte>, pos: nat, p: nat, level: nat, number: nat)
    requires DeletedAt(input, pos, p, level, number)
    ensures forall e: nat, l: nat, n: nat, z: nat :: SizedAt(input, pos, e, l, n, z) ==> Number64At(input, p, e, z)
  {
    forall m: nat, l: nat, n: nat | DeletedAt(input, pos, m, l, n) ensures m == p {
      DeletedOnce(input, pos, p, level, number, m, l, n);
    }
  }

  /** The smallest and the largest key. */
  method ReadRange(input: seq<Byte>, pos: nat, ghost a: Text, ghost b: Text)
      returns (ok: bool, smallest: Text, largest: Text, end: nat)
    requires pos <= |input|
    ensures ok ==> pos <= end <= |input| && RangeAt(input, pos, end, smallest, largest)
    ensures !ok ==> forall e: nat, s: Text, t: Text :: !RangeAt(input, pos, e, s, t)
    ensures |a| < WORDS && |b| < WORDS && Holds(input, pos, Prefixed(a) + Prefixed(b)) ==>
      ok && smallest == a && largest == b && end == pos + |Prefixed(a) + Prefixed(b)|
  {
    ghost var good := |a| < WORDS && |b| < WORDS && Holds(input, pos, Prefixed(a) + Prefixed(b));
    if good { HoldsParts(input, pos, Prefixed(a), Prefixed(b)); }
    ok, smallest, end := GetLengthPrefixedSlice(input, pos, a);
    largest := [];
    if ok {
      forall m: nat, s: Text | Delimited(input, pos, m, s) ensures m == end {
        DelimitedOnce(input, pos, end, smallest, m, s);
      }
      ok, largest, end := GetLengthPrefixedSlice(input, end, b);
    }
  }

  lemma AddedParts(input: seq<Byte>, pos: nat, f: Field) returns (last: nat)
    requires f.Added? && Holds(input, pos, f.Payload())
    ensures NumbersAt(input, pos, f.file, last) && Holds(input, last, Prefixed(f.file.smallest) + Prefixed(f.file.largest))
    ensures pos + |f.Payload()| == last + |Prefixed(f.file.smallest) + Prefixed(f.file.largest)|
  {
    var a, b, c, d := Varint(f.file.level), Varint(f.file.number), Varint(f.file.size),
                      Prefixed(f.file.smallest) + Prefixed(f.file.largest);
    HoldsParts(input, pos, a, b + (c + d));
    HoldsParts(input, pos + |a|, b, c + d);
    HoldsParts(input, pos + |a| + |b|, c, d);
    last := pos + |a| + |b| + |c|;
  }

  // Decoding an edit

  /** The input is the bytes of these fields, which fit. */
  ghost predicate AreHere(fields: seq<Field>, src: seq<Byte>) {
    (forall f :: f in fields ==> f.Fits()) && src == Bytes(fields)
  }

  /**
   * VersionEdit::DecodeFrom, into an edit that may have been used before; None is a corruption: the bytes are no
   * run of fields, of which `read` are those applied.
   */
  method DecodeFrom(used: Edit, src: seq<Byte>, ghost fields: seq<Field>) returns (r: Option<Edit>, ghost read: seq<Field>)
    ensures r.Some? ==> IsEdit(src, read) && r.value == ApplyUpTo(Cleared(used), read, |read|)
    ensures r.None? ==> forall other: seq<Field> :: !IsEdit(src, other)
    ensures AreHere(fields, src) ==> r == Some(ApplyUpTo(Cleared(used), fields, |fields|))
  {
    ghost var at: seq<nat> := [];
    if AreHere(fields, src) { at := FieldPositions(src, fields); }
    var e, pos, ok;
    e, pos, ok, read := DecodeFields(Cleared(used), src, fields, at);
    r := if ok && pos == |src| then Some(e) else None;
  }

  /** The fields are at these positions. */
  ghost predicate AllPlaced(src: seq<Byte>, fields: seq<Field>, at: seq<nat>) {
    && |at| == |fields| + 1 && at[0] == 0 && at[|fields|] == |src|
    && (forall f :: f in fields ==> f.Fits())
    && forall k {:trigger FieldPlaced(src, fields, at, k)} :: 0 <= k < |fields| ==> FieldPlaced(src, fields, at, k)
  }

  /** The fields read, and what they make of the edit. */
  ghost predicate SoFar(start: Edit, src: seq<Byte>, read: seq<Field>, ends: seq<nat>, pos: nat, e: Edit) {
    FieldsAt(src, read, ends) && ends[|read|] == pos && e == ApplyUpTo(start, read, |read|)
  }

  lemma FurtherOn(start: Edit, src: seq<Byte>, read: seq<Field>, ends: seq<nat>, pos: nat, e: Edit, f: Field, end: nat)
    requires SoFar(start, src, read, ends, pos, e) && FieldAt(src, pos, end, f)
    ensures SoFar(start, src, read + [f], ends + [end], end, Apply(e, f))
  {
    FieldsMore(src, read, ends, f, end);
    ApplySame(start, read, read + [f], |read|);
  }

  /** The loop of DecodeFrom: fields are applied until there is no more tag, or one is corrupted. */
  method DecodeFields(start: Edit, src: seq<Byte>, ghost fields: seq<Field>, ghost at: seq<nat>)
      returns (e: Edit, pos: nat, ok: bool, ghost read: seq<Field>)
    ensures pos <= |src|
    ensures ok && pos == |src| ==> IsEdit(src, read) && e == ApplyUpTo(start, read, |read|)
    ensures !ok || pos < |src| ==> forall other: seq<Field> :: !IsEdit(src, other)
    ensures AllPlaced(src, fields, at) ==> ok && pos == |src| && e == ApplyUpTo(start, fields, |fields|)
  {
    e, pos, ok, read := start, 0, true, [];
    ghost var good, k: nat := AllPlaced(src, fields, at), 0;
    ghost var ends: seq<nat> := [0];
    var more := true;
    while more
      invariant pos <= |src| && k <= |fields| && ok && SoFar(start, src, read, ends, pos, e)
      invariant !more && pos < |src| ==> forall other: seq<Field> :: !IsEdit(src, other)
      invariant good ==> pos == at[k] && e == ApplyUpTo(start, fields, k)
      invariant good && !more ==> k == |fields|
      decreases more, |src| - pos
    {
      if good && k < |fields| { assert FieldPlaced(src, fields, at, k); }
      var found, next, end;
      ghost var f;
      found, next, end, f := DecodeNext(src, pos, e, fields, at, k);
      if (!found || next.None?) && pos < |src| { NoEdit(src, read, ends, pos); }
      more := found;
      if found {
        if next.None? {
          return e, pos, false, read;
        }
        FurtherOn(start, src, read, ends, pos, e, f, end);
        e, pos, read, ends := next.value, end, read + [f], ends + [end];
        if good { k := k + 1; }
      }
    }
  }

  /** A turn of the loop, with what it makes of the edit. */
  method DecodeNext(src: seq<Byte>, pos: nat, e: Edit, ghost fields: seq<Field>, ghost at: seq<nat>, ghost k: nat)
      returns (found: bool, next: Option<Edit>, end: nat, ghost f: Field)
    requires pos <= |src|
    ensures found && next.Some? ==> pos < end <= |src| && FieldAt(src, pos, end, f) && next.value == Apply(e, f)
    ensures !found || next.None? ==> forall e: nat, g: Field :: !FieldAt(src, pos, e, g)
    ensures pos == |src| ==> !found
    ensures FieldPlaced(src, fields, at, k) && fields[k].Fits() && pos == at[k] ==>
      found && next == Some(Apply(e, fields[k])) && end == at[k + 1]
  {
    var field;
    found, field, end := ReadField(src, pos, if k < |fields| then fields[k] else LogNumber(0));
    next := if field.Some? then Some(Apply(e, field.value)) else None;
    f := if field.Some? then field.value else LogNumber(0);
  }

  /** The next field: not `found` when no tag can be read, None for a corruption. */
  method ReadField(src: seq<Byte>, pos: nat, ghost f: Field) returns (found: bool, field: Option<Field>, end: nat)
    requires pos <= |src|
    ensures found && field.Some? ==> pos < end <= |src| && FieldAt(src, pos, end, field.value)
    ensures !found || field.None? ==> forall e: nat, g: Field :: !FieldAt(src, pos, e, g)
    ensures pos == |src| ==> !found
    ensures f.Fits() && FieldHere(src, pos, f) ==> found && field == Some(f) && end == pos + FieldLength(f)
  {
    var ok, tag, p := GetVarint32(src, pos, f.Tag());
    found, field, end := ok, None, pos;
    if ok {
      TagFirst(src, pos, p, tag);
      field, end := ReadPayload(src, p, tag, f);
    }
  }

  /** The tag is read first. */
  lemma TagFirst(src: seq<Byte>, pos: nat, p: nat, tag: nat)
    requires Number32At(src, pos, p, tag)
    ensures forall e: nat, g: Field :: FieldAt(src, pos, e, g) ==> g.Tag() == tag && PayloadAt(src, p, e, g)
  {
    forall m: nat, n: nat | Number32At(src, pos, m, n) ensures m == p && n == tag { Number32Once(src, pos, p, tag, m, n); }
  }

  ghost predicate FieldHere(src: seq<Byte>, pos: nat, f: Field) {
    Holds(src, pos, Varint(f.Tag())) && Holds(src, pos + |Varint(f.Tag())|, f.Payload())
  }

  ghost function FieldLength(f: Field): nat {
    |Varint(f.Tag())| + |f.Payload()|
  }

  /** The k-th part is at its position, and ends at the next. */
  ghost predicate PlacedAt(src: seq<Byte>, parts: seq<seq<Byte>>, at: seq<nat>, k: nat) {
    && k < |parts| && k + 1 < |at|
    && Holds(src, at[k], parts[k]) && at[k + 1] == at[k] + |parts[k]|
  }

  /** The positions of all parts, and the end. */
  lemma Positions(parts: seq<seq<Byte>>) returns (at: seq<nat>)
    ensures |at| == |parts| + 1 && at[0] == 0 && at[|parts|] == |Joined(parts, |parts|)|
    ensures forall k {:trigger PlacedAt(Joined(parts, |parts|), parts, at, k)} :: 0 <= k < |parts| ==>
      PlacedAt(Joined(parts, |parts|), parts, at, k)
  {
    at := seq(|parts| + 1, k requires 0 <= k < |parts| + 1 => |Joined(parts, k)|);
    forall k | 0 <= k < |parts|
      ensures PlacedAt(Joined(parts, |parts|), parts, at, k)
    {
      PartAt(parts, k);
      assert |Joined(parts, k + 1)| == |Joined(parts, k)| + |parts[k]|;
    }
  }

  ghost predicate FieldPlaced(src: seq<Byte>, fields: seq<Field>, at: seq<nat>, k: nat) {
    && k < |fields| && k + 1 < |at|
    && FieldHere(src, at[k], fields[k]) && at[k + 1] == at[k] + FieldLength(fields[k])
  }

  lemma FieldIsHere(src: seq<Byte>, fields: seq<Field>, at: seq<nat>, k: nat)
    requires k < |fields| && PlacedAt(src, Parts(fields), at, k)
    ensures FieldPlaced(src, fields, at, k)
  {
    HoldsParts(src, at[k], Varint(fields[k].Tag()), fields[k].Payload());
  }

  /** Where the fields are in their bytes. */
  lemma FieldPositions(src: seq<Byte>, fields: seq<Field>) returns (at: seq<nat>)
    requires src == Bytes(fields)
    ensures |at| == |fields| + 1 && at[0] == 0 && at[|fields|] == |src|
    ensures forall k {:trigger FieldPlaced(src, fields, at, k)} :: 0 <= k < |fields| ==> FieldPlaced(src, fields, at, k)
  {
    at := Positions(Parts(fields));
    forall k | 0 <= k < |fields|
      ensures FieldPlaced(src, fields, at, k)
    {
      assert PlacedAt(Joined(Parts(fields), |fields|), Parts(fields), at, k);
      FieldIsHere(src, fields, at, k);
    }
  }

  // Decoding inverts encoding

  lemma {:induction false} ApplySplit(e: Edit, a: seq<Field>, b: seq<Field>, k: nat)
    requires k <= |b|
    ensures ApplyUpTo(e, a + b, |a| + k) == ApplyUpTo(ApplyUpTo(e, a, |a|), b, k)
  {
    if k > 0 {
      ApplySplit(e, a, b, k - 1);
    } else {
      ApplySame(e, a, a + b, |a|);
    }
  }

  lemma {:induction false} ApplySame(e: Edit, a: seq<Field>, b: seq<Field>, k: nat)
    requires k <= |a| && a <= b
    ensures ApplyUpTo(e, b, k) == ApplyUpTo(e, a, k)
  {
    if k > 0 {
      ApplySame(e, a, b, k - 1);
    }
  }

  lemma {:induction false} ApplyPointers(e: Edit, ps: seq<(nat, Text)>, k: nat)
    requires k <= |ps|
    ensures ApplyUpTo(e, Pointers(ps), k) == e.(compactPointers := e.compactPointers + ps[..k])
  {
    if k > 0 {
      ApplyPointers(e, ps, k - 1);
      assert ps[..k] == ps[..k - 1] + [ps[k - 1]];
    }
  }

  lemma {:induction false} ApplyDeletions(e: Edit, ds: seq<(nat, nat)>, k: nat)
    requires k <= |ds|
    ensures ApplyUpTo(e, Deletions(ds), k) == e.(deleted := e.deleted + Elements(ds[..k]))
  {
    if k > 0 {
      ApplyDeletions(e, ds, k - 1);
      assert ds[..k] == ds[..k - 1] + [ds[k - 1]];
    }
  }

  lemma {:induction false} ApplyAdditions(e: Edit, fs: seq<NewFile>, k: nat)
    requires k <= |fs|
    ensures ApplyUpTo(e, Additions(fs), k) == e.(newFiles := e.newFiles + fs[..k])
  {
    if k > 0 {
      ApplyAdditions(e, fs, k - 1);
      assert fs[..k] == fs[..k - 1] + [fs[k - 1]];
    }
  }

  /** An optional field more. */
  lemma ApplyOption(e: Edit, a: seq<Field>, f: Option<Field>)
    ensures var b := a + if f.Some? then [f.value] else [];
      ApplyUpTo(e, b, |b|) == if f.Some? then Apply(ApplyUpTo(e, a, |a|), f.value) else ApplyUpTo(e, a, |a|)
  {
    if f.Some? {
      ApplySame(e, a, a + [f.value], |a|);
    } else {
      assert a + [] == a;
    }
  }

  lemma ApplyOptions(e: Edit, used: Edit)
    ensures ApplyUpTo(Cleared(used), OptionFields(e), |OptionFields(e)|) ==
      e.(compactPointers := used.compactPointers, deleted := {}, newFiles := [])
  {
    var c := Cleared(used);
    var f1 := if e.comparator.Some? then [Comparator(e.comparator.value)] else [];
    ApplyOption(c, [], if e.comparator.Some? then Some(Comparator(e.comparator.value)) else None);
    assert [] + f1 == f1;
    ApplyOption(c, f1, if e.logNumber.Some? then Some(LogNumber(e.logNumber.value)) else None);
    var f2 := f1 + if e.logNumber.Some? then [LogNumber(e.logNumber.value)] else [];
    ApplyOption(c, f2, if e.prevLogNumber.Some? then Some(PrevLogNumber(e.prevLogNumber.value)) else None);
    var f3 := f2 + if e.prevLogNumber.Some? then [PrevLogNumber(e.prevLogNumber.value)] else [];
    ApplyOption(c, f3, if e.nextFileNumber.Some? then Some(NextFileNumber(e.nextFileNumber.value)) else None);
    var f4 := f3 + if e.nextFileNumber.Some? then [NextFileNumber(e.nextFileNumber.value)] else [];
    ApplyOption(c, f4, if e.lastSequence.Some? then Some(LastSequence(e.lastSequence.value)) else None);
    var f5 := f4 + if e.lastSequence.Some? then [LastSequence(e.lastSequence.value)] else [];
    assert f5 == OptionFields(e);
  }

  /** One list of fields after the other. */
  lemma {:induction false} ApplyBoth(e: Edit, a: seq<Field>, b: seq<Field>, ea: Edit, eb: Edit)
    requires ApplyUpTo(e, a, |a|) == ea && ApplyUpTo(ea, b, |b|) == eb
    ensures ApplyUpTo(e, a + b, |a + b|) == eb
  {
    ApplySplit(e, a, b, |b|);
  }

  /**
   * What EncodeTo wrote, DecodeFrom reads back: into a fresh edit the same edit, into a used one the same
   * edit with the compaction pointers that were there before in front.
   */
  lemma DecodingInverts(e: Edit, ds: seq<(nat, nat)>, used: Edit)
    requires Elements(ds) == e.deleted
    ensures var fields := Fields(e, ds);
      ApplyUpTo(Cleared(used), fields, |fields|) == e.(compactPointers := used.compactPointers + e.compactPointers)
  {
    var c := Cleared(used);
    var os, ps, dels, adds := OptionFields(e), Pointers(e.compactPointers), Deletions(ds), Additions(e.newFiles);
    var e1 := e.(compactPointers := used.compactPointers, deleted := {}, newFiles := []);
    var e2 := e1.(compactPointers := used.compactPointers + e.compactPointers);
    var e3 := e2.(deleted := e.deleted);
    var e4 := e3.(newFiles := e.newFiles);
    assert ApplyUpTo(c, os, |os|) == e1 by { ApplyOptions(e, used); }
    assert ApplyUpTo(e1, ps, |ps|) == e2 by {
      ApplyPointers(e1, e.compactPointers, |ps|);
      assert e.compactPointers[..|ps|] == e.compactPointers;
    }
    assert ApplyUpTo(e2, dels, |dels|) == e3 by {
      ApplyDeletions(e2, ds, |dels|);
      assert ds[..|dels|] == ds;
    }
    assert ApplyUpTo(e3, adds, |adds|) == e4 by {
      ApplyAdditions(e3, e.newFiles, |adds|);
      assert e.newFiles[..|adds|] == e.newFiles;
    }
    ApplyFour(c, os, ps, dels, adds, e1, e2, e3, e4);
  }

  lemma {:induction false} ApplyFour(e: Edit, a: seq<Field>, b: seq<Field>, c: seq<Field>, d: seq<Field>, ea: Edit,
      eb: Edit, ec: Edit, ed: Edit)
    requires ApplyUpTo(e, a, |a|) == ea && ApplyUpTo(ea, b, |b|) == eb
    requires ApplyUpTo(eb, c, |c|) == ec && ApplyUpTo(ec, d, |d|) == ed
    ensures ApplyUpTo(e, a + b + c + d, |a + b + c + d|) == ed
  {
    ApplyBoth(e, a, b, ea, eb);
    ApplyBoth(e, a + b, c, eb, ec);
    ApplyBoth(e, a + b + c, d, ec, ed);
  }

  /** What EncodeTo can be given: 64-bit numbers, levels that exist, strings of 32-bit lengths. */
  ghost predicate Encodable(e: Edit) {
    && (e.comparator.Some? ==> |e.comparator.value| < WORDS)
    && (e.logNumber.Some? ==> e.logNumber.value < DWORDS)
    && (e.prevLogNumber.Some? ==> e.prevLogNumber.value < DWORDS)
    && (e.nextFileNumber.Some? ==> e.nextFileNumber.value < DWORDS)
    && (e.lastSequence.Some? ==> e.lastSequence.value < DWORDS)
    && (forall p :: p in e.compactPointers ==> p.0 < NUM_LEVELS && |p.1| < WORDS)
    && (forall d :: d in e.deleted ==> d.0 < NUM_LEVELS && d.1 < DWORDS)
    && (forall f :: f in e.newFiles ==> Added(f).Fits())
  }

  lemma AllFit(e: Edit, ds: seq<(nat, nat)>)
    requires Encodable(e) && Elements(ds) == e.deleted
    ensures forall f :: f in Fields(e, ds) ==> f.Fits()
  {
    assert forall f :: f in OptionFields(e) ==> f.Fits();
    DeletionsFit(e, ds);
    forall f | f in Fields(e, ds) ensures f.Fits() {
      assert f in OptionFields(e) || f in Pointers(e.compactPointers) || f in Deletions(ds) || f in Additions(e.newFiles);
    }
  }

  lemma DeletionsFit(e: Edit, ds: seq<(nat, nat)>)
    requires Encodable(e) && Elements(ds) == e.deleted
    ensures forall f :: f in Deletions(ds) ==> f.Fits()
  {
    forall i | 0 <= i < |ds| ensures DeletedFile(ds[i].0, ds[i].1).Fits() {
      assert ds[i] in Elements(ds);
    }
  }

  /** Encoding an edit and decoding the bytes gives it back, after the compaction pointers that were there. */
  method RoundTrip(e: Edit, used: Edit) returns (r: Option<Edit>)
    requires Encodable(e)
    ensures r == Some(e.(compactPointers := used.compactPointers + e.compactPointers))
  {
    var dst, ds := EncodeTo(e);
    AllFit(e, ds);
    DecodingInverts(e, ds, used);
    ghost var read;
    r, read := DecodeFrom(used, dst, Fields(e, ds));
  }
}
