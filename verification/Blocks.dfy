/**
 * Blocks of a table (table/block_builder.cc, table/block.cc): keys share prefixes with the key before,
 * except at restart points. Whatever a builder was given, an iterator over the finished block is a cursor
 * over just that.
 */
module Blocks {
  import opened DbFormat
  import opened Checksums
  import opened Coding

  type Key = seq<Byte>
  datatype Pair = Pair(key: Key, value: seq<Byte>)

  /** Lengths and shared prefix, the rest of the key, the value. */
  function EntryBytes(shared: nat, p: Pair): seq<Byte>
    requires shared <= |p.key|
  {
    Varint(shared) + (Varint(|p.key| - shared) + (Varint(|p.value|) + (p.key[shared..] + p.value)))
  }

  /** What a block holds: the pairs, the prefix each shares with the one before, where they start, the restart points. */
  datatype Layout = Layout(es: seq<Pair>, shared: seq<nat>, starts: seq<nat>, rs: seq<nat>)

  /** The i-th entry is where the layout says. */
  ghost predicate EntryOk(contents: seq<Byte>, x: Layout, i: nat) {
    && i < |x.es| && i < |x.shared| && i + 1 < |x.starts|
    && x.shared[i] <= |x.es[i].key|
    && (if i == 0 then x.shared[i] == 0
        else x.shared[i] <= |x.es[i - 1].key| && x.es[i - 1].key[..x.shared[i]] == x.es[i].key[..x.shared[i]])
    && Holds(contents, x.starts[i], EntryBytes(x.shared[i], x.es[i]))
    && x.starts[i + 1] == x.starts[i] + |EntryBytes(x.shared[i], x.es[i])|
  }

  ghost predicate RestartOk(x: Layout, k: nat) {
    && k < |x.rs| && (k > 0 ==> x.rs[k - 1] < x.rs[k] < |x.es|)
    && (x.rs[k] < |x.es| && x.rs[k] < |x.shared| ==> x.shared[x.rs[k]] == 0)
  }

  ghost predicate LayoutOk(contents: seq<Byte>, x: Layout) {
    && |x.shared| == |x.es| && |x.starts| == |x.es| + 1 && x.starts[0] == 0 && x.starts[|x.es|] == |contents|
    && (forall i {:trigger EntryOk(contents, x, i)} :: 0 <= i < |x.es| ==> EntryOk(contents, x, i))
    && x.rs != [] && x.rs[0] == 0
    && (forall k {:trigger RestartOk(x, k)} :: 0 <= k < |x.rs| ==> RestartOk(x, k))
  }

  function FixedParts(ns: seq<nat>): seq<seq<Byte>>
    requires forall i :: 0 <= i < |ns| ==> ns[i] < WORDS
  {
    seq(|ns|, i requires 0 <= i < |ns| => EncodeFixed32(ns[i]))
  }

  /** PutFixed32 of each number. */
  function Fixed32s(ns: seq<nat>): seq<Byte>
    requires forall i :: 0 <= i < |ns| ==> ns[i] < WORDS
  {
    Joined(FixedParts(ns), |ns|)
  }

  lemma {:induction false} FourEach(parts: seq<seq<Byte>>, k: nat)
    requires k <= |parts| && forall i :: 0 <= i < |parts| ==> |parts[i]| == 4
    ensures |Joined(parts, k)| == 4 * k
  {
    if k > 0 {
      FourEach(parts, k - 1);
    }
  }

  lemma FixedAt(ns: seq<nat>, k: nat)
    requires (forall i :: 0 <= i < |ns| ==> ns[i] < WORDS) && k < |ns|
    ensures |Fixed32s(ns)| == 4 * |ns| && Fixed32s(ns)[4 * k..4 * k + 4] == EncodeFixed32(ns[k])
  {
    var parts := FixedParts(ns);
    FourEach(parts, |ns|);
    FourEach(parts, k);
    PartAt(parts, k);
    assert Fixed32s(ns)[4 * k..][..4] == Fixed32s(ns)[4 * k..4 * k + 4];
  }

  // The builder

  /** Restart points come every `interval` entries. */
  ghost predicate Spaced(rs: seq<nat>, interval: nat) {
    rs != [] && rs[0] == 0 && forall k :: 0 < k < |rs| ==> rs[k] == rs[k - 1] + interval
  }

  /** The builder's counter: entries since the last restart point. */
  ghost predicate Regular(x: Layout, interval: nat, counter: nat) {
    Spaced(x.rs, interval) && x.rs[|x.rs| - 1] + counter == |x.es| && counter <= interval
  }

  lemma RegularMore(x: Layout, interval: nat, counter: nat, p: Pair, shared: nat, end: nat)
    requires Regular(x, interval, counter) && interval >= 1
    ensures var restart := counter >= interval;
      Regular(Extended(x, p, shared, restart, end), interval, if restart then 1 else counter + 1)
  {
  }

  /** The length of the longest common prefix. */
  ghost predicate IsShared(a: Key, b: Key, n: nat) {
    n <= |a| && n <= |b| && a[..n] == b[..n] && (n < |a| && n < |b| ==> a[n] != b[n])
  }

  lemma SharedAndRest(a: Key, b: Key, n: nat)
    requires n <= |a| && n <= |b| && a[..n] == b[..n]
    ensures a[..n] + b[n..] == b
  {
  }

  class BlockBuilder {
    const interval: nat
    var buffer: seq<Byte>
    var restarts: seq<nat>
    var counter: nat
    var lastKey: Key
    ghost var x: Layout

    constructor (interval: nat)
      requires interval >= 1
      ensures Valid() && x.es == [] && this.interval == interval
    {
      this.interval := interval;
      buffer, restarts, counter, lastKey := [], [0], 0, [];
      x := Layout([], [], [0], [0]);
    }

    ghost predicate Valid()
      reads this
    {
      BuilderOk(buffer, restarts, counter, lastKey, x, interval)
    }

    /** How many bytes of `key` need not be stored again. */
    method SharedPrefix(key: Key) returns (shared: nat)
      ensures IsShared(lastKey, key, shared)
    {
      var minLength := if |lastKey| < |key| then |lastKey| else |key|;
      shared := 0;
      while shared < minLength && lastKey[shared] == key[shared]
        invariant shared <= minLength && lastKey[..shared] == key[..shared]
      {
        shared := shared + 1;
      }
    }

    method Add(key: Key, value: seq<Byte>)
      requires Valid()
      modifies this
      ensures Valid() && x.es == old(x.es) + [Pair(key, value)]
      ensures |x.shared| > 0 && IsShared(if old(counter) >= interval then [] else old(lastKey), key, x.shared[|x.shared| - 1])
    {
      var shared, starts, since := 0, restarts, counter;
      if since < interval {
        shared := SharedPrefix(key);
      } else {
        starts, since := starts + [|buffer|], 0;
      }
      var p := Pair(key, value);
      var entry, last := EntryBytes(shared, p), lastKey[..shared] + key[shared..];
      ghost var x2 := Extended(x, p, shared, counter >= interval, |buffer| + |entry|);
      BuiltOn(buffer, restarts, counter, lastKey, x, interval, p, shared, buffer + entry, starts, since + 1, last, x2);
      buffer, restarts, counter, lastKey, x := buffer + entry, starts, since + 1, last, x2;
    }

    /** Finish; offsets have to fit in 32 bits. */
    method Finish() returns (data: seq<Byte>)
      requires Valid() && |buffer| < WORDS && |restarts| < WORDS
      ensures IsBlock(data, buffer, restarts) && LayoutOk(buffer, x) && OffsetsOk(restarts, x) && Spaced(x.rs, interval)
    {
      forall k | 0 <= k < |restarts| ensures restarts[k] < WORDS { StartsInside(buffer, x, x.rs[k]); }
      data := buffer + Fixed32s(restarts) + EncodeFixed32(|restarts|);
    }
  }

  /** What has been built: the entries and restart points that `x` says, and what is remembered of the last one. */
  ghost predicate BuilderOk(buffer: seq<Byte>, restarts: seq<nat>, counter: nat, lastKey: Key, x: Layout, interval: nat) {
    && LayoutOk(buffer, x) && interval >= 1
    && (x.es == [] ==> x.rs == [0] && counter == 0)
    && OffsetsOk(restarts, x)
    && lastKey == (if x.es == [] then [] else x.es[|x.es| - 1].key)
    && Regular(x, interval, counter)
  }

  /** One more pair, with a new restart point if it is time for one. */
  lemma BuiltOn(buffer: seq<Byte>, restarts: seq<nat>, counter: nat, lastKey: Key, x: Layout, interval: nat, p: Pair, shared: nat,
                buffer2: seq<Byte>, restarts2: seq<nat>, counter2: nat, last: Key, x2: Layout)
    requires BuilderOk(buffer, restarts, counter, lastKey, x, interval)
    requires shared <= |p.key| && shared <= |lastKey| && lastKey[..shared] == p.key[..shared]
    requires counter >= interval ==> shared == 0
    requires buffer2 == buffer + EntryBytes(shared, p) && last == lastKey[..shared] + p.key[shared..]
    requires restarts2 == (if counter >= interval then restarts + [|buffer|] else restarts)
    requires counter2 == (if counter >= interval then 1 else counter + 1)
    requires x2 == Extended(x, p, shared, counter >= interval, |buffer2|)
    ensures BuilderOk(buffer2, restarts2, counter2, last, x2, interval)
  {
    var restart := counter >= interval;
    SharedAndRest(lastKey, p.key, shared);
    Added(buffer, x, buffer2, x2, p, shared, restart);
    OffsetsMore(restarts, x, p, shared, restart, |buffer|, |buffer2|);
    RegularMore(x, interval, counter, p, shared, |buffer2|);
  }

  /** The contents, the restart array and its length. */
  ghost predicate IsBlock(data: seq<Byte>, contents: seq<Byte>, restarts: seq<nat>) {
    && (forall k :: 0 <= k < |restarts| ==> restarts[k] < WORDS) && |restarts| < WORDS
    && data == contents + Fixed32s(restarts) + EncodeFixed32(|restarts|)
  }

  lemma {:induction false} StartsGrow(contents: seq<Byte>, x: Layout, i: nat, j: nat)
    requires LayoutOk(contents, x) && i <= j <= |x.es|
    ensures x.starts[i] + (j - i) <= x.starts[j]
  {
    if i < j {
      StartsGrow(contents, x, i, j - 1);
      assert EntryOk(contents, x, j - 1);
    }
  }

  lemma StartsInside(contents: seq<Byte>, x: Layout, i: nat)
    requires LayoutOk(contents, x) && i <= |x.es|
    ensures x.starts[i] <= |contents| && (i < |x.es| ==> x.starts[i] < |contents|)
  {
    StartsGrow(contents, x, i, |x.es|);
  }

  /** The layout with one more pair. */
  ghost function Extended(x: Layout, p: Pair, shared: nat, restart: bool, end: nat): Layout {
    Layout(x.es + [p], x.shared + [shared], x.starts + [end], if restart then x.rs + [|x.es|] else x.rs)
  }

  /** The offsets of the restart points. */
  ghost predicate OffsetsOk(restarts: seq<nat>, x: Layout) {
    && |restarts| == |x.rs|
    && forall k :: 0 <= k < |restarts| ==> x.rs[k] < |x.starts| && restarts[k] == x.starts[x.rs[k]]
  }

  lemma OffsetsMore(restarts: seq<nat>, x: Layout, p: Pair, shared: nat, restart: bool, size: nat, end: nat)
    requires OffsetsOk(restarts, x) && |x.starts| == |x.es| + 1 && x.starts[|x.es|] == size
    ensures OffsetsOk(if restart then restarts + [size] else restarts, Extended(x, p, shared, restart, end))
  {
  }

  lemma Added(contents: seq<Byte>, x: Layout, contents2: seq<Byte>, x2: Layout, p: Pair, shared: nat, restart: bool)
    requires LayoutOk(contents, x) && shared <= |p.key| && contents2 == contents + EntryBytes(shared, p)
    requires x2 == Extended(x, p, shared, restart, |contents2|)
    requires restart ==> shared == 0 && x.es != []
    requires x.es == [] ==> shared == 0 && x.rs == [0]
    requires x.es != [] ==> shared <= |x.es[|x.es| - 1].key| && x.es[|x.es| - 1].key[..shared] == p.key[..shared]
    ensures LayoutOk(contents2, x2)
  {
    var n := |x.es|;
    forall i | 0 <= i < n + 1
      ensures EntryOk(contents2, x2, i)
    {
      if i < n {
        assert EntryOk(contents, x, i);
        HoldsMore(contents, contents2, x.starts[i], EntryBytes(x.shared[i], x.es[i]));
      } else {
        PrefixHolds(contents2, contents, EntryBytes(shared, p));
      }
    }
    forall k | 0 <= k < |x2.rs|
      ensures RestartOk(x2, k)
    {
      if k < |x.rs| { assert RestartOk(x, k); }
      if k > 0 && k == |x.rs| { assert RestartOk(x, k - 1); }
    }
  }

  // Reading

  /** The parts of the block that an iterator needs: Block's constructor. */
  method Open(data: seq<Byte>) returns (ok: bool, restartOffset: nat, numRestarts: nat)
    ensures ok <==> |data| >= 4 && 4 * DecodeFixed32(data[|data| - 4..]) + 4 <= |data|
    ensures ok ==> numRestarts == DecodeFixed32(data[|data| - 4..]) && restartOffset + 4 * numRestarts + 4 == |data|
    ensures forall contents, restarts :: IsBlock(data, contents, restarts) ==>
      ok && restartOffset == |contents| && numRestarts == |restarts|
  {
    ok, restartOffset, numRestarts := false, 0, 0;
    if |data| >= 4 {
      numRestarts := DecodeFixed32(data[|data| - 4..]);
      if numRestarts <= (|data| - 4) / 4 {
        ok, restartOffset := true, |data| - (1 + numRestarts) * 4;
      }
    }
    forall contents, restarts | IsBlock(data, contents, restarts)
      ensures ok && restartOffset == |contents| && numRestarts == |restarts|
    {
      BlockEnds(data, contents, restarts);
    }
  }

  lemma BlockEnds(data: seq<Byte>, contents: seq<Byte>, restarts: seq<nat>)
    requires IsBlock(data, contents, restarts)
    ensures |data| == |contents| + 4 * |restarts| + 4
    ensures DecodeFixed32(data[|data| - 4..]) == |restarts|
  {
    FourEach(FixedParts(restarts), |restarts|);
    DecodeEncode(|restarts|);
    assert data[|data| - 4..] == EncodeFixed32(|restarts|);
  }

  lemma RestartPointAt(data: seq<Byte>, contents: seq<Byte>, restarts: seq<nat>, k: nat)
    requires IsBlock(data, contents, restarts) && k < |restarts|
    ensures |contents| + 4 * k + 4 <= |data|
    ensures DecodeFixed32(data[|contents| + 4 * k..|contents| + 4 * k + 4]) == restarts[k]
  {
    BlockEnds(data, contents, restarts);
    FixedAt(restarts, k);
    DecodeEncode(restarts[k]);
    var a := contents + Fixed32s(restarts);
    assert data[|contents| + 4 * k..|contents| + 4 * k + 4] == a[|contents| + 4 * k..|contents| + 4 * k + 4];
    assert a[|contents| + 4 * k..|contents| + 4 * k + 4] == Fixed32s(restarts)[4 * k..4 * k + 4];
  }

  /** At `pos`: the lengths of an entry, one after the other, and then `delta`. */
  ghost predicate LengthsAt(input: seq<Byte>, pos: nat, a: nat, b: nat, c: nat, delta: nat) {
    && Holds(input, pos, Varint(a)) && Holds(input, pos + |Varint(a)|, Varint(b))
    && Holds(input, pos + |Varint(a)| + |Varint(b)|, Varint(c))
    && delta == pos + |Varint(a)| + |Varint(b)| + |Varint(c)|
  }

  ghost predicate TwoAt(input: seq<Byte>, pos: nat, end: nat, a: nat, b: nat) {
    exists m: nat :: Number32At(input, pos, m, a) && Number32At(input, m, end, b)
  }

  /** From `pos` to `end` there are three numbers, however written. */
  ghost predicate ThreeAt(input: seq<Byte>, pos: nat, end: nat, a: nat, b: nat, c: nat) {
    exists m: nat :: TwoAt(input, pos, m, a, b) && Number32At(input, m, end, c)
  }

  lemma TwoOnce(input: seq<Byte>, pos: nat, p: nat, a: nat, b: nat, q: nat, x: nat, y: nat)
    requires TwoAt(input, pos, p, a, b) && TwoAt(input, pos, q, x, y)
    ensures p == q && a == x && b == y
  {
    var m, n: nat :| Number32At(input, pos, m, a) && Number32At(input, m, p, b)
                     && Number32At(input, pos, n, x) && Number32At(input, n, q, y);
    Number32Once(input, pos, m, a, n, x);
    Number32Once(input, m, p, b, q, y);
  }

  lemma ThreeOnce(input: seq<Byte>, pos: nat, p: nat, a: nat, b: nat, c: nat, q: nat, x: nat, y: nat, z: nat)
    requires ThreeAt(input, pos, p, a, b, c) && ThreeAt(input, pos, q, x, y, z)
    ensures p == q && a == x && b == y && c == z
  {
    var m, n: nat :| TwoAt(input, pos, m, a, b) && Number32At(input, m, p, c)
                     && TwoAt(input, pos, n, x, y) && Number32At(input, n, q, z);
    TwoOnce(input, pos, m, a, b, n, x, y);
    Number32Once(input, m, p, c, q, z);
  }

  /** A byte below 128 is a number. */
  lemma ByteIsNumber(input: seq<Byte>, pos: nat)
    requires pos < |input| && input[pos] < 128
    ensures Number32At(input, pos, pos + 1, input[pos])
  {
    assert input[pos..pos + 1] == [input[pos]];
    assert GroupSum([input[pos]]) == input[pos] % 128 + 128 * GroupSum([input[pos]][1..]);
  }

  lemma ThreeBytes(input: seq<Byte>, pos: nat)
    requires pos + 3 <= |input| && input[pos] < 128 && input[pos + 1] < 128 && input[pos + 2] < 128
    ensures ThreeAt(input, pos, pos + 3, input[pos], input[pos + 1], input[pos + 2])
  {
    ByteIsNumber(input, pos);
    ByteIsNumber(input, pos + 1);
    ByteIsNumber(input, pos + 2);
    assert TwoAt(input, pos, pos + 2, input[pos], input[pos + 1]);
  }

  /** DecodeEntry, at `pos` of the contents of a block: three numbers, and as many bytes as the last two say. */
  method DecodeEntry(input: seq<Byte>, pos: nat, ghost s: nat, ghost p: Pair)
      returns (ok: bool, shared: nat, nonShared: nat, valueLength: nat, delta: nat)
    requires pos <= |input|
    ensures ok ==> pos + 3 <= delta && delta + nonShared + valueLength <= |input|
    ensures ok ==> ThreeAt(input, pos, delta, shared, nonShared, valueLength)
    ensures !ok ==> forall e: nat, a: nat, b: nat, c: nat :: ThreeAt(input, pos, e, a, b, c) ==> e + b + c > |input|
    ensures s <= |p.key| && |p.key| < WORDS && |p.value| < WORDS && Holds(input, pos, EntryBytes(s, p)) ==>
      && ok && shared == s && nonShared == |p.key| - s && valueLength == |p.value|
      && delta + nonShared + valueLength == pos + |EntryBytes(s, p)|
      && input[delta..delta + nonShared] == p.key[s..]
      && input[delta + nonShared..delta + nonShared + valueLength] == p.value
  {
    ghost var good := s <= |p.key| && |p.key| < WORDS && |p.value| < WORDS && Holds(input, pos, EntryBytes(s, p));
    ghost var d := 0;
    if good { d := EntryParts(input, pos, s, p); }
    ok, shared, nonShared, valueLength, delta :=
      DecodeLengths(input, pos, good, s, if good then |p.key| - s else 0, |p.value|, d);
    if ok && nonShared + valueLength > |input| - delta {
      TooMuch(input, pos, delta, shared, nonShared, valueLength);
      ok := false;
    }
  }

  lemma TooMuch(input: seq<Byte>, pos: nat, p: nat, a: nat, b: nat, c: nat)
    requires ThreeAt(input, pos, p, a, b, c) && p + b + c > |input|
    ensures forall q: nat, x: nat, y: nat, z: nat :: ThreeAt(input, pos, q, x, y, z) ==> q + y + z > |input|
  {
    forall q: nat, x: nat, y: nat, z: nat | ThreeAt(input, pos, q, x, y, z) ensures q + y + z > |input| {
      ThreeOnce(input, pos, p, a, b, c, q, x, y, z);
    }
  }

  /** The part of ParseNextKey that takes an entry apart, where `good` that of the pair `p`. */
  method ReadEntry(contents: seq<Byte>, pos: nat, before: Key, ghost good: bool, ghost s: nat, ghost p: Pair)
      returns (ok: bool, key: Key, value: seq<Byte>, end: nat)
    requires pos < |contents|
    requires good ==> s <= |before| && s <= |p.key| && before[..s] == p.key[..s]
    requires good ==> |p.key| < WORDS && |p.value| < WORDS && Holds(contents, pos, EntryBytes(s, p))
    ensures ok ==> pos < end <= |contents|
    ensures good ==> ok && key == p.key && value == p.value && end == pos + |EntryBytes(s, p)|
  {
    var decoded, shared, nonShared, valueLength, delta := DecodeEntry(contents, pos, s, p);
    if !decoded || |before| < shared {
      return false, [], [], pos;
    }
    end := delta + nonShared + valueLength;
    key, value := before[..shared] + contents[delta..delta + nonShared], contents[delta + nonShared..end];
    if good { SharedAndRest(before, p.key, s); }
    return true, key, value, end;
  }

  /** The lengths at the start of an entry: three single bytes, or three varints. */
  method DecodeLengths(input: seq<Byte>, pos: nat, ghost good: bool, ghost a: nat, ghost b: nat, ghost c: nat, ghost d: nat)
      returns (ok: bool, shared: nat, nonShared: nat, valueLength: nat, delta: nat)
    requires pos <= |input|
    requires good ==> LengthsAt(input, pos, a, b, c, d) && a < WORDS && b < WORDS && c < WORDS && d <= |input|
    ensures ok ==> pos + 3 <= delta <= |input| && ThreeAt(input, pos, delta, shared, nonShared, valueLength)
    ensures !ok ==> forall e: nat, a: nat, b: nat, c: nat :: !ThreeAt(input, pos, e, a, b, c)
    ensures good ==> ok && shared == a && nonShared == b && valueLength == c && delta == d
  {
    ok, shared, nonShared, valueLength, delta := false, 0, 0, 0, pos;
    if |input| - pos < 3 {
      TooShort(input, pos);
      return;
    }
    shared, nonShared, valueLength := input[pos], input[pos + 1], input[pos + 2];
    if shared < 128 && nonShared < 128 && valueLength < 128 {
      if good { FastPath(input, pos, a, b, c, d); }
      ThreeBytes(input, pos);
      ok, delta := true, pos + 3;
    } else {
      ok, shared, nonShared, valueLength, delta := ReadThree(input, pos, good, a, b, c, d);
    }
  }

  /** Three varints. */
  method ReadThree(input: seq<Byte>, pos: nat, ghost good: bool, ghost a: nat, ghost b: nat, ghost c: nat, ghost d: nat)
      returns (ok: bool, shared: nat, nonShared: nat, valueLength: nat, delta: nat)
    requires pos <= |input|
    requires good ==> LengthsAt(input, pos, a, b, c, d) && a < WORDS && b < WORDS && c < WORDS && d <= |input|
    ensures ok ==> pos + 3 <= delta <= |input| && ThreeAt(input, pos, delta, shared, nonShared, valueLength)
    ensures !ok ==> forall e: nat, a: nat, b: nat, c: nat :: !ThreeAt(input, pos, e, a, b, c)
    ensures good ==> ok && shared == a && nonShared == b && valueLength == c && delta == d
  {
    nonShared, valueLength := 0, 0;
    ok, shared, delta := GetVarint32(input, pos, a);
    if !ok { return; }
    FirstOfThree(input, pos, delta, shared);
    ok, nonShared, delta := GetVarint32(input, delta, b);
    if !ok { return; }
    TwoOfThree(input, pos, delta, shared, nonShared);
    ok, valueLength, delta := GetVarint32(input, delta, c);
  }

  lemma TooShort(input: seq<Byte>, pos: nat)
    requires pos <= |input| < pos + 3
    ensures forall e: nat, a: nat, b: nat, c: nat :: !ThreeAt(input, pos, e, a, b, c)
  {
  }

  lemma FirstOfThree(input: seq<Byte>, pos: nat, p: nat, a: nat)
    requires Number32At(input, pos, p, a)
    ensures forall e: nat, x: nat, y: nat :: TwoAt(input, pos, e, x, y) ==> Number32At(input, p, e, y)
  {
    forall m: nat, x: nat | Number32At(input, pos, m, x) ensures m == p { Number32Once(input, pos, p, a, m, x); }
  }

  lemma TwoOfThree(input: seq<Byte>, pos: nat, p: nat, a: nat, b: nat)
    requires TwoAt(input, pos, p, a, b)
    ensures forall e: nat, x: nat, y: nat, z: nat :: ThreeAt(input, pos, e, x, y, z) ==> Number32At(input, p, e, z)
  {
    forall m: nat, x: nat, y: nat | TwoAt(input, pos, m, x, y) ensures m == p { TwoOnce(input, pos, p, a, b, m, x, y); }
  }

  /** Where the parts of an entry are. */
  lemma EntryParts(input: seq<Byte>, pos: nat, s: nat, p: Pair) returns (delta: nat)
    requires s <= |p.key| && Holds(input, pos, EntryBytes(s, p))
    ensures LengthsAt(input, pos, s, |p.key| - s, |p.value|, delta)
    ensures delta + (|p.key| - s) + |p.value| == pos + |EntryBytes(s, p)| <= |input|
    ensures input[delta..delta + (|p.key| - s)] == p.key[s..]
    ensures input[delta + (|p.key| - s)..delta + (|p.key| - s) + |p.value|] == p.value
  {
    var a, b, c := Varint(s), Varint(|p.key| - s), Varint(|p.value|);
    delta := pos + |a| + |b| + |c|;
    HoldsFive(input, pos, a, b, c, p.key[s..], p.value, delta);
  }

  lemma HoldsFive(input: seq<Byte>, pos: nat, a: seq<Byte>, b: seq<Byte>, c: seq<Byte>, d: seq<Byte>, e: seq<Byte>,
                  delta: nat)
    requires Holds(input, pos, a + (b + (c + (d + e)))) && delta == pos + |a| + |b| + |c|
    ensures Holds(input, pos, a) && Holds(input, pos + |a|, b) && Holds(input, pos + |a| + |b|, c)
    ensures delta + |d| + |e| == pos + |a + (b + (c + (d + e)))| <= |input|
    ensures input[delta..delta + |d|] == d && input[delta + |d|..delta + |d| + |e|] == e
  {
    HoldsParts(input, pos, a, b + (c + (d + e)));
    HoldsParts(input, pos + |a|, b, c + (d + e));
    HoldsParts(input, pos + |a| + |b|, c, d + e);
    HoldsParts(input, delta, d, e);
    HoldsSlice(input, delta, d);
    HoldsSlice(input, delta + |d|, e);
  }

  /** Three lengths below 128 are three bytes, and only then. */
  lemma FastPath(input: seq<Byte>, pos: nat, a: nat, b: nat, c: nat, d: nat)
    requires LengthsAt(input, pos, a, b, c, d) && pos + 3 <= |input|
    requires input[pos] < 128 && input[pos + 1] < 128 && input[pos + 2] < 128
    ensures a == input[pos] && b == input[pos + 1] && c == input[pos + 2] && d == pos + 3
  {
    OneByte(input, pos, a);
    OneByte(input, pos + 1, b);
    OneByte(input, pos + 2, c);
  }

  lemma {:induction false} OneByte(input: seq<Byte>, pos: nat, v: nat)
    requires Holds(input, pos, Varint(v)) && pos < |input| && input[pos] < 128
    ensures v == input[pos] && |Varint(v)| == 1
  {
    HoldsAt(input, pos, Varint(v), 0);
  }

  // The iterator

  /** The comparator orders the keys strictly. */
  ghost predicate Ascending(less: (Key, Key) -> bool, es: seq<Pair>) {
    && (forall a, b, c :: less(a, b) && less(b, c) ==> less(a, c))
    && (forall i, j :: 0 <= i < j < |es| ==> less(es[i].key, es[j].key))
  }

  /** `n` is the first key at or after `target`. */
  ghost predicate IsFirstFrom(less: (Key, Key) -> bool, es: seq<Pair>, target: Key, n: nat) {
    && n <= |es| && (forall i :: 0 <= i < n ==> less(es[i].key, target))
    && (n < |es| ==> !less(es[n].key, target))
  }

  /** A block that a builder made of `x`. */
  ghost predicate WellFormed(data: seq<Byte>, restartOffset: nat, numRestarts: nat, x: Layout) {
    && restartOffset + 4 * numRestarts <= |data| && restartOffset < WORDS && numRestarts == |x.rs|
    && LayoutOk(data[..restartOffset], x)
    && forall k {:trigger RestartRead(data, restartOffset, x, k)} :: 0 <= k < numRestarts ==>
      RestartRead(data, restartOffset, x, k)
  }

  ghost predicate RestartRead(data: seq<Byte>, restartOffset: nat, x: Layout, k: nat) {
    && k < |x.rs| && restartOffset + 4 * k + 4 <= |data| && x.rs[k] < |x.starts|
    && DecodeFixed32(data[restartOffset + 4 * k..restartOffset + 4 * k + 4]) == x.starts[x.rs[k]]
  }

  /** What Finish made is well formed for the iterator. */
  lemma FinishedIsWellFormed(data: seq<Byte>, contents: seq<Byte>, restarts: seq<nat>, x: Layout)
    requires IsBlock(data, contents, restarts) && |contents| < WORDS && LayoutOk(contents, x) && OffsetsOk(restarts, x)
    ensures WellFormed(data, |contents|, |restarts|, x)
  {
    BlockEnds(data, contents, restarts);
    assert data[..|contents|] == contents;
    forall k | 0 <= k < |restarts|
      ensures RestartRead(data, |contents|, x, k)
    {
      RestartPointAt(data, contents, restarts, k);
    }
  }

  class Iter {
    const less: (Key, Key) -> bool
    const data: seq<Byte>
    const restarts: nat  // where the restart array is
    const numRestarts: nat
    var current: nat  // the offset of the current entry; at least `restarts` when not valid
    var restartIndex: nat
    var key: Key
    var value: seq<Byte>
    var next: nat  // the offset just past the value
    var corrupted: bool
    ghost const good: bool  // the block is well formed, with layout x
    ghost const x: Layout
    ghost var at: nat  // the position among the pairs, their number when not valid

    constructor (less: (Key, Key) -> bool, data: seq<Byte>, restarts: nat, numRestarts: nat, ghost good: bool, ghost x: Layout)
      requires numRestarts > 0 && restarts + 4 * numRestarts <= |data|
      requires good ==> WellFormed(data, restarts, numRestarts, x)
      ensures Consistent() && !Valid() && this.less == less && this.x == x && this.good == good
    {
      this.less, this.data, this.restarts, this.numRestarts, this.good, this.x := less, data, restarts, numRestarts, good, x;
      current, restartIndex, key, value, next, corrupted := restarts, numRestarts, [], [], 0, false;
      at := |x.es|;
    }

    predicate Valid()
      reads this
    {
      current < restarts
    }

    ghost predicate Fixed()
      reads this
    {
      && numRestarts > 0 && restarts + 4 * numRestarts <= |data|
      && (good ==> WellFormed(data, restarts, numRestarts, x))
    }

    ghost predicate Shape()
      reads this
    {
      Fixed() && (Valid() ==> restartIndex < numRestarts && next > current)
    }

    /** The fields are those of the i-th pair. */
    ghost predicate OnEntry(i: nat)
      reads this
    {
      IsEntry(x, i, current, next, key, value)
    }

    ghost predicate Consistent()
      reads this
    {
      && Shape()
      && (good ==> !corrupted && if Valid() then OnEntry(at) else at == |x.es|)
    }

    /** The next entry parsed would be the j-th, if there is one. */
    ghost predicate Before(j: nat)
      reads this
    {
      !corrupted && IsBefore(x, j, next, key)
    }

    function GetRestartPoint(index: nat): nat
      requires index < numRestarts && restarts + 4 * numRestarts <= |data|
    {
      DecodeFixed32(data[restarts + 4 * index..restarts + 4 * index + 4])
    }

    method CorruptionError()
      requires Fixed()
      modifies this
      ensures Shape() && !Valid() && corrupted && at == old(at) && next == old(next)
    {
      current, restartIndex, corrupted, key, value := restarts, numRestarts, true, [], [];
    }

    method SeekToRestartPoint(index: nat)
      requires Shape() && index < numRestarts
      modifies this
      ensures Shape() && restartIndex == index && current >= restarts && at == old(at)
      ensures corrupted == old(corrupted) && next == GetRestartPoint(index)
      ensures good && !corrupted ==> index < |x.rs| && Before(x.rs[index])
    {
      if good {
        assert RestartRead(data, restarts, x, index) && RestartOk(x, index);
        RestartStartsFresh(data[..restarts], x, index);
      }
      key, restartIndex, value := [], index, [];
      next := GetRestartPoint(index);
      current := restarts;
    }

    /** ParseNextKey, where the entry that comes next is the j-th. */
    method ParseNextKey(ghost j: nat) returns (ok: bool)
      requires Shape() && restartIndex < numRestarts
      requires good ==> Before(j)
      modifies this
      ensures Shape() && at == old(at) && ok == Valid() && (ok ==> old(next) < restarts && next > old(next))
      ensures !ok && old(next) < restarts ==> corrupted
      ensures good ==> !corrupted && (ok <==> j < |x.es|) && (ok ==> OnEntry(j) && Before(j + 1))
    {
      current := next;
      if current >= restarts {
        if good { StartsInside(data[..restarts], x, j); }
        current, restartIndex := restarts, numRestarts;
        return false;
      }
      ghost var p, s := Pair([], []), 0;
      if good {
        NextEntry(data[..restarts], x, j);
        p, s := x.es[j], x.shared[j];
      }
      var read, k, v, end := ReadEntry(data[..restarts], current, key, good, s, p);
      if !read {
        CorruptionError();
        return false;
      }
      key, value, next := k, v, end;
      if good { EntryRead(data[..restarts], x, j, current, end, k, v); }
      AdvanceRestart();
      return true;
    }

    /** The end of ParseNextKey: the restart point moves on with the entry. */
    method AdvanceRestart()
      requires numRestarts > 0 && restarts + 4 * numRestarts <= |data| && restartIndex < numRestarts
      modifies this`restartIndex
      ensures old(restartIndex) <= restartIndex < numRestarts
      ensures forall i :: old(restartIndex) < i <= restartIndex ==> GetRestartPoint(i) < current
      ensures restartIndex + 1 < numRestarts ==> GetRestartPoint(restartIndex + 1) >= current
    {
      while restartIndex + 1 < numRestarts && GetRestartPoint(restartIndex + 1) < current
        invariant old(restartIndex) <= restartIndex < numRestarts
        invariant forall i :: old(restartIndex) < i <= restartIndex ==> GetRestartPoint(i) < current
      {
        restartIndex := restartIndex + 1;
      }
    }

    method Next()
      requires Consistent() && Valid()
      modifies this
      ensures Consistent() && (good ==> at == old(at) + 1 && (Valid() <==> at < |x.es|))
    {
      if good { KeyIsReady(data[..restarts], x, at); }
      var ok := ParseNextKey(at + 1);
      at := if good then at + 1 else at;
    }

    /** The part of Prev that goes back to a restart point before `original`; false when there is none. */
    method BackToRestart(original: nat) returns (found: bool)
      requires Shape() && restartIndex < numRestarts
      modifies this
      ensures Shape() && at == old(at) && corrupted == old(corrupted)
      ensures found ==> restartIndex < numRestarts && next == GetRestartPoint(restartIndex) < original && current >= restarts
      ensures found && good && !corrupted ==> restartIndex < |x.rs| && Before(x.rs[restartIndex])
      ensures !found ==> !Valid() && GetRestartPoint(0) >= original
    {
      while GetRestartPoint(restartIndex) >= original
        invariant Shape() && restartIndex < numRestarts && at == old(at) && corrupted == old(corrupted)
        decreases restartIndex
      {
        if restartIndex == 0 {
          current, restartIndex := restarts, numRestarts;
          return false;
        }
        restartIndex := restartIndex - 1;
      }
      SeekToRestartPoint(restartIndex);
      return true;
    }

    method Prev()
      requires Consistent() && Valid()
      modifies this
      ensures Consistent()
      ensures good ==> at == (if old(at) == 0 then |x.es| else old(at) - 1) && (Valid() <==> old(at) > 0)
    {
      var original := current;
      ghost var c := at;
      var found := BackToRestart(original);
      if !found {
        if good { FirstRestart(data, restarts, numRestarts, x, c); }
        at := |x.es|;
        return;
      }
      ghost var j: nat := 0;
      if good {
        j := x.rs[restartIndex];
        assert RestartRead(data, restarts, x, restartIndex);
        StartOrder(data[..restarts], x, j, c);
      }
      var more := true;
      while more
        invariant Shape() && (more ==> restartIndex < numRestarts)
        invariant good ==> !corrupted
        invariant good && more ==> Before(j) && j < c
        invariant good && !more ==> Valid() && OnEntry(c - 1)
        decreases more, if next < restarts then restarts - next else 0
      {
        var ok := ParseNextKey(j);
        if good { StartOrder(data[..restarts], x, j + 1, c); }
        more := ok && next < original;
        j := j + 1;
      }
      at := if good then c - 1 else 0;
    }

    /** The key at a restart point, which is stored whole. */
    method RestartKey(mid: nat) returns (ok: bool, midKey: Key)
      requires Fixed() && 0 < mid < numRestarts
      ensures good ==> ok && mid < |x.rs| && x.rs[mid] < |x.es| && midKey == x.es[x.rs[mid]].key
    {
      var regionOffset := GetRestartPoint(mid);
      ghost var p := Pair([], []);
      if good {
        RestartEntry(data, restarts, numRestarts, x, mid);
        p := x.es[x.rs[mid]];
      }
      if regionOffset > restarts {
        return false, [];
      }
      var decoded, shared, nonShared, valueLength, delta := DecodeEntry(data[..restarts], regionOffset, 0, p);
      if !decoded || shared != 0 {
        return false, [];
      }
      return true, data[..restarts][delta..delta + nonShared];
    }

    /** The binary search of Seek: a restart point such that all keys before it are before the target. */
    method FindRestart(target: Key) returns (found: bool, left: nat)
      requires Shape()
      modifies this
      ensures Shape() && left < numRestarts && at == old(at)
      ensures !found ==> corrupted && !Valid()
      ensures good && !old(corrupted) ==> found && !corrupted
      ensures good && left > 0 && found ==>
        left < |x.rs| && x.rs[left] < |x.es| && less(x.es[x.rs[left]].key, target)
    {
      var right := numRestarts - 1;
      left := 0;
      while left < right
        invariant Shape() && left <= right < numRestarts && at == old(at) && corrupted == old(corrupted)
        invariant good && left > 0 ==> left < |x.rs| && x.rs[left] < |x.es| && less(x.es[x.rs[left]].key, target)
        decreases right - left
      {
        var mid := (left + right + 1) / 2;
        var ok, midKey := RestartKey(mid);
        if !ok {
          CorruptionError();
          return false, left;
        }
        if less(midKey, target) {
          left := mid;
        } else {
          right := mid - 1;
        }
      }
      found := true;
    }

    /** The linear search of Seek, where entry `from` comes next; it stops at the j-th. */
    method LinearSearch(target: Key, ghost from: nat, ghost sorted: bool) returns (ghost j: nat)
      requires Shape() && restartIndex < numRestarts
      requires good ==> !corrupted && from <= |x.es| && Before(from)
      requires sorted ==> LessUpTo(less, x.es, target, from)
      modifies this
      ensures Shape() && (good ==> !corrupted && j <= |x.es|)
      ensures good && j < |x.es| ==> Valid() && OnEntry(j) && !less(x.es[j].key, target)
      ensures good && j == |x.es| ==> !Valid()
      ensures sorted && good ==> LessUpTo(less, x.es, target, j)
    {
      j := from;
      var more := true;
      while more
        invariant Shape() && (more ==> restartIndex < numRestarts)
        invariant good ==> !corrupted && j <= |x.es|
        invariant good && more ==> Before(j)
        invariant good && !more && j < |x.es| ==> Valid() && OnEntry(j)
        invariant good && !more && j == |x.es| ==> !Valid()
        invariant sorted && good ==> LessUpTo(less, x.es, target, j)
        invariant good && !more && j < |x.es| ==> !less(x.es[j].key, target)
        decreases more, if next < restarts then restarts - next else 0
      {
        var ok := ParseNextKey(j);
        more := ok && less(key, target);
        if more { j := j + 1; }
      }
    }

    method Seek(target: Key)
      requires Consistent()
      modifies this
      ensures Consistent()
      ensures good && Ascending(less, x.es) ==> IsFirstFrom(less, x.es, target, at) && (Valid() <==> at < |x.es|)
    {
      var found, left := FindRestart(target);
      if !found {
        at := |x.es|;
        return;
      }
      SeekToRestartPoint(left);
      ghost var sorted, from: nat := good && Ascending(less, x.es), if good then x.rs[left] else 0;
      if sorted { EarlierKeys(less, x, left, target); }
      ghost var j := LinearSearch(target, from, sorted);
      at := if good then j else 0;
    }

    method SeekToFirst()
      requires Consistent()
      modifies this
      ensures Consistent() && (good ==> at == 0 && (Valid() <==> at < |x.es|))
    {
      SeekToRestartPoint(0);
      var ok := ParseNextKey(0);
      at := 0;
    }

    method SeekToLast()
      requires Consistent()
      modifies this
      ensures Consistent() && (good ==> at == (if |x.es| == 0 then 0 else |x.es| - 1) && (Valid() <==> |x.es| > 0))
    {
      SeekToRestartPoint(numRestarts - 1);
      ghost var j: nat := if good then x.rs[numRestarts - 1] else 0;
      if good { assert RestartOk(x, numRestarts - 1); }
      var more := true;
      while more
        invariant Shape() && (more ==> restartIndex < numRestarts)
        invariant good ==> !corrupted
        invariant good && more ==> Before(j) && (j < |x.es| || |x.es| == 0)
        invariant good && !more ==> if |x.es| == 0 then !Valid() else OnEntry(|x.es| - 1) && Valid()
        decreases more, if next < restarts then restarts - next else 0
      {
        var ok := ParseNextKey(j);
        if good && ok { NextStart(data[..restarts], x, j); }
        more := ok && next < restarts;
        j := j + 1;
      }
      at := if |x.es| == 0 then 0 else |x.es| - 1;
    }
  }

  /** A start is before another just when the entry is. */
  lemma StartOrder(contents: seq<Byte>, x: Layout, i: nat, j: nat)
    requires LayoutOk(contents, x) && i <= |x.es| && j <= |x.es|
    ensures x.starts[i] < x.starts[j] <==> i < j
  {
    if i <= j { StartsGrow(contents, x, i, j); } else { StartsGrow(contents, x, j, i); }
  }

  lemma NextEntry(contents: seq<Byte>, x: Layout, j: nat)
    requires LayoutOk(contents, x) && |contents| < WORDS && j <= |x.es| && x.starts[j] < |contents|
    ensures j < |x.es| && x.shared[j] <= |x.es[j].key| && |x.es[j].key| < WORDS && |x.es[j].value| < WORDS
    ensures Holds(contents, x.starts[j], EntryBytes(x.shared[j], x.es[j]))
    ensures x.starts[j + 1] == x.starts[j] + |EntryBytes(x.shared[j], x.es[j])|
  {
    assert j < |x.es|;
    assert EntryOk(contents, x, j);
    var d := EntryParts(contents, x.starts[j], x.shared[j], x.es[j]);
    ShortKey(contents, x, j);
  }

  /** No key is longer than the bytes up to its end. */
  lemma {:induction false} ShortKey(contents: seq<Byte>, x: Layout, j: nat)
    requires LayoutOk(contents, x) && j < |x.es|
    ensures |x.es[j].key| <= x.starts[j + 1] <= |contents|
  {
    assert EntryOk(contents, x, j);
    var d := EntryParts(contents, x.starts[j], x.shared[j], x.es[j]);
    StartsInside(contents, x, j + 1);
    if j > 0 {
      ShortKey(contents, x, j - 1);
    }
  }

  lemma NextStart(contents: seq<Byte>, x: Layout, j: nat)
    requires LayoutOk(contents, x) && j < |x.es|
    ensures j + 1 < |x.es| ==> x.starts[j + 1] < |contents|
    ensures j + 1 == |x.es| ==> x.starts[j + 1] == |contents|
  {
    StartsInside(contents, x, j + 1);
  }

  /** The key of an entry is long enough for the next one to share. */
  /** The i-th pair lies between these positions. */
  ghost predicate IsEntry(x: Layout, i: nat, current: nat, next: nat, key: Key, value: seq<Byte>) {
    && i < |x.es| && i + 1 < |x.starts|
    && current == x.starts[i] && next == x.starts[i + 1] && key == x.es[i].key && value == x.es[i].value
  }

  /** The j-th entry is next, and `key` begins as it needs. */
  ghost predicate IsBefore(x: Layout, j: nat, next: nat, key: Key) {
    && j <= |x.es| && j < |x.starts| && next == x.starts[j]
    && (j < |x.es| && j < |x.shared| ==>
          x.shared[j] <= |key| && x.shared[j] <= |x.es[j].key| && key[..x.shared[j]] == x.es[j].key[..x.shared[j]])
  }

  lemma EntryRead(contents: seq<Byte>, x: Layout, j: nat, current: nat, next: nat, key: Key, value: seq<Byte>)
    requires LayoutOk(contents, x) && j < |x.es| && x.shared[j] <= |x.es[j].key|
    requires current == x.starts[j] && next == current + |EntryBytes(x.shared[j], x.es[j])|
    requires key == x.es[j].key && value == x.es[j].value
    ensures IsEntry(x, j, current, next, key, value) && IsBefore(x, j + 1, next, key)
  {
    assert EntryOk(contents, x, j);
    KeyIsReady(contents, x, j);
  }

  lemma KeyIsReady(contents: seq<Byte>, x: Layout, j: nat)
    requires LayoutOk(contents, x) && j < |x.es|
    ensures j + 1 < |x.es| ==> x.shared[j + 1] <= |x.es[j].key| && x.shared[j + 1] <= |x.es[j + 1].key|
    ensures j + 1 < |x.es| ==> x.es[j].key[..x.shared[j + 1]] == x.es[j + 1].key[..x.shared[j + 1]]
  {
    if j + 1 < |x.es| { assert EntryOk(contents, x, j + 1); }
  }

  /** The first restart point is the first entry. */
  lemma FirstRestart(data: seq<Byte>, restartOffset: nat, numRestarts: nat, x: Layout, c: nat)
    requires WellFormed(data, restartOffset, numRestarts, x) && numRestarts > 0 && c < |x.es|
    requires DecodeFixed32(data[restartOffset + 4 * 0..restartOffset + 4 * 0 + 4]) >= x.starts[c]
    ensures c == 0
  {
    assert RestartRead(data, restartOffset, x, 0);
    StartOrder(data[..restartOffset], x, 0, c);
  }

  /** A restart point past the first is the start of an entry that shares nothing. */
  lemma RestartEntry(data: seq<Byte>, restartOffset: nat, numRestarts: nat, x: Layout, k: nat)
    requires WellFormed(data, restartOffset, numRestarts, x) && 0 < k < numRestarts
    ensures x.rs[k] < |x.es| && |x.es[x.rs[k]].key| < WORDS && |x.es[x.rs[k]].value| < WORDS
    ensures var offset := DecodeFixed32(data[restartOffset + 4 * k..restartOffset + 4 * k + 4]);
      offset <= restartOffset && Holds(data[..restartOffset], offset, EntryBytes(0, x.es[x.rs[k]]))
  {
    assert RestartOk(x, k) && RestartRead(data, restartOffset, x, k);
    StartsInside(data[..restartOffset], x, x.rs[k]);
    NextEntry(data[..restartOffset], x, x.rs[k]);
  }

  ghost predicate LessUpTo(less: (Key, Key) -> bool, es: seq<Pair>, target: Key, n: nat) {
    forall i :: 0 <= i < n ==> i < |es| && less(es[i].key, target)
  }

  /** Keys before a restart point whose key is before the target are before it too. */
  lemma EarlierKeys(less: (Key, Key) -> bool, x: Layout, left: nat, target: Key)
    requires Ascending(less, x.es) && left < |x.rs| && (left == 0 ==> x.rs[0] == 0)
    requires left > 0 ==> x.rs[left] < |x.es| && less(x.es[x.rs[left]].key, target)
    ensures LessUpTo(less, x.es, target, x.rs[left])
  {
    forall i | 0 <= i < x.rs[left]
      ensures i < |x.es| && less(x.es[i].key, target)
    {
      assert less(x.es[i].key, x.es[x.rs[left]].key);
    }
  }

  lemma RestartStartsFresh(contents: seq<Byte>, x: Layout, k: nat)
    requires LayoutOk(contents, x) && k < |x.rs|
    ensures x.rs[k] <= |x.es| && (x.rs[k] < |x.es| ==> x.shared[x.rs[k]] == 0)
  {
    assert RestartOk(x, k);
  }
}
