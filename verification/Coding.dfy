/** Variable-length numbers and length-prefixed strings (util/coding.h, util/coding.cc). */
module Coding {
  import opened Checksums

  const DWORDS: nat := 0x1_0000_0000_0000_0000

  /** A number in groups of seven bits, the lowest first; the high bit says that more follow. */
  function Varint(v: nat): (r: seq<Byte>)
    ensures |r| > 0
  {
    if v < 128 then [v] else [128 + v % 128] + Varint(v / 128)
  }

  /** At `pos` the input goes on with `part`. */
  predicate Holds(input: seq<Byte>, pos: nat, part: seq<Byte>) {
    pos <= |input| && part <= input[pos..]
  }

  lemma HoldsParts(input: seq<Byte>, pos: nat, a: seq<Byte>, b: seq<Byte>)
    requires Holds(input, pos, a + b)
    ensures Holds(input, pos, a) && pos + |a| <= |input| && Holds(input, pos + |a|, b)
  {
    assert a <= a + b <= input[pos..];
    assert input[pos..][|a|..] == input[pos + |a|..];
    assert (a + b)[|a|..] == b;
  }

  lemma HoldsSlice(input: seq<Byte>, pos: nat, part: seq<Byte>)
    requires Holds(input, pos, part)
    ensures pos + |part| <= |input| && input[pos..pos + |part|] == part
  {
    assert input[pos..][..|part|] == input[pos..pos + |part|];
  }

  lemma HoldsAt(input: seq<Byte>, pos: nat, part: seq<Byte>, i: nat)
    requires Holds(input, pos, part) && i < |part|
    ensures pos + i < |input| && input[pos + i] == part[i]
  {
    assert input[pos..][i] == input[pos + i];
  }

  /** EncodeVarint64. */
  method EncodeVarint64(v: nat) returns (r: seq<Byte>)
    ensures r == Varint(v)
  {
    r := [];
    var w := v;
    while w >= 128
      invariant r + Varint(w) == Varint(v)
      decreases w
    {
      assert Varint(w) == [128 + w % 128] + Varint(w / 128);
      r := r + [128 + w % 128];
      w := w / 128;
    }
    r := r + [w];
  }

  /** EncodeVarint32, which spells out the five lengths. */
  function EncodeVarint32(v: Word): seq<Byte> {
    if v < 0x80 then [v]
    else if v < 0x4000 then [v % 128 + 128, v / 0x80]
    else if v < 0x20_0000 then [v % 128 + 128, v / 0x80 % 128 + 128, v / 0x4000]
    else if v < 0x1000_0000 then [v % 128 + 128, v / 0x80 % 128 + 128, v / 0x4000 % 128 + 128, v / 0x20_0000]
    else [v % 128 + 128, v / 0x80 % 128 + 128, v / 0x4000 % 128 + 128, v / 0x20_0000 % 128 + 128, v / 0x1000_0000]
  }

  lemma {:induction false} EncodeVarint32Is(v: Word)
    ensures EncodeVarint32(v) == Varint(v)
  {
    var a, b, c, d := v / 128, v / 0x4000, v / 0x20_0000, v / 0x1000_0000;
    assert a / 128 == b && b / 128 == c && c / 128 == d;
    if v >= 0x80 { assert Varint(v) == [128 + v % 128] + Varint(a); }
    if v >= 0x4000 { assert Varint(a) == [128 + a % 128] + Varint(b); }
    if v >= 0x20_0000 { assert Varint(b) == [128 + b % 128] + Varint(c); }
    if v >= 0x1000_0000 { assert Varint(c) == [128 + c % 128] + Varint(d); }
  }

  function Power128(k: nat): (p: nat)
    ensures p > 0
  {
    if k == 0 then 1 else 128 * Power128(k - 1)
  }

  /** Groups of seven bits, of any number, lie in the input from `pos` to `end`. */
  predicate VarintEnds(input: seq<Byte>, pos: nat, end: nat) {
    pos < end <= |input| && input[end - 1] < 128 && forall i :: pos <= i < end - 1 ==> input[i] >= 128
  }

  lemma VarintEndsOnce(input: seq<Byte>, pos: nat, a: nat, b: nat)
    requires VarintEnds(input, pos, a) && VarintEnds(input, pos, b)
    ensures a == b
  {
  }

  /** The number that groups of seven bits make. */
  function GroupSum(b: seq<Byte>): nat {
    if b == [] then 0 else b[0] % 128 + 128 * GroupSum(b[1..])
  }

  lemma AddMod(a: nat, b: nat, limit: nat)
    requires limit > 0
    ensures (a % limit + b) % limit == (a + b) % limit
  {
    var q := a / limit;
    assert a == limit * q + a % limit;
    AddMultiple(a % limit + b, q, limit);
  }

  lemma {:induction false} AddMultiple(n: nat, q: nat, limit: nat)
    requires limit > 0
    ensures (n + limit * q) % limit == n % limit
  {
    if q > 0 {
      AddMultiple(n, q - 1, limit);
      var m := n + limit * (q - 1);
      assert n + limit * q == m + limit;
      assert (m + limit) % limit == m % limit by { AddOne(m, limit); }
    }
  }

  lemma AddOne(m: nat, limit: nat)
    requires limit > 0
    ensures (m + limit) % limit == m % limit
  {
    var q, r := m / limit, m % limit;
    assert m + limit == limit * (q + 1) + r by { assert m == limit * q + r; }
    RemainderIs(m + limit, limit, q + 1, r);
  }

  lemma RemainderIs(n: nat, d: nat, q: nat, r: nat)
    requires d > 0 && n == d * q + r && r < d
    ensures n % d == r
  {
    var e := n / d;
    assert n == d * e + n % d;
    if e < q {
      Apart(d, e, q);
      assert false;
    } else if q < e {
      Apart(d, q, e);
      assert false;
    }
  }

  lemma Apart(d: nat, a: nat, b: nat)
    requires a < b
    ensures d * a + d <= d * b
  {
    assert d * b == d * a + d * (b - a);
    assert d * (b - a) == d + d * (b - a - 1);
  }

  /** One more byte. */
  lemma {:induction false} MoreIs(b: seq<Byte>, x: Byte)
    ensures GroupSum(b + [x]) == GroupSum(b) + x % 128 * Power128(|b|)
  {
    var all := b + [x];
    if b == [] {
      assert all[1..] == [];
    } else {
      MoreIs(b[1..], x);
      assert all[1..] == b[1..] + [x];
      Regroup(x % 128, Power128(|b| - 1), GroupSum(b[1..]));
    }
  }

  lemma Regroup(digit: nat, power: nat, sum: nat)
    ensures 128 * (sum + digit * power) == 128 * sum + digit * (128 * power)
  {
  }

  lemma {:induction false} SumMore(b: seq<Byte>, x: Byte, result: nat, limit: nat)
    requires limit > 0 && result == GroupSum(b) % limit
    ensures (result + x % 128 * Power128(|b|)) % limit == GroupSum(b + [x]) % limit
  {
    var more: nat := x % 128 * Power128(|b|);
    MoreIs(b, x);
    AddMod(GroupSum(b), more, limit);
  }

  /** What an encoder writes is such groups, and they make its number. */
  lemma {:induction false} VarintGroups(v: nat)
    ensures VarintEnds(Varint(v), 0, |Varint(v)|) && GroupSum(Varint(v)) == v
  {
    if v >= 128 {
      var b := Varint(v / 128);
      VarintGroups(v / 128);
      assert Varint(v) == [128 + v % 128] + b;
      assert Varint(v)[1..] == b;
    }
  }

  lemma {:induction false} VarintLength(v: nat, groups: nat)
    requires v < Power128(groups) && groups > 0
    ensures |Varint(v)| <= groups
  {
    if v >= 128 {
      assert groups > 1;
      VarintLength(v / 128, groups - 1);
    }
  }

  lemma {:induction false} VarintThere(input: seq<Byte>, pos: nat, v: nat)
    requires Holds(input, pos, Varint(v))
    ensures VarintEnds(input, pos, pos + |Varint(v)|) && GroupSum(input[pos..pos + |Varint(v)|]) == v
  {
    var b := Varint(v);
    VarintGroups(v);
    HoldsSlice(input, pos, b);
    forall i | 0 <= i < |b| ensures input[pos + i] == b[i] { HoldsAt(input, pos, b, i); }
    forall i | pos <= i < pos + |b| - 1 ensures input[i] >= 128 { assert input[pos + (i - pos)] == b[i - pos]; }
    assert input[pos + (|b| - 1)] == b[|b| - 1];
  }

  /** What was read is what was written. */
  lemma {:induction false} ReadBack(input: seq<Byte>, pos: nat, v: nat, groups: nat, limit: nat, ok: bool, value: nat, end: nat)
    requires v < limit <= Power128(groups) && groups > 0 && Holds(input, pos, Varint(v))
    requires ok ==> VarintEnds(input, pos, end) && value == GroupSum(input[pos..end]) % limit
    requires !ok ==> forall e: nat :: VarintEnds(input, pos, e) ==> e - pos > groups
    ensures ok && value == v && end == pos + |Varint(v)|
  {
    VarintThere(input, pos, v);
    VarintLength(v, groups);
    if ok {
      VarintEndsOnce(input, pos, end, pos + |Varint(v)|);
      SmallMod(v, limit);
    }
  }

  /**
   * GetVarint32Ptr and GetVarint64Ptr, for `groups` groups at most and numbers below `limit`: any groups are
   * accepted that end in time; so what an encoder wrote comes back, and the position moves past it.
   */
  method GetVarint(input: seq<Byte>, pos: nat, groups: nat, limit: nat, ghost v: nat)
      returns (ok: bool, value: nat, end: nat)
    requires pos <= |input| && limit > 0 && groups > 0
    ensures ok ==> value < limit && pos < end <= |input|
    ensures !ok ==> end == pos
    ensures ok ==> VarintEnds(input, pos, end) && end - pos <= groups && value == GroupSum(input[pos..end]) % limit
    ensures !ok ==> forall e: nat :: VarintEnds(input, pos, e) ==> e - pos > groups
    ensures v < limit <= Power128(groups) && Holds(input, pos, Varint(v)) ==> ok && value == v && end == pos + |Varint(v)|
  {
    ok, value, end := ReadVarint(input, pos, groups, limit);
    if v < limit <= Power128(groups) && Holds(input, pos, Varint(v)) {
      ReadBack(input, pos, v, groups, limit, ok, value, end);
    }
  }

  method ReadVarint(input: seq<Byte>, pos: nat, groups: nat, limit: nat) returns (ok: bool, value: nat, end: nat)
    requires pos <= |input| && limit > 0
    ensures ok ==> value < limit && VarintEnds(input, pos, end) && end - pos <= groups
    ensures ok ==> value == GroupSum(input[pos..end]) % limit
    ensures !ok ==> end == pos && forall e: nat :: VarintEnds(input, pos, e) ==> e - pos > groups
  {
    var result: nat, shift: nat, i: nat, p: nat := 0, 1, 0, pos;
    assert input[pos..pos] == [] && GroupSum([]) == 0;
    while i < groups && p < |input|
      invariant pos <= p <= |input| && i <= groups && shift == Power128(i) && p == pos + i
      invariant (forall j :: pos <= j < p ==> input[j] >= 128) && result == GroupSum(input[pos..p]) % limit
    {
      var byte := input[p];
      NextGroup(input, pos, p, i, result, limit);
      p := p + 1;
      result := Joining(result, byte, shift, limit);
      if byte < 128 {
        return true, result, p;
      }
      shift := shift * 128;
      i := i + 1;
    }
    forall e: nat | VarintEnds(input, pos, e) ensures e - pos > groups { assert e > p; }
    return false, 0, pos;
  }

  /** The number with seven more bits. */
  function Joining(result: nat, byte: Byte, shift: nat, limit: nat): (r: nat)
    requires limit > 0
    ensures r < limit
  {
    (result + byte % 128 * shift) % limit
  }

  lemma {:induction false} NextGroup(input: seq<Byte>, pos: nat, p: nat, i: nat, result: nat, limit: nat)
    requires pos <= p < |input| && i == p - pos && limit > 0 && result == GroupSum(input[pos..p]) % limit
    ensures Joining(result, input[p], Power128(i), limit) == GroupSum(input[pos..p + 1]) % limit
  {
    SumMore(input[pos..p], input[p], result, limit);
    assert input[pos..p] + [input[p]] == input[pos..p + 1];
  }

  lemma SmallMod(n: nat, limit: nat)
    requires limit > 0
    ensures n < limit ==> n % limit == n
  {
  }

  lemma Powers()
    ensures Power128(5) >= WORDS && Power128(10) >= DWORDS
  {
    assert Power128(5) == 0x8_0000_0000;
    assert Power128(10) == 128 * 128 * 128 * 128 * 128 * Power128(5);
  }

  /** From `pos` to `end` there is the number `n`, read as one of 32 bits; of what is longer the low bits count. */
  ghost predicate Number32At(input: seq<Byte>, pos: nat, end: nat, n: nat) {
    VarintEnds(input, pos, end) && end - pos <= 5 && n == GroupSum(input[pos..end]) % WORDS
  }

  ghost predicate Number64At(input: seq<Byte>, pos: nat, end: nat, n: nat) {
    VarintEnds(input, pos, end) && end - pos <= 10 && n == GroupSum(input[pos..end]) % DWORDS
  }

  lemma Number32Once(input: seq<Byte>, pos: nat, a: nat, m: nat, b: nat, n: nat)
    requires Number32At(input, pos, a, m) && Number32At(input, pos, b, n)
    ensures a == b && m == n
  {
    VarintEndsOnce(input, pos, a, b);
  }

  lemma Number64Once(input: seq<Byte>, pos: nat, a: nat, m: nat, b: nat, n: nat)
    requires Number64At(input, pos, a, m) && Number64At(input, pos, b, n)
    ensures a == b && m == n
  {
    VarintEndsOnce(input, pos, a, b);
  }

  method GetVarint32(input: seq<Byte>, pos: nat, ghost v: nat) returns (ok: bool, value: nat, end: nat)
    requires pos <= |input|
    ensures ok ==> value < WORDS && pos < end <= |input|
    ensures !ok ==> end == pos
    ensures ok ==> Number32At(input, pos, end, value)
    ensures !ok ==> forall e: nat, n: nat :: !Number32At(input, pos, e, n)
    ensures v < WORDS && Holds(input, pos, Varint(v)) ==> ok && value == v && end == pos + |Varint(v)|
  {
    Powers();
    ok, value, end := GetVarint(input, pos, 5, WORDS, v);
  }

  method GetVarint64(input: seq<Byte>, pos: nat, ghost v: nat) returns (ok: bool, value: nat, end: nat)
    requires pos <= |input|
    ensures ok ==> value < DWORDS && pos < end <= |input|
    ensures !ok ==> end == pos
    ensures ok ==> Number64At(input, pos, end, value)
    ensures !ok ==> forall e: nat, n: nat :: !Number64At(input, pos, e, n)
    ensures v < DWORDS && Holds(input, pos, Varint(v)) ==> ok && value == v && end == pos + |Varint(v)|
  {
    Powers();
    ok, value, end := GetVarint(input, pos, 10, DWORDS, v);
  }

  /** PutLengthPrefixedSlice. */
  function Prefixed(s: seq<Byte>): seq<Byte> {
    Varint(|s|) + s
  }

  /** Bytes with their number in front. */
  ghost predicate Delimited(input: seq<Byte>, pos: nat, end: nat, body: seq<Byte>) {
    exists m: nat :: DelimitedAt(input, pos, m, end, body)
  }

  ghost predicate DelimitedAt(input: seq<Byte>, pos: nat, m: nat, end: nat, body: seq<Byte>) {
    Number32At(input, pos, m, |body|) && m + |body| == end <= |input| && input[m..end] == body
  }

  lemma DelimitedOnce(input: seq<Byte>, pos: nat, a: nat, b: seq<Byte>, c: nat, d: seq<Byte>)
    requires Delimited(input, pos, a, b) && Delimited(input, pos, c, d)
    ensures a == c && b == d
  {
    var m, n: nat :| DelimitedAt(input, pos, m, a, b) && DelimitedAt(input, pos, n, c, d);
    Number32Once(input, pos, m, |b|, n, |d|);
  }

  method GetLengthPrefixedSlice(input: seq<Byte>, pos: nat, ghost s: seq<Byte>)
      returns (ok: bool, slice: seq<Byte>, end: nat)
    requires pos <= |input|
    ensures ok ==> pos < end <= |input| && Delimited(input, pos, end, slice)
    ensures !ok ==> end >= pos && forall e: nat, b: seq<Byte> :: !Delimited(input, pos, e, b)
    ensures |s| < WORDS && Holds(input, pos, Prefixed(s)) ==> ok && slice == s && end == pos + |Prefixed(s)|
  {
    ghost var good := |s| < WORDS && Holds(input, pos, Prefixed(s));
    if good { HoldsParts(input, pos, Varint(|s|), s); }
    var length;
    ok, length, end := GetVarint32(input, pos, |s|);
    slice := [];
    if ok && length <= |input| - end {
      slice := input[end..end + length];
      assert DelimitedAt(input, pos, end, end + length, slice);
      end := end + length;
    } else {
      if ok { TooLong(input, pos, end, length); }
      ok := false;
    }
  }

  lemma TooLong(input: seq<Byte>, pos: nat, m: nat, length: nat)
    requires Number32At(input, pos, m, length) && m + length > |input|
    ensures forall e: nat, b: seq<Byte> :: !Delimited(input, pos, e, b)
  {
    forall e: nat, b: seq<Byte> ensures !Delimited(input, pos, e, b) {
      forall k: nat ensures !DelimitedAt(input, pos, k, e, b) {
        if Number32At(input, pos, k, |b|) { Number32Once(input, pos, m, length, k, |b|); }
      }
    }
  }

  // Parts one after the other

  /** The first `k` parts, joined. */
  function Joined(parts: seq<seq<Byte>>, k: nat): seq<Byte>
    requires k <= |parts|
  {
    if k == 0 then [] else Joined(parts, k - 1) + parts[k - 1]
  }

  lemma {:induction false} JoinedSame(a: seq<seq<Byte>>, b: seq<seq<Byte>>, k: nat)
    requires k <= |a| && a <= b
    ensures Joined(b, k) == Joined(a, k)
  {
    if k > 0 {
      JoinedSame(a, b, k - 1);
    }
  }

  lemma {:induction false} JoinedBoth(a: seq<seq<Byte>>, b: seq<seq<Byte>>, both: seq<seq<Byte>>, k: nat, m: nat, n: nat)
    requires both == a + b && k == |a| && m <= |b| && n == k + m
    ensures Joined(both, n) == Joined(a, k) + Joined(b, m)
  {
    if m == 0 {
      JoinedSame(a, both, n);
    } else {
      JoinedBoth(a, b, both, k, m - 1, n - 1);
      assert both[n - 1] == b[m - 1];
      Associate(Joined(a, k), Joined(b, m - 1), b[m - 1]);
    }
  }

  lemma Associate<T>(x: seq<T>, y: seq<T>, z: seq<T>)
    ensures (x + y) + z == x + (y + z)
  {
  }

  lemma {:induction false} JoinedPrefix(parts: seq<seq<Byte>>, k: nat, n: nat)
    requires k <= n <= |parts|
    ensures Joined(parts, k) <= Joined(parts, n)
  {
    if k < n {
      JoinedPrefix(parts, k, n - 1);
    }
  }

  /** Where the k-th part is. */
  lemma {:induction false} PartAt(parts: seq<seq<Byte>>, k: nat)
    requires k < |parts|
    ensures Holds(Joined(parts, |parts|), |Joined(parts, k)|, parts[k])
  {
    JoinedPrefix(parts, k + 1, |parts|);
    PrefixHolds(Joined(parts, |parts|), Joined(parts, k), parts[k]);
  }

  lemma PrefixHolds(s: seq<Byte>, a: seq<Byte>, b: seq<Byte>)
    requires a + b <= s
    ensures Holds(s, |a|, b)
  {
    assert (a + b)[|a|..] == b;
  }

  lemma HoldsMore(input: seq<Byte>, more: seq<Byte>, pos: nat, part: seq<Byte>)
    requires Holds(input, pos, part) && input <= more
    ensures Holds(more, pos, part)
  {
    assert more[pos..][..|part|] == input[pos..][..|part|];
  }
}
