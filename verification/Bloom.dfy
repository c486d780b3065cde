/** The Bloom filter (util/bloom.cc): it never denies a key it was built from. */
module Bloom {
  import opened Checksums

  type Key = seq<Byte>

  /** The bits of a filter and the number of probes stored with them. */
  datatype Filter = Filter(bits: seq<bool>, k: nat)

  /** Rotate right by 17 bits. */
  function Delta(h: Word): Word {
    h / 0x2_0000 + h % 0x2_0000 * 0x8000
  }

  /** The hash value of the j-th probe, with the wrap-around of 32 bits. */
  function Probe(h: Word, j: nat): Word {
    if j == 0 then h else (Probe(h, j - 1) + Delta(h)) % WORDS
  }

  /** Double hashing: each probe is as far from the one before. */
  lemma {:induction false} ProbeIs(h: Word, j: nat)
    ensures Probe(h, j) == (h + j * Delta(h)) % WORDS
  {
    if j > 0 {
      ProbeIs(h, j - 1);
      AddWraps(h + (j - 1) * Delta(h), Delta(h));
    }
  }

  lemma AddWraps(a: nat, b: nat)
    ensures (a % WORDS + b) % WORDS == (a + b) % WORDS
  {
  }

  /** As bits, the lowest first: the upper 15 come first, then the lower 17. */
  lemma {:induction false} DeltaRotates(h: Word, width: nat)
    requires width == 32
    ensures BitsOf(Delta(h), width) == BitsOf(h, width)[17..] + BitsOf(h, width)[..17]
  {
    assert Power2(17) == 0x2_0000 && Power2(15) == 0x8000 by { PowerAdds(8, 9); PowerAdds(8, 7); }
    PartsRotate(h % 0x2_0000, h / 0x2_0000, 17, 15, width);
  }

  lemma PartsRotate(low: nat, high: nat, a: nat, b: nat, width: nat)
    requires low < Power2(a) && high < Power2(b) && width == a + b
    ensures BitsOf(high + low * Power2(b), width) == BitsOf(low + high * Power2(a),
      width)[a..] + BitsOf(low + high * Power2(a), width)[..a]
  {
    BitsOfParts(low, high, a, b);
    BitsOfParts(high, low, b, a);
  }

  /** The bits of a number that is put together from two. */
  lemma {:induction false} BitsOfParts(low: nat, high: nat, a: nat, b: nat)
    requires low < Power2(a)
    ensures BitsOf(low + Power2(a) * high, a + b) == BitsOf(low, a) + BitsOf(high, b)
  {
    if a > 0 {
      BitsOfParts(low / 2, high, a - 1, b);
      Halve(low, Power2(a - 1), high);
    }
  }

  lemma Halve(low: nat, p: nat, high: nat)
    ensures (low + 2 * p * high) / 2 == low / 2 + p * high && (low + 2 * p * high) % 2 == low % 2
  {
    var q := p * high;
    assert 2 * p * high == 2 * q;
  }

  ghost predicate Set(bits: seq<bool>, h: Word, j: nat)
    requires |bits| > 0
  {
    bits[Probe(h, j) % |bits|]
  }

  ghost predicate Hits(h: Word, j: nat, size: nat, b: nat)
    requires size > 0
  {
    Probe(h, j) % size == b
  }

  function AtLeast(n: nat, least: nat): nat {
    if n < least then least else n
  }

  /** All probes of a key find their bit set. */
  ghost predicate AllSet(bits: seq<bool>, h: Word, k: nat)
    requires |bits| > 0
  {
    forall j {:trigger Set(bits, h, j)} :: 0 <= j < k ==> Set(bits, h, j)
  }

  /** `b` has at least the bits of `a`. */
  ghost predicate Covers(a: seq<bool>, b: seq<bool>) {
    |a| == |b| && forall i :: 0 <= i < |a| && a[i] ==> b[i]
  }

  lemma CoveredStay(a: seq<bool>, b: seq<bool>, h: Word, k: nat)
    requires |a| > 0 && Covers(a, b) && AllSet(a, h, k)
    ensures AllSet(b, h, k)
  {
    forall j | 0 <= j < k ensures Set(b, h, j) { assert Set(a, h, j); }
  }

  class BloomFilterPolicy {
    const bitsPerKey: nat
    const hash: Key -> Word
    const k: nat  // probes: bitsPerKey times about ln 2, from 1 to 30

    constructor (bitsPerKey: nat, hash: Key -> Word)
      ensures this.bitsPerKey == bitsPerKey && this.hash == hash && 1 <= k <= 30
      ensures 69 * bitsPerKey < 100 ==> k == 1
      ensures 100 <= 69 * bitsPerKey < 3100 ==> 100 * k <= 69 * bitsPerKey < 100 * (k + 1)
      ensures 69 * bitsPerKey >= 3100 ==> k == 30
    {
      this.bitsPerKey, this.hash := bitsPerKey, hash;
      var n := bitsPerKey * 69 / 100;
      k := if n < 1 then 1 else if n > 30 then 30 else n;
    }

    /** The j-th probe of a key is bit `b` of `size`. */
    ghost predicate ProbedBy(key: Key, size: nat, b: nat, j: nat) {
      size > 0 && j < k && Hits(hash(key), j, size, b)
    }

    ghost predicate Probed(keys: seq<Key>, n: nat, size: nat, b: nat)
      requires n <= |keys|
    {
      exists m, j :: 0 <= m < n && ProbedBy(keys[m], size, b, j)
    }

    /** Just the bits that some key probes are set, in a filter of at least 64 bits and of whole bytes. */
    method CreateFilter(keys: seq<Key>) returns (f: Filter)
      requires 1 <= k <= 30
      ensures f.k == k && |f.bits| % 8 == 0 && AtLeast(|keys| * bitsPerKey, 64) <= |f.bits| < AtLeast(|keys| * bitsPerKey, 64) + 8
      ensures forall key :: key in keys ==> AllSet(f.bits, hash(key), k)
      ensures forall i :: 0 <= i < |f.bits| && f.bits[i] ==> Probed(keys, |keys|, |f.bits|, i)
    {
      var wanted := |keys| * bitsPerKey;
      var size := ((if wanted < 64 then 64 else wanted) + 7) / 8 * 8;
      var bits: seq<bool> := seq(size, _ => false);
      for i := 0 to |keys|
        invariant |bits| == size
        invariant forall m :: 0 <= m < i ==> AllSet(bits, hash(keys[m]), k)
        invariant forall b :: 0 <= b < size && bits[b] ==> Probed(keys, i, size, b)
      {
        ghost var before := bits;
        bits := AddKey(bits, hash(keys[i]));
        forall m | 0 <= m < i + 1
          ensures AllSet(bits, hash(keys[m]), k)
        {
          if m < i { CoveredStay(before, bits, hash(keys[m]), k); }
        }
        forall b | 0 <= b < size && bits[b]
          ensures Probed(keys, i + 1, size, b)
        {
          if before[b] {
            var m, j :| 0 <= m < i && ProbedBy(keys[m], size, b, j);
            assert ProbedBy(keys[m], size, b, j);
          } else {
            var j :| 0 <= j < k && Hits(hash(keys[i]), j, size, b);
            assert ProbedBy(keys[i], size, b, j);
          }
        }
      }
      f := Filter(bits, k);
    }

    /** The inner loop of CreateFilter: one key by double hashing. */
    method AddKey(start: seq<bool>, h0: Word) returns (bits: seq<bool>)
      requires |start| > 0
      ensures Covers(start, bits) && AllSet(bits, h0, k)
      ensures forall b :: 0 <= b < |bits| && bits[b] && !start[b] ==> exists j :: 0 <= j < k && Hits(h0, j, |bits|, b)
    {
      bits := start;
      var h := h0;
      var delta := Delta(h);
      for j := 0 to k
        invariant Covers(start, bits) && h == Probe(h0, j)
        invariant AllSet(bits, h0, j)
        invariant forall b :: 0 <= b < |bits| && bits[b] && !start[b] ==> exists i :: 0 <= i < j && Hits(h0, i, |bits|, b)
      {
        assert Hits(h0, j, |bits|, h % |bits|);
        var bitpos := h % |bits|;
        var more := bits[bitpos := true];
        CoveredStay(bits, more, h0, j);
        assert Set(more, h0, j);
        bits := more;
        h := (h + delta) % WORDS;
      }
    }

    /** KeyMayMatch, for filters made with any number of probes. */
    method KeyMayMatch(key: Key, f: Filter) returns (may: bool)
      ensures |f.bits| > 0 && f.k <= 30 ==> may == AllSet(f.bits, hash(key), f.k)
      ensures f.k > 30 && |f.bits| > 0 ==> may
      ensures |f.bits| == 0 ==> !may
    {
      if |f.bits| == 0 {
        return false;
      }
      if f.k > 30 {
        return true;
      }
      var h := hash(key);
      var delta := Delta(h);
      for j := 0 to f.k
        invariant h == Probe(hash(key), j) && AllSet(f.bits, hash(key), j)
      {
        var bitpos := h % |f.bits|;
        if !f.bits[bitpos] {
          assert !Set(f.bits, hash(key), j);
          return false;
        }
        assert Set(f.bits, hash(key), j);
        h := (h + delta) % WORDS;
      }
      return true;
    }
  }
}
