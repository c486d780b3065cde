/**
 * CRC32C (util/crc32c.cc): the four-lane computation of Extend against the definition by single bits.
 * A machine word is the list of its bits, the lowest first: shifts are slices, and reading a word in
 * little-endian order joins bytes. The polynomial is that of section 12.1 of RFC 3720, reflected.
 */
module Crc32c {
  type Byte = b: seq<bool> | |b| == 8 witness None(8)
  type Word = w: seq<bool> | |w| == 32 witness None(32)

  function None(n: nat): (r: seq<bool>)
    ensures |r| == n && forall i :: 0 <= i < n ==> !r[i]
  {
    seq(n, _ => false)
  }

  function Xor(a: seq<bool>, b: seq<bool>): (r: seq<bool>)
    requires |a| == |b|
    ensures |r| == |a| && forall i :: 0 <= i < |r| ==> r[i] == (a[i] != b[i])
  {
    seq(|a|, i requires 0 <= i < |a| => a[i] != b[i])
  }

  /** The bits of 0x82f63b78. */
  const POLYNOMIAL: Word :=
    [false, false, false, true, true, true, true, false, true, true, false, true, true, true, false, false,
     false, true, true, false, true, true, true, true, false, true, false, false, false, false, false, true]

  /** 0xffffffff. */
  const ONES: Word :=
    [true, true, true, true, true, true, true, true, true, true, true, true, true, true, true, true,
     true, true, true, true, true, true, true, true, true, true, true, true, true, true, true, true]

  /** The register advanced by one zero bit. */
  function Bit(l: Word): Word {
    var shifted := l[1..] + [false];
    if l[0] then Xor(shifted, POLYNOMIAL) else shifted
  }

  /** The register advanced by `n` zero bits. */
  function Zeros(l: Word, n: nat): Word {
    if n == 0 then l else Bit(Zeros(l, n - 1))
  }

  /** A byte, as a word. */
  function Widen(b: Byte): Word {
    b + None(24)
  }

  /** The register after the first `n` bytes of `data`, a byte at a time. */
  function Fold(l: Word, data: seq<Byte>, n: nat): Word
    requires n <= |data|
  {
    if n == 0 then l else Zeros(Xor(Fold(l, data, n - 1), Widen(data[n - 1])), 8)
  }

  /** The checksum of a string with a prefix of checksum `crc` and the rest `data`. */
  function Checksum(crc: Word, data: seq<Byte>): Word {
    Xor(Fold(Xor(crc, ONES), data, |data|), ONES)
  }

  // Advancing is linear

  lemma BitLinear(a: Word, b: Word)
    ensures Bit(Xor(a, b)) == Xor(Bit(a), Bit(b))
  {
  }

  lemma {:induction false} ZerosLinear(a: Word, b: Word, n: nat)
    ensures Zeros(Xor(a, b), n) == Xor(Zeros(a, n), Zeros(b, n))
  {
    if n > 0 {
      ZerosLinear(a, b, n - 1);
      BitLinear(Zeros(a, n - 1), Zeros(b, n - 1));
    }
  }

  lemma {:induction false} ZerosAdd(l: Word, m: nat, n: nat)
    ensures Zeros(l, m + n) == Zeros(Zeros(l, m), n)
  {
    if n > 0 {
      ZerosAdd(l, m, n - 1);
    }
  }

  /** Zero bits at the low end shift out without a trace. */
  lemma {:induction false} LowZeros(high: seq<bool>, n: nat)
    requires |high| + n == 32
    decreases n
    ensures Zeros(None(n) + high, n) == high + None(n)
  {
    if n > 0 {
      var l := None(n) + high;
      assert l == None(n - 1) + ([false] + high);
      LowZeros([false] + high, n - 1);
      assert ([false] + high + None(n - 1))[1..] + [false] == high + None(n);
    }
  }

  // Words of four bytes

  /** ReadUint32LE. */
  function ReadWord(data: seq<Byte>, i: nat): Word
    requires i + 4 <= |data|
  {
    var b0: seq<bool> := data[i];
    b0 + data[i + 1] + data[i + 2] + data[i + 3]
  }

  /** Taking a byte into the register leaves the later bytes to be taken in. */
  lemma Peel(l: Word, b: Byte, rest: seq<bool>)
    requires |rest| == 24
    ensures Zeros(Xor(l, b + rest), 8) == Xor(Zeros(Xor(l, Widen(b)), 8), rest + None(8))
  {
    assert Xor(l, b + rest) == Xor(Xor(l, Widen(b)), None(8) + rest);
    ZerosLinear(Xor(l, Widen(b)), None(8) + rest, 8);
    LowZeros(rest, 8);
  }

  lemma FoldWord(l: Word, data: seq<Byte>, i: nat)
    requires i + 4 <= |data|
    ensures Zeros(Xor(Fold(l, data, i), ReadWord(data, i)), 32) == Fold(l, data, i + 4)
  {
    var b0, b1, b2, b3 := data[i], data[i + 1], data[i + 2], data[i + 3];
    var l0 := Fold(l, data, i);
    var l1, l2, l3 := Fold(l, data, i + 1), Fold(l, data, i + 2), Fold(l, data, i + 3);
    var w := Xor(l0, ReadWord(data, i));
    assert ReadWord(data, i) == b0 + (b1 + b2 + b3);
    Peel(l0, b0, b1 + b2 + b3);
    assert (b1 + b2 + b3) + None(8) == b1 + (b2 + b3 + None(8));
    Peel(l1, b1, b2 + b3 + None(8));
    assert (b2 + b3 + None(8)) + None(8) == b2 + (b3 + None(16));
    Peel(l2, b2, b3 + None(16));
    assert (b3 + None(16)) + None(8) == Widen(b3);
    ZerosAdd(w, 8, 8);
    ZerosAdd(w, 16, 8);
    ZerosAdd(w, 24, 8);
  }

  // The tables

  /** kByteExtensionTable and kStrideExtensionTable0 to 3, by the byte they are indexed with. */
  datatype Tables = Tables(
    byte: Byte -> Word, stride0: Byte -> Word, stride1: Byte -> Word, stride2: Byte -> Word, stride3: Byte -> Word)

  /** The tables advance by one and by sixteen zero bytes. */
  ghost predicate Correct(t: Tables) {
    forall b: Byte ::
      && t.byte(b) == Zeros(Widen(b), 8)
      && t.stride3(b) == Zeros(b + None(24), 128)
      && t.stride2(b) == Zeros(None(8) + b + None(16), 128)
      && t.stride1(b) == Zeros(None(16) + b + None(8), 128)
      && t.stride0(b) == Zeros(None(24) + b, 128)
  }

  /** STEP1. */
  function Step1(t: Tables, l: Word, b: Byte): Word {
    Xor(t.byte(Xor(l[..8], b)), l[8..] + None(8))
  }

  /** STEP4, for a lane `crc` and the next word of its stride. */
  function Step4(t: Tables, crc: Word, next: Word): Word {
    Xor(Xor(Xor(Xor(next, t.stride3(crc[..8])), t.stride2(crc[8..16])), t.stride1(crc[16..24])), t.stride0(crc[24..]))
  }

  lemma Step1Is(t: Tables, l: Word, b: Byte)
    requires Correct(t)
    ensures Step1(t, l, b) == Zeros(Xor(l, Widen(b)), 8)
  {
    var c: Byte := Xor(l[..8], b);
    assert Xor(l, Widen(b)) == c + l[8..];
    assert c + l[8..] == Xor(Widen(c), None(8) + l[8..]);
    ZerosLinear(Widen(c), None(8) + l[8..], 8);
    LowZeros(l[8..], 8);
  }

  lemma FourBytes(w: Word)
    ensures w == Xor(Xor(w[..8] + None(24), None(8) + w[8..16] + None(16)),
                     Xor(None(16) + w[16..24] + None(8), None(24) + w[24..]))
  {
  }

  lemma {:induction false} Step4Is(t: Tables, crc: Word, next: Word)
    requires Correct(t)
    ensures Step4(t, crc, next) == Xor(next, Zeros(crc, 128))
  {
    var b0: Byte, b1: Byte, b2: Byte, b3: Byte := crc[..8], crc[8..16], crc[16..24], crc[24..];
    FourBytes(crc);
    ZerosOfFour(b0 + None(24), None(8) + b1 + None(16), None(16) + b2 + None(8), None(24) + b3, 128);
    XorMoves(next, t.stride3(b0), t.stride2(b1), t.stride1(b2), t.stride0(b3));
  }

  lemma {:induction false} ZerosOfFour(a: Word, b: Word, c: Word, d: Word, n: nat)
    ensures Zeros(Xor(Xor(a, b), Xor(c, d)), n) == Xor(Xor(Zeros(a, n), Zeros(b, n)), Xor(Zeros(c, n), Zeros(d, n)))
  {
    ZerosLinear(Xor(a, b), Xor(c, d), n);
    ZerosLinear(a, b, n);
    ZerosLinear(c, d, n);
  }

  lemma XorMoves(n: Word, a: Word, b: Word, c: Word, d: Word)
    ensures Xor(Xor(Xor(Xor(n, a), b), c), d) == Xor(n, Xor(Xor(a, b), Xor(c, d)))
  {
  }

  lemma {:induction false} ByteOfWord(t: Tables, w: Word)
    requires Correct(t)
    ensures Xor(w[8..] + None(8), t.byte(w[..8])) == Zeros(w, 8)
  {
    Step1Is(t, w, None(8));
    assert Xor(w[..8], None(8)) == w[..8] && Xor(w, Widen(None(8))) == w;
    assert Xor(w[8..] + None(8), t.byte(w[..8])) == Step1(t, w, None(8));
  }

  /** STEP4W. */
  method Step4W(t: Tables, lane: Word, l: Word) returns (r: Word)
    requires Correct(t)
    ensures r == Zeros(Xor(lane, l), 32)
  {
    var w: Word := Xor(lane, l);
    ghost var w0 := w;
    for i := 0 to 4
      invariant w == Zeros(w0, 8 * i)
    {
      ByteOfWord(t, w);
      ZerosAdd(w0, 8 * i, 8);
      w := Xor(w[8..] + None(8), t.byte(w[..8]));
    }
    r := w;
  }

  // The lanes

  /** The register that four lanes stand for. */
  ghost function Combined(c0: Word, c1: Word, c2: Word, c3: Word): Word {
    Zeros(Xor(Zeros(Xor(Zeros(Xor(Zeros(c0, 32), c1), 32), c2), 32), c3), 32)
  }

  /** The first lane moves behind the others after sixteen zero bytes. */
  lemma {:induction false} CombinedFirst(c0: Word, c1: Word, c2: Word, c3: Word)
    ensures Combined(c0, c1, c2, c3) == Xor(Zeros(Xor(Zeros(Xor(Zeros(c1, 32), c2), 32), c3), 32), Zeros(c0, 128))
  {
    var a1: Word, b1 := Zeros(c0, 32), c1;
    var a2: Word, b2: Word := Zeros(a1, 32), Xor(Zeros(c1, 32), c2);
    var a3: Word, b3: Word := Zeros(a2, 32), Xor(Zeros(b2, 32), c3);
    ZerosLinear(a1, b1, 32);
    assert Xor(Zeros(Xor(a1, b1), 32), c2) == Xor(a2, b2);
    ZerosLinear(a2, b2, 32);
    assert Xor(Zeros(Xor(a2, b2), 32), c3) == Xor(a3, b3);
    ZerosLinear(a3, b3, 32);
    ZerosAdd(c0, 32, 32);
    ZerosAdd(c0, 64, 32);
    ZerosAdd(c0, 96, 32);
    assert Xor(Zeros(a3, 32), Zeros(b3, 32)) == Xor(Zeros(b3, 32), Zeros(a3, 32));
  }

  /** Taking a word into the first lane and moving it to the end takes the word into the register. */
  lemma {:induction false} TakeWord(c0: Word, c1: Word, c2: Word, c3: Word, w: Word)
    ensures Combined(c1, c2, c3, Xor(w, Zeros(c0, 128))) == Zeros(Xor(Combined(c0, c1, c2, c3), w), 32)
  {
    CombinedFirst(c0, c1, c2, c3);
    var rest := Zeros(Xor(Zeros(Xor(Zeros(c1, 32), c2), 32), c3), 32);
    assert Xor(rest, Xor(w, Zeros(c0, 128))) == Xor(Xor(rest, Zeros(c0, 128)), w);
  }

  /** STEP4(0) and the rotation of the lanes. */
  lemma WordStep(t: Tables, c0: Word, c1: Word, c2: Word, c3: Word, l: Word, data: seq<Byte>, p: nat)
    requires Correct(t) && p + 4 <= |data| && Combined(c0, c1, c2, c3) == Fold(l, data, p)
    ensures Combined(c1, c2, c3, Step4(t, c0, ReadWord(data, p))) == Fold(l, data, p + 4)
  {
    Step4Is(t, c0, ReadWord(data, p));
    TakeWord(c0, c1, c2, c3, ReadWord(data, p));
    FoldWord(l, data, p);
  }

  /** STEP16. */
  lemma SwathStep(t: Tables, c0: Word, c1: Word, c2: Word, c3: Word, l: Word, data: seq<Byte>, p: nat)
    requires Correct(t) && p + 16 <= |data| && Combined(c0, c1, c2, c3) == Fold(l, data, p)
    ensures Combined(Step4(t, c0, ReadWord(data, p)), Step4(t, c1, ReadWord(data, p + 4)),
                     Step4(t, c2, ReadWord(data, p + 8)), Step4(t, c3, ReadWord(data, p + 12))) == Fold(l, data, p + 16)
  {
    var d0, d1 := Step4(t, c0, ReadWord(data, p)), Step4(t, c1, ReadWord(data, p + 4));
    var d2 := Step4(t, c2, ReadWord(data, p + 8));
    WordStep(t, c0, c1, c2, c3, l, data, p);
    WordStep(t, c1, c2, c3, d0, l, data, p + 4);
    WordStep(t, c2, c3, d0, d1, l, data, p + 8);
    WordStep(t, c3, d0, d1, d2, l, data, p + 12);
  }

  /** Loading the first sixteen bytes into the lanes. */
  lemma LanesStart(l: Word, data: seq<Byte>, p: nat)
    requires p + 16 <= |data|
    ensures Combined(Xor(ReadWord(data, p), Fold(l, data, p)), ReadWord(data, p + 4), ReadWord(data, p + 8),
                     ReadWord(data, p + 12)) == Fold(l, data, p + 16)
  {
    assert Xor(ReadWord(data, p), Fold(l, data, p)) == Xor(Fold(l, data, p), ReadWord(data, p));
    FoldWord(l, data, p);
    FoldWord(l, data, p + 4);
    FoldWord(l, data, p + 8);
    FoldWord(l, data, p + 12);
  }

  // Extend

  /** RoundUp<4>. */
  function RoundUp(address: nat): (r: nat)
    ensures address <= r < address + 4 && r % 4 == 0
  {
    (address + 3) / 4 * 4
  }

  method Load(l: Word, data: seq<Byte>, p: nat, ghost l0: Word)
      returns (crc0: Word, crc1: Word, crc2: Word, crc3: Word)
    requires p + 16 <= |data| && l == Fold(l0, data, p)
    ensures Combined(crc0, crc1, crc2, crc3) == Fold(l0, data, p + 16)
  {
    LanesStart(l0, data, p);
    crc0 := Xor(ReadWord(data, p), l);
    crc1, crc2, crc3 := ReadWord(data, p + 4), ReadWord(data, p + 8), ReadWord(data, p + 12);
  }

  method Step16(t: Tables, c0: Word, c1: Word, c2: Word, c3: Word, data: seq<Byte>, p: nat, ghost l: Word)
      returns (crc0: Word, crc1: Word, crc2: Word, crc3: Word)
    requires Correct(t) && p + 16 <= |data| && Combined(c0, c1, c2, c3) == Fold(l, data, p)
    ensures Combined(crc0, crc1, crc2, crc3) == Fold(l, data, p + 16)
  {
    SwathStep(t, c0, c1, c2, c3, l, data, p);
    crc0 := Step4(t, c0, ReadWord(data, p));
    crc1 := Step4(t, c1, ReadWord(data, p + 4));
    crc2 := Step4(t, c2, ReadWord(data, p + 8));
    crc3 := Step4(t, c3, ReadWord(data, p + 12));
  }

  /** One word into the first lane, which then goes to the end. */
  method StepWord(t: Tables, c0: Word, c1: Word, c2: Word, c3: Word, data: seq<Byte>, p: nat, ghost l: Word)
      returns (crc0: Word, crc1: Word, crc2: Word, crc3: Word)
    requires Correct(t) && p + 4 <= |data| && Combined(c0, c1, c2, c3) == Fold(l, data, p)
    ensures Combined(crc0, crc1, crc2, crc3) == Fold(l, data, p + 4)
  {
    WordStep(t, c0, c1, c2, c3, l, data, p);
    var tmp := Step4(t, c0, ReadWord(data, p));
    crc0, crc1, crc2, crc3 := c1, c2, c3, tmp;
  }

  /** The lanes over the data from `p` on, as long as whole words are left. */
  method Lanes(t: Tables, l: Word, data: seq<Byte>, start: nat, ghost l0: Word) returns (r: Word, p: nat)
    requires Correct(t) && start + 16 <= |data| && l == Fold(l0, data, start)
    ensures start <= p <= |data| < p + 4 && r == Fold(l0, data, p)
  {
    p := start;
    var e := |data|;
    var crc0, crc1, crc2, crc3 := Load(l, data, p, l0);
    p := p + 16;
    while e - p >= 16
      invariant start <= p <= e && Combined(crc0, crc1, crc2, crc3) == Fold(l0, data, p)
    {
      crc0, crc1, crc2, crc3 := Step16(t, crc0, crc1, crc2, crc3, data, p, l0);
      p := p + 16;
    }
    while e - p >= 4
      invariant start <= p <= e && Combined(crc0, crc1, crc2, crc3) == Fold(l0, data, p)
    {
      crc0, crc1, crc2, crc3 := StepWord(t, crc0, crc1, crc2, crc3, data, p, l0);
      p := p + 4;
    }
    r := Combine(t, crc0, crc1, crc2, crc3);
  }

  method Combine(t: Tables, crc0: Word, crc1: Word, crc2: Word, crc3: Word) returns (l: Word)
    requires Correct(t)
    ensures l == Combined(crc0, crc1, crc2, crc3)
  {
    l := None(32);
    assert Xor(crc0, l) == crc0;
    l := Step4W(t, crc0, l);
    assert Xor(crc1, l) == Xor(l, crc1);
    l := Step4W(t, crc1, l);
    assert Xor(crc2, l) == Xor(l, crc2);
    l := Step4W(t, crc2, l);
    assert Xor(crc3, l) == Xor(l, crc3);
    l := Step4W(t, crc3, l);
  }

  /** Extend, for data that starts at `address`. */
  method Extend(t: Tables, crc: Word, data: seq<Byte>, address: nat) returns (r: Word)
    requires Correct(t)
    ensures r == Checksum(crc, data)
  {
    var e, p := |data|, 0;
    var l: Word := Xor(crc, ONES);
    ghost var l0 := l;
    var x := RoundUp(address) - address;
    if x <= e {
      while p != x
        invariant 0 <= p <= x && l == Fold(l0, data, p)
        decreases x - p
      {
        Step1Is(t, l, data[p]);
        l := Step1(t, l, data[p]);
        p := p + 1;
      }
    }
    if e - p >= 16 {
      l, p := Lanes(t, l, data, p, l0);
    }
    while p != e
      invariant 0 <= p <= e && l == Fold(l0, data, p)
      decreases e - p
    {
      Step1Is(t, l, data[p]);
      l := Step1(t, l, data[p]);
      p := p + 1;
    }
    r := Xor(l, ONES);
  }

  // Extending twice

  lemma {:induction false} FoldAppend(l: Word, a: seq<Byte>, b: seq<Byte>, n: nat)
    requires n <= |b|
    ensures Fold(Fold(l, a, |a|), b, n) == Fold(l, a + b, |a| + n)
  {
    if n == 0 {
      FoldPrefix(l, a, b, |a|);
    } else {
      FoldAppend(l, a, b, n - 1);
    }
  }

  lemma {:induction false} FoldPrefix(l: Word, a: seq<Byte>, b: seq<Byte>, n: nat)
    requires n <= |a|
    ensures Fold(l, a, n) == Fold(l, a + b, n)
  {
    if n > 0 {
      FoldPrefix(l, a, b, n - 1);
    }
  }

  /** Extending the checksum of `a` by `b` gives the checksum of both. */
  lemma ChecksumAppend(crc: Word, a: seq<Byte>, b: seq<Byte>)
    ensures Checksum(Checksum(crc, a), b) == Checksum(crc, a + b)
  {
    var l := Fold(Xor(crc, ONES), a, |a|);
    assert Xor(Xor(l, ONES), ONES) == l;
    FoldAppend(Xor(crc, ONES), a, b, |b|);
  }

  /** There are such tables. */
  lemma TablesExist()
    ensures exists t :: Correct(t)
  {
    var t := Tables(
      (b: Byte) => Zeros(Widen(b), 8), (b: Byte) => Zeros(None(24) + b, 128), (b: Byte) => Zeros(None(16) + b + None(8), 128),
      (b: Byte) => Zeros(None(8) + b + None(16), 128), (b: Byte) => Zeros(b + None(24), 128));
    assert Correct(t);
  }
}
