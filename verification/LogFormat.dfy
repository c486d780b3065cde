/** The format of the write-ahead log (db/log_format.h) and its writer (db/log_writer.cc). */
module LogFormat {
  import opened Checksums

  type Record = seq<Byte>

  /** How the checksum of some data is stored: Checksums.Stored, though the format does not depend on which. */
  type Stamp = seq<Byte> -> FourBytes

  const BLOCK_SIZE: nat := 32768
  const HEADER_SIZE: nat := 7

  const ZERO_TYPE: Byte := 0
  const FULL_TYPE: Byte := 1
  const FIRST_TYPE: Byte := 2
  const MIDDLE_TYPE: Byte := 3
  const LAST_TYPE: Byte := 4

  /** A position in a block; BLOCK_SIZE is its end. */
  type Offset = o: nat | o <= BLOCK_SIZE

  function TypeOf(begin: bool, end: bool): Byte {
    if begin && end then FULL_TYPE else if begin then FIRST_TYPE else if end then LAST_TYPE else MIDDLE_TYPE
  }

  /** The masked checksum of type and payload, the length, the type. */
  function Header(stamp: Stamp, t: Byte, payload: seq<Byte>): (h: seq<Byte>)
    requires |payload| <= 0xffff
    ensures |h| == HEADER_SIZE
  {
    stamp([t] + payload) + [|payload| % 256, |payload| / 256, t]
  }

  /** Whether the rest of the block is too short for a header. */
  predicate BlockFull(off: Offset) {
    BLOCK_SIZE - off < HEADER_SIZE
  }

  /** Where in a block the next header goes. */
  function HeaderOffset(off: Offset): (o: Offset)
    ensures o + HEADER_SIZE <= BLOCK_SIZE
  {
    if BlockFull(off) then 0 else off
  }

  /** The zeros that fill the rest of a block. */
  function Trailer(off: Offset): seq<Byte> {
    seq(if BlockFull(off) then BLOCK_SIZE - off else 0, _ => 0)
  }

  /** How much of `left` bytes goes into the next fragment. */
  function FragmentLength(off: Offset, left: nat): (n: nat)
    ensures n <= left && HeaderOffset(off) + HEADER_SIZE + n <= BLOCK_SIZE
    ensures n < left ==> HeaderOffset(off) + HEADER_SIZE + n == BLOCK_SIZE
  {
    var avail := BLOCK_SIZE - HeaderOffset(off) - HEADER_SIZE;
    if left < avail then left else avail
  }

  /** The offset after the next fragment. */
  function NextOffset(off: Offset, left: nat): Offset {
    HeaderOffset(off) + HEADER_SIZE + FragmentLength(off, left)
  }

  /** The next fragment, with its header; `begin` says that the record starts here. */
  function Fragment(stamp: Stamp, off: Offset, data: seq<Byte>, begin: bool): (r: seq<Byte>)
    ensures |r| == HEADER_SIZE + FragmentLength(off, |data|)
  {
    var n := FragmentLength(off, |data|);
    Header(stamp, TypeOf(begin, n == |data|), data[..n]) + data[..n]
  }

  /** What is appended for `data` at offset `off`. */
  function Emit(stamp: Stamp, off: Offset, data: seq<Byte>, begin: bool): seq<Byte>
    decreases |data|, BLOCK_SIZE - off
  {
    var n := FragmentLength(off, |data|);
    Trailer(off) + Fragment(stamp, off, data, begin)
    + (if n < |data| then Emit(stamp, NextOffset(off, |data|), data[n..], false) else [])
  }

  /** The offset after that. */
  function OffsetAfter(off: Offset, left: nat): Offset
    decreases left, BLOCK_SIZE - off
  {
    var n := FragmentLength(off, left);
    if n < left then OffsetAfter(NextOffset(off, left), left - n) else NextOffset(off, left)
  }

  /** The file that holds the first `n` records, and the offset at its end. */
  function LogUpTo(stamp: Stamp, records: seq<Record>, n: nat): seq<Byte>
    requires n <= |records|
  {
    if n == 0 then []
    else LogUpTo(stamp, records, n - 1) + Emit(stamp, OffsetUpTo(records, n - 1), records[n - 1], true)
  }

  function OffsetUpTo(records: seq<Record>, n: nat): Offset
    requires n <= |records|
  {
    if n == 0 then 0 else OffsetAfter(OffsetUpTo(records, n - 1), |records[n - 1]|)
  }

  function LogOf(stamp: Stamp, records: seq<Record>): seq<Byte> {
    LogUpTo(stamp, records, |records|)
  }

  /** A shorter list of records gives a prefix of the file. */
  lemma {:induction false} LogPrefix(stamp: Stamp, records: seq<Record>, i: nat, n: nat)
    requires i <= n <= |records|
    ensures LogUpTo(stamp, records, i) <= LogUpTo(stamp, records, n)
  {
    if i < n {
      LogPrefix(stamp, records, i, n - 1);
    }
  }

  lemma {:induction false} LogSame(stamp: Stamp, records: seq<Record>, more: seq<Record>, n: nat)
    requires records <= more && n <= |records|
    ensures LogUpTo(stamp, more, n) == LogUpTo(stamp, records, n) && OffsetUpTo(more, n) == OffsetUpTo(records, n)
  {
    if n > 0 {
      LogSame(stamp, records, more, n - 1);
    }
  }

  /** A record of one byte is one whole fragment; a block with six bytes left is filled up, one with seven is not. */
  lemma FormatExamples(stamp: Stamp, a: Byte)
    ensures LogOf(stamp, [[a]]) == stamp([1, a]) + [1, 0, 1, a]
    ensures OffsetAfter(0, 32755) == 32762 && |Trailer(32762)| == 6 && Trailer(32762) == [0, 0, 0, 0, 0, 0]
    ensures OffsetAfter(0, 32754) == 32761 && Trailer(32761) == []
  {
    assert [a][..1] == [a] && [1] + [a] == [1, a];
    assert LogUpTo(stamp, [[a]], 0) == [] && Trailer(0) == [];
    assert Emit(stamp, 0, [a], true) == Header(stamp, 1, [a]) + [a];
  }

  /** With seven bytes left the first fragment is empty and the last one has the data. */
  lemma {:induction false} EmptyFragment(stamp: Stamp, a: Byte, off: Offset)
    requires off == 32761
    ensures Emit(stamp, off, [a], true) == stamp([2]) + [0, 0, 2] + (stamp([4, a]) + [1, 0, 4, a])
  {
    var next: Offset := off + 7;
    assert [a][..0] == [] && [a][0..] == [a] && [2] + [] == [2];
    LastByte(stamp, a, next);
    assert Emit(stamp, off, [a], true) == Header(stamp, 2, []) + Emit(stamp, next, [a], false);
  }

  lemma {:induction false} LastByte(stamp: Stamp, a: Byte, off: Offset)
    requires off == BLOCK_SIZE
    ensures Emit(stamp, off, [a], false) == stamp([4, a]) + [1, 0, 4, a]
  {
    assert [a][..1] == [a] && [4] + [a] == [4, a] && Trailer(off) == [];
    assert Emit(stamp, off, [a], false) == Header(stamp, 4, [a]) + [a];
  }

  // Files and offsets

  /** A file of `size` bytes ends at offset `off` of a block. */
  predicate InBlock(size: nat, off: Offset) {
    (size - off) % BLOCK_SIZE == 0
  }

  lemma InBlockMoves(size: nat, off: Offset, n: nat)
    requires InBlock(size, off) && off + n <= BLOCK_SIZE
    ensures InBlock(size + n, off + n)
  {
  }

  lemma InBlockSwitches(size: nat, off: Offset)
    requires InBlock(size, off)
    ensures InBlock(size + (BLOCK_SIZE - off), 0)
  {
  }

  lemma InBlockTrailer(size: nat, off: Offset)
    requires InBlock(size, off)
    ensures InBlock(size + |Trailer(off)|, HeaderOffset(off))
  {
    if BlockFull(off) { InBlockSwitches(size, off); }
  }

  lemma {:induction false} EmitInBlock(stamp: Stamp, size: nat, off: Offset, data: seq<Byte>, begin: bool)
    requires InBlock(size, off)
    ensures InBlock(size + |Emit(stamp, off, data, begin)|, OffsetAfter(off, |data|))
    decreases |data|, BLOCK_SIZE - off
  {
    var n := FragmentLength(off, |data|);
    InBlockTrailer(size, off);
    InBlockMoves(size + |Trailer(off)|, HeaderOffset(off), HEADER_SIZE + n);
    if n < |data| {
      EmitInBlock(stamp, size + |Trailer(off)| + HEADER_SIZE + n, NextOffset(off, |data|), data[n..], false);
    }
  }

  lemma {:induction false} LogInBlock(stamp: Stamp, records: seq<Record>, n: nat)
    requires n <= |records|
    ensures InBlock(|LogUpTo(stamp, records, n)|, OffsetUpTo(records, n))
  {
    if n > 0 {
      LogInBlock(stamp, records, n - 1);
      EmitInBlock(stamp, |LogUpTo(stamp, records, n - 1)|, OffsetUpTo(records, n - 1), records[n - 1], true);
    }
  }

  /** The start and the end of a block are the same place. */
  lemma {:induction false} SamePlace(stamp: Stamp, size: nat, a: Offset, b: Offset, data: seq<Byte>, begin: bool)
    requires InBlock(size, a) && InBlock(size, b)
    ensures Emit(stamp, a, data, begin) == Emit(stamp, b, data, begin)
    ensures OffsetAfter(a, |data|) == OffsetAfter(b, |data|)
  {
    OneOffset(size, a, b);
    StartIsEnd(stamp, data, begin);
  }

  lemma OneOffset(size: nat, a: Offset, b: Offset)
    requires InBlock(size, a) && InBlock(size, b)
    ensures a == b || (a == 0 && b == BLOCK_SIZE) || (a == BLOCK_SIZE && b == 0)
  {
  }

  lemma {:induction false} StartIsEnd(stamp: Stamp, data: seq<Byte>, begin: bool)
    ensures Emit(stamp, 0, data, begin) == Emit(stamp, BLOCK_SIZE, data, begin)
    ensures OffsetAfter(0, |data|) == OffsetAfter(BLOCK_SIZE, |data|)
  {
    assert FragmentLength(0, |data|) == FragmentLength(BLOCK_SIZE, |data|);
    assert NextOffset(0, |data|) == NextOffset(BLOCK_SIZE, |data|);
    assert Fragment(stamp, 0, data, begin) == Fragment(stamp, BLOCK_SIZE, data, begin);
    assert Trailer(0) == Trailer(BLOCK_SIZE);
  }

  // The writer

  ghost predicate IsStored(stamp: Stamp) {
    forall data {:trigger Stored(data)} :: stamp(data) == Stored(data)
  }

  /** The checksum of each type byte alone. */
  ghost predicate AreTypeCrcs(typeCrc: seq<Word>) {
    |typeCrc| == LAST_TYPE + 1 && forall t: Byte :: t < |typeCrc| ==> typeCrc[t] == Value([t])
  }

  method InitTypeCrc() returns (typeCrc: seq<Word>)
    ensures AreTypeCrcs(typeCrc)
  {
    typeCrc := [];
    for i := 0 to LAST_TYPE + 1
      invariant |typeCrc| == i && forall t: Byte :: t < i ==> typeCrc[t] == Value([t])
    {
      typeCrc := typeCrc + [Value([i])];
    }
  }

  class Writer {
    const typeCrc: seq<Word>
    var dest: seq<Byte>  // the file
    var blockOffset: Offset
    ghost const stamp: Stamp

    constructor (existing: seq<Byte>, ghost stamp: Stamp)
      requires IsStored(stamp)
      ensures Valid() && dest == existing && this.stamp == stamp
    {
      var crcs := InitTypeCrc();
      dest, blockOffset, typeCrc := existing, |existing| % BLOCK_SIZE, crcs;
      this.stamp := stamp;
    }

    ghost predicate Valid()
      reads this
    {
      InBlock(|dest|, blockOffset) && AreTypeCrcs(typeCrc) && IsStored(stamp)
    }

    /** The checksum as EmitPhysicalRecord computes it, from that of the type byte. */
    method Checksum(t: Byte, payload: seq<Byte>) returns (crc: FourBytes)
      requires AreTypeCrcs(typeCrc) && IsStored(stamp) && t <= LAST_TYPE
      ensures crc == stamp([t] + payload)
    {
      StoredInTwoSteps(t, payload);
      crc := EncodeFixed32(Mask(Extend(typeCrc[t], payload)));
    }

    /** The header as EmitPhysicalRecord formats it. */
    method FormatHeader(t: Byte, payload: seq<Byte>) returns (buf: seq<Byte>)
      requires AreTypeCrcs(typeCrc) && IsStored(stamp) && t <= LAST_TYPE && |payload| <= 0xffff
      ensures buf == Header(stamp, t, payload)
    {
      var crc := Checksum(t, payload);
      buf := crc + [|payload| % 256, |payload| / 256, t];
    }

    method EmitPhysicalRecord(t: Byte, payload: seq<Byte>)
      requires Valid() && blockOffset + HEADER_SIZE + |payload| <= BLOCK_SIZE && t <= LAST_TYPE
      modifies this
      ensures Valid() && dest == old(dest) + (Header(stamp, t, payload) + payload)
      ensures blockOffset == old(blockOffset) + HEADER_SIZE + |payload|
    {
      InBlockMoves(|dest|, blockOffset, HEADER_SIZE + |payload|);
      var buf := FormatHeader(t, payload);
      dest := dest + buf;
      dest := dest + payload;
      blockOffset := blockOffset + HEADER_SIZE + |payload|;
    }

    /** The start of the loop in AddRecord: leave a block in which no header fits. */
    method SwitchBlock()
      requires Valid()
      modifies this
      ensures Valid() && dest == old(dest) + Trailer(old(blockOffset)) && blockOffset == HeaderOffset(old(blockOffset))
    {
      var leftover := BLOCK_SIZE - blockOffset;
      if leftover < HEADER_SIZE {
        InBlockSwitches(|dest|, blockOffset);
        if leftover > 0 {
          dest := dest + seq(leftover, _ => 0);
        }
        blockOffset := 0;
      }
    }

    method AddRecord(record: Record)
      requires Valid()
      modifies this
      ensures Valid() && dest == old(dest) + Emit(stamp, old(blockOffset), record, true)
      ensures blockOffset == OffsetAfter(old(blockOffset), |record|)
    {
      var data, begin, more := record, true, true;
      ghost var whole, last := dest + Emit(stamp, blockOffset, record, true), OffsetAfter(blockOffset, |record|);
      while more
        invariant Valid()
        invariant whole == if more then dest + Emit(stamp, blockOffset, data, begin) else dest
        invariant last == if more then OffsetAfter(blockOffset, |data|) else blockOffset
        decreases more, |data|, BLOCK_SIZE - blockOffset
      {
        ghost var was, off := dest, blockOffset;
        SwitchBlock();
        var avail := BLOCK_SIZE - blockOffset - HEADER_SIZE;
        var length := if |data| < avail then |data| else avail;
        var end := |data| == length;
        var t := if begin && end then FULL_TYPE else if begin then FIRST_TYPE else if end then LAST_TYPE else MIDDLE_TYPE;
        EmitPhysicalRecord(t, data[..length]);
        EmitStep(stamp, was, off, data, begin, dest);
        data := data[length..];
        begin := false;
        more := |data| > 0;
      }
    }
  }

  /** One turn of the writer's loop. */
  lemma {:induction false} EmitStep(stamp: Stamp, was: seq<Byte>, off: Offset, data: seq<Byte>, begin: bool, now: seq<Byte>)
    requires var n := FragmentLength(off, |data|);
      now == was + Trailer(off) + (Header(stamp, TypeOf(begin, n == |data|), data[..n]) + data[..n])
    ensures var n := FragmentLength(off, |data|);
      was + Emit(stamp, off, data, begin) ==
      if n < |data| then now + Emit(stamp, NextOffset(off, |data|), data[n..], false) else now
  {
    var n := FragmentLength(off, |data|);
    var rest := if n < |data| then Emit(stamp, NextOffset(off, |data|), data[n..], false) else [];
    Regroup(was, Trailer(off), Fragment(stamp, off, data, begin), rest);
  }

  lemma Regroup<T>(a: seq<T>, b: seq<T>, c: seq<T>, d: seq<T>)
    ensures a + (b + c + d) == (a + b + c) + d
  {
  }

  /** Writers that take turns on one file write what a single writer would. */
  method Append(existing: seq<Byte>, ghost stamp: Stamp, ghost records: seq<Record>, record: Record)
      returns (file: seq<Byte>)
    requires IsStored(stamp) && existing == LogOf(stamp, records)
    ensures file == LogOf(stamp, records + [record])
  {
    var w := new Writer(existing, stamp);
    LogInBlock(stamp, records, |records|);
    SamePlace(stamp, |existing|, w.blockOffset, OffsetUpTo(records, |records|), record, true);
    w.AddRecord(record);
    file := w.dest;
    LogSame(stamp, records, records + [record], |records|);
  }
}
