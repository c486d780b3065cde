/**
 * The reader of the write-ahead log (db/log_reader.cc). Whatever prefix of a log file a crash leaves,
 * reading it gives the records that lie wholly inside and reports no corruption.
 */
module LogReader {
  import opened Checksums
  import opened LogFormat

  const EOF: nat := 5
  const BAD_RECORD: nat := 6

  /** Where the next fragment ends. */
  function FragmentEnd(pos: nat, off: Offset, left: nat): nat {
    pos + |Trailer(off)| + HEADER_SIZE + FragmentLength(off, left)
  }

  /** From `pos`, at offset `off` of a block, the log goes on with `data`, fragment by fragment. */
  ghost predicate Continues(stamp: Stamp, log: seq<Byte>, pos: nat, off: Offset, data: seq<Byte>, begin: bool)
    decreases |data|, BLOCK_SIZE - off
  {
    var n, end := FragmentLength(off, |data|), FragmentEnd(pos, off, |data|);
    && end <= |log| && log[pos + |Trailer(off)|..end] == Fragment(stamp, off, data, begin)
    && (n < |data| ==> Continues(stamp, log, end, NextOffset(off, |data|), data[n..], false))
  }

  /** Where a record ends. */
  ghost function RecordEnd(pos: nat, off: Offset, left: nat): nat
    decreases left, BLOCK_SIZE - off
  {
    var n, end := FragmentLength(off, left), FragmentEnd(pos, off, left);
    if n < left then RecordEnd(end, NextOffset(off, left), left - n) else end
  }

  // What is read of any file, whole or damaged

  /** A fragment of type `t` with this payload and a right checksum lies in the file, up to `end`. */
  ghost predicate FragmentAt(stamp: Stamp, file: seq<Byte>, end: nat, t: nat, payload: seq<Byte>) {
    && HEADER_SIZE + |payload| <= end <= |file| && |payload| <= 0xffff && t < 256
    && file[end - |payload| - HEADER_SIZE..end] == Header(stamp, t, payload) + payload
  }

  datatype Piece = Piece(end: nat, t: nat, payload: seq<Byte>) {
    function Start(): int {
      end - |payload| - HEADER_SIZE
    }
  }

  ghost predicate PieceAt(stamp: Stamp, file: seq<Byte>, p: Piece) {
    FragmentAt(stamp, file, p.end, p.t, p.payload)
  }

  /**
   * Reading ends at the end of the file. (A fragment of type 5, which no writer writes, ends it too if its checksum
   * is right: the reader takes its type for its own sign of the end.)
   */
  ghost predicate EndsAt(stamp: Stamp, file: seq<Byte>, pos: nat) {
    pos == |file| || exists payload :: FragmentAt(stamp, file, pos, EOF, payload)
  }

  /** Fragments of the file, one after the other, from `from` to `to`. */
  ghost predicate InOrder(stamp: Stamp, file: seq<Byte>, ps: seq<Piece>, from: nat, to: int) {
    if ps == [] then from <= to
    else
      var last := ps[|ps| - 1];
      PieceAt(stamp, file, last) && last.end <= to && InOrder(stamp, file, ps[..|ps| - 1], from, last.Start())
  }

  function Payloads(ps: seq<Piece>): seq<Byte> {
    if ps == [] then [] else Payloads(ps[..|ps| - 1]) + ps[|ps| - 1].payload
  }

  /** A first fragment and middle ones. */
  ghost predicate Begun(ps: seq<Piece>) {
    && ps != [] && ps[0].t == FIRST_TYPE as nat
    && forall i :: 0 < i < |ps| ==> ps[i].t == MIDDLE_TYPE as nat
  }

  /** A full fragment, or a first one, middle ones and a last one. */
  ghost predicate Complete(ps: seq<Piece>) {
    || (|ps| == 1 && ps[0].t == FULL_TYPE as nat)
    || (|ps| > 1 && Begun(ps[..|ps| - 1]) && ps[|ps| - 1].t == LAST_TYPE as nat)
  }

  /** The file holds the record between these positions, each of its fragments with a right checksum. */
  ghost predicate HoldsRecord(stamp: Stamp, file: seq<Byte>, from: nat, to: nat, record: Record) {
    exists ps :: InOrder(stamp, file, ps, from, to) && Complete(ps) && Payloads(ps) == record
  }

  /** The pieces of an unfinished record, with the next fragment. */
  function PiecesAfter(ps: seq<Piece>, p: Piece): seq<Piece> {
    if p.t == MIDDLE_TYPE as nat || p.t == LAST_TYPE as nat then ps + [p] else [p]
  }

  /** `scratch` is what the pieces hold, when a record is being read. */
  ghost predicate Held(stamp: Stamp, file: seq<Byte>, ps: seq<Piece>, from: nat, to: nat, scratch: seq<Byte>,
                       inFragmentedRecord: bool) {
    inFragmentedRecord ==> InOrder(stamp, file, ps, from, to) && Begun(ps) && Payloads(ps) == scratch
  }

  /** Taking in a fragment that is in the file. */
  lemma TakePiece(stamp: Stamp, file: seq<Byte>, ps: seq<Piece>, from: nat, pos: nat, to: nat, scratch: seq<Byte>,
                  inFragmentedRecord: bool, t: nat, fragment: seq<Byte>)
    requires Held(stamp, file, ps, from, pos, scratch, inFragmentedRecord) && from <= pos <= to
    requires t != EOF && t != BAD_RECORD ==>
      FragmentAt(stamp, file, to, t, fragment) && pos <= Piece(to, t, fragment).Start()
    ensures var step, ps2 := Take(scratch, inFragmentedRecord, t, fragment), PiecesAfter(ps, Piece(to, t, fragment));
      && (!step.done ==> Held(stamp, file, ps2, from, to, step.scratch, step.inFragmentedRecord))
      && (step.done && step.ok ==> HoldsRecord(stamp, file, from, to, step.scratch))
  {
    var step, p := Take(scratch, inFragmentedRecord, t, fragment), Piece(to, t, fragment);
    var ps2 := PiecesAfter(ps, p);
    if t == FULL_TYPE as nat || t == FIRST_TYPE as nat {
      OnePiece(stamp, file, p, from, to);
    } else if inFragmentedRecord && (t == MIDDLE_TYPE as nat || t == LAST_TYPE as nat) {
      OnePieceMore(stamp, file, ps, p, from, pos, to);
    }
    if step.done && step.ok {
      assert InOrder(stamp, file, ps2, from, to) && Complete(ps2) && Payloads(ps2) == step.scratch;
    }
  }

  lemma {:induction false} OnePiece(stamp: Stamp, file: seq<Byte>, p: Piece, from: nat, to: nat)
    requires PieceAt(stamp, file, p) && from <= p.Start() && p.end == to
    ensures InOrder(stamp, file, [p], from, to) && Payloads([p]) == p.payload
  {
    assert [p][..0] == [];
  }

  lemma {:induction false} OnePieceMore(stamp: Stamp, file: seq<Byte>, ps: seq<Piece>, p: Piece, from: nat, pos: nat, to: nat)
    requires InOrder(stamp, file, ps, from, pos) && ps != [] && PieceAt(stamp, file, p)
    requires pos <= p.Start() && p.end == to
    ensures InOrder(stamp, file, ps + [p], from, to) && Payloads(ps + [p]) == Payloads(ps) + p.payload
    ensures (ps + [p])[..|ps|] == ps
  {
    assert (ps + [p])[..|ps|] == ps;
    assert InOrder(stamp, file, ps, from, p.Start());
  }

  /** What a turn of ReadRecord's loop leaves: a record when `done` and `ok`, else what is read of one. */
  datatype Step = Step(done: bool, ok: bool, scratch: seq<Byte>, inFragmentedRecord: bool, dropped: bool)

  /** The switch in ReadRecord; `dropped` says that a corruption is reported. */
  function Take(scratch: seq<Byte>, inFragmentedRecord: bool, t: nat, fragment: seq<Byte>): Step {
    if t == FULL_TYPE as nat then
      Step(true, true, fragment, false, inFragmentedRecord && scratch != [])
    else if t == FIRST_TYPE as nat then
      Step(false, false, fragment, true, inFragmentedRecord && scratch != [])
    else if t == MIDDLE_TYPE as nat then
      if inFragmentedRecord then Step(false, false, scratch + fragment, true, false)
      else Step(false, false, scratch, false, true)
    else if t == LAST_TYPE as nat then
      if inFragmentedRecord then Step(true, true, scratch + fragment, true, false)
      else Step(false, false, scratch, false, true)
    else if t == EOF then
      Step(true, false, [], inFragmentedRecord, false)
    else if t == BAD_RECORD then
      if inFragmentedRecord then Step(false, false, [], false, true) else Step(false, false, scratch, false, false)
    else
      Step(false, false, [], false, true)
  }

  /** A fragment of the type that its place calls for is taken in. */
  lemma TakeFragment(got: seq<Byte>, begin: bool, end: bool, scratch: seq<Byte>, fragment: seq<Byte>)
    requires if begin then got == [] else scratch == got
    ensures var step := Take(scratch, !begin, TypeOf(begin, end) as nat, fragment);
      && !step.dropped && step.done == end && step.ok == end && step.scratch == got + fragment
      && (!end ==> step.inFragmentedRecord)
  {
  }

  /** Bytes with a right checksum that go into no record are reported. */
  lemma NothingLostSilently(scratch: seq<Byte>, inFragmentedRecord: bool, t: nat, fragment: seq<Byte>)
    ensures var step, got := Take(scratch, inFragmentedRecord, t, fragment), if inFragmentedRecord then scratch else [];
      && (t != EOF && t != BAD_RECORD && !step.dropped ==> step.scratch == got + fragment)
      && (t == BAD_RECORD && inFragmentedRecord ==> step.dropped)
  {
  }

  /** A record being read: `got` of it is read and `data` is missing; it ends at `end`, at offset `offset`. */
  datatype Rest = Rest(record: Record, begin: bool, data: seq<Byte>, got: seq<Byte>, end: nat, offset: Offset) {
    ghost function After(n: nat): Rest
      requires n <= |data|
    {
      this.(begin := false, data := data[n..], got := got + data[..n])
    }
  }

  class Reader {
    ghost const stamp: Stamp
    const file: seq<Byte>
    var endOfBuffer: nat
    var buffer: seq<Byte>
    var eof: bool
    var reports: nat  // corruptions reported
    ghost var off: Offset  // where in its block the buffer starts

    constructor (ghost stamp: Stamp, file: seq<Byte>)
      requires IsStored(stamp)
      ensures Valid() && Pos() == 0 && reports == 0 && this.stamp == stamp && this.file == file
    {
      this.stamp := stamp;
      this.file := file;
      endOfBuffer, buffer, eof, reports, off := 0, [], false, 0, BLOCK_SIZE;
    }

    /** What is read next. */
    ghost function Pos(): nat
      reads this
    {
      if |buffer| <= endOfBuffer then endOfBuffer - |buffer| else 0
    }

    ghost predicate Valid()
      reads this
    {
      && |buffer| <= endOfBuffer <= |file| && buffer == file[endOfBuffer - |buffer|..endOfBuffer]
      && InBlock(Pos(), off) && IsStored(stamp)
      && (if eof then endOfBuffer == |file| && |buffer| <= BLOCK_SIZE - off else |buffer| == BLOCK_SIZE - off)
    }

    ghost predicate Ended()
      reads this
    {
      Pos() == |file|
    }

    /** The next kBlockSize bytes of the file, or what is left. */
    method ReadBlock()
      requires Valid() && !eof
      modifies this
      ensures Valid() && reports == old(reports)
      ensures Pos() == old(endOfBuffer) && off == 0
      ensures !eof ==> |buffer| == BLOCK_SIZE
    {
      InBlockMoves(Pos(), off, |buffer|);
      var end := if |file| - endOfBuffer < BLOCK_SIZE then |file| else endOfBuffer + BLOCK_SIZE;
      buffer := file[endOfBuffer..end];
      endOfBuffer := end;
      off := 0;
      if |buffer| < BLOCK_SIZE {
        eof := true;
      }
    }

    /** Drop the first `n` bytes of the buffer. */
    method Drop(n: nat)
      requires Valid() && n <= |buffer|
      modifies this
      ensures Valid() && reports == old(reports) && eof == old(eof) && endOfBuffer == old(endOfBuffer)
      ensures buffer == old(buffer)[n..] && Pos() == old(Pos()) + n && off == old(off) + n
    {
      InBlockMoves(Pos(), off, n);
      buffer := buffer[n..];
      off := off + n;
    }

    /** The start of ReadPhysicalRecord: skip trailers until a header may follow; false at the end of the file. */
    method FindHeader() returns (found: bool)
      requires Valid()
      modifies this
      ensures Valid() && reports == old(reports) && (old(Ended()) ==> !found)
      ensures found ==> |buffer| >= HEADER_SIZE
      ensures found ==> Pos() == old(Pos()) + |Trailer(old(off))| && off == HeaderOffset(old(off))
      ensures !found ==> Ended() && |file| < old(Pos()) + |Trailer(old(off))| + HEADER_SIZE
    {
      ghost var ended, header, offset := Ended(), Pos() + |Trailer(off)|, HeaderOffset(off);
      while |buffer| < HEADER_SIZE
        invariant Valid() && reports == old(reports) && (ended ==> Ended())
        invariant Pos() + |Trailer(off)| == header && HeaderOffset(off) == offset
        decreases if |buffer| < HEADER_SIZE then 1 else 0, !eof
      {
        if eof {
          Drop(|buffer|);
          return false;
        }
        ReadBlock();
      }
      return true;
    }

    method ReadPhysicalRecord(ghost log: seq<Byte>, ghost data: seq<Byte>, ghost begin: bool)
        returns (t: nat, fragment: seq<Byte>)
      requires Valid()
      modifies this
      ensures Valid() && (t != EOF ==> Pos() > old(Pos())) && Pos() >= old(Pos()) && reports >= old(reports)
      ensures old(Ended()) ==> t == EOF && Ended() && reports == old(reports)
      ensures t == EOF ==> EndsAt(stamp, file, Pos())
      ensures t != EOF && t != BAD_RECORD ==>
        && reports == old(reports)
        && FragmentAt(stamp, file, Pos(), t, fragment) && old(Pos()) <= Piece(Pos(), t, fragment).Start()
      ensures CorruptAt(stamp, file, old(Pos()) + |Trailer(old(off))|, HeaderOffset(old(off))) ==>
        t == BAD_RECORD && reports == old(reports) + 1
      ensures file <= log && old(Continues(stamp, log, Pos(), off, data, begin)) ==>
        Expected(old(Pos()), old(off), data, begin, t, fragment) && reports == old(reports)
    {
      ghost var good := file <= log && Continues(stamp, log, Pos(), off, data, begin);
      ghost var pos0, off0 := Pos(), off;
      var found := FindHeader();
      if !found {
        assert !CorruptAt(stamp, file, pos0 + |Trailer(off0)|, HeaderOffset(off0));
        return EOF, [];
      }
      t, fragment := ReadAtHeader(log, data, begin, good, pos0, off0);
    }

    /** The rest of ReadPhysicalRecord, once a header was found after position `pos0`. */
    method ReadAtHeader(ghost log: seq<Byte>, ghost data: seq<Byte>, ghost begin: bool, ghost good: bool,
                        ghost pos0: nat, ghost off0: Offset)
        returns (t: nat, fragment: seq<Byte>)
      requires Valid() && |buffer| >= HEADER_SIZE && Pos() == pos0 + |Trailer(off0)| && off == HeaderOffset(off0)
      requires good ==> file <= log && Continues(stamp, log, pos0, off0, data, begin)
      modifies this
      ensures Valid() && Pos() > old(Pos()) && reports >= old(reports)
      ensures t == EOF ==> EndsAt(stamp, file, Pos())
      ensures t != EOF && t != BAD_RECORD ==>
        && reports == old(reports)
        && FragmentAt(stamp, file, Pos(), t, fragment) && old(Pos()) <= Piece(Pos(), t, fragment).Start()
      ensures CorruptAt(stamp, file, pos0 + |Trailer(off0)|, HeaderOffset(off0)) ==>
        t == BAD_RECORD && reports == old(reports) + 1
      ensures good ==> Expected(pos0, off0, data, begin, t, fragment) && reports == old(reports)
    {
      ghost var pos, buf, atEof := pos0 + |Trailer(off0)|, buffer, eof;
      CorruptHere(stamp, file, pos, HeaderOffset(off0), buf, atEof);
      t, fragment := ParseRecord();
      ParsedIsThere(stamp, file, pos, buf, atEof, t, fragment, Pos() - pos, Pos());
      if good { ParsedAsWritten(stamp, file, log, pos0, off0, data, begin, buf, atEof, t, fragment, Pos() - pos); }
    }

    /** What is made of a buffer that begins with a header. */
    method ParseRecord() returns (t: nat, fragment: seq<Byte>)
      requires Valid() && |buffer| >= HEADER_SIZE
      modifies this
      ensures Valid() && old(Pos()) <= Pos() && off == old(off) + (Pos() - old(Pos()))
      ensures Parsed(stamp, old(buffer), old(eof), t, fragment, Pos() - old(Pos()))
      ensures reports == old(reports) + old(ReportsFor(stamp, buffer, eof))
    {
      var length := LengthOf(buffer);
      t := buffer[6] as nat;
      if HEADER_SIZE + length > |buffer| {
        var atEnd := eof;
        DropBuffer(!atEnd);
        if !atEnd {
          return BAD_RECORD, [];
        }
        return EOF, [];
      }
      if t == ZERO_TYPE as nat && length == 0 {
        DropBuffer(false);
        return BAD_RECORD, [];
      }
      var same := SameCrc(buffer[..4], buffer[6..HEADER_SIZE + length]);
      if !same {
        DropBuffer(true);
        return BAD_RECORD, [];
      }
      fragment := buffer[HEADER_SIZE..HEADER_SIZE + length];
      Drop(HEADER_SIZE + length);
    }

    /** Drop all of the buffer, and report that or not. */
    method DropBuffer(report: bool)
      requires Valid()
      modifies this
      ensures Valid() && Pos() == old(Pos()) + old(|buffer|) && off == old(off) + old(|buffer|)
      ensures reports == old(reports) + if report then 1 else 0
    {
      Drop(|buffer|);
      if report {
        reports := reports + 1;
      }
    }

    /** The part of ReadPhysicalRecord that checks the checksum. */
    method SameCrc(header: FourBytes, data: seq<Byte>) returns (same: bool)
      requires IsStored(stamp)
      ensures same <==> header == stamp(data)
    {
      CheckIsExact(header, data);
      assert stamp(data) == Stored(data);
      var expectedCrc := Unmask(DecodeFixed32(header));
      var actualCrc := Value(data);
      same := actualCrc == expectedCrc;
    }

    /** One turn of the loop in ReadRecord. */
    method Turn(scratch: seq<Byte>, inFragmentedRecord: bool, ghost log: seq<Byte>, ghost m: Rest)
        returns (step: Step, ghost t: nat, ghost fragment: seq<Byte>)
      requires Valid()
      modifies this
      ensures Valid() && (t != EOF ==> Pos() > old(Pos())) && Pos() >= old(Pos())
      ensures step == Take(scratch, inFragmentedRecord, t, fragment) && (step.dropped ==> reports > old(reports))
      ensures t == EOF ==> EndsAt(stamp, file, Pos())
      ensures t != EOF && t != BAD_RECORD ==>
        FragmentAt(stamp, file, Pos(), t, fragment) && old(Pos()) <= Piece(Pos(), t, fragment).Start()
      ensures old(Ended()) ==> t == EOF && Ended() && reports == old(reports)
      ensures old(Reading(log, m, scratch, inFragmentedRecord)) ==>
        TurnOutcome(old(Pos()), old(off), log, m, step) && reports == old(reports)
    {
      ghost var good := Reading(log, m, scratch, inFragmentedRecord);
      ghost var n, next := FragmentLength(off, |m.data|), FragmentEnd(Pos(), off, |m.data|);
      if good { MidStep(stamp, log, Pos(), off, m); }
      var read, bytes := ReadPhysicalRecord(log, m.data, m.begin);
      t, fragment := read, bytes;
      step := TakeIn(scratch, inFragmentedRecord, read, bytes);
      if good && next <= |file| {
        TakeFragment(m.got, m.begin, n == |m.data|, scratch, m.data[..n]);
        assert n < |m.data| ==> Mid(stamp, log, Pos(), off, m.After(n));
      }
    }

    /** The switch in ReadRecord, which reports what is dropped. */
    method TakeIn(scratch: seq<Byte>, inFragmentedRecord: bool, t: nat, fragment: seq<Byte>) returns (step: Step)
      requires Valid()
      modifies this`reports
      ensures Valid() && step == Take(scratch, inFragmentedRecord, t, fragment)
      ensures reports == old(reports) + if step.dropped then 1 else 0
    {
      step := Take(scratch, inFragmentedRecord, t, fragment);
      if step.dropped {
        reports := reports + 1;
      }
    }

    ghost predicate Reading(log: seq<Byte>, m: Rest, scratch: seq<Byte>, inFragmentedRecord: bool)
      reads this
    {
      && file <= log && Mid(stamp, log, Pos(), off, m)
      && m.begin == !inFragmentedRecord && (inFragmentedRecord ==> scratch == m.got)
    }

    /** The fragment is taken in, and with the last one the record is there; or the file ends first. */
    ghost predicate TurnOutcome(pos0: nat, off0: Offset, log: seq<Byte>, m: Rest, step: Step)
      reads this
    {
      var n := FragmentLength(off0, |m.data|);
      if |file| < FragmentEnd(pos0, off0, |m.data|) then
        step.done && !step.ok && Ended() && |file| < m.end
      else if n < |m.data| then
        && !step.done && step.inFragmentedRecord && step.scratch == m.got + m.data[..n]
        && Mid(stamp, log, Pos(), off, m.After(n))
      else
        step.done && step.ok && step.scratch == m.record && Pos() == m.end && off == m.offset
    }

    /**
     * ReadRecord. Where the log goes on with `record`, the reader returns it if the file holds all of it and
     * otherwise ends; it reports nothing either way. Whatever the file is, a record returned lies in it.
     */
    method ReadRecord(ghost log: seq<Byte>, ghost record: Record) returns (ok: bool, r: Record)
      requires Valid()
      modifies this
      ensures Valid() && (ok ==> Pos() > old(Pos()))
      ensures ok ==> HoldsRecord(stamp, file, old(Pos()), Pos(), r)
      ensures !ok ==> EndsAt(stamp, file, Pos())
      ensures old(Ended()) ==> !ok && Ended() && reports == old(reports)
      ensures file <= log && old(Continues(stamp, log, Pos(), off, record, true)) ==>
        && reports == old(reports)
        && Outcome(RecordEnd(old(Pos()), old(off), |record|), OffsetAfter(old(off), |record|), record, ok, r)
    {
      ghost var good := file <= log && Continues(stamp, log, Pos(), off, record, true);
      ghost var ended, reports0, pos0 := Ended(), reports, Pos();
      ghost var m := Rest(record, true, record, [], RecordEnd(Pos(), off, |record|), OffsetAfter(off, |record|));
      var scratch, inFragmentedRecord := [], false;
      ghost var ps: seq<Piece> := [];
      while true
        invariant Valid() && Pos() >= pos0 && (ended ==> Ended() && reports == reports0)
        invariant Held(stamp, file, ps, pos0, Pos(), scratch, inFragmentedRecord)
        invariant m.record == record && m.end == old(RecordEnd(Pos(), off, |record|))
        invariant m.offset == OffsetAfter(old(off), |record|)
        invariant good ==> reports == reports0 && Reading(log, m, scratch, inFragmentedRecord)
        decreases |file| - Pos()
      {
        ghost var next := m.After(FragmentLength(off, |m.data|));
        ghost var pos := Pos();
        var step, t, fragment := Turn(scratch, inFragmentedRecord, log, m);
        TakePiece(stamp, file, ps, pos0, pos, Pos(), scratch, inFragmentedRecord, t, fragment);
        ps := PiecesAfter(ps, Piece(Pos(), t, fragment));
        if step.done {
          return step.ok, step.scratch;
        }
        scratch, inFragmentedRecord := step.scratch, step.inFragmentedRecord;
        m := next;
      }
    }

    /** The record when the file reaches its end, else the end of the file. */
    ghost predicate Outcome(end: nat, offset: Offset, record: Record, ok: bool, r: Record)
      reads this
    {
      if end <= |file| then ok && r == record && Pos() == end && off == offset else !ok && Ended()
    }

    /** The outcome of reading the next fragment of `data`: that fragment when the file holds all of it. */
    ghost predicate Expected(pos: nat, off0: Offset, data: seq<Byte>, begin: bool, t: nat, fragment: seq<Byte>)
      reads this
    {
      var n, end := FragmentLength(off0, |data|), FragmentEnd(pos, off0, |data|);
      if end <= |file| then
        && t == TypeOf(begin, n == |data|) as nat && fragment == data[..n]
        && Pos() == end && off == NextOffset(off0, |data|)
      else
        t == EOF && Ended()
    }
  }

  /** The length that a header gives. */
  function LengthOf(buffer: seq<Byte>): nat
    requires |buffer| >= HEADER_SIZE
  {
    buffer[4] as nat + 256 * (buffer[5] as nat)
  }

  /** The fragment goes on past the buffer. */
  predicate IsCut(buffer: seq<Byte>)
    requires |buffer| >= HEADER_SIZE
  {
    HEADER_SIZE + LengthOf(buffer) > |buffer|
  }

  /** The zeros of a preallocated file. */
  predicate IsBlank(buffer: seq<Byte>)
    requires |buffer| >= HEADER_SIZE
  {
    buffer[6] == ZERO_TYPE && LengthOf(buffer) == 0
  }

  function Payload(buffer: seq<Byte>): seq<Byte>
    requires |buffer| >= HEADER_SIZE && !IsCut(buffer)
  {
    buffer[HEADER_SIZE..HEADER_SIZE + LengthOf(buffer)]
  }

  /** A header with all of its fragment and a right checksum. */
  ghost predicate IsSound(stamp: Stamp, buffer: seq<Byte>) {
    && |buffer| >= HEADER_SIZE && !IsCut(buffer) && !IsBlank(buffer)
    && buffer[..4] == stamp(buffer[6..HEADER_SIZE + LengthOf(buffer)])
  }

  /** A header with all of its fragment and a wrong checksum. */
  ghost predicate IsCorrupt(stamp: Stamp, buffer: seq<Byte>) {
    && |buffer| >= HEADER_SIZE && !IsCut(buffer) && !IsBlank(buffer)
    && buffer[..4] != stamp(buffer[6..HEADER_SIZE + LengthOf(buffer)])
  }

  /** What is made of a buffer: the fragment when it is sound, and else no byte of the buffer is trusted. */
  ghost predicate Parsed(stamp: Stamp, buffer: seq<Byte>, eof: bool, t: nat, fragment: seq<Byte>, used: nat)
    requires |buffer| >= HEADER_SIZE
  {
    if IsSound(stamp, buffer) then
      t == buffer[6] as nat && fragment == Payload(buffer) && used == HEADER_SIZE + |fragment|
    else
      t == (if IsCut(buffer) && eof then EOF else BAD_RECORD) && used == |buffer|
  }

  /** A corruption is reported but for zeros, and for a fragment that the end of the file cuts. */
  ghost function ReportsFor(stamp: Stamp, buffer: seq<Byte>, eof: bool): nat
    requires |buffer| >= HEADER_SIZE
  {
    if IsCorrupt(stamp, buffer) || (IsCut(buffer) && !eof) then 1 else 0
  }

  /** A fragment that is handed over is in the file, with a right checksum. */
  lemma ParsedIsThere(stamp: Stamp, file: seq<Byte>, pos: nat, buffer: seq<Byte>, eof: bool, t: nat,
                      fragment: seq<Byte>, used: nat, end: nat)
    requires |buffer| >= HEADER_SIZE && Parsed(stamp, buffer, eof, t, fragment, used) && end == pos + used
    requires pos + |buffer| <= |file| && buffer == file[pos..pos + |buffer|]
    ensures t != EOF && t != BAD_RECORD ==>
      && ReportsFor(stamp, buffer, eof) == 0
      && FragmentAt(stamp, file, end, t, fragment) && pos <= Piece(end, t, fragment).Start()
    ensures used >= HEADER_SIZE
    ensures t == EOF && (eof ==> pos + |buffer| == |file|) ==> EndsAt(stamp, file, end)
  {
    if IsSound(stamp, buffer) {
      FragmentFound(stamp, buffer, file, pos);
    }
  }

  /** A fragment of the log is handed over, as far as the file goes. */
  lemma ParsedAsExpected(stamp: Stamp, buffer: seq<Byte>, n: nat, eof: bool, t: nat, fragment: seq<Byte>, used: nat,
                         room: nat)
    requires |buffer| >= HEADER_SIZE && Parsed(stamp, buffer, eof, t, fragment, used)
    requires IsFragment(stamp, buffer, n) && HEADER_SIZE + n <= room && (!eof ==> |buffer| == room)
    ensures ReportsFor(stamp, buffer, eof) == 0
    ensures if HEADER_SIZE + n <= |buffer|
            then t == buffer[6] as nat && fragment == buffer[HEADER_SIZE..HEADER_SIZE + n] && used == HEADER_SIZE + n
            else t == EOF && used == |buffer| && eof
  {
  }

  /** Of a log that goes on with `data`, what is made of the buffer is the next fragment, or its end. */
  lemma {:induction false} ParsedAsWritten(stamp: Stamp, file: seq<Byte>, log: seq<Byte>, pos: nat, off: Offset,
      data: seq<Byte>, begin: bool,
                        buffer: seq<Byte>, eof: bool, t: nat, fragment: seq<Byte>, used: nat)
    requires file <= log && Continues(stamp, log, pos, off, data, begin)
    requires |buffer| >= HEADER_SIZE && pos + |Trailer(off)| + |buffer| <= |file|
    requires buffer == file[pos + |Trailer(off)|..pos + |Trailer(off)| + |buffer|]
    requires if eof then pos + |Trailer(off)| + |buffer| == |file| else |buffer| == BLOCK_SIZE - HeaderOffset(off)
    requires Parsed(stamp, buffer, eof, t, fragment, used)
    ensures ReportsFor(stamp, buffer, eof) == 0
    ensures var n, end := FragmentLength(off, |data|), FragmentEnd(pos, off, |data|);
      if end <= |file| then
        && t == TypeOf(begin, n == |data|) as nat && fragment == data[..n]
        && pos + |Trailer(off)| + used == end && HeaderOffset(off) + used == NextOffset(off, |data|)
      else
        t == EOF && pos + |Trailer(off)| + used == |file|
  {
    AtHeader(stamp, file, log, pos, off, data, begin, buffer);
    ParsedAsExpected(stamp, buffer, FragmentLength(off, |data|), eof, t, fragment, used, BLOCK_SIZE - HeaderOffset(off));
  }

  /** There is one at `pos` of the file, at offset `off` of a block. */
  ghost predicate CorruptAt(stamp: Stamp, file: seq<Byte>, pos: nat, off: Offset) {
    && pos <= |file|
    && IsCorrupt(stamp, file[pos..if |file| - pos < BLOCK_SIZE - off then |file| else pos + (BLOCK_SIZE - off)])
  }

  /** A buffer that reaches to the end of its block or of the file. */
  lemma CorruptHere(stamp: Stamp, file: seq<Byte>, pos: nat, off: Offset, buffer: seq<Byte>, eof: bool)
    requires pos + |buffer| <= |file| && buffer == file[pos..pos + |buffer|]
    requires if eof then pos + |buffer| == |file| && |buffer| <= BLOCK_SIZE - off else |buffer| == BLOCK_SIZE - off
    ensures CorruptAt(stamp, file, pos, off) <==> IsCorrupt(stamp, buffer)
  {
  }

  lemma FragmentFound(stamp: Stamp, buffer: seq<Byte>, file: seq<Byte>, pos: nat)
    requires IsSound(stamp, buffer) && pos + |buffer| <= |file| && buffer == file[pos..pos + |buffer|]
    ensures FragmentAt(stamp, file, pos + HEADER_SIZE + |Payload(buffer)|, buffer[6] as nat, Payload(buffer))
  {
    var length, t, fragment := LengthOf(buffer), buffer[6], Payload(buffer);
    var n := HEADER_SIZE + length;
    assert buffer[6..n] == [t] + fragment;
    assert length % 256 == buffer[4] as nat && length / 256 == buffer[5] as nat;
    assert buffer[..n] == buffer[..4] + [length % 256, length / 256, t] + fragment;
    assert file[pos..pos + n] == buffer[..n];
  }

  /** The buffer begins with a fragment of `n` bytes, as far as the buffer goes. */
  ghost predicate IsFragment(stamp: Stamp, buffer: seq<Byte>, n: nat)
    requires |buffer| >= HEADER_SIZE
  {
    && buffer[4] as nat + 256 * (buffer[5] as nat) == n
    && 1 <= buffer[6] <= 4
    && (HEADER_SIZE + n <= |buffer| ==> buffer[..4] == stamp(buffer[6..HEADER_SIZE + n]))
  }

  /** What the reader finds at a header, as far as the file goes. */
  lemma {:induction false} AtHeader(stamp: Stamp, file: seq<Byte>, log: seq<Byte>, pos: nat, off: Offset,
      data: seq<Byte>, begin: bool,
                 buffer: seq<Byte>)
    requires file <= log && Continues(stamp, log, pos, off, data, begin)
    requires |buffer| >= HEADER_SIZE && pos + |Trailer(off)| + |buffer| <= |file|
    requires buffer == file[pos + |Trailer(off)|..pos + |Trailer(off)| + |buffer|]
    ensures var n := FragmentLength(off, |data|);
      && IsFragment(stamp, buffer, n) && buffer[6] == TypeOf(begin, n == |data|)
      && (HEADER_SIZE + n <= |buffer| ==> buffer[HEADER_SIZE..HEADER_SIZE + n] == data[..n])
  {
    var n, h := FragmentLength(off, |data|), pos + |Trailer(off)|;
    var f := Fragment(stamp, off, data, begin);
    forall i | 0 <= i < |buffer| && i < |f|
      ensures buffer[i] == f[i]
    {
      assert buffer[i] == log[h + i] == log[h..h + |f|][i];
    }
    var t, payload := TypeOf(begin, n == |data|), data[..n];
    assert f == stamp([t] + payload) + [n % 256, n / 256, t] + payload;
    if |f| <= |buffer| {
      assert buffer[..|f|] == f;
      assert buffer[6..|f|] == [t] + payload;
      assert buffer[..4] == f[..4] == stamp([t] + payload);
    }
  }

  /** Reading a record: the log goes on with what is missing of it. */
  ghost predicate Mid(stamp: Stamp, log: seq<Byte>, pos: nat, off: Offset, m: Rest) {
    && Continues(stamp, log, pos, off, m.data, m.begin)
    && m.got + m.data == m.record && (m.begin ==> m.got == [])
    && m.end == RecordEnd(pos, off, |m.data|) && m.offset == OffsetAfter(off, |m.data|)
  }

  /** After a fragment the log goes on with the rest of the record, or the record is at its end. */
  lemma MidStep(stamp: Stamp, log: seq<Byte>, pos: nat, off: Offset, m: Rest)
    requires Mid(stamp, log, pos, off, m)
    ensures var n, next := FragmentLength(off, |m.data|), FragmentEnd(pos, off, |m.data|);
      && next <= m.end
      && (n < |m.data| ==> Mid(stamp, log, next, NextOffset(off, |m.data|), m.After(n)))
      && (n == |m.data| ==> m.end == next && m.offset == NextOffset(off, |m.data|) && m.got + m.data[..n] == m.record)
  {
    var n := FragmentLength(off, |m.data|);
    assert m.got + m.data == (m.got + m.data[..n]) + m.data[n..];
    if n < |m.data| { EndIsLater(FragmentEnd(pos, off, |m.data|), NextOffset(off, |m.data|), |m.data| - n); }
  }

  lemma {:induction false} EndIsLater(pos: nat, off: Offset, left: nat)
    ensures RecordEnd(pos, off, left) >= pos
    decreases left, BLOCK_SIZE - off
  {
    var n := FragmentLength(off, left);
    if n < left {
      EndIsLater(FragmentEnd(pos, off, left), NextOffset(off, left), left - n);
    }
  }

  /** The first fragment that the writer appends, and the rest. */
  lemma {:induction false} FirstFragment(stamp: Stamp, log: seq<Byte>, pos: nat, off: Offset, data: seq<Byte>,
      begin: bool, end: nat)
    requires pos <= |log| && Emit(stamp, off, data, begin) <= log[pos..] && end == FragmentEnd(pos, off, |data|)
    ensures end <= |log| && log[pos + |Trailer(off)|..end] == Fragment(stamp, off, data, begin)
    ensures var n := FragmentLength(off, |data|);
      if n < |data| then
        && Emit(stamp, NextOffset(off, |data|), data[n..], false) <= log[end..]
        && pos + |Emit(stamp, off, data, begin)| == end + |Emit(stamp, NextOffset(off, |data|), data[n..], false)|
      else pos + |Emit(stamp, off, data, begin)| == end
  {
    var n, t, f := FragmentLength(off, |data|), Trailer(off), Fragment(stamp, off, data, begin);
    var rest := if n < |data| then Emit(stamp, NextOffset(off, |data|), data[n..], false) else [];
    assert Emit(stamp, off, data, begin) == t + f + rest;
    PartsOfPrefix(t, f, rest, log, pos);
  }

  /** What the writer appends is found fragment by fragment. */
  lemma {:induction false} EmitContinues(stamp: Stamp, log: seq<Byte>, pos: nat, off: Offset, data: seq<Byte>, begin: bool)
    requires pos <= |log| && Emit(stamp, off, data, begin) <= log[pos..]
    ensures Continues(stamp, log, pos, off, data, begin)
    ensures RecordEnd(pos, off, |data|) == pos + |Emit(stamp, off, data, begin)|
    decreases |data|, BLOCK_SIZE - off
  {
    var n, end := FragmentLength(off, |data|), FragmentEnd(pos, off, |data|);
    FirstFragment(stamp, log, pos, off, data, begin, end);
    if n < |data| {
      EmitContinues(stamp, log, end, NextOffset(off, |data|), data[n..], false);
    }
  }

  lemma PartsOfPrefix<T>(a: seq<T>, b: seq<T>, c: seq<T>, s: seq<T>, pos: nat)
    requires pos <= |s| && a + b + c <= s[pos..]
    ensures pos + |a| + |b| <= |s| && s[pos + |a|..pos + |a| + |b|] == b && c <= s[pos + |a| + |b|..]
  {
    var all := a + b + c;
    assert |all| <= |s| - pos;
    forall i | 0 <= i < |all| ensures s[pos + i] == all[i] { assert s[pos..][i] == all[i]; }
    assert forall i :: 0 <= i < |b| ==> all[|a| + i] == b[i];
    assert forall i :: 0 <= i < |c| ==> all[|a| + |b| + i] == c[i];
  }

  // Whole files

  /** How many of the records lie wholly in the first `size` bytes. */
  ghost predicate Whole(stamp: Stamp, records: seq<Record>, size: nat, k: nat) {
    && k <= |records| && |LogUpTo(stamp, records, k)| <= size
    && (k < |records| ==> size < |LogUpTo(stamp, records, k + 1)|)
  }

  lemma {:induction false} NextRecord(stamp: Stamp, records: seq<Record>, k: nat, off: Offset)
    requires k <= |records| && InBlock(|LogUpTo(stamp, records, k)|, off)
    ensures var log, pos := LogOf(stamp, records), |LogUpTo(stamp, records, k)|;
      if k < |records| then
        && Continues(stamp, log, pos, off, records[k], true)
        && RecordEnd(pos, off, |records[k]|) == |LogUpTo(stamp, records, k + 1)|
      else
        pos == |log|
  {
    if k < |records| {
      var before := LogUpTo(stamp, records, k);
      LogInBlock(stamp, records, k);
      LogPrefix(stamp, records, k + 1, |records|);
      assert LogUpTo(stamp, records, k + 1) == before + Emit(stamp, OffsetUpTo(records, k), records[k], true);
      FoundNext(stamp, LogOf(stamp, records), before, OffsetUpTo(records, k), off, records[k]);
    }
  }

  lemma OneMore(records: seq<Record>, k: nat)
    requires k < |records|
    ensures records[..k + 1] == records[..k] + [records[k]]
  {
  }

  lemma {:induction false} FoundNext(stamp: Stamp, log: seq<Byte>, before: seq<Byte>, a: Offset, b: Offset, record: Record)
    requires InBlock(|before|, a) && InBlock(|before|, b) && before + Emit(stamp, a, record, true) <= log
    ensures Continues(stamp, log, |before|, b, record, true)
    ensures RecordEnd(|before|, b, |record|) == |before + Emit(stamp, a, record, true)|
  {
    SamePlace(stamp, |before|, a, b, record, true);
    PrefixRest(before, Emit(stamp, b, record, true), log);
    EmitContinues(stamp, log, |before|, b, record, true);
  }

  lemma PrefixRest<T>(a: seq<T>, b: seq<T>, s: seq<T>)
    requires a + b <= s
    ensures |a| <= |s| && b <= s[|a|..]
  {
    assert (a + b)[|a|..] == b;
  }

  /** There is one such number, and it is all of them for the whole file. */
  lemma WholeIsUnique(stamp: Stamp, records: seq<Record>, size: nat, k: nat, j: nat)
    requires Whole(stamp, records, size, k) && Whole(stamp, records, size, j)
    ensures k == j
    ensures size == |LogOf(stamp, records)| ==> k == |records|
  {
    NotFewer(stamp, records, size, k, j, |LogUpTo(stamp, records, j)|);
    NotFewer(stamp, records, size, j, k, |LogUpTo(stamp, records, k)|);
    if size == |LogOf(stamp, records)| {
      NotFewer(stamp, records, size, k, |records|, size);
    }
  }

  /** Not fewer than any number of records that fit. */
  lemma {:induction false} NotFewer(stamp: Stamp, records: seq<Record>, size: nat, k: nat, j: nat, fits: nat)
    requires Whole(stamp, records, size, k) && j <= |records| && fits == |LogUpTo(stamp, records, j)| && fits <= size
    ensures k >= j
  {
    if k < j {
      LogGrows(stamp, records, k + 1, j);
    }
  }

  lemma {:induction false} LogGrows(stamp: Stamp, records: seq<Record>, i: nat, n: nat)
    requires i <= n <= |records|
    ensures |LogUpTo(stamp, records, i)| <= |LogUpTo(stamp, records, n)|
  {
    LogPrefix(stamp, records, i, n);
  }

  /** Where each of the records read ends; one starts after the end of the one before. */
  ghost predicate ReadFrom(stamp: Stamp, file: seq<Byte>, read: seq<Record>, ends: seq<nat>) {
    && |ends| == |read| + 1 && ends[0] == 0
    && forall i :: 0 <= i < |read| ==> HoldsRecord(stamp, file, ends[i], ends[i + 1], read[i])
  }

  lemma ReadFromMore(stamp: Stamp, file: seq<Byte>, read: seq<Record>, ends: seq<nat>, r: Record, end: nat)
    requires ReadFrom(stamp, file, read, ends) && HoldsRecord(stamp, file, ends[|read|], end, r)
    ensures ReadFrom(stamp, file, read + [r], ends + [end])
  {
    var more, ends2 := read + [r], ends + [end];
    forall i | 0 <= i < |more|
      ensures HoldsRecord(stamp, file, ends2[i], ends2[i + 1], more[i])
    {
      if i < |read| {
        assert HoldsRecord(stamp, file, ends[i], ends[i + 1], read[i]);
      }
    }
  }

  /**
   * Reading a file to its end, as recovery does. What is read of a prefix of a log is the records wholly inside,
   * without a report; what is read of any file are records that lie in it one after the other, with right checksums.
   */
  method ReadLog(ghost stamp: Stamp, file: seq<Byte>, ghost records: seq<Record>)
      returns (read: seq<Record>, reports: nat, ghost ends: seq<nat>, ghost stop: nat)
    requires IsStored(stamp)
    ensures ReadFrom(stamp, file, read, ends) && EndsAt(stamp, file, stop)
    ensures file <= LogOf(stamp, records) ==>
      reports == 0 && exists k: nat :: Whole(stamp, records, |file|, k) && read == records[..k]
  {
    var reader := new Reader(stamp, file);
    ghost var log, k := LogOf(stamp, records), 0;
    read, ends := [], [0];
    var ok := true;
    while ok
      invariant reader.Valid() && fresh(reader) && reader.stamp == stamp && reader.file == file
      invariant ReadFrom(stamp, file, read, ends) && (ok ==> ends[|read|] == reader.Pos())
      invariant file <= log ==> ReadUpTo(stamp, records, file, reader.Pos(), reader.reports, read, k, ok)
      invariant !ok ==> EndsAt(stamp, file, reader.Pos())
      decreases ok, |file| - reader.Pos()
    {
      ghost var record := if k < |records| then records[k] else [];
      if file <= log { NextRecord(stamp, records, k, reader.off); }
      var r;
      ok, r := reader.ReadRecord(log, record);
      if ok {
        if file <= log { OneMore(records, k); }
        ReadFromMore(stamp, file, read, ends, r, reader.Pos());
        read := read + [r];
        ends := ends + [reader.Pos()];
        k := k + 1;
      }
    }
    reports := reader.reports;
    stop := reader.Pos();
  }

  /** The first `k` records of a log are read, and nothing is reported. */
  ghost predicate ReadUpTo(stamp: Stamp, records: seq<Record>, file: seq<Byte>, pos: nat, reports: nat,
                           read: seq<Record>, k: nat, ok: bool) {
    && reports == 0 && k <= |records| && read == records[..k]
    && if ok then pos == |LogUpTo(stamp, records, k)| else Whole(stamp, records, |file|, k)
  }
}
