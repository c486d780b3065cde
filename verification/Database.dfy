/**
 * The whole store as steps (db/db_impl.cc): writes, memtable switches, flushes, trivial moves,
 * compactions and snapshots. Every live reader sees what it would see in the full history of writes.
 */
module Database {
  import opened DbFormat
  import opened Versions
  import opened VersionGet
  import opened InputSelection
  import opened VersionBuilder
  import opened Compaction
  import opened CompactionInstall
  import opened CompactionReads
  import opened VersionChanges

  /** A put, or a deletion. */
  type Operation = (UserKey, Option<Bytes>)

  /**
   * The state guarded by the mutex; and what no code keeps: `history`, every operation ever written, and
   * `written`, the entries made of them.
   */
  datatype Store = Store(
    mem: seq<Entry>,
    imm: Option<seq<Entry>>,
    version: Version,
    lastSequence: SequenceNumber,
    snapshots: seq<SequenceNumber>,
    nextFileNumber: nat,
    history: seq<Operation>,
    written: set<Entry>)

  /** What a compaction was given and what it built. */
  datatype Compacted = Compacted(
    level: nat, inputs0: seq<File>, inputs1: seq<File>, smallest: SequenceNumber, outputs: seq<File>)

  /** A plain map after some operations, one after the other. */
  ghost function Contents(ops: seq<Operation>): map<UserKey, Bytes> {
    if ops == [] then map[]
    else
      var before, last := Contents(ops[..|ops| - 1]), ops[|ops| - 1];
      match last.1
      case Some(v) => before[last.0 := v]
      case None => before - {last.0}
  }

  function Lookup(m: map<UserKey, Bytes>, u: UserKey): Option<Bytes> {
    if u in m then Some(m[u]) else None
  }

  /** The entries at each sequence number say what the map holds after so many operations. */
  ghost predicate Recorded(written: set<Entry>, history: seq<Operation>, lastSequence: SequenceNumber) {
    && |history| == lastSequence
    && forall u, t: SequenceNumber {:trigger Read(written, u, t)} :: t <= lastSequence ==>
         Read(written, u, t) == Lookup(Contents(history[..t]), u)
  }

  ghost function ImmEntries(s: Store): set<Entry> {
    if s.imm.Some? then Elements(s.imm.value) else {}
  }

  ghost function Held(s: Store): set<Entry> {
    AllEntries(s.mem, s.imm, s.version)
  }

  /** The oldest sequence number a reader may still use: DoCompactionWork's smallest_snapshot. */
  function Horizon(s: Store): SequenceNumber {
    if s.snapshots == [] then s.lastSequence else s.snapshots[0]
  }

  ghost predicate FilesOk(s: Store) {
    && LevelInvariant(s.version)
    && NumbersInOneLevel(s.version)
    && (forall l, f :: 0 <= l < NUM_LEVELS && f in s.version[l] ==> f.number < s.nextFileNumber)
  }

  ghost predicate MemTablesOk(s: Store) {
    && Sorted(s.mem) && (s.imm.Some? ==> Sorted(s.imm.value))
    && Newer(ImmEntries(s), VersionEntries(s.version))
    && Newer(Elements(s.mem), ImmEntries(s) + VersionEntries(s.version))
  }

  ghost predicate HistoryOk(s: Store) {
    && s.lastSequence < MAX_SEQUENCE
    && (forall i :: 0 <= i < |s.snapshots| ==> s.snapshots[i] <= s.lastSequence)
    && (forall i, j :: 0 <= i < j < |s.snapshots| ==> s.snapshots[i] <= s.snapshots[j])
    && (forall e :: e in s.written ==> e.key.sequence <= s.lastSequence)
    && UniqueKeys(s.written)
    && Held(s) <= s.written
    && Recorded(s.written, s.history, s.lastSequence)
  }

  ghost predicate Structure(s: Store) {
    FilesOk(s) && MemTablesOk(s) && HistoryOk(s)
  }

  /** Readers from the horizon on see what the history of writes says. */
  ghost predicate Faithful(s: Store) {
    forall u, t: SequenceNumber :: Horizon(s) <= t ==> Read(Held(s), u, t) == Read(s.written, u, t)
  }

  function EmptyVersion(): Version { seq(NUM_LEVELS, _ => []) }

  function Initial(): Store { Store([], None, EmptyVersion(), 0, [], 2, [], {}) }

  // Steps

  /** The entries a batch turns into, numbered from `first` on. */
  function BatchEntries(batch: seq<Operation>, first: nat): (es: seq<Entry>)
    requires first + |batch| <= MAX_SEQUENCE + 1
    ensures |es| == |batch|
    ensures forall i :: 0 <= i < |es| ==> es[i].key.sequence == first + i && es[i].key.user == batch[i].0
  {
    seq(|batch|, i requires 0 <= i < |batch| =>
      match batch[i].1
      case Some(v) => Entry(InternalKey(batch[i].0, first + i, Value), v)
      case None => Entry(InternalKey(batch[i].0, first + i, Deletion), []))
  }

  ghost predicate WriteStep(s: Store, s2: Store, batch: seq<Operation>)
  {
    && s.lastSequence + |batch| < MAX_SEQUENCE
    && var es := Elements(BatchEntries(batch, s.lastSequence + 1));
    && Sorted(s2.mem) && Elements(s2.mem) == Elements(s.mem) + es
    && s2 == s.(mem := s2.mem, lastSequence := s.lastSequence + |batch|, history := s.history + batch,
             written := s.written + es)
  }

  /** The new log takes a file number. */
  ghost predicate SwitchStep(s: Store, s2: Store) {
    s.imm.None? && s2 == s.(mem := [], imm := Some(s.mem), nextFileNumber := s.nextFileNumber + 1)
  }

  ghost predicate FlushStep(s: Store, s2: Store, level: nat, f: File) {
    && s.imm.Some? && s.imm.value != []
    && f.Valid() && f.entries == s.imm.value && f.number == s.nextFileNumber
    && Flushable(s.version, level, f)
    && FlushedTo(s.version, level, f, s2.version)
    && s2 == s.(imm := None, version := s2.version, nextFileNumber := s.nextFileNumber + 1)
  }

  /** An empty immutable memtable yields no table, though it takes a file number. */
  ghost predicate DropEmptyStep(s: Store, s2: Store) {
    s.imm == Some([]) && s2 == s.(imm := None, nextFileNumber := s.nextFileNumber + 1)
  }

  ghost predicate MoveStep(s: Store, s2: Store, level: nat, f: File) {
    && ChosenInputs(s.version, level, [f], [])
    && CompactedTo(s.version, level, [f], [], [f], s2.version)
    && s2 == s.(version := s2.version)
  }

  /** A compaction that was started for readers from `smallest` on; since then the horizon may have risen. */
  ghost predicate CompactStep(s: Store, s2: Store, c: Compacted) {
    && c.smallest <= Horizon(s)
    && IsCompaction(s.version, c.level, c.inputs0, c.inputs1, c.smallest, c.outputs, s2.version)
    && s.nextFileNumber <= s2.nextFileNumber
    && (forall f :: f in c.outputs ==> s.nextFileNumber <= f.number < s2.nextFileNumber)
    && s2 == s.(version := s2.version, nextFileNumber := s2.nextFileNumber)
  }

  /** A compaction that brings no older value back. */
  ghost predicate SafeCompactStep(s: Store, s2: Store, c: Compacted) {
    CompactStep(s, s2, c) && !Resurrects(s.version, c.level, c.inputs0, c.inputs1, c.smallest)
  }

  ghost predicate SnapshotStep(s: Store, s2: Store) {
    s2 == s.(snapshots := s.snapshots + [s.lastSequence])
  }

  ghost predicate ReleaseStep(s: Store, s2: Store, i: nat) {
    i < |s.snapshots| && s2 == s.(snapshots := s.snapshots[..i] + s.snapshots[i + 1..])
  }

  ghost predicate StepButCompact(s: Store, s2: Store) {
    || (exists batch :: WriteStep(s, s2, batch))
    || SwitchStep(s, s2)
    || (exists level, f :: FlushStep(s, s2, level, f))
    || DropEmptyStep(s, s2)
    || (exists level, f :: MoveStep(s, s2, level, f))
    || SnapshotStep(s, s2)
    || (exists i :: ReleaseStep(s, s2, i))
  }

  ghost predicate Step(s: Store, s2: Store) {
    StepButCompact(s, s2) || exists c :: CompactStep(s, s2, c)
  }

  ghost predicate SafeStep(s: Store, s2: Store) {
    StepButCompact(s, s2) || exists c :: SafeCompactStep(s, s2, c)
  }

  // Each step keeps the structure and the reads

  lemma HeldUnique(s: Store)
    requires Structure(s)
    ensures UniqueKeys(Held(s)) && UniqueKeys(VersionEntries(s.version))
    ensures UniqueKeys(Elements(s.mem) + ImmEntries(s))
    ensures Held(s) == (Elements(s.mem) + ImmEntries(s)) + VersionEntries(s.version)
  {
    VersionUnique(s.version);
    SortedIsUnique(s.mem);
    if s.imm.Some? { SortedIsUnique(s.imm.value); }
    UniqueUnion(ImmEntries(s), VersionEntries(s.version));
    UniqueUnion(Elements(s.mem), ImmEntries(s) + VersionEntries(s.version));
    UniqueUnion(Elements(s.mem), ImmEntries(s));
  }

  lemma NewEntries(s: Store, batch: seq<Operation>) returns (es: set<Entry>)
    requires HistoryOk(s) && s.lastSequence + |batch| < MAX_SEQUENCE
    ensures es == Elements(BatchEntries(batch, s.lastSequence + 1))
    ensures UniqueKeys(es) && Newer(es, s.written)
    ensures forall e :: e in es ==> s.lastSequence < e.key.sequence <= s.lastSequence + |batch|
  {
    var b := BatchEntries(batch, s.lastSequence + 1);
    es := Elements(b);
    NumberedUnique(b, s.lastSequence + 1);
  }

  lemma NumberedUnique(b: seq<Entry>, first: nat)
    requires forall i :: 0 <= i < |b| ==> b[i].key.sequence == first + i
    ensures UniqueKeys(Elements(b))
  {
    forall e, x | e in b && x in b && e.key == x.key
      ensures e == x
    {
      var i :| 0 <= i < |b| && b[i] == e;
      var j :| 0 <= j < |b| && b[j] == x;
    }
  }

  // The entries of a batch against a plain map

  /** A reader sees the entry numbered with its own sequence number if that is for its key. */
  lemma ReadAt(es: set<Entry>, u: UserKey, t: SequenceNumber, e: Entry)
    requires UniqueKeys(es) && e in es && e.key.sequence == t && t > 0
    requires forall x :: x in es && x.key.sequence == t ==> x == e
    ensures Read(es, u, t) == if e.key.user == u then Answer(e) else Read(es, u, t - 1)
  {
    if e.key.user == u {
      assert IsNewest(es, u, t, e);
      ReadIs(es, u, t, e);
    } else {
      forall x | x in es ensures Visible(x, u, t) <==> Visible(x, u, t - 1) {}
      SameVisible(es, u, t, t - 1);
    }
  }

  lemma SameVisible(es: set<Entry>, u: UserKey, s: SequenceNumber, t: SequenceNumber)
    requires UniqueKeys(es) && forall x :: x in es ==> (Visible(x, u, s) <==> Visible(x, u, t))
    ensures Read(es, u, s) == Read(es, u, t)
  {
    assert forall e :: IsNewest(es, u, s, e) <==> IsNewest(es, u, t, e);
    if e :| IsNewest(es, u, s, e) {
      ReadIs(es, u, s, e);
      ReadIs(es, u, t, e);
    }
  }

  /** `e` is the one entry with the number of the i-th operation, and stands for that. */
  ghost predicate IsFor(w: set<Entry>, ops: seq<Operation>, i: nat, e: Entry) {
    && i < |ops| && e in w && e.key.sequence == i + 1 && e.key.user == ops[i].0 && Answer(e) == ops[i].1
    && forall x :: x in w && x.key.sequence == i + 1 ==> x == e
  }

  ghost predicate Stands(w: set<Entry>, ops: seq<Operation>, i: nat) {
    exists e :: IsFor(w, ops, i, e)
  }

  ghost predicate ReadsLike(w: set<Entry>, ops: seq<Operation>, u: UserKey, t: SequenceNumber) {
    t <= |ops| && Read(w, u, t) == Lookup(Contents(ops[..t]), u)
  }

  lemma MapStep(ops: seq<Operation>, n: nat, t: nat, u: UserKey)
    requires t == n + 1 <= |ops|
    ensures Lookup(Contents(ops[..t]), u) == if ops[n].0 == u then ops[n].1 else Lookup(Contents(ops[..n]), u)
  {
    assert ops[..t][..n] == ops[..n];
  }

  lemma ReadNext(w: set<Entry>, ops: seq<Operation>, u: UserKey, n: nat, t: nat)
    requires UniqueKeys(w) && Stands(w, ops, n) && ReadsLike(w, ops, u, n) && t == n + 1
    ensures ReadsLike(w, ops, u, t)
  {
    var e :| IsFor(w, ops, n, e);
    ReadAt(w, u, t, e);
    MapStep(ops, n, t, u);
  }

  /** Entries that stand for operations read like the map after them. */
  lemma {:induction false} StandingRead(w: set<Entry>, ops: seq<Operation>, u: UserKey, first: nat, t: nat)
    requires UniqueKeys(w) && first <= t <= |ops| < MAX_SEQUENCE && ReadsLike(w, ops, u, first)
    requires forall i {:trigger Stands(w, ops, i)} :: first <= i < |ops| ==> Stands(w, ops, i)
    ensures ReadsLike(w, ops, u, t)
  {
    if t > first {
      StandingRead(w, ops, u, first, t - 1);
      ReadNext(w, ops, u, t - 1, t);
    }
  }

  lemma EntryOfBatch(ops: seq<Operation>, last: nat, batch: seq<Operation>, es: seq<Entry>, written: set<Entry>, i: nat)
    requires last + |batch| == |ops| < MAX_SEQUENCE && ops[last..] == batch && last <= i < |ops|
    requires es == BatchEntries(batch, last + 1) && forall e :: e in written ==> e.key.sequence <= last
    ensures Stands(Elements(es) + written, ops, i)
  {
    var w, e := Elements(es) + written, es[i - last];
    forall x | x in w && x.key.sequence == i + 1
      ensures x == e
    {
      var j :| 0 <= j < |es| && es[j] == x;
    }
    assert ops[i] == batch[i - last];
    assert IsFor(w, ops, i, e);
  }

  /** What was written before reads as before. */
  lemma EarlierReads(es: set<Entry>, written: set<Entry>, history: seq<Operation>, more: seq<Operation>, u: UserKey,
                     last: SequenceNumber, t: SequenceNumber)
    requires UniqueKeys(es + written) && Newer(es, written) && forall e :: e in es ==> last < e.key.sequence
    requires Recorded(written, history, last) && history <= more && t <= last
    ensures ReadsLike(es + written, more, u, t)
  {
    ReadUnion(es, written, u, t);
    assert more[..t] == history[..t];
  }

  /** After a write the entries still say what the map holds. */
  lemma WriteRecords(history: seq<Operation>, batch: seq<Operation>, es: seq<Entry>, written: set<Entry>,
                     last: SequenceNumber)
    requires last + |batch| < MAX_SEQUENCE && es == BatchEntries(batch, last + 1)
    requires UniqueKeys(Elements(es) + written) && Newer(Elements(es), written)
    requires (forall e :: e in written ==> e.key.sequence <= last) && Recorded(written, history, last)
    ensures Recorded(Elements(es) + written, history + batch, last + |batch|)
  {
    var w, ops := Elements(es) + written, history + batch;
    forall i | last <= i < |ops| ensures Stands(w, ops, i) { EntryOfBatch(ops, last, batch, es, written, i); }
    forall e | e in Elements(es) ensures last < e.key.sequence {}
    forall u, t: SequenceNumber | t <= last + |batch|
      ensures ReadsLike(w, ops, u, t)
    {
      EarlierReads(Elements(es), written, history, ops, u, last, if t <= last then t else last);
      if t > last {
        StandingRead(w, ops, u, last, t);
      }
    }
    ReadsLikeAll(w, ops, last + |batch|);
  }

  lemma ReadsLikeAll(w: set<Entry>, ops: seq<Operation>, last: SequenceNumber)
    requires |ops| == last && forall u, t: SequenceNumber :: t <= last ==> ReadsLike(w, ops, u, t)
    ensures Recorded(w, ops, last)
  {
    forall u, t: SequenceNumber | t <= last
      ensures Read(w, u, t) == Lookup(Contents(ops[..t]), u)
    {
      assert ReadsLike(w, ops, u, t);
    }
  }

  lemma WriteKeeps(s: Store, s2: Store, batch: seq<Operation>)
    requires Structure(s) && WriteStep(s, s2, batch)
    ensures Structure(s2)
    ensures Faithful(s) ==> Faithful(s2)
  {
    var es := WriteHistory(s, s2, batch);
    WriteIsNewer(s, s2, es);
    if Faithful(s) {
      WriteIsFaithful(s, s2, es);
    }
  }

  lemma WriteHistory(s: Store, s2: Store, batch: seq<Operation>) returns (es: set<Entry>)
    requires Structure(s) && WriteStep(s, s2, batch)
    ensures HistoryOk(s2) && Elements(s2.mem) == Elements(s.mem) + es
    ensures Held(s2) == es + Held(s) && s2.written == es + s.written
    ensures UniqueKeys(es + Held(s)) && Newer(es, Held(s)) && UniqueKeys(es + s.written) && Newer(es, s.written)
  {
    es := NewEntries(s, batch);
    UniqueUnion(es, s.written);
    HeldUnique(s);
    NewerParts(es, s.written, es, Held(s));
    UniqueUnion(es, Held(s));
    assert Held(s2) == es + Held(s) && s2.written == es + s.written;
    WriteRecords(s.history, batch, BatchEntries(batch, s.lastSequence + 1), s.written, s.lastSequence);
  }

  lemma WriteIsNewer(s: Store, s2: Store, es: set<Entry>)
    requires MemTablesOk(s) && Newer(es, Held(s)) && Sorted(s2.mem) && Elements(s2.mem) == Elements(s.mem) + es
    requires s2.imm == s.imm && s2.version == s.version
    ensures MemTablesOk(s2)
  {
    NewerParts(es, Held(s), es, ImmEntries(s) + VersionEntries(s.version));
    UnionNewer(Elements(s.mem), es, ImmEntries(s) + VersionEntries(s.version));
  }

  lemma WriteIsFaithful(s: Store, s2: Store, es: set<Entry>)
    requires Faithful(s) && Horizon(s) <= Horizon(s2) && Held(s2) == es + Held(s) && s2.written == es + s.written
    requires UniqueKeys(es + Held(s)) && Newer(es, Held(s)) && UniqueKeys(es + s.written) && Newer(es, s.written)
    ensures Faithful(s2)
  {
    forall u, t: SequenceNumber | Horizon(s2) <= t
      ensures Read(Held(s2), u, t) == Read(s2.written, u, t)
    {
      SameOverBoth(es, Held(s), s.written, u, t);
    }
  }

  /** Newer entries over sets that read alike. */
  lemma SameOverBoth(es: set<Entry>, a: set<Entry>, b: set<Entry>, u: UserKey, t: SequenceNumber)
    requires UniqueKeys(es + a) && Newer(es, a) && UniqueKeys(es + b) && Newer(es, b)
    requires Read(a, u, t) == Read(b, u, t)
    ensures Read(es + a, u, t) == Read(es + b, u, t)
  {
    ReadUnion(es, a, u, t);
    ReadUnion(es, b, u, t);
  }

  /** Position `i` has the last of the first `k` operations on `u`. */
  predicate IsLastOn(ops: seq<Operation>, k: nat, u: UserKey, i: nat) {
    i < k <= |ops| && ops[i].0 == u && forall j :: i < j < k ==> ops[j].0 != u
  }

  predicate NoneOn(ops: seq<Operation>, k: nat, u: UserKey) {
    k <= |ops| && forall j :: 0 <= j < k ==> ops[j].0 != u
  }

  /** A map holds of each key what the last operation on it says; here the last operations are `ops`. */
  lemma {:induction false} LastOperationDecides(all: seq<Operation>, first: nat, ops: seq<Operation>, k: nat, n: nat,
                                                u: UserKey)
    requires first + |ops| <= |all| && all[first..first + |ops|] == ops && k <= |ops| && n == first + k
    ensures forall i: nat :: IsLastOn(ops, k, u, i) ==> Lookup(Contents(all[..n]), u) == ops[i].1
    ensures NoneOn(ops, k, u) ==> Lookup(Contents(all[..n]), u) == Lookup(Contents(all[..first]), u)
  {
    if k > 0 {
      LastOperationDecides(all, first, ops, k - 1, n - 1, u);
      MapStep(all, n - 1, n, u);
      assert all[n - 1] == ops[k - 1];
      forall i: nat | IsLastOn(ops, k, u, i)
        ensures Lookup(Contents(all[..n]), u) == ops[i].1
      {
        assert i == k - 1 || IsLastOn(ops, k - 1, u, i);
      }
    }
  }

  /**
   * After `k` operations of a batch written at `last`: a key reads as the last of them on it says, and as
   * before if there is none.
   */
  ghost predicate ReadsBatch(before: set<Entry>, last: nat, after: set<Entry>, batch: seq<Operation>, u: UserKey, k: nat)
    requires last + k <= MAX_SEQUENCE
  {
    && (forall i: nat :: IsLastOn(batch, k, u, i) ==> Read(after, u, last + k) == batch[i].1)
    && (NoneOn(batch, k, u) ==> Read(after, u, last + k) == Read(before, u, last))
  }

  lemma RecordedBatch(before: set<Entry>, history: seq<Operation>, last: SequenceNumber, after: set<Entry>,
                      batch: seq<Operation>, u: UserKey, k: nat)
    requires last + |batch| < MAX_SEQUENCE && k <= |batch|
    requires Recorded(before, history, last) && Recorded(after, history + batch, last + |batch|)
    ensures ReadsBatch(before, last, after, batch, u, k)
  {
    var all := history + batch;
    LastOperationDecides(all, last, batch, k, last + k, u);
    assert all[..last] == history[..last];
    assert Read(after, u, last + k) == Lookup(Contents(all[..last + k]), u);
    assert Read(before, u, last) == Lookup(Contents(history[..last]), u);
  }

  lemma WriteReads(s: Store, s2: Store, batch: seq<Operation>, u: UserKey, k: nat)
    requires Structure(s) && WriteStep(s, s2, batch) && k <= |batch|
    ensures ReadsBatch(s.written, s.lastSequence, s2.written, batch, u, k)
  {
    WriteKeeps(s, s2, batch);
    RecordedBatch(s.written, s.history, s.lastSequence, s2.written, batch, u, k);
  }

  lemma WriteReadsAll(s: Store, s2: Store, batch: seq<Operation>)
    requires Structure(s) && WriteStep(s, s2, batch)
    ensures forall u, k :: 0 <= k <= |batch| ==> ReadsBatch(s.written, s.lastSequence, s2.written, batch, u, k)
  {
    forall u, k | 0 <= k <= |batch|
      ensures ReadsBatch(s.written, s.lastSequence, s2.written, batch, u, k)
    {
      WriteReads(s, s2, batch, u, k);
    }
  }

  /** Steps that only rearrange what is held. */
  lemma SameEntries(s: Store, s2: Store)
    requires Structure(s) && Held(s2) == Held(s) && s2.written == s.written
    requires Horizon(s) <= Horizon(s2)
    ensures Faithful(s) ==> Faithful(s2)
  {
  }

  lemma SwitchKeeps(s: Store, s2: Store)
    requires Structure(s) && SwitchStep(s, s2)
    ensures Structure(s2)
    ensures Faithful(s) ==> Faithful(s2)
  {
    assert Elements<Entry>([]) == {};
    assert ImmEntries(s2) == Elements(s.mem) && ImmEntries(s) == {};
    assert Held(s2) == Held(s);
  }

  lemma FlushKeeps(s: Store, s2: Store, level: nat, f: File)
    requires Structure(s) && FlushStep(s, s2, level, f)
    ensures Structure(s2)
    ensures Faithful(s) ==> Faithful(s2)
  {
    FlushKeepsInvariant(s.version, level, f, s2.version);
    assert VersionEntries(s2.version) == VersionEntries(s.version) + ImmEntries(s);
    assert ImmEntries(s2) == {};
    assert Held(s2) == Held(s);
    NewerParts(Elements(s.mem), ImmEntries(s) + VersionEntries(s.version), Elements(s.mem), VersionEntries(s2.version));
    FlushNumbers(s, s2, level, f);
  }

  lemma FlushNumbers(s: Store, s2: Store, level: nat, f: File)
    requires FilesOk(s) && FlushStep(s, s2, level, f)
    ensures NumbersInOneLevel(s2.version)
    ensures forall l, g :: 0 <= l < NUM_LEVELS && g in s2.version[l] ==> g.number < s2.nextFileNumber
  {
    forall l, g | 0 <= l < NUM_LEVELS && g in s2.version[l]
      ensures g == f || g in s.version[l]
    {
      assert g in Elements(s2.version[l]);
    }
    forall l, k | 0 <= l < NUM_LEVELS && 0 <= k < NUM_LEVELS && l != k
      ensures Numbers(Elements(s2.version[l])) !! Numbers(Elements(s2.version[k]))
    {
      assert Numbers(Elements(s.version[l])) !! Numbers(Elements(s.version[k]));
      NumbersMost(s, s2, level, f, l);
      NumbersMost(s, s2, level, f, k);
    }
  }

  lemma NumbersMost(s: Store, s2: Store, level: nat, f: File, l: nat)
    requires FilesOk(s) && FlushStep(s, s2, level, f) && l < NUM_LEVELS
    ensures Numbers(Elements(s2.version[l])) == Numbers(Elements(s.version[l])) + (if l == level then {f.number} else {})
    ensures f.number !in Numbers(Elements(s.version[l]))
  {
  }

  lemma MoveKeeps(s: Store, s2: Store, level: nat, f: File)
    requires Structure(s) && MoveStep(s, s2, level, f)
    ensures Structure(s2)
    ensures Faithful(s) ==> Faithful(s2)
  {
    MovedFileIsGood(s.version, level, f);
    CompactionKeepsInvariant(s.version, level, [f], [], [f], s2.version);
    MoveKeepsEntries(s.version, level, f, s2.version);
    CompactNumbers(s, s2, level, [f], [], [f]);
  }

  /** File numbers stay in one level each when outputs are new or come from the level above. */
  lemma CompactNumbers(s: Store, s2: Store, level: nat, inputs0: seq<File>, inputs1: seq<File>, outputs: seq<File>)
    requires FilesOk(s) && ChosenInputs(s.version, level, inputs0, inputs1)
    requires CompactedTo(s.version, level, inputs0, inputs1, outputs, s2.version) && s.nextFileNumber <= s2.nextFileNumber
    requires outputs == inputs0 || forall f :: f in outputs ==> s.nextFileNumber <= f.number < s2.nextFileNumber
    ensures NumbersInOneLevel(s2.version)
    ensures forall l, g :: 0 <= l < NUM_LEVELS && g in s2.version[l] ==> g.number < s2.nextFileNumber
  {
    InputsInLevel(s.version, level, inputs0, inputs1);
    forall l, g | 0 <= l < NUM_LEVELS && g in s2.version[l]
      ensures g in s.version[l] || (l == level + 1 && g in outputs)
    {
      assert g in Elements(s2.version[l]);
    }
    forall g | g in inputs0 ensures g in s.version[level] { assert g in Elements(inputs0); }
    forall l, k | 0 <= l < NUM_LEVELS && 0 <= k < NUM_LEVELS && l != k
      ensures Numbers(Elements(s2.version[l])) !! Numbers(Elements(s2.version[k]))
    {
      forall g, h | g in s2.version[l] && h in s2.version[k]
        ensures g.number != h.number
      {
        CompactNumberPair(s, s2, level, inputs0, inputs1, outputs, l, k, g, h);
      }
    }
  }

  lemma NumbersApart(v: Version, l: nat, k: nat, g: File, h: File)
    requires NumbersInOneLevel(v) && l < NUM_LEVELS && k < NUM_LEVELS && l != k && g in v[l] && h in v[k]
    ensures g.number != h.number
  {
    assert Numbers(Elements(v[l])) !! Numbers(Elements(v[k]));
    assert g.number in Numbers(Elements(v[l])) && h.number in Numbers(Elements(v[k]));
  }

  lemma CompactNumberPair(s: Store, s2: Store, level: nat, inputs0: seq<File>, inputs1: seq<File>, outputs: seq<File>,
                          l: nat, k: nat, g: File, h: File)
    requires FilesOk(s) && ChosenInputs(s.version, level, inputs0, inputs1)
    requires CompactedTo(s.version, level, inputs0, inputs1, outputs, s2.version)
    requires outputs == inputs0 || forall f :: f in outputs ==> s.nextFileNumber <= f.number < s2.nextFileNumber
    requires l < NUM_LEVELS && k < NUM_LEVELS && l != k && g in s2.version[l] && h in s2.version[k]
    ensures g.number != h.number
  {
    InputsInLevel(s.version, level, inputs0, inputs1);
    assert g in Elements(s2.version[l]) && h in Elements(s2.version[k]);
    assert LevelOk(s.version[level], level);
    if g in s.version[l] && h in s.version[k] {
      NumbersApart(s.version, l, k, g, h);
    } else if outputs == inputs0 {
      var (o, r, m) := if g in s.version[l] then (h, g, l) else (g, h, k);
      assert o in Elements(inputs0) && r in s.version[m];
      if m == level {
        assert r !in inputs0;
      } else {
        NumbersApart(s.version, level, m, o, r);
      }
    }
  }

  lemma CompactKeepsStructure(s: Store, s2: Store, c: Compacted)
    requires Structure(s) && CompactStep(s, s2, c)
    ensures Structure(s2)
  {
    CompactionKeepsInvariant(s.version, c.level, c.inputs0, c.inputs1, c.outputs, s2.version);
    VersionsUnique(s.version, c.level, c.inputs0, c.inputs1, c.smallest, c.outputs, s2.version);
    CompactNumbers(s, s2, c.level, c.inputs0, c.inputs1, c.outputs);
    NewerParts(ImmEntries(s), VersionEntries(s.version), ImmEntries(s), VersionEntries(s2.version));
    NewerParts(Elements(s.mem), ImmEntries(s) + VersionEntries(s.version),
               Elements(s.mem), ImmEntries(s) + VersionEntries(s2.version));
  }

  lemma CompactKeeps(s: Store, s2: Store, c: Compacted)
    requires Structure(s) && SafeCompactStep(s, s2, c)
    ensures Structure(s2)
    ensures Faithful(s) ==> Faithful(s2)
  {
    CompactKeepsStructure(s, s2, c);
    ReadsPreservedIff(s.version, c.level, c.inputs0, c.inputs1, c.smallest, c.outputs, s2.version);
    if Faithful(s) {
      forall u, t: SequenceNumber | Horizon(s2) <= t
        ensures Read(Held(s2), u, t) == Read(s2.written, u, t)
      {
        CompactRead(s, s2, u, t);
        assert Read(Held(s), u, t) == Read(s.written, u, t);
      }
    }
  }

  lemma CompactRead(s: Store, s2: Store, u: UserKey, t: SequenceNumber)
    requires Structure(s) && Structure(s2) && s2.mem == s.mem && s2.imm == s.imm
    requires Read(VersionEntries(s2.version), u, t) == Read(VersionEntries(s.version), u, t)
    ensures Read(Held(s2), u, t) == Read(Held(s), u, t)
  {
    HeldUnique(s);
    HeldUnique(s2);
    var m := Elements(s.mem) + ImmEntries(s);
    MemNewer(s);
    MemNewer(s2);
    ReadUnion(m, VersionEntries(s.version), u, t);
    ReadUnion(m, VersionEntries(s2.version), u, t);
  }

  lemma MemNewer(s: Store)
    requires Structure(s)
    ensures Newer(Elements(s.mem) + ImmEntries(s), VersionEntries(s.version))
  {
    NewerParts(Elements(s.mem), ImmEntries(s) + VersionEntries(s.version), Elements(s.mem), VersionEntries(s.version));
    UnionNewer(Elements(s.mem), ImmEntries(s), VersionEntries(s.version));
  }

  lemma ReleaseKeeps(s: Store, s2: Store, i: nat)
    requires Structure(s) && ReleaseStep(s, s2, i)
    ensures Structure(s2)
    ensures Faithful(s) ==> Faithful(s2)
  {
    forall j | 0 <= j < |s2.snapshots|
      ensures s2.snapshots[j] == s.snapshots[if j < i then j else j + 1]
    {
    }
    assert Horizon(s) <= Horizon(s2);
    SameEntries(s, s2);
  }

  lemma StepButCompactKeeps(s: Store, s2: Store)
    requires Structure(s) && StepButCompact(s, s2)
    ensures Structure(s2)
    ensures Faithful(s) ==> Faithful(s2)
  {
    if batch :| WriteStep(s, s2, batch) {
      WriteKeeps(s, s2, batch);
    } else if SwitchStep(s, s2) {
      SwitchKeeps(s, s2);
    } else if level, f :| FlushStep(s, s2, level, f) {
      FlushKeeps(s, s2, level, f);
    } else if DropEmptyStep(s, s2) {
      DropEmptyKeeps(s, s2);
    } else if level, f :| MoveStep(s, s2, level, f) {
      MoveKeeps(s, s2, level, f);
    } else if SnapshotStep(s, s2) {
      SameEntries(s, s2);
    } else {
      var i :| ReleaseStep(s, s2, i);
      ReleaseKeeps(s, s2, i);
    }
  }

  lemma StepKeepsStructure(s: Store, s2: Store)
    requires Structure(s) && Step(s, s2)
    ensures Structure(s2)
  {
    if c :| CompactStep(s, s2, c) {
      CompactKeepsStructure(s, s2, c);
    } else {
      StepButCompactKeeps(s, s2);
    }
  }

  lemma SafeStepKeeps(s: Store, s2: Store)
    requires Structure(s) && Faithful(s) && SafeStep(s, s2)
    ensures Structure(s2) && Faithful(s2)
  {
    if c :| SafeCompactStep(s, s2, c) {
      CompactKeeps(s, s2, c);
    } else {
      StepButCompactKeeps(s, s2);
    }
  }

  lemma DropEmptyKeeps(s: Store, s2: Store)
    requires Structure(s) && DropEmptyStep(s, s2)
    ensures Structure(s2)
    ensures Faithful(s) ==> Faithful(s2)
  {
    assert Elements<Entry>([]) == {};
    assert ImmEntries(s2) == ImmEntries(s) == {};
    assert Held(s2) == Held(s);
  }

  lemma InitialOk()
    ensures Structure(Initial()) && Faithful(Initial())
  {
    var s := Initial();
    forall l | 0 <= l < NUM_LEVELS ensures LevelOk(s.version[l], l) { EmptyLevelOk(s.version[l], l); }
    assert forall l :: 0 <= l < NUM_LEVELS ==> LevelEntries(s.version[l]) == {};
    assert VersionEntries(s.version) == {};
    assert Held(s) == {};
  }

  /** The states a run goes through. */
  ghost predicate IsRun(run: seq<Store>) {
    run != [] && run[0] == Initial() && forall i :: 0 <= i < |run| - 1 ==> Step(run[i], run[i + 1])
  }

  ghost predicate IsSafeRun(run: seq<Store>) {
    run != [] && run[0] == Initial() && forall i :: 0 <= i < |run| - 1 ==> SafeStep(run[i], run[i + 1])
  }

  /** Every state of every run keeps the level invariant, the order of the memtables and the numbering. */
  lemma {:induction false} EveryRunKeepsStructure(run: seq<Store>)
    requires IsRun(run)
    ensures forall i :: 0 <= i < |run| ==> Structure(run[i])
  {
    InitialOk();
    for i := 1 to |run|
      invariant forall j :: 0 <= j < i ==> Structure(run[j])
    {
      assert Step(run[i - 1], run[i - 1 + 1]);
      StepKeepsStructure(run[i - 1], run[i]);
    }
  }

  /**
   * In every state of every run whose compactions bring nothing back, every reader at a live snapshot or
   * at the last sequence number finds, for every user key, what the history of all writes says.
   */
  lemma {:induction false} EveryRunIsFaithful(run: seq<Store>)
    requires IsSafeRun(run)
    ensures forall i :: 0 <= i < |run| ==> Structure(run[i]) && Faithful(run[i])
  {
    InitialOk();
    for i := 1 to |run|
      invariant forall j :: 0 <= j < i ==> Structure(run[j]) && Faithful(run[j])
    {
      assert SafeStep(run[i - 1], run[i - 1 + 1]);
      SafeStepKeeps(run[i - 1], run[i]);
    }
  }

  /** So every live reader sees the plain map that the operations up to its sequence number make. */
  lemma EveryRunIsAMap(run: seq<Store>, i: nat, u: UserKey, t: SequenceNumber)
    requires IsSafeRun(run) && i < |run| && Horizon(run[i]) <= t <= run[i].lastSequence
    ensures t <= |run[i].history| && Read(Held(run[i]), u, t) == Lookup(Contents(run[i].history[..t]), u)
  {
    EveryRunIsFaithful(run);
    assert Faithful(run[i]) && Structure(run[i]);
    assert Read(Held(run[i]), u, t) == Read(run[i].written, u, t);
  }

  // The database object

  class DB {
    var mem: seq<Entry>
    var imm: Option<seq<Entry>>
    var version: Version
    var lastSequence: SequenceNumber
    var snapshots: seq<SequenceNumber>
    var nextFileNumber: nat
    ghost var history: seq<Operation>
    ghost var written: set<Entry>
    const tableSize: seq<Entry> -> nat
    const targetFileSize: nat

    constructor (tableSize: seq<Entry> -> nat, targetFileSize: nat)
      ensures State() == Initial() && Structure(State()) && Faithful(State())
    {
      mem, imm, version, lastSequence, snapshots, nextFileNumber := [], None, EmptyVersion(), 0, [], 2;
      history, written := [], {};
      this.tableSize, this.targetFileSize := tableSize, targetFileSize;
      new;
      InitialOk();
    }

    ghost function State(): Store
      reads this
    {
      Store(mem, imm, version, lastSequence, snapshots, nextFileNumber, history, written)
    }

    /** WriteBatchInternal::InsertInto at the next sequence number, and the new last sequence number. */
    method Write(batch: seq<Operation>)
      requires Structure(State()) && lastSequence + |batch| < MAX_SEQUENCE
      modifies this
      ensures WriteStep(old(State()), State(), batch) && history == old(history) + batch
      ensures forall u, k :: 0 <= k <= |batch| ==>
                ReadsBatch(old(written), old(lastSequence), written, batch, u, k)
      ensures Structure(State()) && (old(Faithful(State())) ==> Faithful(State()))
    {
      ghost var before := State();
      var es := BatchEntries(batch, lastSequence + 1);
      BatchKeysAreNew(before, batch);
      mem := InsertInto(mem, es);
      lastSequence := lastSequence + |batch|;
      history := history + batch;
      written := written + Elements(es);
      Wrote(before, State(), batch, es);
      WriteReadsAll(before, State(), batch);
    }

    /** The switch of MakeRoomForWrite. */
    method SwitchMemTable()
      requires Structure(State()) && imm.None?
      modifies this
      ensures SwitchStep(old(State()), State())
      ensures Structure(State()) && (old(Faithful(State())) ==> Faithful(State()))
    {
      ghost var before := State();
      nextFileNumber := nextFileNumber + 1;
      imm := Some(mem);
      mem := [];
      SwitchKeeps(before, State());
    }

    /** CompactMemTable and WriteLevel0Table. */
    method CompactMemTable()
      requires Structure(State()) && imm.Some?
      modifies this
      ensures StepButCompact(old(State()), State()) && imm.None?
      ensures Structure(State()) && (old(Faithful(State())) ==> Faithful(State()))
    {
      ghost var before := State();
      var entries, number := imm.value, nextFileNumber;
      nextFileNumber := nextFileNumber + 1;
      if entries != [] {
        var f := File(number, tableSize(entries), entries[0].key, entries[|entries| - 1].key, entries);
        MemNewer(before);
        var level, v2 := Flush(version, f, targetFileSize);
        version := v2;
        imm := None;
        assert FlushStep(before, State(), level, f);
      } else {
        imm := None;
        assert DropEmptyStep(before, State());
      }
      StepButCompactKeeps(before, State());
    }

    /**
     * BackgroundCompaction. `manual` is the range of a manual compaction; otherwise the level and possibly
     * the file come from PickCompaction's scores and seek counts. When `done` is Some, a compaction was
     * installed; otherwise the memtable was flushed, a file moved, or there was nothing to do. `start` are the
     * files it was about.
     */
    method BackgroundCompaction(level: nat, manual: Option<(Option<UserKey>, Option<UserKey>)>, seekFile: Option<File>,
                                compactPointer: Option<InternalKey>)
        returns (ghost done: Option<Compacted>, ghost start: seq<File>)
      requires Structure(State()) && level + 1 < NUM_LEVELS
      requires seekFile.Some? ==> seekFile.value in version[level]
      modifies this
      ensures done.Some? ==> CompactStep(old(State()), State(), done.value)
      ensures old(imm).None? ==> IsStart(old(version), level, manual, seekFile, compactPointer, targetFileSize, start)
      ensures old(imm).None? && start == [] ==> State() == old(State())
      ensures old(imm).None? && start != [] && done.None? ==>
                |start| == 1 && manual.None? && MoveStep(old(State()), State(), level, start[0]) &&
                IsTrivial(old(version), level, start, [], targetFileSize)
      ensures done.Some? ==>
                && start != [] && Starts(level, start, done.value)
                && (manual.None? ==> !IsTrivial(old(version), level, done.value.inputs0, done.value.inputs1, targetFileSize))
                && LeavesNoGarbage(old(State()), State(), done.value)
                && HasLimits(old(version), done.value, tableSize, targetFileSize)
      ensures done.None? ==> State() == old(State()) || StepButCompact(old(State()), State())
      ensures Structure(State())
      ensures done.None? || SafeCompactStep(old(State()), State(), done.value) ==>
                (old(Faithful(State())) ==> Faithful(State()))
      ensures imm.None?
    {
      ghost var before := State();
      done, start := None, [];
      if imm.Some? {
        CompactMemTable();
        return;
      }
      var files := StartOf(version, level, manual, seekFile, compactPointer, targetFileSize);
      start := files;
      if files == [] {
        return;
      }
      done := CompactFrom(level, files, manual.Some?);
    }

    /** The part of BackgroundCompaction after the files to start from are chosen. */
    method CompactFrom(level: nat, start: seq<File>, isManual: bool) returns (ghost done: Option<Compacted>)
      requires Structure(State()) && level + 1 < NUM_LEVELS && StartInputs(version[level], level, start)
      modifies this
      ensures imm == old(imm) && Structure(State())
      ensures done.None? ==> |start| == 1 && !isManual && MoveStep(old(State()), State(), level, start[0])
      ensures done.None? ==> IsTrivial(old(version), level, start, [], targetFileSize)
      ensures done.Some? ==> CompactStep(old(State()), State(), done.value) && Starts(level, start, done.value)
      ensures done.Some? && !isManual ==>
                !IsTrivial(old(version), level, done.value.inputs0, done.value.inputs1, targetFileSize)
      ensures done.Some? ==> LeavesNoGarbage(old(State()), State(), done.value)
      ensures done.Some? ==> HasLimits(old(version), done.value, tableSize, targetFileSize)
      ensures done.None? || SafeCompactStep(old(State()), State(), done.value) ==>
                (old(Faithful(State())) ==> Faithful(State()))
    {
      var inputs0, inputs1, grandparents, trivial := InputsFrom(level, start);
      if !isManual && trivial {
        MoveDown(level, inputs0[0]);
        done := None;
      } else {
        done := Compact(level, inputs0, inputs1, grandparents);
      }
    }

    /** The inputs that the files to start from bring with them, and whether a move is enough. */
    method InputsFrom(level: nat, start: seq<File>)
        returns (inputs0: seq<File>, inputs1: seq<File>, grandparents: seq<File>, trivial: bool)
      requires Structure(State()) && level + 1 < NUM_LEVELS && StartInputs(version[level], level, start)
      ensures ChosenInputs(version, level, inputs0, inputs1)
      ensures AreGrandparents(version, level, inputs0, inputs1, grandparents)
      ensures forall f :: f in start ==> f in inputs0
      ensures trivial <==> IsTrivial(version, level, inputs0, inputs1, targetFileSize)
      ensures trivial ==> start == inputs0 == [inputs0[0]] && inputs1 == []
    {
      var pointer;
      ghost var closed;
      inputs0, inputs1, grandparents, pointer, closed := SetupOtherInputs(version, level, start, targetFileSize);
      GrandparentsAre(version, level, inputs0, inputs1, grandparents, targetFileSize);
      trivial := IsTrivialMove(inputs0, inputs1, grandparents, targetFileSize);
      forall f | f in start ensures f in inputs0 { assert f in closed; }
    }

    method MoveDown(level: nat, f: File)
      requires Structure(State()) && ChosenInputs(version, level, [f], [])
      modifies this
      ensures MoveStep(old(State()), State(), level, f) && imm == old(imm)
      ensures Structure(State()) && (old(Faithful(State())) ==> Faithful(State()))
    {
      ghost var before := State();
      version := TrivialMove(version, level, f);
      MoveKeeps(before, State(), level, f);
    }

    /** DoCompactionWork and InstallCompactionResults for the readers of now. */
    method Compact(level: nat, inputs0: seq<File>, inputs1: seq<File>, grandparents: seq<File>)
        returns (ghost done: Option<Compacted>)
      requires Structure(State()) && ChosenInputs(version, level, inputs0, inputs1)
      modifies this
      ensures done.Some? && CompactStep(old(State()), State(), done.value) && imm == old(imm)
      ensures done.value.level == level && done.value.inputs0 == inputs0 && done.value.inputs1 == inputs1
      ensures LeavesNoGarbage(old(State()), State(), done.value)
      ensures AreGrandparents(old(version), level, inputs0, inputs1, grandparents) ==>
                HasLimits(old(version), done.value, tableSize, targetFileSize)
      ensures Structure(State())
      ensures SafeCompactStep(old(State()), State(), done.value) ==> (old(Faithful(State())) ==> Faithful(State()))
    {
      ghost var before := State();
      var smallest := if snapshots == [] then lastSequence else snapshots[0];
      var outputs, v2, next, ends := RunCompaction(version, level, inputs0, inputs1, grandparents, smallest, nextFileNumber,
                                             tableSize, targetFileSize);
      version := v2;
      nextFileNumber := next;
      ghost var c := Compacted(level, inputs0, inputs1, smallest, outputs);
      assert CompactStep(before, State(), c);
      CompactionLeavesNoGarbage(before.version, level, inputs0, inputs1, smallest, outputs, version);
      CompactKeepsStructure(before, State(), c);
      if SafeCompactStep(before, State(), c) {
        CompactKeeps(before, State(), c);
      }
      done := Some(c);
      assert WellCut(OutputLimits(grandparents, tableSize, targetFileSize), c.outputs, ends);
    }

    method GetSnapshot() returns (t: SequenceNumber)
      requires Structure(State())
      modifies this`snapshots
      ensures SnapshotStep(old(State()), State()) && t == lastSequence
      ensures Structure(State()) && (old(Faithful(State())) ==> Faithful(State()))
    {
      ghost var before := State();
      t := lastSequence;
      snapshots := snapshots + [t];
      SameEntries(before, State());
    }

    /** SnapshotList::Delete of the i-th oldest. */
    method ReleaseSnapshot(i: nat)
      requires Structure(State()) && i < |snapshots|
      modifies this`snapshots
      ensures ReleaseStep(old(State()), State(), i)
      ensures Structure(State()) && (old(Faithful(State())) ==> Faithful(State()))
    {
      ghost var before := State();
      snapshots := snapshots[..i] + snapshots[i + 1..];
      ReleaseKeeps(before, State(), i);
    }

    /** DBImpl::Get, with a snapshot that is still live or at the last sequence number. */
    method Get(u: UserKey, snapshot: Option<SequenceNumber>) returns (r: Option<Bytes>)
      requires Structure(State()) && Faithful(State())
      requires snapshot.Some? ==> snapshot.value in snapshots
      ensures r == Read(written, u, if snapshot.Some? then snapshot.value else lastSequence)
      ensures var t := if snapshot.Some? then snapshot.value else lastSequence;
        t <= |history| && r == Lookup(Contents(history[..t]), u)
    {
      var t := if snapshot.Some? then snapshot.value else lastSequence;
      r := DbGet(mem, imm, version, u, t);
      assert Horizon(State()) <= t;
    }
  }

  ghost predicate Starts(level: nat, start: seq<File>, c: Compacted) {
    c.level == level && forall f :: f in start ==> f in c.inputs0
  }

  /** A compaction is for the readers of its time and leaves nothing that none of them needs. */
  ghost predicate LeavesNoGarbage(s: Store, s2: Store, c: Compacted) {
    && c.smallest == Horizon(s)
    && NoGarbage(s.version, c.level, InputEntries(c.inputs0, c.inputs1), Horizon(s), VersionEntries(s2.version))
  }

  /** The files two levels down that the inputs reach over. */
  ghost predicate AreGrandparents(v: Version, level: nat, inputs0: seq<File>, inputs1: seq<File>, grandparents: seq<File>) {
    if level + 2 < NUM_LEVELS then Selects(inputs0 + inputs1, v[level + 2], grandparents) else grandparents == []
  }

  /** The outputs are cut by their size and by the grandparents they reach over. */
  ghost predicate HasLimits(v: Version, c: Compacted, tableSize: seq<Entry> -> nat, targetFileSize: nat) {
    exists gs, ends :: AreGrandparents(v, c.level, c.inputs0, c.inputs1, gs) &&
      WellCut(OutputLimits(gs, tableSize, targetFileSize), c.outputs, ends)
  }

  /** The files two levels down that a file reaches over. */
  function Grandparents(v: Version, level: nat, f: File): seq<File> {
    if level + 2 < NUM_LEVELS then Overlapping(v[level + 2], KeyRange(Some(f.smallest.user), Some(f.largest.user))) else []
  }

  /** A single file that may be moved down: it meets nothing there, and not too much one level further. */
  ghost predicate IsTrivial(v: Version, level: nat, inputs0: seq<File>, inputs1: seq<File>, targetFileSize: nat) {
    && |inputs0| == 1 && inputs1 == []
    && TotalFileSize(Grandparents(v, level, inputs0[0])) <= MaxGrandParentOverlapBytes(targetFileSize)
  }

  lemma GrandparentsAre(v: Version, level: nat, inputs0: seq<File>, inputs1: seq<File>, grandparents: seq<File>,
                        targetFileSize: nat)
    requires AreGrandparents(v, level, inputs0, inputs1, grandparents)
    ensures IsTrivialMove(inputs0, inputs1, grandparents, targetFileSize) <==>
            IsTrivial(v, level, inputs0, inputs1, targetFileSize)
  {
    if level + 2 < NUM_LEVELS && |inputs0| == 1 && inputs1 == [] {
      var f := inputs0[0];
      assert inputs0 + inputs1 == [f] && f in [f];
      var lo, hi :| Reaches([f], lo, hi) && grandparents == Overlapping(v[level + 2], KeyRange(Some(lo), Some(hi)));
    }
  }

  /** What a compaction starts from, by hand, by seeks or by size. */
  ghost predicate IsStart(v: Version, level: nat, manual: Option<(Option<UserKey>, Option<UserKey>)>, seekFile: Option<File>,
                          compactPointer: Option<InternalKey>, limit: nat, start: seq<File>)
    requires level < NUM_LEVELS
  {
    if manual.Some? then IsManualStart(v, level, manual.value.0, manual.value.1, limit, start)
    else if v[level] == [] then start == []
    else if seekFile.Some? then StartsWith(v[level], level, seekFile.value, start)
    else exists k: nat :: IsNextFile(v[level], compactPointer, k) && StartsWith(v[level], level, v[level][k], start)
  }

  /** The files that meet the range; past level 0 only as many as the limit in bytes asks for. */
  ghost predicate IsManualStart(v: Version, level: nat, begin: Option<UserKey>, end: Option<UserKey>, limit: nat,
                                start: seq<File>)
    requires level < NUM_LEVELS
  {
    && (start == [] <==> forall f :: f in v[level] ==> !f.Overlaps(begin, end))
    && exists range :: PicksRange(v[level], level, KeyRange(begin, end), range) &&
         if level == 0 then start == Overlapping(v[0], range) else IsLimited(Overlapping(v[level], range), limit, start)
  }

  /** Compaction::IsTrivialMove. */
  predicate IsTrivialMove(inputs0: seq<File>, inputs1: seq<File>, grandparents: seq<File>, targetFileSize: nat) {
    |inputs0| == 1 && |inputs1| == 0 && TotalFileSize(grandparents) <= MaxGrandParentOverlapBytes(targetFileSize)
  }

  /** The inputs of CompactRange or of PickCompaction; none when there is nothing to compact. */
  method StartOf(v: Version, level: nat, manual: Option<(Option<UserKey>, Option<UserKey>)>, seekFile: Option<File>,
                 compactPointer: Option<InternalKey>, limit: nat)
      returns (start: seq<File>)
    requires LevelInvariant(v) && level + 1 < NUM_LEVELS
    requires seekFile.Some? ==> seekFile.value in v[level]
    ensures start != [] ==> StartInputs(v[level], level, start)
    ensures IsStart(v, level, manual, seekFile, compactPointer, limit, start)
  {
    start := [];
    if manual.Some? {
      ghost var range;
      start, range := CompactRangeStart(v, level, manual.value.0, manual.value.1, limit);
    } else if v[level] != [] {
      start := PickStart(v, level, seekFile, compactPointer);
    }
  }

  /** No two of these share a key. */
  ghost predicate DistinctKeys(es: seq<Entry>) {
    forall i, j :: 0 <= i < j < |es| ==> es[i].key != es[j].key
  }

  /** WriteBatchInternal::InsertInto on the memtable. */
  method InsertInto(mem: seq<Entry>, es: seq<Entry>) returns (r: seq<Entry>)
    requires Sorted(mem) && DistinctKeys(es)
    requires forall x, e :: x in mem && e in es ==> x.key != e.key
    ensures Sorted(r) && Elements(r) == Elements(mem) + Elements(es)
  {
    r := mem;
    for i := 0 to |es|
      invariant Sorted(r) && Elements(r) == Elements(mem) + Elements(es[..i])
    {
      forall x | x in r ensures x.key != es[i].key { assert x in Elements(r); }
      InsertedIsSorted(r, es[i]);
      r := Inserted(r, es[i]);
      assert es[..i + 1] == es[..i] + [es[i]];
    }
    assert es[..|es|] == es;
  }

  lemma Wrote(s: Store, s2: Store, batch: seq<Operation>, es: seq<Entry>)
    requires Structure(s) && s.lastSequence + |batch| < MAX_SEQUENCE && es == BatchEntries(batch, s.lastSequence + 1)
    requires Sorted(s2.mem) && Elements(s2.mem) == Elements(s.mem) + Elements(es)
    requires s2 == s.(mem := s2.mem, lastSequence := s.lastSequence + |batch|, history := s.history + batch,
                        written := s.written + Elements(es))
    ensures WriteStep(s, s2, batch)
    ensures Structure(s2) && (Faithful(s) ==> Faithful(s2))
  {
    WriteKeeps(s, s2, batch);
  }

  lemma BatchKeysAreNew(s: Store, batch: seq<Operation>)
    requires Structure(s) && s.lastSequence + |batch| < MAX_SEQUENCE
    ensures var es := BatchEntries(batch, s.lastSequence + 1);
      DistinctKeys(es) && forall x, e :: x in s.mem && e in es ==> x.key != e.key
  {
    forall x | x in s.mem ensures x.key.sequence <= s.lastSequence {
      assert x in Elements(s.mem) && x in Held(s) && x in s.written;
    }
  }
}
