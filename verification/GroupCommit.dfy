/**
 * Group commit (DBImpl::Write, BuildBatchGroup and MakeRoomForWrite in db/db_impl.cc). Threads are
 * interleaved at every point where the mutex is free or a single entry reaches the memtable.
 */
module GroupCommit {
  import opened DbFormat

  type Op = (UserKey, Option<Bytes>)
  datatype Batch = Batch(ops: seq<Op>, size: nat)  // size: the bytes of its representation
  datatype Writer = Writer(batch: Option<Batch>, sync: bool)
  datatype Status = Ok | Failed

  /** An entry of the memtable, and a record of the log. */
  datatype Numbered = Numbered(sequence: nat, op: Op)
  datatype Record = Record(first: nat, ops: seq<Op>)

  function Ops(w: Writer): seq<Op> {
    if w.batch.Some? then w.batch.value.ops else []
  }

  function Size(w: Writer): nat {
    if w.batch.Some? then w.batch.value.size else 0
  }

  ghost predicate Ids(ws: seq<Writer>, ids: seq<nat>) {
    forall i :: 0 <= i < |ids| ==> ids[i] < |ws|
  }

  /** The batches of the first `n` of some writers, joined. */
  ghost function OpsUpTo(ws: seq<Writer>, ids: seq<nat>, n: nat): seq<Op>
    requires Ids(ws, ids) && n <= |ids|
  {
    if n == 0 then [] else OpsUpTo(ws, ids, n - 1) + Ops(ws[ids[n - 1]])
  }

  ghost function OpsOf(ws: seq<Writer>, ids: seq<nat>): seq<Op>
    requires Ids(ws, ids)
  {
    OpsUpTo(ws, ids, |ids|)
  }

  ghost function SizeUpTo(ws: seq<Writer>, ids: seq<nat>, n: nat): nat
    requires Ids(ws, ids) && n <= |ids|
  {
    if n == 0 then 0 else SizeUpTo(ws, ids, n - 1) + Size(ws[ids[n - 1]])
  }

  /** Only the first `n` matter. */
  lemma {:induction false} OpsUpToSame(ws: seq<Writer>, ids: seq<nat>, more: seq<Writer>, ids2: seq<nat>, n: nat)
    requires Ids(ws, ids) && Ids(more, ids2) && ws <= more && n <= |ids| && n <= |ids2|
    requires forall i :: 0 <= i < n ==> ids[i] == ids2[i]
    ensures OpsUpTo(more, ids2, n) == OpsUpTo(ws, ids, n)
  {
    if n > 0 {
      OpsUpToSame(ws, ids, more, ids2, n - 1);
    }
  }

  lemma {:induction false} OpsUpToSplit(ws: seq<Writer>, a: seq<nat>, b: seq<nat>, n: nat)
    requires Ids(ws, a) && Ids(ws, b) && n <= |b|
    ensures OpsUpTo(ws, a + b, |a| + n) == OpsOf(ws, a) + OpsUpTo(ws, b, n)
  {
    if n == 0 {
      OpsUpToSame(ws, a, ws, a + b, |a|);
    } else {
      OpsUpToSplit(ws, a, b, n - 1);
      assert (a + b)[|a| + n - 1] == b[n - 1];
      var before := OpsUpTo(ws, b, n - 1);
      assert OpsOf(ws, a) + (before + Ops(ws[b[n - 1]])) == OpsOf(ws, a) + before + Ops(ws[b[n - 1]]);
    }
  }

  lemma OpsOfSplit(ws: seq<Writer>, a: seq<nat>, b: seq<nat>)
    requires Ids(ws, a) && Ids(ws, b)
    ensures OpsOf(ws, a + b) == OpsOf(ws, a) + OpsOf(ws, b)
  {
    OpsUpToSplit(ws, a, b, |b|);
  }

  lemma OpsOfMore(ws: seq<Writer>, more: seq<Writer>, ids: seq<nat>)
    requires ws <= more && Ids(ws, ids)
    ensures OpsOf(more, ids) == OpsOf(ws, ids)
  {
    OpsUpToSame(ws, ids, more, ids, |ids|);
  }

  // Building a group

  /** How large a group led by a batch of `size` bytes may grow. */
  function MaxSize(size: nat): nat {
    if size <= 0x20000 then size + 0x20000 else 0x100000
  }

  /** The i-th waiting writer must not join the group of the first. */
  ghost predicate Stops(ws: seq<Writer>, queue: seq<nat>, i: nat)
    requires Ids(ws, queue) && i < |queue|
  {
    var first, w := ws[queue[0]], ws[queue[i]];
    (w.sync && !first.sync) || (w.batch.Some? && SizeUpTo(ws, queue, i + 1) > MaxSize(Size(first)))
  }

  /** The group is the longest run of waiting writers that may join. */
  ghost predicate Takes(ws: seq<Writer>, queue: seq<nat>, n: nat)
    requires Ids(ws, queue)
  {
    && 1 <= n <= |queue|
    && NoneStops(ws, queue, n)
    && (n < |queue| ==> Stops(ws, queue, n))
  }

  ghost predicate NoneStops(ws: seq<Writer>, queue: seq<nat>, n: nat)
    requires Ids(ws, queue) && n <= |queue|
  {
    forall i :: 1 <= i < n ==> !Stops(ws, queue, i)
  }

  ghost predicate Joined(ws: seq<Writer>, members: seq<nat>)
    requires Ids(ws, members)
  {
    exists i :: 1 <= i < |members| && ws[members[i]].batch.Some?
  }

  /** DBImpl::BuildBatchGroup: how many writers it takes, the joined batch, and the shared batch after it. */
  method BuildBatchGroup(ws: seq<Writer>, queue: seq<nat>, tmp: seq<Op>)
      returns (n: nat, result: seq<Op>, tmp': seq<Op>)
    requires Ids(ws, queue) && queue != [] && ws[queue[0]].batch.Some? && tmp == []
    ensures Takes(ws, queue, n)
    ensures result == OpsUpTo(ws, queue, n)
    ensures tmp' == if Joined(ws, queue[..n]) then result else []
  {
    var first := ws[queue[0]];
    result := first.batch.value.ops;
    tmp' := tmp;
    var size := Size(first);
    var shared := false;
    var maxSize := 0x100000;
    if size <= 0x20000 {
      maxSize := size + 0x20000;
    }
    n := 1;
    while n < |queue|
      invariant 1 <= n <= |queue| && maxSize == MaxSize(Size(first))
      invariant size == SizeUpTo(ws, queue, n) && result == OpsUpTo(ws, queue, n)
      invariant NoneStops(ws, queue, n)
      invariant shared == Joined(ws, queue[..n]) && tmp' == if shared then result else []
    {
      var w := ws[queue[n]];
      if w.sync && !first.sync {
        break;
      }
      if w.batch.Some? {
        size := size + w.batch.value.size;
        if size > maxSize {
          break;
        }
        if !shared {
          shared := true;
          tmp' := result;
        }
        tmp' := tmp' + w.batch.value.ops;
        result := tmp';
      }
      OneMore(ws, queue, n);
      JoinedMore(ws, queue, n);
      NotStopped(ws, queue, n, size, maxSize);
      n := n + 1;
    }
  }

  lemma OneMore(ws: seq<Writer>, queue: seq<nat>, n: nat)
    requires Ids(ws, queue) && n < |queue|
    ensures SizeUpTo(ws, queue, n + 1) == SizeUpTo(ws, queue, n) + Size(ws[queue[n]])
    ensures OpsUpTo(ws, queue, n + 1) == OpsUpTo(ws, queue, n) + Ops(ws[queue[n]])
    ensures ws[queue[n]].batch.None? ==> OpsUpTo(ws, queue, n + 1) == OpsUpTo(ws, queue, n)
  {
  }

  lemma NotStopped(ws: seq<Writer>, queue: seq<nat>, n: nat, size: nat, maxSize: nat)
    requires Ids(ws, queue) && 1 <= n < |queue| && NoneStops(ws, queue, n)
    requires maxSize == MaxSize(Size(ws[queue[0]])) && size == SizeUpTo(ws, queue, n + 1)
    requires ws[queue[n]].sync ==> ws[queue[0]].sync
    requires ws[queue[n]].batch.Some? ==> size <= maxSize
    ensures NoneStops(ws, queue, n + 1)
  {
  }

  lemma JoinedMore(ws: seq<Writer>, queue: seq<nat>, n: nat)
    requires Ids(ws, queue) && 1 <= n < |queue|
    ensures Joined(ws, queue[..n + 1]) <==> Joined(ws, queue[..n]) || ws[queue[n]].batch.Some?
  {
    forall i | 1 <= i < n ensures queue[..n][i] == queue[..n + 1][i] {}
    if Joined(ws, queue[..n]) {
      var i :| 1 <= i < n && ws[queue[..n][i]].batch.Some?;
      assert ws[queue[..n + 1][i]].batch.Some?;
    }
    if ws[queue[n]].batch.Some? {
      assert ws[queue[..n + 1][n]].batch.Some?;
    }
  }

  lemma MembersSync(ws: seq<Writer>, queue: seq<nat>, n: nat)
    requires Ids(ws, queue) && Takes(ws, queue, n)
    ensures forall i :: 0 <= i < n && ws[queue[i]].sync ==> ws[queue[0]].sync
  {
    forall i | 0 <= i < n && ws[queue[i]].sync
      ensures ws[queue[0]].sync
    {
      assert i > 0 ==> !Stops(ws, queue, i);
    }
  }

  // The state

  datatype Group = Group(members: seq<nat>, first: nat, ops: seq<Op>)

  /** Where a call of Write stands; from Appending to Inserting its thread runs without the mutex. */
  datatype Progress =
    | Waiting
    | MakingRoom
    | Appending(g: Group)
    | Syncing(g: Group)
    | Inserting(g: Group, count: nat)
    | Finishing(g: Group, status: Status, syncError: bool)
    | Returned(result: Status)

  /**
   * Writers are numbered as they arrive. `grouped` and `groups` record history: the writers put into
   * groups so far, and the groups.
   */
  datatype State = State(
    writers: seq<Writer>,
    at: seq<Progress>,
    done: seq<Option<Status>>,
    queue: seq<nat>,
    lastSequence: nat,
    tmp: seq<Op>,
    memory: seq<Numbered>,
    log: seq<Record>,
    fileStart: nat,
    synced: set<nat>,
    failing: bool,
    grouped: seq<nat>,
    groups: seq<Group>)

  function Initial(lastSequence: nat): State {
    State([], [], [], [], lastSequence, [], [], [], 0, {}, false, [], [])
  }

  // The steps

  predicate Is(s: State, w: nat) {
    w < |s.writers| && |s.at| == |s.done| == |s.writers|
  }

  predicate Front(s: State, w: nat) {
    Is(s, w) && s.queue != [] && s.queue[0] == w
  }

  ghost predicate Arrive(s: State, s2: State, writer: Writer) {
    s2 == s.(writers := s.writers + [writer], at := s.at + [Waiting], done := s.done + [None],
             queue := s.queue + [|s.writers|])
  }

  ghost predicate WakeDone(s: State, s2: State, w: nat) {
    && Is(s, w) && s.at[w].Waiting? && s.done[w].Some?
    && s2 == s.(at := s.at[w := Returned(s.done[w].value)])
  }

  ghost predicate Lead(s: State, s2: State, w: nat) {
    && Front(s, w) && s.at[w].Waiting? && s.done[w].None?
    && s2 == s.(at := s.at[w := MakingRoom])
  }

  /** MakeRoomForWrite starts a new log file. */
  ghost predicate SwitchLog(s: State, s2: State, w: nat) {
    && Front(s, w) && s.at[w].MakingRoom?
    && s2 == s.(fileStart := |s.log|)
  }

  /** A background activity records an error; from then on no write is accepted. */
  ghost predicate BackgroundError(s: State, s2: State) {
    s2 == s.(failing := true)
  }

  /** MakeRoomForWrite failed: the writer leaves alone. */
  ghost predicate Refuse(s: State, s2: State, w: nat) {
    && Front(s, w) && s.at[w].MakingRoom?
    && s2 == s.(at := s.at[w := Returned(Failed)], queue := s.queue[1..])
  }

  ghost predicate PassNull(s: State, s2: State, w: nat) {
    && Front(s, w) && s.at[w].MakingRoom? && !s.failing && s.writers[w].batch.None?
    && s2 == s.(at := s.at[w := Returned(Ok)], queue := s.queue[1..])
  }

  ghost predicate Build(s: State, s2: State, w: nat, n: nat) {
    && Front(s, w) && s.at[w].MakingRoom? && !s.failing && s.writers[w].batch.Some?
    && Ids(s.writers, s.queue) && Takes(s.writers, s.queue, n)
    && var members := s.queue[..n];
       var g := Group(members, s.lastSequence + 1, OpsUpTo(s.writers, s.queue, n));
       s2 == s.(at := s.at[w := Appending(g)], tmp := if Joined(s.writers, members) then g.ops else [],
                grouped := s.grouped + members, groups := s.groups + [g])
  }

  ghost predicate Append(s: State, s2: State, w: nat) {
    && Is(s, w) && s.at[w].Appending?
    && var g := s.at[w].g;
       s2 == s.(log := s.log + [Record(g.first, g.ops)],
                at := s.at[w := if s.writers[w].sync then Syncing(g) else Inserting(g, 0)])
  }

  ghost predicate AppendFails(s: State, s2: State, w: nat) {
    && Is(s, w) && s.at[w].Appending?
    && s2 == s.(at := s.at[w := Finishing(s.at[w].g, Failed, false)])
  }

  /** The records of the current log file. */
  function FileRecords(s: State): set<nat> {
    set r: nat {:trigger s.log[r]} | s.fileStart <= r < |s.log| && s.log[r] == s.log[r]
  }

  /** Sync makes the records of the current log file durable. */
  ghost predicate Sync(s: State, s2: State, w: nat) {
    && Is(s, w) && s.at[w].Syncing?
    && s2 == s.(synced := s.synced + FileRecords(s),
                at := s.at[w := Inserting(s.at[w].g, 0)])
  }

  ghost predicate SyncFails(s: State, s2: State, w: nat) {
    && Is(s, w) && s.at[w].Syncing?
    && s2 == s.(at := s.at[w := Finishing(s.at[w].g, Failed, true)])
  }

  ghost predicate Insert(s: State, s2: State, w: nat) {
    && Is(s, w) && s.at[w].Inserting? && s.at[w].count < |s.at[w].g.ops|
    && var g, k := s.at[w].g, s.at[w].count;
       s2 == s.(memory := s.memory + [Numbered(g.first + k, g.ops[k])], at := s.at[w := Inserting(g, k + 1)])
  }

  ghost predicate InsertEnds(s: State, s2: State, w: nat) {
    && Is(s, w) && s.at[w].Inserting? && s.at[w].count == |s.at[w].g.ops|
    && s2 == s.(at := s.at[w := Finishing(s.at[w].g, Ok, false)])
  }

  /** The batch turns out malformed part of the way. */
  ghost predicate InsertFails(s: State, s2: State, w: nat) {
    && Is(s, w) && s.at[w].Inserting?
    && s2 == s.(at := s.at[w := Finishing(s.at[w].g, Failed, false)])
  }

  /** Publish the new last sequence number, pop up to the last writer of the group and tell each its status. */
  ghost predicate Finish(s: State, s2: State, w: nat, last: nat) {
    && Is(s, w) && s.at[w].Finishing? && s.at[w].g.members != [] && |s2.done| == |s.done|
    && var g, status := s.at[w].g, s.at[w].status;
       && last < |s.queue| && s.queue[last] == g.members[|g.members| - 1]
       && (forall i :: 0 <= i < last ==> s.queue[i] != s.queue[last])
       && (forall v :: 0 <= v < |s.done| ==>
             s2.done[v] == if v in s.queue[..last + 1] && v != w then Some(status) else s.done[v])
       && s2 == s.(failing := s.failing || s.at[w].syncError, tmp := [], lastSequence := s.lastSequence + |g.ops|,
                   queue := s.queue[last + 1..], done := s2.done, at := s.at[w := Returned(status)])
  }

  ghost predicate QueueStep(s: State, s2: State) {
    || (exists writer :: Arrive(s, s2, writer))
    || BackgroundError(s, s2)
    || (exists w :: WakeDone(s, s2, w) || Lead(s, s2, w) || SwitchLog(s, s2, w))
    || (exists w :: Refuse(s, s2, w) || PassNull(s, s2, w))
  }

  ghost predicate GroupStep(s: State, s2: State) {
    || (exists w, n :: Build(s, s2, w, n))
    || (exists w :: Append(s, s2, w) || AppendFails(s, s2, w) || Sync(s, s2, w) || SyncFails(s, s2, w))
    || (exists w :: Insert(s, s2, w) || InsertEnds(s, s2, w) || InsertFails(s, s2, w))
    || (exists w: nat, last: nat :: Finish(s, s2, w, last))
  }

  ghost predicate Next(s: State, s2: State) {
    QueueStep(s, s2) || GroupStep(s, s2)
  }

  // The invariant

  ghost predicate Shape(n: nat, queue: seq<nat>) {
    |queue| <= n && forall i :: 0 <= i < |queue| ==> queue[i] == n - |queue| + i
  }

  /** What a call that has left the queue returns or will return. */
  function Result(p: Progress, done: Option<Status>): Option<Status> {
    if p.Returned? then Some(p.result) else done
  }

  ghost predicate Gone(p: Progress, done: Option<Status>) {
    && (p.Waiting? || p.Returned?) && Result(p, done).Some?
    && (p.Returned? && done.Some? ==> done.value == p.result)
  }

  /** Who has left the queue has a result; of those queued only the first does anything. */
  ghost predicate Places(at: seq<Progress>, done: seq<Option<Status>>, queue: seq<nat>) {
    && |at| == |done| && Shape(|at|, queue)
    && (forall w :: 0 <= w < |at| - |queue| ==> Gone(at[w], done[w]))
    && (forall w :: |at| - |queue| <= w < |at| ==> done[w].None? && !at[w].Returned?)
    && (forall w :: |at| - |queue| < w < |at| ==> at[w].Waiting?)
  }

  /** What the first in the queue is doing. */
  function Doing(at: seq<Progress>, queue: seq<nat>): Progress {
    if queue == [] || queue[0] >= |at| then Waiting else at[queue[0]]
  }

  predicate Busy(p: Progress) {
    p.Appending? || p.Syncing? || p.Inserting? || p.Finishing?
  }

  predicate Below(a: nat, b: nat) {
    a < b
  }

  ghost predicate Increasing(ids: seq<nat>) {
    forall i, j {:trigger Below(ids[i], ids[j])} :: 0 <= i < j < |ids| ==> Below(ids[i], ids[j])
  }

  /** The group at hand is the front of the queue; its numbers come next; it has no sync that its leader has not. */
  ghost predicate AtHand(ws: seq<Writer>, queue: seq<nat>, g: Group, lastSequence: nat) {
    && 0 < |g.members| && g.members <= queue
    && Ids(ws, g.members) && g.ops == OpsOf(ws, g.members)
    && g.first == lastSequence + 1
    && (forall i :: 0 <= i < |g.members| && ws[g.members[i]].sync ==> ws[g.members[0]].sync)
  }

  /** Whose groups are finished, and after them the members at hand. */
  ghost predicate Grouping(ws: seq<Writer>, queue: seq<nat>, p: Progress, past: seq<nat>, lastSequence: nat, start: nat) {
    && Increasing(past) && (forall i :: 0 <= i < |past| ==> past[i] < |ws| - |queue|) && Ids(ws, past)
    && lastSequence == start + |OpsOf(ws, past)|
    && (Busy(p) ==> AtHand(ws, queue, p.g, lastSequence))
  }

  function Members(p: Progress): seq<nat> {
    if Busy(p) then p.g.members else []
  }

  /** No published number lies inside a group. */
  ghost predicate Whole(groups: seq<Group>, p: Progress, lastSequence: nat) {
    forall g :: g in groups ==> g.first + |g.ops| <= lastSequence + 1 || (Busy(p) && g == p.g && g.first == lastSequence + 1)
  }

  ghost predicate AllIn(memory: seq<Numbered>, first: nat, ops: seq<Op>) {
    forall j {:trigger ops[j]} :: 0 <= j < |ops| ==> Numbered(first + j, ops[j]) in memory
  }

  /** Numbers from here on have not reached the memtable. */
  function Reached(p: Progress, lastSequence: nat): nat {
    if p.Inserting? then p.g.first + p.count
    else if p.Finishing? then p.g.first + |p.g.ops|
    else lastSequence + 1
  }

  /** Each number reaches the memtable at most once, in order, below `reached`. */
  ghost predicate Once(memory: seq<Numbered>, reached: nat) {
    && (forall i, j {:trigger Below(memory[i].sequence, memory[j].sequence)} :: 0 <= i < j < |memory| ==>
          Below(memory[i].sequence, memory[j].sequence))
    && (forall i :: 0 <= i < |memory| ==> memory[i].sequence < reached)
  }

  ghost predicate Inserted(memory: seq<Numbered>, p: Progress) {
    && (p.Inserting? ==> p.count <= |p.g.ops| && AllIn(memory, p.g.first, p.g.ops[..p.count]))
    && (p.Finishing? && p.status == Ok ==> AllIn(memory, p.g.first, p.g.ops))
  }

  /** What is in the memtable was logged first. */
  ghost predicate LoggedFirst(memory: seq<Numbered>, log: seq<Record>) {
    forall x :: x in memory ==> Logged(log, x)
  }

  ghost predicate Logged(log: seq<Record>, x: Numbered) {
    exists r :: 0 <= r < |log| && Spells(log[r], x)
  }

  ghost predicate Spells(r: Record, x: Numbered) {
    r.first <= x.sequence < r.first + |r.ops| && r.ops[x.sequence - r.first] == x.op
  }

  /** The log holds no number from here on. */
  function LogEnd(p: Progress, lastSequence: nat): nat {
    if Busy(p) && !p.Appending? then p.g.first + |p.g.ops| else lastSequence + 1
  }

  predicate Precedes(r: Record, next: Record) {
    r.first + |r.ops| <= next.first
  }

  ghost predicate LogOrdered(log: seq<Record>, end: nat) {
    && (forall i, j {:trigger Precedes(log[i], log[j])} :: 0 <= i < j < |log| ==> Precedes(log[i], log[j]))
    && (forall i :: 0 <= i < |log| ==> log[i].first + |log[i].ops| <= end)
  }

  /** The record at hand is the last of the log, in the current file, and durable once synced. */
  ghost predicate RecordAtHand(log: seq<Record>, fileStart: nat, synced: set<nat>, p: Progress, sync: bool) {
    && fileStart <= |log|
    && (p.Syncing? || p.Inserting? || (p.Finishing? && p.status == Ok) ==>
          log != [] && log[|log| - 1] == Record(p.g.first, p.g.ops))
    && (p.Syncing? ==> fileStart < |log|)
    && (p.Inserting? || (p.Finishing? && p.status == Ok) ==> sync ==> |log| - 1 in synced)
  }

  /** The log is spelled by `all`, the operations of all grouped writers. */
  ghost predicate Spelling(log: seq<Record>, all: seq<Op>, start: nat) {
    forall r :: r in log ==> SpelledBy(r, all, start)
  }

  ghost predicate SpelledBy(r: Record, all: seq<Op>, start: nat) {
    && start < r.first && r.first - start - 1 + |r.ops| <= |all|
    && r.ops == all[r.first - start - 1..r.first - start - 1 + |r.ops|]
  }

  ghost predicate PartAt(all: seq<Op>, from: nat, part: seq<Op>) {
    from + |part| <= |all| && forall j {:trigger part[j]} :: 0 <= j < |part| ==> all[from + j] == part[j]
  }

  /** Record `r` of the log holds `ops` numbered from `first`. */
  ghost predicate RecordHolds(log: seq<Record>, r: nat, first: nat, ops: seq<Op>) {
    r < |log| && log[r].first <= first && PartAt(log[r].ops, first - log[r].first, ops)
  }

  /** A batch numbered from `first` is in the memtable and in the log, durable if that was asked for. */
  ghost predicate Landed(memory: seq<Numbered>, log: seq<Record>, synced: set<nat>, writer: Writer, first: nat) {
    && AllIn(memory, first, Ops(writer))
    && exists r :: RecordHolds(log, r, first, Ops(writer)) && (writer.sync ==> r in synced)
  }

  /** The first number of the m-th grouped writer: as if each batch had been written alone. */
  ghost function Start(ws: seq<Writer>, past: seq<nat>, start: nat, m: nat): nat
    requires Ids(ws, past) && m <= |past|
  {
    start + 1 + |OpsUpTo(ws, past, m)|
  }

  /** The m-th of the writers whose groups are finished is `w`, and its batch landed. */
  ghost predicate LandedAt(s: State, past: seq<nat>, start: nat, m: nat, w: nat) {
    && Ids(s.writers, past) && m < |past| && past[m] == w < |s.writers|
    && Landed(s.memory, s.log, s.synced, s.writers[w], Start(s.writers, past, start, m))
  }

  ghost predicate SomewhereLanded(s: State, past: seq<nat>, start: nat, w: nat) {
    exists m :: LandedAt(s, past, start, m, w)
  }

  /** The call of Write returned Ok, or will. */
  ghost predicate Accepted(s: State, w: nat) {
    && Is(s, w) && w < |s.at| - |s.queue|
    && Result(s.at[w], s.done[w]) == Some(Ok) && s.writers[w].batch.Some?
  }

  ghost predicate Delivered(s: State, past: seq<nat>, start: nat) {
    forall w {:trigger Accepted(s, w)} :: Accepted(s, w) ==> SomewhereLanded(s, past, start, w)
  }

  ghost predicate Invariant(s: State, past: seq<nat>, start: nat) {
    var p := Doing(s.at, s.queue);
    && |s.writers| == |s.at| && Places(s.at, s.done, s.queue)
    && s.grouped == past + Members(p)
    && Grouping(s.writers, s.queue, p, past, s.lastSequence, start)
    && (!Busy(p) ==> s.tmp == [])
    && Whole(s.groups, p, s.lastSequence) && (Busy(p) ==> p.g in s.groups)
    && Once(s.memory, Reached(p, s.lastSequence)) && Inserted(s.memory, p) && LoggedFirst(s.memory, s.log)
    && LogOrdered(s.log, LogEnd(p, s.lastSequence))
    && RecordAtHand(s.log, s.fileStart, s.synced, p, s.queue != [] && s.queue[0] < |s.writers| && s.writers[s.queue[0]].sync)
    && Ids(s.writers, s.grouped) && Spelling(s.log, OpsOf(s.writers, s.grouped), start)
    && Delivered(s, past, start)
  }

  // Every step keeps it

  /** What was delivered stays delivered while the memtable and the log only grow. */
  lemma LandedStays(s: State, s2: State, past: seq<nat>, past2: seq<nat>, start: nat, m: nat, w: nat)
    requires LandedAt(s, past, start, m, w) && Ids(s2.writers, past2)
    requires s.writers <= s2.writers && past <= past2 && s.memory <= s2.memory && s.log <= s2.log && s.synced <= s2.synced
    ensures LandedAt(s2, past2, start, m, w)
  {
    StartSame(s.writers, past, s2.writers, past2, start, m);
    var first := Start(s.writers, past, start, m);
    LandedGrows(s.memory, s2.memory, s.log, s2.log, s.synced, s2.synced, s.writers[w], first);
  }

  lemma StartSame(ws: seq<Writer>, past: seq<nat>, ws2: seq<Writer>, past2: seq<nat>, start: nat, m: nat)
    requires Ids(ws, past) && Ids(ws2, past2) && ws <= ws2 && past <= past2 && m <= |past|
    ensures Start(ws2, past2, start, m) == Start(ws, past, start, m)
  {
    OpsUpToSame(ws, past, ws2, past2, m);
  }

  lemma LandedGrows(memory: seq<Numbered>, memory2: seq<Numbered>, log: seq<Record>, log2: seq<Record>,
                    synced: set<nat>, synced2: set<nat>, writer: Writer, first: nat)
    requires Landed(memory, log, synced, writer, first)
    requires memory <= memory2 && log <= log2 && synced <= synced2
    ensures Landed(memory2, log2, synced2, writer, first)
  {
    var r :| RecordHolds(log, r, first, Ops(writer)) && (writer.sync ==> r in synced);
    RecordStays(log, log2, r, first, Ops(writer));
    MemoryGrows(memory, memory2, first, Ops(writer));
  }

  lemma RecordStays(log: seq<Record>, log2: seq<Record>, r: nat, first: nat, ops: seq<Op>)
    requires log <= log2 && RecordHolds(log, r, first, ops)
    ensures RecordHolds(log2, r, first, ops)
  {
  }

  lemma MemoryGrows(memory: seq<Numbered>, memory2: seq<Numbered>, first: nat, ops: seq<Op>)
    requires memory <= memory2 && AllIn(memory, first, ops)
    ensures AllIn(memory2, first, ops)
  {
    forall j | 0 <= j < |ops|
      ensures Numbered(first + j, ops[j]) in memory2
    {
      var i :| 0 <= i < |memory| && memory[i] == Numbered(first + j, ops[j]);
      assert memory2[i] == memory[i];
    }
  }

  ghost predicate Grows(s: State, s2: State) {
    && s.writers <= s2.writers && s.memory <= s2.memory && s.log <= s2.log && s.synced <= s2.synced
  }

  /** A step that lets nobody leave with Ok keeps what was delivered. */
  lemma DeliveredStays(s: State, s2: State, past: seq<nat>, start: nat)
    requires Delivered(s, past, start) && Grows(s, s2) && Ids(s2.writers, past)
    requires forall w :: Accepted(s2, w) ==> Accepted(s, w)
    ensures Delivered(s2, past, start)
  {
    forall w: nat | Accepted(s2, w)
      ensures SomewhereLanded(s2, past, start, w)
    {
      var m :| LandedAt(s, past, start, m, w);
      LandedStays(s, s2, past, past, start, m, w);
    }
  }

  lemma PlacesArrive(at: seq<Progress>, done: seq<Option<Status>>, queue: seq<nat>)
    requires Places(at, done, queue)
    ensures Places(at + [Waiting], done + [None], queue + [|at|])
    ensures Doing(at + [Waiting], queue + [|at|]) == Doing(at, queue)
  {
  }

  lemma ArriveKeeps(s: State, s2: State, past: seq<nat>, start: nat, writer: Writer)
    requires Invariant(s, past, start) && Arrive(s, s2, writer)
    ensures Invariant(s2, past, start)
  {
    OpsOfMore(s.writers, s2.writers, past);
    OpsOfMore(s.writers, s2.writers, s.grouped);
    PlacesArrive(s.at, s.done, s.queue);
    var p := Doing(s.at, s.queue);
    if Busy(p) {
      OpsOfMore(s.writers, s2.writers, p.g.members);
    }
    DeliveredStays(s, s2, past, start);
  }

  lemma BackgroundErrorKeeps(s: State, s2: State, past: seq<nat>, start: nat)
    requires Invariant(s, past, start) && BackgroundError(s, s2)
    ensures Invariant(s2, past, start)
  {
    DeliveredStays(s, s2, past, start);
  }

  lemma WakeDoneKeeps(s: State, s2: State, past: seq<nat>, start: nat, w: nat)
    requires Invariant(s, past, start) && WakeDone(s, s2, w)
    ensures Invariant(s2, past, start)
  {
    PlacesWake(s.at, s.done, s.queue, w);
    DeliveredStays(s, s2, past, start);
  }

  lemma PlacesWake(at: seq<Progress>, done: seq<Option<Status>>, queue: seq<nat>, w: nat)
    requires Places(at, done, queue) && w < |at| && at[w].Waiting? && done[w].Some?
    ensures var at2 := at[w := Returned(done[w].value)];
      Places(at2, done, queue) && Doing(at2, queue) == Doing(at, queue)
  {
  }

  /** The first in the queue goes on without leaving it. */
  lemma PlacesMove(at: seq<Progress>, done: seq<Option<Status>>, queue: seq<nat>, w: nat, p: Progress)
    requires Places(at, done, queue) && w < |at| && (!at[w].Waiting? || (queue != [] && queue[0] == w)) && !at[w].Returned?
    requires !p.Returned?
    ensures Places(at[w := p], done, queue) && queue != [] && w == queue[0]
    ensures Doing(at, queue) == at[w] && Doing(at[w := p], queue) == p
  {
  }

  lemma QuietKeeps(s: State, s2: State, past: seq<nat>, start: nat, w: nat)
    requires Invariant(s, past, start) && (Lead(s, s2, w) || SwitchLog(s, s2, w))
    ensures Invariant(s2, past, start)
  {
    PlacesMove(s.at, s.done, s.queue, w, s2.at[w]);
    DeliveredStays(s, s2, past, start);
  }

  /** The first leaves. */
  lemma PlacesLeave(at: seq<Progress>, done: seq<Option<Status>>, queue: seq<nat>, w: nat, status: Status)
    requires Places(at, done, queue) && queue != [] && queue[0] == w < |at|
    ensures Places(at[w := Returned(status)], done, queue[1..])
    ensures Doing(at[w := Returned(status)], queue[1..]).Waiting?
  {
  }

  lemma AloneKeeps(s: State, s2: State, past: seq<nat>, start: nat, w: nat)
    requires Invariant(s, past, start) && (Refuse(s, s2, w) || PassNull(s, s2, w))
    ensures Invariant(s2, past, start)
  {
    PlacesLeave(s.at, s.done, s.queue, w, s2.at[w].result);
    DeliveredStays(s, s2, past, start);
  }

  lemma LogGrows(memory: seq<Numbered>, log: seq<Record>, r: Record, all: seq<Op>, start: nat, end: nat)
    requires LoggedFirst(memory, log) && LogOrdered(log, end) && Spelling(log, all, start)
    requires end <= r.first && SpelledBy(r, all, start)
    ensures LoggedFirst(memory, log + [r]) && LogOrdered(log + [r], r.first + |r.ops|) && Spelling(log + [r], all, start)
  {
    forall x | x in memory
      ensures Logged(log + [r], x)
    {
      var i :| 0 <= i < |log| && Spells(log[i], x);
      assert (log + [r])[i] == log[i];
    }
  }

  lemma SpelledNext(a: seq<Op>, b: seq<Op>, start: nat)
    ensures SpelledBy(Record(start + |a| + 1, b), a + b, start)
  {
  }

  lemma LogTakes(ws: seq<Writer>, past: seq<nat>, g: Group, memory: seq<Numbered>, log: seq<Record>, start: nat)
    requires Ids(ws, past) && Ids(ws, g.members) && Ids(ws, past + g.members)
    requires g.ops == OpsOf(ws, g.members) && g.first == start + |OpsOf(ws, past)| + 1
    requires LoggedFirst(memory, log) && LogOrdered(log, g.first) && Spelling(log, OpsOf(ws, past + g.members), start)
    ensures var log2 := log + [Record(g.first, g.ops)];
      && LoggedFirst(memory, log2) && LogOrdered(log2, g.first + |g.ops|)
      && Spelling(log2, OpsOf(ws, past + g.members), start)
  {
    OpsOfSplit(ws, past, g.members);
    SpelledNext(OpsOf(ws, past), g.ops, start);
    LogGrows(memory, log, Record(g.first, g.ops), OpsOf(ws, past + g.members), start, g.first);
  }

  lemma AppendedAtHand(memory: seq<Numbered>, log: seq<Record>, fileStart: nat, synced: set<nat>, g: Group, sync: bool)
    requires fileStart <= |log| && g.first > 0
    ensures var p := if sync then Syncing(g) else Inserting(g, 0);
      && RecordAtHand(log + [Record(g.first, g.ops)], fileStart, synced, p, sync)
      && Inserted(memory, p) && p.g == g && Busy(p) && !p.Appending? && !p.Returned?
      && LogEnd(p, g.first - 1) == g.first + |g.ops| && Reached(p, g.first - 1) == g.first
  {
  }

  /** A group goes on: what is left to show is about the memtable and the log. */
  lemma MoveKeeps(s: State, s2: State, past: seq<nat>, start: nat, w: nat)
    requires Invariant(s, past, start) && Is(s, w) && Is(s2, w) && Grows(s, s2)
    requires Busy(s.at[w]) && Busy(s2.at[w]) && s2.at[w].g == s.at[w].g
    requires s2 == s.(at := s.at[w := s2.at[w]], memory := s2.memory, log := s2.log, synced := s2.synced)
    requires Once(s2.memory, Reached(s2.at[w], s.lastSequence)) && Inserted(s2.memory, s2.at[w])
    requires LoggedFirst(s2.memory, s2.log) && LogOrdered(s2.log, LogEnd(s2.at[w], s.lastSequence))
    requires RecordAtHand(s2.log, s.fileStart, s2.synced, s2.at[w], s.writers[w].sync)
    requires Ids(s.writers, s.grouped) && Spelling(s2.log, OpsOf(s.writers, s.grouped), start)
    ensures Invariant(s2, past, start)
  {
    PlacesMove(s.at, s.done, s.queue, w, s2.at[w]);
    DeliveredStays(s, s2, past, start);
  }

  lemma AppendKeeps(s: State, s2: State, past: seq<nat>, start: nat, w: nat)
    requires Invariant(s, past, start) && Append(s, s2, w)
    ensures Invariant(s2, past, start)
  {
    PlacesMove(s.at, s.done, s.queue, w, s2.at[w]);
    var g := s.at[w].g;
    LogTakes(s.writers, past, g, s.memory, s.log, start);
    AppendedAtHand(s.memory, s.log, s.fileStart, s.synced, g, s.writers[w].sync);
    MoveKeeps(s, s2, past, start, w);
  }

  lemma FailsKeeps(s: State, s2: State, past: seq<nat>, start: nat, w: nat)
    requires Invariant(s, past, start) && (AppendFails(s, s2, w) || SyncFails(s, s2, w) || InsertFails(s, s2, w))
    ensures Invariant(s2, past, start)
  {
    PlacesMove(s.at, s.done, s.queue, w, s2.at[w]);
    MoveKeeps(s, s2, past, start, w);
  }

  lemma SyncKeeps(s: State, s2: State, past: seq<nat>, start: nat, w: nat)
    requires Invariant(s, past, start) && Sync(s, s2, w)
    ensures Invariant(s2, past, start)
  {
    PlacesMove(s.at, s.done, s.queue, w, s2.at[w]);
    MoveKeeps(s, s2, past, start, w);
  }

  lemma AllInMore(memory: seq<Numbered>, first: nat, ops: seq<Op>, k: nat)
    requires k < |ops| && AllIn(memory, first, ops[..k])
    ensures AllIn(memory + [Numbered(first + k, ops[k])], first, ops[..k + 1])
  {
    var x := Numbered(first + k, ops[k]);
    MemoryGrows(memory, memory + [x], first, ops[..k]);
    assert (memory + [x])[|memory|] == x;
    forall j {:trigger ops[j]} | 0 <= j < k + 1
      ensures Numbered(first + j, ops[..k + 1][j]) in memory + [x]
    {
      assert j < k ==> ops[..k][j] == ops[..k + 1][j];
    }
  }

  lemma MemoryTakes(memory: seq<Numbered>, memory2: seq<Numbered>, log: seq<Record>, p: Progress, p2: Progress,
                    lastSequence: nat)
    requires p.Inserting? && p.count < |p.g.ops| && p2 == Inserting(p.g, p.count + 1)
    requires memory2 == memory + [Numbered(p.g.first + p.count, p.g.ops[p.count])]
    requires Once(memory, Reached(p, lastSequence)) && LoggedFirst(memory, log) && Inserted(memory, p)
    requires log != [] && log[|log| - 1] == Record(p.g.first, p.g.ops)
    ensures Once(memory2, Reached(p2, lastSequence)) && LoggedFirst(memory2, log) && Inserted(memory2, p2)
  {
    assert Spells(log[|log| - 1], Numbered(p.g.first + p.count, p.g.ops[p.count]));
    AllInMore(memory, p.g.first, p.g.ops, p.count);
  }

  /** An insertion adds the next entry of the group at hand and leaves the log as it is. */
  lemma InsertMoves(s: State, s2: State, past: seq<nat>, start: nat, w: nat)
    requires Invariant(s, past, start) && Insert(s, s2, w)
    ensures Doing(s.at, s.queue) == s.at[w] && Is(s2, w) && Grows(s, s2)
    ensures s2.at[w] == Inserting(s.at[w].g, s.at[w].count + 1)
    ensures s2 == s.(at := s.at[w := s2.at[w]], memory := s2.memory, log := s2.log, synced := s2.synced)
    ensures Once(s2.memory, Reached(s2.at[w], s.lastSequence)) && Inserted(s2.memory, s2.at[w])
    ensures LoggedFirst(s2.memory, s2.log)
    ensures RecordAtHand(s2.log, s.fileStart, s2.synced, s2.at[w], s.writers[w].sync)
  {
    PlacesMove(s.at, s.done, s.queue, w, s2.at[w]);
    MemoryTakes(s.memory, s2.memory, s.log, s.at[w], s2.at[w], s.lastSequence);
  }

  lemma InsertKeeps(s: State, s2: State, past: seq<nat>, start: nat, w: nat)
    requires Invariant(s, past, start) && Insert(s, s2, w)
    ensures Invariant(s2, past, start)
  {
    InsertMoves(s, s2, past, start, w);
    MoveKeeps(s, s2, past, start, w);
  }

  lemma InsertEndsKeeps(s: State, s2: State, past: seq<nat>, start: nat, w: nat)
    requires Invariant(s, past, start) && InsertEnds(s, s2, w)
    ensures Invariant(s2, past, start)
  {
    PlacesMove(s.at, s.done, s.queue, w, s2.at[w]);
    MoveKeeps(s, s2, past, start, w);
  }

  lemma SpellingGrows(log: seq<Record>, all: seq<Op>, more: seq<Op>, start: nat)
    requires Spelling(log, all, start)
    ensures Spelling(log, all + more, start)
  {
    forall r | r in log
      ensures SpelledBy(r, all + more, start)
    {
      assert SpelledBy(r, all, start);
      var i := r.first - start - 1;
      assert (all + more)[i..i + |r.ops|] == all[i..i + |r.ops|];
    }
  }

  lemma BuildKeeps(s: State, s2: State, past: seq<nat>, start: nat, w: nat, n: nat)
    requires Invariant(s, past, start) && Build(s, s2, w, n)
    ensures Invariant(s2, past, start)
  {
    PlacesMove(s.at, s.done, s.queue, w, s2.at[w]);
    var g := s2.at[w].g;
    MembersSync(s.writers, s.queue, n);
    OpsOfSplit(s.writers, past, g.members);
    OpsUpToSame(s.writers, s.queue, s.writers, g.members, n);
    assert s.grouped == past;
    SpellingGrows(s.log, OpsOf(s.writers, past), g.ops, start);
    DeliveredStays(s, s2, past, start);
  }

  /** The whole group leaves. */
  lemma PlacesFinish(at: seq<Progress>, done: seq<Option<Status>>, queue: seq<nat>, n: nat, w: nat, status: Status,
                     done2: seq<Option<Status>>)
    requires Places(at, done, queue) && 0 < n <= |queue| && w == queue[0] && |done2| == |done| && w < |at|
    requires forall v :: 0 <= v < |done| ==> done2[v] == if v in queue[..n] && v != w then Some(status) else done[v]
    ensures Places(at[w := Returned(status)], done2, queue[n..])
    ensures Doing(at[w := Returned(status)], queue[n..]).Waiting?
    ensures forall v :: 0 <= v < |at| - |queue| ==> done2[v] == done[v]
    ensures forall i :: 0 <= i < n ==> Result(at[w := Returned(status)][queue[i]], done2[queue[i]]) == Some(status)
  {
    var left := |at| - |queue|;
    forall v | left <= v < left + n
      ensures v in queue[..n]
    {
      assert queue[..n][v - left] == queue[v - left] == v;
    }
    forall i | 0 <= i < n ensures queue[i] == left + i && queue[i] in queue[..n] {}
    forall v | v in queue[..n]
      ensures |at| - |queue| <= v < |at| - |queue| + n
    {
      var i :| 0 <= i < n && queue[..n][i] == v;
      assert queue[i] == v;
    }
  }

  /** The popped writers are the members of the group. */
  lemma PopsMembers(queue: seq<nat>, n: nat, members: seq<nat>, last: nat)
    requires Shape(n, queue) && members != [] && members <= queue && last < |queue|
    requires queue[last] == members[|members| - 1]
    ensures last + 1 == |members| && queue[..last + 1] == members
  {
    assert queue[|members| - 1] == members[|members| - 1];
  }

  /** The batch of the i-th member of a group lies in the group at its own place. */
  lemma {:induction false} MemberOps(ws: seq<Writer>, members: seq<nat>, i: nat, n: nat)
    requires Ids(ws, members) && i < n <= |members|
    ensures PartAt(OpsUpTo(ws, members, n), |OpsUpTo(ws, members, i)|, Ops(ws[members[i]]))
  {
    var before, last := OpsUpTo(ws, members, n - 1), Ops(ws[members[n - 1]]);
    if i < n - 1 {
      MemberOps(ws, members, i, n - 1);
      PartStays(before, last, |OpsUpTo(ws, members, i)|, Ops(ws[members[i]]));
    } else {
      LastPart(before, last);
    }
  }

  lemma LastPart(before: seq<Op>, part: seq<Op>)
    ensures PartAt(before + part, |before|, part)
  {
  }

  lemma PartStays(all: seq<Op>, more: seq<Op>, from: nat, part: seq<Op>)
    requires PartAt(all, from, part)
    ensures PartAt(all + more, from, part)
  {
  }

  lemma AllInPart(memory: seq<Numbered>, first: nat, ops: seq<Op>, from: nat, part: seq<Op>)
    requires AllIn(memory, first, ops) && PartAt(ops, from, part)
    ensures AllIn(memory, first + from, part)
  {
    forall j {:trigger part[j]} | 0 <= j < |part|
      ensures Numbered(first + from + j, part[j]) in memory
    {
      assert part[j] == ops[from + j];
    }
  }

  lemma PartLanded(memory: seq<Numbered>, log: seq<Record>, synced: set<nat>, g: Group, writer: Writer, from: nat,
                   first: nat)
    requires AllIn(memory, g.first, g.ops) && PartAt(g.ops, from, Ops(writer)) && first == g.first + from
    requires log != [] && log[|log| - 1] == Record(g.first, g.ops)
    requires writer.sync ==> |log| - 1 in synced
    ensures Landed(memory, log, synced, writer, first)
  {
    AllInPart(memory, g.first, g.ops, from, Ops(writer));
    assert RecordHolds(log, |log| - 1, first, Ops(writer));
  }

  /** When a group ends well, each of its batches landed. */
  lemma MemberLanded(s: State, past: seq<nat>, start: nat, g: Group, i: nat)
    requires Ids(s.writers, past) && s.lastSequence == start + |OpsOf(s.writers, past)|
    requires AtHand(s.writers, s.queue, g, s.lastSequence) && AllIn(s.memory, g.first, g.ops)
    requires s.log != [] && s.log[|s.log| - 1] == Record(g.first, g.ops)
    requires s.writers[g.members[0]].sync ==> |s.log| - 1 in s.synced
    requires i < |g.members|
    ensures LandedAt(s, past + g.members, start, |past| + i, g.members[i])
  {
    assert s.writers[g.members[i]].sync ==> s.writers[g.members[0]].sync;
    MemberLands(s.memory, s.log, s.synced, s.writers, past, g, start, i, |past| + i);
  }

  lemma MemberLands(memory: seq<Numbered>, log: seq<Record>, synced: set<nat>, ws: seq<Writer>, past: seq<nat>,
                    g: Group, start: nat, i: nat, m: nat)
    requires Ids(ws, past) && Ids(ws, g.members) && i < |g.members| && m == |past| + i
    requires g.ops == OpsOf(ws, g.members) && g.first == start + |OpsOf(ws, past)| + 1 && AllIn(memory, g.first, g.ops)
    requires log != [] && log[|log| - 1] == Record(g.first, g.ops)
    requires ws[g.members[i]].sync ==> |log| - 1 in synced
    ensures Ids(ws, past + g.members) && (past + g.members)[m] == g.members[i]
    ensures Landed(memory, log, synced, ws[g.members[i]], Start(ws, past + g.members, start, m))
  {
    StartOfMember(ws, past, g.members, start, i, m);
    MemberOps(ws, g.members, i, |g.members|);
    PartLanded(memory, log, synced, g, ws[g.members[i]], |OpsUpTo(ws, g.members, i)|,
               Start(ws, past + g.members, start, m));
  }

  lemma {:induction false} StartOfMember(ws: seq<Writer>, past: seq<nat>, members: seq<nat>, start: nat, i: nat, m: nat)
    requires Ids(ws, past) && Ids(ws, members) && i < |members| && m == |past| + i
    ensures Ids(ws, past + members) && (past + members)[m] == members[i]
    ensures Start(ws, past + members, start, m) == start + 1 + |OpsOf(ws, past)| + |OpsUpTo(ws, members, i)|
  {
    OpsUpToSplit(ws, past, members, i);
  }

  lemma OldDelivery(s: State, s2: State, past: seq<nat>, more: seq<nat>, start: nat, v: nat)
    requires Delivered(s, past, start) && Grows(s, s2) && Ids(s2.writers, past + more) && Accepted(s, v)
    ensures SomewhereLanded(s2, past + more, start, v)
  {
    var m :| LandedAt(s, past, start, m, v);
    LandedStays(s, s2, past, past + more, start, m, v);
  }

  lemma NewDelivery(s: State, s2: State, past: seq<nat>, start: nat, g: Group, i: nat)
    requires Ids(s.writers, past) && s.lastSequence == start + |OpsOf(s.writers, past)|
    requires AtHand(s.writers, s.queue, g, s.lastSequence) && AllIn(s.memory, g.first, g.ops)
    requires s.log != [] && s.log[|s.log| - 1] == Record(g.first, g.ops)
    requires s.writers[g.members[0]].sync ==> |s.log| - 1 in s.synced
    requires i < |g.members| && Grows(s, s2)
    ensures SomewhereLanded(s2, past + g.members, start, g.members[i])
  {
    MemberLanded(s, past, start, g, i);
    OpsOfMore(s.writers, s2.writers, past + g.members);
    LandedStays(s, s2, past + g.members, past + g.members, start, |past| + i, g.members[i]);
  }

  lemma FinishDelivers(s: State, s2: State, past: seq<nat>, start: nat, w: nat, last: nat)
    requires Invariant(s, past, start) && Finish(s, s2, w, last)
    requires last + 1 == |s.at[w].g.members| && s.at[w].g.members <= s.queue && w == s.queue[0]
    requires forall v :: 0 <= v < |s.at| - |s.queue| ==> s2.done[v] == s.done[v]
    requires forall i :: 0 <= i < last + 1 ==> Result(s2.at[s.queue[i]], s2.done[s.queue[i]]) == Some(s.at[w].status)
    ensures Delivered(s2, past + s.at[w].g.members, start)
  {
    var g := s.at[w].g;
    forall v: nat | Accepted(s2, v)
      ensures SomewhereLanded(s2, past + g.members, start, v)
    {
      if v < |s.at| - |s.queue| {
        assert Accepted(s, v);
        OldDelivery(s, s2, past, g.members, start, v);
      } else {
        var i: nat := v - (|s.at| - |s.queue|);
        assert s.queue[i] == v && g.members[i] == v;
        NewDelivery(s, s2, past, start, g, i);
      }
    }
  }

  lemma GroupingFinish(ws: seq<Writer>, queue: seq<nat>, p: Progress, past: seq<nat>, lastSequence: nat, start: nat)
    requires Shape(|ws|, queue) && Grouping(ws, queue, p, past, lastSequence, start) && Busy(p)
    ensures Grouping(ws, queue[|p.g.members|..], Waiting, past + p.g.members, lastSequence + |p.g.ops|, start)
  {
    var m := p.g.members;
    OpsOfSplit(ws, past, m);
    assert forall i :: 0 <= i < |m| ==> m[i] == queue[i];
  }

  /** Log and memory after a group is published. */
  lemma FinishPublishes(s: State, s2: State, past: seq<nat>, start: nat, w: nat, last: nat)
    requires Invariant(s, past, start) && Finish(s, s2, w, last)
    requires Doing(s.at, s.queue) == s.at[w] && Doing(s2.at, s2.queue).Waiting?
    ensures var p, q := Doing(s2.at, s2.queue), s2.queue;
      && s2.grouped == past + s.at[w].g.members + Members(p)
      && Whole(s2.groups, p, s2.lastSequence)
      && Once(s2.memory, Reached(p, s2.lastSequence)) && Inserted(s2.memory, p) && LoggedFirst(s2.memory, s2.log)
      && LogOrdered(s2.log, LogEnd(p, s2.lastSequence))
      && RecordAtHand(s2.log, s2.fileStart, s2.synced, p, q != [] && q[0] < |s2.writers| && s2.writers[q[0]].sync)
  {
  }

  lemma FinishKeeps(s: State, s2: State, past: seq<nat>, start: nat, w: nat, last: nat)
    requires Invariant(s, past, start) && Finish(s, s2, w, last)
    ensures Invariant(s2, past + s.at[w].g.members, start)
  {
    PlacesMove(s.at, s.done, s.queue, w, s.at[w]);
    var g, status := s.at[w].g, s.at[w].status;
    PopsMembers(s.queue, |s.at|, g.members, last);
    PlacesFinish(s.at, s.done, s.queue, last + 1, w, status, s2.done);
    GroupingFinish(s.writers, s.queue, s.at[w], past, s.lastSequence, start);
    FinishDelivers(s, s2, past, start, w, last);
    FinishPublishes(s, s2, past, start, w, last);
  }

  // Runs

  /** The writers whose groups are finished. */
  function Past(s: State): seq<nat> {
    var n := |Members(Doing(s.at, s.queue))|;
    if n <= |s.grouped| then s.grouped[..|s.grouped| - n] else []
  }

  /** The invariant, with the writers that are past read off the state. */
  ghost predicate Good(s: State, start: nat) {
    Invariant(s, Past(s), start)
  }

  lemma PastIs(s: State, past: seq<nat>, start: nat)
    requires Invariant(s, past, start)
    ensures past == Past(s) && Good(s, start)
  {
  }

  lemma QueueStepKeeps(s: State, s2: State, start: nat)
    requires Good(s, start) && QueueStep(s, s2)
    ensures Good(s2, start)
  {
    var past := Past(s);
    if writer :| Arrive(s, s2, writer) {
      ArriveKeeps(s, s2, past, start, writer);
    } else if BackgroundError(s, s2) {
      BackgroundErrorKeeps(s, s2, past, start);
    } else if w :| WakeDone(s, s2, w) {
      WakeDoneKeeps(s, s2, past, start, w);
    } else if w :| Lead(s, s2, w) || SwitchLog(s, s2, w) {
      QuietKeeps(s, s2, past, start, w);
    } else {
      var w :| Refuse(s, s2, w) || PassNull(s, s2, w);
      AloneKeeps(s, s2, past, start, w);
    }
    PastIs(s2, past, start);
  }

  lemma GroupStepKeeps(s: State, s2: State, start: nat)
    requires Good(s, start) && GroupStep(s, s2)
    ensures Good(s2, start)
  {
    var past := Past(s);
    if w, n :| Build(s, s2, w, n) {
      BuildKeeps(s, s2, past, start, w, n);
    } else if w :| Append(s, s2, w) {
      AppendKeeps(s, s2, past, start, w);
    } else if w :| AppendFails(s, s2, w) || SyncFails(s, s2, w) || InsertFails(s, s2, w) {
      FailsKeeps(s, s2, past, start, w);
    } else if w :| Sync(s, s2, w) {
      SyncKeeps(s, s2, past, start, w);
    } else if w :| Insert(s, s2, w) {
      InsertKeeps(s, s2, past, start, w);
    } else if w :| InsertEnds(s, s2, w) {
      InsertEndsKeeps(s, s2, past, start, w);
    } else {
      var w: nat, last: nat :| Finish(s, s2, w, last);
      FinishKeeps(s, s2, past, start, w, last);
      past := past + s.at[w].g.members;
    }
    PastIs(s2, past, start);
  }

  ghost predicate IsRun(run: seq<State>, start: nat) {
    run != [] && run[0] == Initial(start) && forall i :: 0 <= i < |run| - 1 ==> Next(run[i], run[i + 1])
  }

  lemma {:induction false} EveryRunIsGood(run: seq<State>, start: nat)
    requires IsRun(run, start)
    ensures forall i :: 0 <= i < |run| ==> Good(run[i], start)
  {
    for i := 1 to |run|
      invariant forall j :: 0 <= j < i ==> Good(run[j], start)
    {
      assert Next(run[i - 1], run[i - 1 + 1]);
      if QueueStep(run[i - 1], run[i]) {
        QueueStepKeeps(run[i - 1], run[i], start);
      } else {
        GroupStepKeeps(run[i - 1], run[i], start);
      }
    }
  }

  // Who fails

  /** A group fails when its record cannot be appended or made durable, or its batch turns out malformed. */
  ghost predicate GroupFails(s: State, s2: State, leader: nat) {
    AppendFails(s, s2, leader) || SyncFails(s, s2, leader) || InsertFails(s, s2, leader)
  }

  /** The step that makes `w` fail: it is refused, or the group it belongs to fails. */
  ghost predicate Fails(s: State, s2: State, w: nat) {
    || Refuse(s, s2, w)
    || exists leader: nat :: GroupFails(s, s2, leader) && w in s.at[leader].g.members
  }

  ghost predicate FailedAt(run: seq<State>, i: int, w: nat) {
    0 <= i < |run| - 1 && Fails(run[i], run[i + 1], w)
  }

  ghost predicate FailedBefore(run: seq<State>, n: nat, w: nat) {
    exists i :: 0 <= i < n && FailedAt(run, i, w)
  }

  /** A call that returned a failure or will, and a group that is about to. */
  ghost predicate HasFailed(s: State, w: nat) {
    Is(s, w) && Result(s.at[w], s.done[w]) == Some(Failed)
  }

  ghost predicate IsFailing(s: State, leader: nat, w: nat) {
    Is(s, leader) && s.at[leader].Finishing? && s.at[leader].status == Failed && w in s.at[leader].g.members
  }

  /** All failures so far had a cause. */
  ghost predicate Caused(run: seq<State>, n: nat) {
    && n < |run|
    && (forall w {:trigger HasFailed(run[n], w)} :: HasFailed(run[n], w) ==> FailedBefore(run, n, w))
    && (forall leader, w {:trigger IsFailing(run[n], leader, w)} :: IsFailing(run[n], leader, w) ==> FailedBefore(run, n, w))
  }

  /** A step in which one thread goes on, which does not return. */
  lemma GoesOn(s: State, s2: State, v: nat)
    requires Is(s, v) && |s2.at| == |s.at| && s2.at == s.at[v := s2.at[v]] && s2.done == s.done && s2.writers == s.writers
    requires !s.at[v].Returned? && !s2.at[v].Returned?
    ensures forall w {:trigger HasFailed(s2, w)} :: HasFailed(s2, w) ==> HasFailed(s, w)
    ensures forall leader, w {:trigger IsFailing(s2, leader, w)} ::
      leader != v && IsFailing(s2, leader, w) ==> IsFailing(s, leader, w)
  {
  }

  /** Whoever fails had failed, is made to fail by this step, or its group was about to. */
  ghost predicate FailuresCaused(s: State, s2: State) {
    && (forall w {:trigger HasFailed(s2, w)} :: HasFailed(s2, w) ==>
          HasFailed(s, w) || Fails(s, s2, w) || exists leader :: IsFailing(s, leader, w))
    && (forall leader, w {:trigger IsFailing(s2, leader, w)} :: IsFailing(s2, leader, w) ==>
          IsFailing(s, leader, w) || Fails(s, s2, w))
  }

  /** Nobody fails by arriving, waking up, or leaving with nothing to write. */
  lemma NobodyFails(s: State, s2: State)
    requires |s.at| == |s.done| == |s.writers| && |s2.at| == |s2.done| == |s2.writers| >= |s.writers|
    requires forall w :: 0 <= w < |s2.at| ==> Result(s2.at[w], s2.done[w]) == Some(Failed) ==>
      w < |s.at| && Result(s.at[w], s.done[w]) == Some(Failed)
    requires forall w :: 0 <= w < |s2.at| && s2.at[w].Finishing? ==> w < |s.at| && s2.at[w] == s.at[w]
    ensures FailuresCaused(s, s2)
  {
  }

  lemma RefuseFails(s: State, s2: State, w: nat)
    requires |s.at| == |s.done| == |s.writers| && Refuse(s, s2, w)
    ensures FailuresCaused(s, s2)
  {
    assert Fails(s, s2, w);
  }

  lemma ArriveFailures(s: State, s2: State, writer: Writer)
    requires |s.at| == |s.done| == |s.writers| && Arrive(s, s2, writer)
    ensures FailuresCaused(s, s2)
  {
    NobodyFails(s, s2);
  }

  lemma OneMoves(s: State, s2: State, w: nat)
    requires |s.at| == |s.done| == |s.writers|
    requires WakeDone(s, s2, w) || Lead(s, s2, w) || SwitchLog(s, s2, w) || PassNull(s, s2, w)
    ensures FailuresCaused(s, s2)
  {
    NobodyFails(s, s2);
  }

  lemma QueueFailures(s: State, s2: State)
    requires |s.at| == |s.done| == |s.writers| && QueueStep(s, s2)
    ensures FailuresCaused(s, s2)
  {
    if writer :| Arrive(s, s2, writer) {
      ArriveFailures(s, s2, writer);
    } else if BackgroundError(s, s2) {
      NobodyFails(s, s2);
    } else if w :| WakeDone(s, s2, w) || Lead(s, s2, w) || SwitchLog(s, s2, w) {
      OneMoves(s, s2, w);
    } else {
      var w :| Refuse(s, s2, w) || PassNull(s, s2, w);
      if Refuse(s, s2, w) {
        RefuseFails(s, s2, w);
      } else {
        OneMoves(s, s2, w);
      }
    }
  }

  lemma GroupFailures(s: State, s2: State, v: nat)
    requires GroupFails(s, s2, v)
    ensures FailuresCaused(s, s2)
  {
    GoesOn(s, s2, v);
    forall w: nat | IsFailing(s2, v, w) ensures Fails(s, s2, w) {}
  }

  /** A group that gets on does not fail. */
  lemma PassesOn(s: State, s2: State, v: nat)
    requires Append(s, s2, v) || Sync(s, s2, v) || Insert(s, s2, v) || InsertEnds(s, s2, v)
    ensures FailuresCaused(s, s2)
  {
    GoesOn(s, s2, v);
  }

  lemma FinishFailures(s: State, s2: State, start: nat, v: nat, last: nat)
    requires Good(s, start) && Finish(s, s2, v, last)
    ensures FailuresCaused(s, s2)
  {
    var g := s.at[v].g;
    PlacesMove(s.at, s.done, s.queue, v, s.at[v]);
    PopsMembers(s.queue, |s.at|, g.members, last);
    forall w: nat | HasFailed(s2, w) && !HasFailed(s, w)
      ensures IsFailing(s, v, w)
    {
      assert g.members[0] == v;
      assert w in s.queue[..last + 1];
    }
  }

  lemma GroupStepFailures(s: State, s2: State, start: nat)
    requires Good(s, start) && GroupStep(s, s2)
    ensures FailuresCaused(s, s2)
  {
    if w, n :| Build(s, s2, w, n) {
      GoesOn(s, s2, w);
    } else if w :| Append(s, s2, w) || Sync(s, s2, w) || Insert(s, s2, w) || InsertEnds(s, s2, w) {
      PassesOn(s, s2, w);
    } else if w :| AppendFails(s, s2, w) || SyncFails(s, s2, w) || InsertFails(s, s2, w) {
      GroupFailures(s, s2, w);
    } else {
      var w: nat, last: nat :| Finish(s, s2, w, last);
      FinishFailures(s, s2, start, w, last);
    }
  }

  lemma CausedMore(run: seq<State>, start: nat, n: nat)
    requires IsRun(run, start) && n + 1 < |run| && Good(run[n], start) && Caused(run, n)
    ensures Caused(run, n + 1)
  {
    var s, s2 := run[n], run[n + 1];
    if QueueStep(s, s2) {
      QueueFailures(s, s2);
    } else {
      GroupStepFailures(s, s2, start);
    }
    forall w: nat | HasFailed(s2, w) ensures FailedBefore(run, n + 1, w) {
      if Fails(s, s2, w) { assert FailedAt(run, n, w); }
    }
    forall leader: nat, w: nat | IsFailing(s2, leader, w) ensures FailedBefore(run, n + 1, w) {
      if Fails(s, s2, w) { assert FailedAt(run, n, w); }
    }
  }

  /**
   * A call of Write fails only for a reason: it was refused before it wrote anything, or a step of its own group
   * failed. So in a run in which nothing fails every call that returns returns Ok.
   */
  lemma {:induction false} EveryFailureIsCaused(run: seq<State>, start: nat, n: nat)
    requires IsRun(run, start) && n < |run|
    ensures Caused(run, n)
    ensures (forall i, w :: !FailedAt(run, i, w)) ==>
      forall w: nat :: Is(run[n], w) && Result(run[n].at[w], run[n].done[w]).Some? ==>
        Result(run[n].at[w], run[n].done[w]) == Some(Ok)
  {
    EveryRunIsGood(run, start);
    for i := 0 to n
      invariant Caused(run, i)
    {
      CausedMore(run, start, i);
    }
    if forall i, w :: !FailedAt(run, i, w) {
      NobodyFailed(run, n);
    }
  }

  lemma NobodyFailed(run: seq<State>, n: nat)
    requires Caused(run, n) && forall i, w :: !FailedAt(run, i, w)
    ensures forall w: nat :: Is(run[n], w) && Result(run[n].at[w], run[n].done[w]).Some? ==>
      Result(run[n].at[w], run[n].done[w]) == Some(Ok)
  {
    var s := run[n];
    forall w: nat | Is(s, w) && Result(s.at[w], s.done[w]).Some?
      ensures Result(s.at[w], s.done[w]) == Some(Ok)
    {
      assert !HasFailed(s, w) by { assert HasFailed(s, w) ==> FailedBefore(run, n, w); }
      assert Result(s.at[w], s.done[w]).value.Ok?;
    }
  }

  // After a failed sync

  /** No write is accepted any more, or the writer whose sync failed is about to see to that. */
  ghost predicate SyncBroken(s: State, w: nat) {
    s.failing || (Front(s, w) && s.at[w].Finishing? && s.at[w].syncError)
  }

  /** While the first in the queue has a group, the others wait. */
  lemma OthersWait(s: State, start: nat, w: nat)
    requires Good(s, start) && Front(s, w) && Busy(s.at[w])
    ensures forall v: nat :: Is(s, v) && v != w ==> s.at[v].Waiting? || s.at[v].Returned?
  {
  }

  ghost predicate BuildsNothing(s: State, s2: State) {
    forall v, n :: !Build(s, s2, v, n)
  }

  lemma BrokenBuildsNothing(s: State, s2: State, w: nat)
    requires SyncBroken(s, w)
    ensures BuildsNothing(s, s2)
  {
  }

  lemma BrokenStays(s: State, s2: State, start: nat, w: nat)
    requires Good(s, start) && Next(s, s2) && SyncBroken(s, w)
    ensures SyncBroken(s2, w)
  {
    if s.failing {
      FailingStays(s, s2);
    } else {
      OthersWait(s, start, w);
      BrokenStep(s, s2, w);
    }
  }

  lemma FailingStays(s: State, s2: State)
    requires s.failing && Next(s, s2)
    ensures s2.failing
  {
  }

  lemma BrokenStep(s: State, s2: State, w: nat)
    requires Next(s, s2) && Front(s, w) && s.at[w].Finishing? && s.at[w].syncError
    requires forall v: nat :: Is(s, v) && v != w ==> s.at[v].Waiting? || s.at[v].Returned?
    ensures SyncBroken(s2, w)
  {
    if QueueStep(s, s2) {
      BrokenInQueue(s, s2, w);
    } else {
      BrokenInGroup(s, s2, w);
    }
  }

  lemma BrokenInGroup(s: State, s2: State, w: nat)
    requires GroupStep(s, s2) && Front(s, w) && s.at[w].Finishing? && s.at[w].syncError
    requires forall v: nat :: Is(s, v) && v != w ==> s.at[v].Waiting? || s.at[v].Returned?
    ensures s2.failing
  {
  }

  lemma BrokenInQueue(s: State, s2: State, w: nat)
    requires QueueStep(s, s2) && Front(s, w) && s.at[w].Finishing? && s.at[w].syncError
    ensures SyncBroken(s2, w)
  {
  }

  lemma FailedSyncBreaks(s: State, s2: State, start: nat, w: nat)
    requires Good(s, start) && SyncFails(s, s2, w)
    ensures SyncBroken(s2, w)
  {
    PlacesMove(s.at, s.done, s.queue, w, s2.at[w]);
  }

  /** Once a sync has failed, no group is built any more: what is in the log may or may not be found again. */
  lemma NothingAfterFailedSync(run: seq<State>, start: nat, i: nat, j: nat, k: nat, w: nat)
    requires IsRun(run, start) && i < j < |run| - 1 && k == j + 1 && SyncFails(run[i], run[i + 1], w)
    ensures BuildsNothing(run[j], run[k])
  {
    BrokenFirst(run, start, i, i + 1, w);
    AllBrokenOn(run, start, i + 1, j, w);
    BrokenOnward(run, i + 1, j, w);
    BrokenBuildsNothing(run[j], run[k], w);
  }

  lemma AllBrokenOn(run: seq<State>, start: nat, i: nat, j: nat, w: nat)
    requires IsRun(run, start) && j < |run|
    ensures forall k {:trigger BrokenOn(run, k, w)} :: i <= k < j ==> BrokenOn(run, k, w)
  {
    forall k | i <= k < j ensures BrokenOn(run, k, w) { BrokenOnce(run, start, k, k + 1, w); }
  }

  lemma BrokenFirst(run: seq<State>, start: nat, i: nat, j: nat, w: nat)
    requires IsRun(run, start) && j == i + 1 < |run| && SyncFails(run[i], run[j], w)
    ensures SyncBroken(run[j], w)
  {
    StepOfRun(run, start, i, j);
    FailedSyncBreaks(run[i], run[j], start, w);
  }

  ghost predicate BrokenOn(run: seq<State>, k: int, w: nat) {
    0 <= k < |run| - 1 && (SyncBroken(run[k], w) ==> SyncBroken(run[k + 1], w))
  }

  lemma BrokenOnce(run: seq<State>, start: nat, k: nat, n: nat, w: nat)
    requires IsRun(run, start) && n == k + 1 < |run|
    ensures SyncBroken(run[k], w) ==> SyncBroken(run[n], w)
  {
    StepOfRun(run, start, k, n);
    if SyncBroken(run[k], w) {
      BrokenStays(run[k], run[n], start, w);
    }
  }

  lemma {:induction false} BrokenOnward(run: seq<State>, i: nat, j: nat, w: nat)
    requires i <= j < |run| && SyncBroken(run[i], w)
    requires forall k {:trigger BrokenOn(run, k, w)} :: i <= k < j ==> BrokenOn(run, k, w)
    ensures SyncBroken(run[j], w)
  {
    if i < j {
      BrokenOnward(run, i, j - 1, w);
      assert BrokenOn(run, j - 1, w);
    }
  }

  lemma StepOfRun(run: seq<State>, start: nat, i: nat, j: nat)
    requires IsRun(run, start) && j == i + 1 < |run|
    ensures Good(run[i], start) && Next(run[i], run[j])
  {
    EveryRunIsGood(run, start);
    assert Next(run[i], run[i + 1]);
  }

  /** The steps that may make the database refuse writes. */
  ghost predicate Breaks(s: State, s2: State) {
    BackgroundError(s, s2) || exists w :: SyncFails(s, s2, w)
  }

  ghost predicate BrokenBefore(run: seq<State>, n: nat) {
    exists i, j :: 0 <= i < n < |run| && j == i + 1 && Breaks(run[i], run[j])
  }

  ghost predicate Breaking(s: State) {
    s.failing || exists w :: 0 <= w < |s.at| && s.at[w].Finishing? && s.at[w].syncError
  }

  lemma BreakingStep(s: State, s2: State)
    requires Next(s, s2) && Breaking(s2) && !Breaking(s)
    ensures Breaks(s, s2)
  {
    if GroupStep(s, s2) {
      BreakingGroup(s, s2);
    }
  }

  lemma BreakingGroup(s: State, s2: State)
    requires GroupStep(s, s2) && Breaking(s2) && !Breaking(s)
    ensures exists w :: SyncFails(s, s2, w)
  {
  }

  /** Writes are refused only after an error in the background or a failed sync. */
  lemma {:induction false} RefusalIsCaused(run: seq<State>, start: nat, n: nat)
    requires IsRun(run, start) && n < |run| && Breaking(run[n])
    ensures BrokenBefore(run, n)
  {
    if n > 0 {
      if Breaking(run[n - 1]) {
        RefusalIsCaused(run, start, n - 1);
        var i, j :| 0 <= i < n - 1 && j == i + 1 && Breaks(run[i], run[j]);
      } else {
        assert Next(run[n - 1], run[n - 1 + 1]);
        BreakingStep(run[n - 1], run[n]);
      }
    }
  }

  // A run

  /** Someone writes, asking for a sync, and nothing fails. */
  function Arrived(op: Op): State {
    Initial(0).(writers := [Writer(Some(Batch([op], 1)), true)], at := [Waiting], done := [None], queue := [0])
  }

  function Grouped(op: Op): State {
    var g := Group([0], 1, [op]);
    Arrived(op).(at := [Appending(g)], grouped := [0], groups := [g])
  }

  function Logged1(op: Op): State {
    Grouped(op).(at := [Syncing(Group([0], 1, [op]))], log := [Record(1, [op])])
  }

  function Synced(op: Op): State {
    Logged1(op).(at := [Inserting(Group([0], 1, [op]), 0)], synced := {0})
  }

  function InMemory(op: Op): State {
    Synced(op).(at := [Inserting(Group([0], 1, [op]), 1)], memory := [Numbered(1, op)])
  }

  function Answered(op: Op): State {
    InMemory(op).(at := [Returned(Ok)], lastSequence := 1, queue := [])
  }

  function Led(op: Op): State {
    Arrived(op).(at := [MakingRoom])
  }

  function Inserted1(op: Op): State {
    InMemory(op).(at := [Finishing(Group([0], 1, [op]), Ok, false)])
  }

  lemma FirstSteps(op: Op)
    ensures Next(Initial(0), Arrived(op)) && Next(Arrived(op), Led(op)) && Next(Led(op), Grouped(op))
    ensures Next(Grouped(op), Logged1(op))
  {
    assert Arrive(Initial(0), Arrived(op), Arrived(op).writers[0]);
    assert Lead(Arrived(op), Led(op), 0);
    BuildsAlone(Led(op), Grouped(op), op);
    assert Append(Grouped(op), Logged1(op), 0);
  }

  lemma LastSteps(op: Op)
    ensures Next(Logged1(op), Synced(op)) && Next(Synced(op), InMemory(op)) && Next(InMemory(op), Inserted1(op))
    ensures Next(Inserted1(op), Answered(op))
  {
    assert FileRecords(Logged1(op)) == {0} by { assert Logged1(op).log[0] == Record(1, [op]); }
    assert Sync(Logged1(op), Synced(op), 0);
    assert Insert(Synced(op), InMemory(op), 0);
    assert InsertEnds(InMemory(op), Inserted1(op), 0);
    assert Finish(Inserted1(op), Answered(op), 0, 0);
  }

  lemma RunOn(run: seq<State>, start: nat, last: State, s: State) returns (more: seq<State>)
    requires IsRun(run, start) && run[|run| - 1] == last && Next(last, s)
    ensures IsRun(more, start) && more == run + [s] && more[|more| - 1] == s
  {
    more := run + [s];
    forall i | 0 <= i < |more| - 1 ensures Next(more[i], more[i + 1]) {
      if i < |run| - 1 { assert Next(run[i], run[i + 1]); }
    }
  }

  lemma RunToLogged(op: Op) returns (run: seq<State>)
    ensures IsRun(run, 0) && run[|run| - 1] == Logged1(op)
  {
    FirstSteps(op);
    run := [Initial(0)];
    run := RunOn(run, 0, Initial(0), Arrived(op));
    run := RunOn(run, 0, Arrived(op), Led(op));
    run := RunOn(run, 0, Led(op), Grouped(op));
    run := RunOn(run, 0, Grouped(op), Logged1(op));
  }

  lemma IsAnswered(op: Op)
    ensures var s := Answered(op);
      Accepted(s, 0) && s.memory == [Numbered(1, op)] && s.log == [Record(1, [op])] && s.synced == {0} && s.lastSequence == 1
  {
  }

  /** So calls of Write do return Ok: a run in which one does, with its operation in log and memtable. */
  lemma AWriteSucceeds(op: Op) returns (run: seq<State>, s: State)
    ensures IsRun(run, 0) && run[|run| - 1] == s
    ensures Accepted(s, 0) && s.memory == [Numbered(1, op)] && s.log == [Record(1, [op])] && s.synced == {0}
    ensures s.lastSequence == 1
  {
    LastSteps(op);
    run := RunToLogged(op);
    run := RunOn(run, 0, Logged1(op), Synced(op));
    run := RunOn(run, 0, Synced(op), InMemory(op));
    run := RunOn(run, 0, InMemory(op), Inserted1(op));
    s := Answered(op);
    run := RunOn(run, 0, Inserted1(op), s);
    IsAnswered(op);
  }

  lemma BuildsAlone(s: State, s2: State, op: Op)
    requires s == Arrived(op).(at := [MakingRoom]) && s2 == Grouped(op)
    ensures Build(s, s2, 0, 1)
  {
    assert OpsUpTo(s.writers, s.queue, 1) == OpsUpTo(s.writers, s.queue, 0) + [op] == [op];
    assert s.queue[..1] == [0];
  }

  // What a run guarantees

  function NumberedFrom(first: nat, ops: seq<Op>): seq<Numbered> {
    seq(|ops|, i requires 0 <= i < |ops| => Numbered(first + i, ops[i]))
  }

  /** The memtable entries when the first `n` writers write one after the other, each by itself. */
  ghost function WrittenAlone(ws: seq<Writer>, ids: seq<nat>, n: nat, start: nat): seq<Numbered>
    requires Ids(ws, ids) && n <= |ids|
  {
    if n == 0 then []
    else
      var before := WrittenAlone(ws, ids, n - 1, start);
      before + NumberedFrom(start + |before| + 1, Ops(ws[ids[n - 1]]))
  }

  lemma {:induction false} AloneIsNumbered(ws: seq<Writer>, ids: seq<nat>, n: nat, start: nat)
    requires Ids(ws, ids) && n <= |ids|
    ensures WrittenAlone(ws, ids, n, start) == NumberedFrom(start + 1, OpsUpTo(ws, ids, n))
  {
    if n > 0 {
      AloneIsNumbered(ws, ids, n - 1, start);
      NumberedJoined(start + 1, OpsUpTo(ws, ids, n - 1), Ops(ws[ids[n - 1]]));
    }
  }

  lemma NumberedJoined(first: nat, a: seq<Op>, b: seq<Op>)
    ensures NumberedFrom(first, a + b) == NumberedFrom(first, a) + NumberedFrom(first + |a|, b)
  {
  }

  /**
   * Writers are grouped in the order they arrived, none twice; each number reaches the memtable at most
   * once; and what is there is what would be there had each batch been written by itself in that order.
   */
  lemma {:induction false} AtMostOnceInOrder(s: State, start: nat)
    requires Good(s, start)
    ensures Ids(s.writers, s.grouped)
    ensures forall i, j :: 0 <= i < j < |s.grouped| ==> s.grouped[i] < s.grouped[j]
    ensures forall i, j :: 0 <= i < j < |s.memory| ==> s.memory[i].sequence < s.memory[j].sequence
    ensures forall x :: x in s.memory ==> x in WrittenAlone(s.writers, s.grouped, |s.grouped|, start)
  {
    var p := Doing(s.at, s.queue);
    MemoryIncreasing(s.memory, Reached(p, s.lastSequence));
    GroupedIncreasing(s.writers, s.queue, p, Past(s), s.lastSequence, start);
    AloneIsNumbered(s.writers, s.grouped, |s.grouped|, start);
    MemorySpelled(s.memory, s.log, OpsOf(s.writers, s.grouped), start);
  }

  lemma GroupedIncreasing(ws: seq<Writer>, queue: seq<nat>, p: Progress, past: seq<nat>, lastSequence: nat, start: nat)
    requires Shape(|ws|, queue) && Grouping(ws, queue, p, past, lastSequence, start)
    ensures var ids := past + Members(p); forall i, j :: 0 <= i < j < |ids| ==> ids[i] < ids[j]
  {
    var m, ids := Members(p), past + Members(p);
    assert forall i :: 0 <= i < |m| ==> m[i] == queue[i];
    forall i, j | 0 <= i < j < |ids|
      ensures ids[i] < ids[j]
    {
      assert j < |past| ==> Below(past[i], past[j]);
    }
  }

  lemma MemoryIncreasing(memory: seq<Numbered>, reached: nat)
    requires Once(memory, reached)
    ensures forall i, j :: 0 <= i < j < |memory| ==> memory[i].sequence < memory[j].sequence
  {
    forall i, j | 0 <= i < j < |memory|
      ensures memory[i].sequence < memory[j].sequence
    {
      assert Below(memory[i].sequence, memory[j].sequence);
    }
  }

  lemma MemorySpelled(memory: seq<Numbered>, log: seq<Record>, all: seq<Op>, start: nat)
    requires LoggedFirst(memory, log) && Spelling(log, all, start)
    ensures forall x :: x in memory ==> x in NumberedFrom(start + 1, all)
  {
    forall x | x in memory
      ensures x in NumberedFrom(start + 1, all)
    {
      assert Logged(log, x);
      var r :| 0 <= r < |log| && Spells(log[r], x);
      EntrySpelled(log[r], x, all, start);
    }
  }

  lemma EntrySpelled(r: Record, x: Numbered, all: seq<Op>, start: nat)
    requires SpelledBy(r, all, start) && Spells(r, x)
    ensures x in NumberedFrom(start + 1, all)
  {
    var i := r.first - start - 1;
    assert all[i..i + |r.ops|][x.sequence - r.first] == all[x.sequence - start - 1];
    assert NumberedFrom(start + 1, all)[x.sequence - start - 1] == x;
  }

  /**
   * A call of Write that returned Ok: its whole batch is in the memtable, numbered as if all grouped
   * batches before it had been written alone, published, in the log, and durable if it asked for that.
   */
  lemma OkMeansWritten(s: State, start: nat, w: nat) returns (m: nat, r: nat)
    requires Good(s, start) && Accepted(s, w)
    ensures Ids(s.writers, s.grouped) && m < |s.grouped| && s.grouped[m] == w
    ensures AllIn(s.memory, Start(s.writers, s.grouped, start, m), Ops(s.writers[w]))
    ensures Start(s.writers, s.grouped, start, m) + |Ops(s.writers[w])| <= s.lastSequence + 1
    ensures RecordHolds(s.log, r, Start(s.writers, s.grouped, start, m), Ops(s.writers[w]))
    ensures s.writers[w].sync ==> r in s.synced
  {
    var past := Past(s);
    m := WhereLanded(s, past, start, w);
    r := WrittenAt(s.writers, past, Members(Doing(s.at, s.queue)), s.memory, s.log, s.synced, start, m);
    MemberOps(s.writers, past, m, |past|);
  }

  lemma WrittenAt(ws: seq<Writer>, past: seq<nat>, more: seq<nat>, memory: seq<Numbered>, log: seq<Record>,
                  synced: set<nat>, start: nat, m: nat)
      returns (r: nat)
    requires Ids(ws, past + more) && Ids(ws, past) && m < |past|
    requires Landed(memory, log, synced, ws[past[m]], Start(ws, past, start, m))
    ensures (past + more)[m] == past[m] && Start(ws, past + more, start, m) == Start(ws, past, start, m)
    ensures AllIn(memory, Start(ws, past, start, m), Ops(ws[past[m]]))
    ensures RecordHolds(log, r, Start(ws, past, start, m), Ops(ws[past[m]])) && (ws[past[m]].sync ==> r in synced)
  {
    OpsUpToSame(ws, past, ws, past + more, m);
    r :| RecordHolds(log, r, Start(ws, past, start, m), Ops(ws[past[m]])) && (ws[past[m]].sync ==> r in synced);
  }

  lemma WhereLanded(s: State, past: seq<nat>, start: nat, w: nat) returns (m: nat)
    requires Delivered(s, past, start) && Accepted(s, w)
    ensures LandedAt(s, past, start, m, w)
  {
    assert SomewhereLanded(s, past, start, w);
    m :| LandedAt(s, past, start, m, w);
  }

  /** The published number is at the end of a group, and only entries of the group at hand lie beyond it. */
  lemma PublishedIsWhole(s: State, start: nat)
    requires Good(s, start)
    ensures forall g :: g in s.groups ==> g.first + |g.ops| <= s.lastSequence + 1 || s.lastSequence < g.first
    ensures forall x :: x in s.memory && x.sequence > s.lastSequence ==>
      exists g :: g in s.groups && s.lastSequence + 1 == g.first <= x.sequence < g.first + |g.ops|
  {
    var p := Doing(s.at, s.queue);
    forall x | x in s.memory && x.sequence > s.lastSequence
      ensures exists g :: g in s.groups && s.lastSequence + 1 == g.first <= x.sequence < g.first + |g.ops|
    {
      assert x.sequence < Reached(p, s.lastSequence);
      assert p.g in s.groups;
    }
  }

  /** Between groups, when every grouped writer with a batch was answered Ok, the memtable is that of lone writes. */
  lemma {:induction false} AsIfAlone(s: State, start: nat)
    requires Good(s, start) && !Busy(Doing(s.at, s.queue))
    requires forall w :: w in s.grouped && w < |s.writers| && s.writers[w].batch.Some? ==> Accepted(s, w)
    ensures Ids(s.writers, s.grouped) && s.memory == WrittenAlone(s.writers, s.grouped, |s.grouped|, start)
  {
    AtMostOnceInOrder(s, start);
    forall m | 0 <= m < |s.grouped|
      ensures MemberIn(s.writers, s.grouped, s.memory, start, m)
    {
      GroupedLanded(s, start, m);
    }
    AllLandedIsAlone(s.writers, s.grouped, s.memory, start);
  }

  ghost predicate MemberIn(ws: seq<Writer>, ids: seq<nat>, memory: seq<Numbered>, start: nat, m: nat)
    requires Ids(ws, ids) && m < |ids|
  {
    AllIn(memory, Start(ws, ids, start, m), Ops(ws[ids[m]]))
  }

  lemma GroupedLanded(s: State, start: nat, m: nat)
    requires Ids(s.writers, s.grouped) && m < |s.grouped|
    requires forall i, j :: 0 <= i < j < |s.grouped| ==> s.grouped[i] < s.grouped[j]
    requires s.writers[s.grouped[m]].batch.Some? ==> Accepted(s, s.grouped[m])
    requires Good(s, start)
    ensures MemberIn(s.writers, s.grouped, s.memory, start, m)
  {
    if s.writers[s.grouped[m]].batch.Some? {
      var m2, _ := OkMeansWritten(s, start, s.grouped[m]);
    }
  }

  lemma {:induction false} AllLandedIsAlone(ws: seq<Writer>, ids: seq<nat>, memory: seq<Numbered>, start: nat)
    requires Ids(ws, ids)
    requires forall i, j :: 0 <= i < j < |memory| ==> memory[i].sequence < memory[j].sequence
    requires forall x :: x in memory ==> x in WrittenAlone(ws, ids, |ids|, start)
    requires forall m :: 0 <= m < |ids| ==> MemberIn(ws, ids, memory, start, m)
    ensures memory == WrittenAlone(ws, ids, |ids|, start)
  {
    AloneIn(ws, ids, memory, start, |ids|);
    AloneIsNumbered(ws, ids, |ids|, start);
    SameList(memory, WrittenAlone(ws, ids, |ids|, start));
  }

  lemma {:induction false} AloneIn(ws: seq<Writer>, ids: seq<nat>, memory: seq<Numbered>, start: nat, n: nat)
    requires Ids(ws, ids) && n <= |ids|
    requires forall m :: 0 <= m < |ids| ==> MemberIn(ws, ids, memory, start, m)
    ensures forall x :: x in WrittenAlone(ws, ids, n, start) ==> x in memory
  {
    if n > 0 {
      AloneIn(ws, ids, memory, start, n - 1);
      AloneIsNumbered(ws, ids, n - 1, start);
      assert MemberIn(ws, ids, memory, start, n - 1);
      NumberedIn(memory, Start(ws, ids, start, n - 1), Ops(ws[ids[n - 1]]));
    }
  }

  lemma NumberedIn(memory: seq<Numbered>, first: nat, ops: seq<Op>)
    requires AllIn(memory, first, ops)
    ensures forall x :: x in NumberedFrom(first, ops) ==> x in memory
  {
    forall x | x in NumberedFrom(first, ops)
      ensures x in memory
    {
      var j :| 0 <= j < |ops| && NumberedFrom(first, ops)[j] == x;
      assert x == Numbered(first + j, ops[j]);
    }
  }

  /** Two lists with increasing numbers and the same members are equal. */
  lemma {:induction false} SameList(a: seq<Numbered>, b: seq<Numbered>)
    requires forall i, j :: 0 <= i < j < |a| ==> a[i].sequence < a[j].sequence
    requires forall i, j :: 0 <= i < j < |b| ==> b[i].sequence < b[j].sequence
    requires (forall x :: x in a ==> x in b) && (forall x :: x in b ==> x in a)
    ensures a == b
  {
    assert |a| == 0 <==> |b| == 0 by {
      assert |a| > 0 ==> a[0] in a;
      assert |b| > 0 ==> b[0] in b;
    }
    if a != [] {
      assert a[0] in b;
      assert a[0] in b && b[0] in a;
      assert a[0] == b[0];
      forall x | x in a[1..] ensures x in b[1..] { assert x in b && x != b[0]; }
      forall x | x in b[1..] ensures x in a[1..] { assert x in a && x != a[0]; }
      SameList(a[1..], b[1..]);
    }
  }
}
