/** One compaction: which entries it drops, how it splits its output, and its edit (db/db_impl.cc, db/version_set.cc). */
module Compaction {
  import opened DbFormat
  import opened Versions
  import opened InputSelection
  import opened VersionBuilder
  import Merger

  /** No file two or more levels down has `u` in its range. */
  ghost predicate BaseLevel(v: Version, level: nat, u: UserKey) {
    forall l, f :: level + 2 <= l < NUM_LEVELS && f in v[l] ==> !(f.smallest.user <= u <= f.largest.user)
  }

  ghost predicate SortedFrom(v: Version, level: nat) {
    forall l :: level <= l < NUM_LEVELS ==> Disjoint(v[l]) && forall f :: f in v[l] ==> f.Valid()
  }

  /** The first `n` files end before `key`. */
  ghost predicate EndBefore(fs: seq<File>, n: nat, key: InternalKey) {
    n <= |fs| && forall i :: 0 <= i < n ==> fs[i].largest.Less(key)
  }

  /** And the file after them does not. */
  ghost predicate PassedUpTo(fs: seq<File>, n: nat, key: InternalKey) {
    EndBefore(fs, n, key) && (n < |fs| ==> !fs[n].largest.Less(key))
  }

  lemma BeforeLater(fs: seq<File>, n: nat, key: InternalKey, later: InternalKey)
    requires EndBefore(fs, n, key) && key.Less(later)
    ensures EndBefore(fs, n, later)
  {
  }

  lemma {:induction false} TotalSplit(a: seq<File>, b: seq<File>)
    ensures TotalFileSize(a + b) == TotalFileSize(a) + TotalFileSize(b)
  {
    if a == [] {
      assert a + b == b;
    } else {
      assert (a + b)[1..] == a[1..] + b;
      TotalSplit(a[1..], b);
    }
  }

  lemma TotalOfParts(fs: seq<File>, i: nat, j: nat, k: nat)
    requires i <= j <= k <= |fs|
    ensures TotalFileSize(fs[i..k]) == TotalFileSize(fs[i..j]) + TotalFileSize(fs[j..k])
  {
    assert fs[i..k] == fs[i..j] + fs[j..k];
    TotalSplit(fs[i..j], fs[j..k]);
  }

  /** The state of a running compaction that its scan over the deeper levels carries along. */
  class CompactionScan {
    const version: Version
    const level: nat
    const grandparents: seq<File>
    const maxOverlapBytes: nat
    const levelPtrs: array<nat>
    var grandparentIndex: nat
    var seenKey: bool
    var overlappedBytes: nat
    ghost var since: nat  // the grandparents from here on are counted

    ghost predicate Valid()
      reads this, levelPtrs
    {
      && since <= grandparentIndex <= |grandparents|
      && overlappedBytes == TotalFileSize(grandparents[since..grandparentIndex]) && overlappedBytes <= maxOverlapBytes
      && (!seenKey ==> since == grandparentIndex)
      && levelPtrs.Length == NUM_LEVELS
      && (forall l :: 0 <= l < NUM_LEVELS ==> levelPtrs[l] <= |version[l]|)
      && grandparentIndex <= |grandparents|
    }

    /** Every file the scan has passed ends before `u`. */
    ghost predicate Passed(u: UserKey)
      requires Valid()
      reads this, levelPtrs
    {
      forall l, i :: level + 2 <= l < NUM_LEVELS && 0 <= i < levelPtrs[l] ==> version[l][i].largest.user < u
    }

    lemma PassedLater(u: UserKey, w: UserKey)
      requires Valid() && Passed(u) && u <= w
      ensures Passed(w)
    {
    }

    constructor (version: Version, level: nat, grandparents: seq<File>, maxOverlapBytes: nat)
      ensures Valid() && fresh(levelPtrs)
      ensures this.version == version && this.level == level && this.grandparents == grandparents
      ensures this.maxOverlapBytes == maxOverlapBytes && grandparentIndex == 0
      ensures forall u :: Passed(u)
    {
      this.version := version;
      this.level := level;
      this.grandparents := grandparents;
      this.maxOverlapBytes := maxOverlapBytes;
      levelPtrs := new nat[NUM_LEVELS](_ => 0);
      grandparentIndex := 0;
      seenKey := false;
      overlappedBytes := 0;
      since := 0;
    }

    /** Compaction::IsBaseLevelForKey; keys come in nondecreasing order, so no pointer ever moves back. */
    method IsBaseLevelForKey(u: UserKey) returns (r: bool)
      requires Valid() && Passed(u)
      requires SortedFrom(version, level + 2)
      modifies levelPtrs
      ensures Valid() && Passed(u)
      ensures r == BaseLevel(version, level, u)
    {
      var lvl := level + 2;
      while lvl < NUM_LEVELS
        invariant level + 2 <= lvl && Valid() && Passed(u)
        invariant forall l, f :: level + 2 <= l < lvl && l < NUM_LEVELS && f in version[l] ==>
          !(f.smallest.user <= u <= f.largest.user)
      {
        var files := version[lvl];
        while levelPtrs[lvl] < |files| && files[levelPtrs[lvl]].largest.user < u
          invariant Valid() && Passed(u)
          decreases |files| - levelPtrs[lvl]
        {
          levelPtrs[lvl] := levelPtrs[lvl] + 1;
        }
        if levelPtrs[lvl] < |files| {
          var f := files[levelPtrs[lvl]];
          if f.smallest.user <= u {
            assert f in version[lvl];
            return false;
          }
        }
        LaterFilesMiss(files, levelPtrs[lvl], u);
        lvl := lvl + 1;
      }
      return true;
    }

    /** Compaction::ShouldStopBefore: whether the grandparents passed since the last stop have too many bytes. */
    method ShouldStopBefore(key: InternalKey) returns (stop: bool)
      requires Valid() && EndBefore(grandparents, grandparentIndex, key)
      modifies this`grandparentIndex, this`seenKey, this`overlappedBytes, this`since
      ensures Valid() && PassedUpTo(grandparents, grandparentIndex, key) && old(grandparentIndex) <= grandparentIndex && seenKey
      ensures old(Passed(key.user)) ==> Passed(key.user)
      ensures var counted := if old(seenKey) then old(since) else grandparentIndex;
        && stop == (TotalFileSize(grandparents[counted..grandparentIndex]) > maxOverlapBytes)
        && since == if stop then grandparentIndex else counted
    {
      ghost var from := grandparentIndex;
      while grandparentIndex < |grandparents| && grandparents[grandparentIndex].largest.Less(key)
        invariant from <= grandparentIndex <= |grandparents| && levelPtrs.Length == NUM_LEVELS && since <= from
        invariant forall l :: 0 <= l < NUM_LEVELS ==> levelPtrs[l] <= |version[l]|
        invariant seenKey == old(seenKey) && since == old(since)
        invariant EndBefore(grandparents, grandparentIndex, key)
        invariant overlappedBytes == TotalFileSize(grandparents[since..if seenKey then grandparentIndex else from])
        decreases |grandparents| - grandparentIndex
      {
        if seenKey {
          ghost var g := grandparents[grandparentIndex];
          assert grandparents[since..grandparentIndex + 1] == grandparents[since..grandparentIndex] + [g];
          TotalAppend(grandparents[since..grandparentIndex], g);
          overlappedBytes := overlappedBytes + grandparents[grandparentIndex].size;
        }
        grandparentIndex := grandparentIndex + 1;
      }
      if !seenKey {
        since := grandparentIndex;
      }
      seenKey := true;
      if overlappedBytes > maxOverlapBytes {
        overlappedBytes := 0;
        since := grandparentIndex;
        return true;
      }
      return false;
    }
  }

  lemma LaterFilesMiss(files: seq<File>, n: nat, u: UserKey)
    requires n <= |files| && Disjoint(files) && forall f :: f in files ==> f.Valid()
    requires forall i :: 0 <= i < n ==> files[i].largest.user < u
    requires n < |files| ==> u < files[n].smallest.user
    ensures forall f :: f in files ==> !(f.smallest.user <= u <= f.largest.user)
  {
    forall f | f in files
      ensures !(f.smallest.user <= u <= f.largest.user)
    {
      var i :| 0 <= i < |files| && files[i] == f;
      if i > n {
        FileEnds(files[n]);
        assert files[n].largest.Less(files[i].smallest);
      }
    }
  }

  // Which entries a compaction keeps

  /**
   * An entry survives when some reader newer than every live snapshot's horizon `s` could need it: it
   * is newer than `s`, or the newest at `s`, unless that is a deletion with nothing below to hide.
   */
  ghost predicate Kept(es: set<Entry>, s: SequenceNumber, v: Version, level: nat, e: Entry) {
    && e in es
    && (e.key.sequence > s
        || (IsNewest(es, e.key.user, s, e) && !(e.key.kind.Deletion? && BaseLevel(v, level, e.key.user))))
  }

  /** The drop rules as the loop applies them, from an entry and the one before it. */
  ghost predicate Dropped(input: seq<Entry>, i: nat, s: SequenceNumber, v: Version, level: nat)
    requires i < |input|
  {
    var key := input[i].key;
    || (i > 0 && input[i - 1].key.user == key.user && input[i - 1].key.sequence <= s)
    || (key.kind.Deletion? && key.sequence <= s && BaseLevel(v, level, key.user))
  }

  ghost function KeptSeq(input: seq<Entry>, n: nat, s: SequenceNumber, v: Version, level: nat): seq<Entry>
    requires n <= |input|
  {
    if n == 0 then []
    else KeptSeq(input, n - 1, s, v, level) + (if Dropped(input, n - 1, s, v, level) then [] else [input[n - 1]])
  }

  lemma KeptStep(input: seq<Entry>, i: nat, s: SequenceNumber, v: Version, level: nat)
    requires i < |input|
    ensures KeptSeq(input, i + 1, s, v, level)
         == if Dropped(input, i, s, v, level) then KeptSeq(input, i, s, v, level) else KeptSeq(input, i, s, v, level) + [input[i]]
  {
  }

  lemma DropRulesAgree(input: seq<Entry>, i: nat, s: SequenceNumber, v: Version, level: nat)
    requires Sorted(input) && i < |input|
    ensures Dropped(input, i, s, v, level) <==> !Kept(Elements(input), s, v, level, input[i])
  {
    var e := input[i];
    if i > 0 && input[i - 1].key.user == e.key.user {
      assert input[i - 1].key.Less(e.key);
      assert input[i - 1] in Elements(input);
      if input[i - 1].key.sequence <= s {
        assert Visible(input[i - 1], e.key.user, s);
      }
    }
    if e.key.sequence <= s && !IsNewest(Elements(input), e.key.user, s, e) {
      var x :| x in Elements(input) && Visible(x, e.key.user, s) && x.key.Tag() > e.key.Tag();
      var j :| 0 <= j < |input| && input[j] == x;
      assert !input[i].key.Less(input[j].key) && j != i;
      assert j == i - 1 || input[j].key.Less(input[i - 1].key);
      assert input[i - 1].key.Less(e.key);
    }
  }

  lemma {:induction false} KeptSeqIs(input: seq<Entry>, n: nat, s: SequenceNumber, v: Version, level: nat)
    requires Sorted(input) && n <= |input|
    ensures Sorted(KeptSeq(input, n, s, v, level))
    ensures forall e :: e in KeptSeq(input, n, s, v, level) <==> e in input[..n] && Kept(Elements(input), s, v, level, e)
  {
    if n > 0 {
      KeptSeqIs(input, n - 1, s, v, level);
      DropRulesAgree(input, n - 1, s, v, level);
      assert input[..n] == input[..n - 1] + [input[n - 1]];
      var k := KeptSeq(input, n - 1, s, v, level);
      forall i | 0 <= i < |k|
        ensures k[i].key.Less(input[n - 1].key)
      {
        assert k[i] in k;
      }
    }
  }

  // Splitting the output into files

  function Flatten(files: seq<File>): seq<Entry> {
    if files == [] then [] else Flatten(files[..|files| - 1]) + files[|files| - 1].entries
  }

  function NewTable(number: nat, entries: seq<Entry>, tableSize: seq<Entry> -> nat): File
    requires entries != []
  {
    File(number, tableSize(entries), entries[0].key, entries[|entries| - 1].key, entries)
  }

  predicate Ends(f: File) {
    f.entries != [] && f.smallest == f.entries[0].key && f.largest == f.entries[|f.entries| - 1].key
  }

  lemma LevelEntriesAppend(files: seq<File>, f: File)
    ensures LevelEntries(files + [f]) == LevelEntries(files) + Elements(f.entries)
  {
  }

  lemma {:induction false} SplitRun(files: seq<File>)
    requires Sorted(Flatten(files)) && forall f :: f in files ==> Ends(f)
    ensures forall f :: f in files ==> f.Valid()
    ensures Disjoint(files)
    ensures LevelEntries(files) == Elements(Flatten(files))
  {
    if files != [] {
      var init, last := files[..|files| - 1], files[|files| - 1];
      var a, b := Flatten(init), last.entries;
      assert Flatten(files) == a + b;
      assert a == (a + b)[..|a|] && b == (a + b)[|a|..];
      assert last in files;
      forall f | f in init ensures Ends(f) { assert f in files; }
      SplitRun(init);
      assert files == init + [last];
      LevelEntriesAppend(init, last);
      assert Elements(a + b) == Elements(a) + Elements(b);
      forall i | 0 <= i < |init|
        ensures init[i].largest.Less(last.smallest)
      {
        assert init[i] in files && Ends(init[i]);
        var e := init[i].entries[|init[i].entries| - 1];
        assert e in init[i].entries;
        assert init[i] in init && e in LevelEntries(init);
        assert e in a;
        var j :| 0 <= j < |a| && a[j] == e;
        assert (a + b)[j].key.Less((a + b)[|a|].key);
      }
    }
  }

  lemma {:induction false} FlattenAppend(files: seq<File>, f: File)
    ensures Flatten(files + [f]) == Flatten(files) + f.entries
  {
    assert (files + [f])[..|files|] == files;
  }

  // Where the output is cut

  /** What limits output files. */
  datatype Limits = Limits(grandparents: seq<File>, maxOverlapBytes: nat, tableSize: seq<Entry> -> nat, maxFileSize: nat)

  /** The grandparents that end within the keys of an output do not have too many bytes. */
  ghost predicate LimitedOverlap(c: Limits, es: seq<Entry>, i: nat, j: nat)
    requires es != []
  {
    && i <= j && PassedUpTo(c.grandparents, i, es[0].key) && PassedUpTo(c.grandparents, j, es[|es| - 1].key)
    && TotalFileSize(c.grandparents[i..j]) <= c.maxOverlapBytes
  }

  /** An output is not full before its last entry and does not reach over too much. */
  ghost predicate OutputOk(c: Limits, f: File) {
    && f.entries != []
    && (|f.entries| > 1 ==> c.tableSize(f.entries[..|f.entries| - 1]) < c.maxFileSize)
    && exists i, j :: LimitedOverlap(c, f.entries, i, j)
  }

  /** An output ends because it is full or because grandparents that end before what comes next have too many bytes. */
  ghost predicate CutRightly(c: Limits, f: File, n: nat) {
    && n <= |c.grandparents|
    && (c.tableSize(f.entries) >= c.maxFileSize
        || exists i :: 0 <= i <= n && TotalFileSize(c.grandparents[i..n]) > c.maxOverlapBytes)
  }

  /** All but the last of the outputs are ended rightly. */
  ghost predicate WellCut(c: Limits, outputs: seq<File>, ends: seq<nat>) {
    && |ends| == |outputs|
    && (forall f :: f in outputs ==> OutputOk(c, f))
    && forall i, j {:trigger CutBetween(c, outputs[i], ends[i], outputs[j])} :: 0 <= i && j == i + 1 && j < |outputs| ==>
         CutBetween(c, outputs[i], ends[i], outputs[j])
  }

  ghost predicate CutBetween(c: Limits, f: File, n: nat, next: File) {
    CutRightly(c, f, n) && EndBefore(c.grandparents, n, next.smallest)
  }

  /** The outputs so far, where the next entry has `key` or comes after: each ended rightly. */
  ghost predicate CutSoFar(c: Limits, outputs: seq<File>, ends: seq<nat>, key: InternalKey) {
    && WellCut(c, outputs, ends)
    && (outputs != [] ==> CutRightly(c, outputs[|outputs| - 1], ends[|outputs| - 1])
                          && EndBefore(c.grandparents, ends[|outputs| - 1], key))
  }

  lemma CutMore(c: Limits, outputs: seq<File>, ends: seq<nat>, f: File, n: nat)
    requires CutSoFar(c, outputs, ends, f.smallest) && OutputOk(c, f)
    ensures WellCut(c, outputs + [f], ends + [n])
  {
    var more, ends2 := outputs + [f], ends + [n];
    forall i, j | 0 <= i && j == i + 1 && j < |more|
      ensures CutBetween(c, more[i], ends2[i], more[j])
    {
      if j < |outputs| { assert CutBetween(c, outputs[i], ends[i], outputs[j]); }
    }
  }

  /** DBImpl::CompactionState: the finished output files and the one being built. */
  class CompactionState {
    const firstNumber: nat
    const tableSize: seq<Entry> -> nat
    var outputs: seq<File>
    var builder: seq<Entry>
    var nextNumber: nat
    ghost const limits: Limits
    ghost var ends: seq<nat>  // how many grandparents end before what comes after each output
    ghost var first: nat      // how many end before the first entry of the one being built, and before its last
    ghost var last: nat

    ghost predicate Valid()
      reads this
    {
      && limits.tableSize == tableSize
      && (forall f :: f in outputs ==> Ends(f))
      && (forall i :: 0 <= i < |outputs| ==> outputs[i].number == firstNumber + i)
      && nextNumber == firstNumber + |outputs| + (if builder == [] then 0 else 1)
    }

    /** All entries written so far. */
    ghost function Written(): seq<Entry>
      reads this
    {
      Flatten(outputs) + builder
    }

    /**
     * What was cut so far; `n` grandparents end before the last entry seen. What is being built may take one more
     * entry.
     */
    ghost predicate Cut(n: nat)
      reads this
    {
      && n <= |limits.grandparents|
      && if builder == [] then
           WellCut(limits, outputs, ends)
           && (outputs != [] ==> CutRightly(limits, outputs[|outputs| - 1], ends[|outputs| - 1]) && ends[|outputs| - 1] <= n)
         else
           && CutSoFar(limits, outputs, ends, builder[0].key) && tableSize(builder) < limits.maxFileSize
           && (|builder| > 1 ==> tableSize(builder[..|builder| - 1]) < limits.maxFileSize)
           && LimitedOverlap(limits, builder, first, last) && last <= n
           && TotalFileSize(limits.grandparents[first..n]) <= limits.maxOverlapBytes
    }

    constructor (firstNumber: nat, tableSize: seq<Entry> -> nat, ghost limits: Limits)
      requires limits.tableSize == tableSize
      ensures Valid() && Written() == [] && builder == [] && Cut(0)
      ensures this.firstNumber == firstNumber && this.limits == limits && this.tableSize == tableSize
    {
      this.firstNumber := firstNumber;
      this.tableSize := tableSize;
      this.limits := limits;
      outputs, builder, nextNumber := [], [], firstNumber;
      ends, first, last := [], 0, 0;
    }

    /** OpenCompactionOutputFile when none is open, then TableBuilder::Add. */
    method Add(e: Entry)
      requires Valid()
      modifies this`builder, this`nextNumber
      ensures Valid() && Written() == old(Written()) + [e] && builder == old(builder) + [e]
    {
      if builder == [] {
        nextNumber := nextNumber + 1;
      }
      builder := builder + [e];
    }

    /** `n` grandparents end before what comes next. */
    method FinishCompactionOutputFile(ghost n: nat)
      requires Valid() && builder != [] && CutSoFar(limits, outputs, ends, builder[0].key)
      requires OutputOk(limits, NewTable(nextNumber - 1, builder, tableSize))
      modifies this`builder, this`outputs, this`ends
      ensures Valid() && Written() == old(Written()) && builder == []
      ensures WellCut(limits, outputs, ends) && outputs != [] && ends[|outputs| - 1] == n
      ensures outputs[|outputs| - 1].entries == old(builder)
    {
      CutMore(limits, outputs, ends, NewTable(nextNumber - 1, builder, tableSize), n);
      var f := NewTable(nextNumber - 1, builder, tableSize);
      FlattenAppend(outputs, f);
      outputs := outputs + [f];
      builder := [];
      ends := ends + [n];
    }
  }

  /** The key and sequence number the loop remembers of entry `i - 1`. */
  ghost predicate Remembers(input: seq<Entry>, i: nat, currentUserKey: Option<UserKey>, lastSequence: SequenceNumber)
    requires i <= |input|
  {
    && currentUserKey == (if i == 0 then None else Some(input[i - 1].key.user))
    && (i > 0 ==> lastSequence == input[i - 1].key.sequence)
  }

  /** The part of the loop that decides whether to drop the entry with `key`. */
  method DecideDrop(scan: CompactionScan, ghost input: seq<Entry>, ghost i: nat, key: InternalKey, s: SequenceNumber,
                    currentUserKey: Option<UserKey>, lastSequence: SequenceNumber)
      returns (drop: bool, currentUserKey': Option<UserKey>, lastSequence': SequenceNumber)
    requires i < |input| && input[i].key == key
    requires scan.Valid() && scan.Passed(key.user) && SortedFrom(scan.version, scan.level + 2)
    requires s < MAX_SEQUENCE && Remembers(input, i, currentUserKey, lastSequence)
    modifies scan.levelPtrs
    ensures scan.Valid() && scan.Passed(key.user)
    ensures drop <==> Dropped(input, i, s, scan.version, scan.level)
    ensures Remembers(input, i + 1, currentUserKey', lastSequence')
  {
    currentUserKey', lastSequence' := currentUserKey, lastSequence;
    drop := false;
    if currentUserKey.None? || key.user != currentUserKey.value {
      currentUserKey' := Some(key.user);
      lastSequence' := MAX_SEQUENCE;
    }
    if lastSequence' <= s {
      drop := true;
    } else if key.kind.Deletion? && key.sequence <= s {
      drop := scan.IsBaseLevelForKey(key.user);
    }
    lastSequence' := key.sequence;
  }

  /** What holds of the scan, the outputs and the remembered key before entry `i` is handled. */
  ghost predicate AtEntry(scan: CompactionScan, compact: CompactionState, input: seq<Entry>, i: nat, s: SequenceNumber,
                          currentUserKey: Option<UserKey>, lastSequence: SequenceNumber)
    requires i <= |input|
    reads scan, scan.levelPtrs, compact
  {
    && scan.Valid()
    && (i < |input| ==> scan.Passed(input[i].key.user) && EndBefore(scan.grandparents, scan.grandparentIndex, input[i].key))
    && Remembers(input, i, currentUserKey, lastSequence)
    && compact.Valid() && compact.Cut(scan.grandparentIndex) && Limited(scan, compact)
    && (compact.builder != [] ==> scan.seenKey && scan.since <= compact.first)
    && compact.Written() == KeptSeq(input, i, s, scan.version, scan.level)
  }

  /** Scan and outputs have the same limits. */
  ghost predicate Limited(scan: CompactionScan, compact: CompactionState) {
    compact.limits.grandparents == scan.grandparents && compact.limits.maxOverlapBytes == scan.maxOverlapBytes
  }

  /** The part of the loop that ends an output when ShouldStopBefore says so. */
  method StopBefore(scan: CompactionScan, compact: CompactionState, key: InternalKey)
    requires scan.Valid() && compact.Valid() && compact.Cut(scan.grandparentIndex) && Limited(scan, compact)
    requires EndBefore(scan.grandparents, scan.grandparentIndex, key)
    requires compact.builder != [] ==> scan.seenKey && scan.since <= compact.first
    modifies scan`grandparentIndex, scan`seenKey, scan`overlappedBytes, scan`since, compact`builder, compact`outputs, compact`ends
    ensures scan.Valid() && scan.seenKey && PassedUpTo(scan.grandparents, scan.grandparentIndex, key)
    ensures compact.Valid() && compact.Cut(scan.grandparentIndex) && compact.Written() == old(compact.Written())
    ensures compact.builder != [] ==> scan.since <= compact.first
    ensures old(scan.Passed(key.user)) ==> scan.Passed(key.user)
  {
    ghost var from, since := scan.grandparentIndex, scan.since;
    var stop := scan.ShouldStopBefore(key);
    ghost var n := scan.grandparentIndex;
    if stop && compact.builder != [] {
      assert OutputOk(compact.limits, NewTable(compact.nextNumber - 1, compact.builder, compact.tableSize)) by {
        NotFullIsOk(compact);
      }
      compact.FinishCompactionOutputFile(n);
      assert TotalFileSize(scan.grandparents[since..n]) > scan.maxOverlapBytes;
    } else if compact.builder != [] {
      TotalOfParts(scan.grandparents, since, compact.first, n);
    }
  }

  /** What is being built may be finished. */
  lemma NotFullIsOk(compact: CompactionState)
    requires compact.Valid() && compact.builder != [] && LimitedOverlap(compact.limits, compact.builder, compact.first,
      compact.last)
    requires |compact.builder| > 1 ==>
      compact.tableSize(compact.builder[..|compact.builder| - 1]) < compact.limits.maxFileSize
    ensures compact.nextNumber > 0 && OutputOk(compact.limits, NewTable(compact.nextNumber - 1, compact.builder,
      compact.tableSize))
  {
  }

  /** The body of the loop. */
  method CompactEntry(scan: CompactionScan, compact: CompactionState, ghost input: seq<Entry>, ghost i: nat, e: Entry,
                      s: SequenceNumber, maxOutputFileSize: nat, currentUserKey: Option<UserKey>, lastSequence: SequenceNumber)
      returns (currentUserKey': Option<UserKey>, lastSequence': SequenceNumber)
    requires i < |input| && input[i] == e && Sorted(input) && s < MAX_SEQUENCE && SortedFrom(scan.version, scan.level + 2)
    requires AtEntry(scan, compact, input, i, s, currentUserKey, lastSequence) && compact.limits.maxFileSize == maxOutputFileSize
    modifies scan`grandparentIndex, scan`seenKey, scan`overlappedBytes, scan`since, scan.levelPtrs, compact
    ensures AtEntry(scan, compact, input, i + 1, s, currentUserKey', lastSequence')
  {
    StopBefore(scan, compact, e.key);
    var drop;
    drop, currentUserKey', lastSequence' := DecideDrop(scan, input, i, e.key, s, currentUserKey, lastSequence);
    KeptStep(input, i, s, scan.version, scan.level);
    if !drop {
      TakeEntry(scan, compact, e, maxOutputFileSize);
    }
    if i + 1 < |input| {
      assert input[i].key.Less(input[i + 1].key);
      scan.PassedLater(input[i].key.user, input[i + 1].key.user);
      BeforeLater(scan.grandparents, scan.grandparentIndex, input[i].key, input[i + 1].key);
    }
  }

  /** The part of the loop that writes an entry, and ends the output when it is full. */
  method TakeEntry(scan: CompactionScan, compact: CompactionState, e: Entry, maxOutputFileSize: nat)
    requires scan.Valid() && compact.Valid() && compact.Cut(scan.grandparentIndex) && Limited(scan, compact)
    requires scan.seenKey && PassedUpTo(scan.grandparents, scan.grandparentIndex, e.key)
    requires (compact.builder != [] ==> scan.since <= compact.first) && compact.limits.maxFileSize == maxOutputFileSize
    modifies compact
    ensures compact.Valid() && compact.Cut(scan.grandparentIndex) && compact.Written() == old(compact.Written()) + [e]
    ensures compact.builder != [] ==> scan.since <= compact.first
  {
    AddEntry(scan, compact, e);
    if compact.tableSize(compact.builder) >= maxOutputFileSize {
      NotFullIsOk(compact);
      compact.FinishCompactionOutputFile(scan.grandparentIndex);
    }
  }

  /** The entry goes to the output being built, or to a new one. */
  method AddEntry(scan: CompactionScan, compact: CompactionState, e: Entry)
    requires scan.Valid() && compact.Valid() && compact.Cut(scan.grandparentIndex) && Limited(scan, compact)
    requires PassedUpTo(scan.grandparents, scan.grandparentIndex, e.key)
    requires compact.builder != [] ==> scan.since <= compact.first
    modifies compact
    ensures compact.Valid() && compact.Written() == old(compact.Written()) + [e] && compact.builder != []
    ensures compact.outputs == old(compact.outputs) && compact.ends == old(compact.ends)
    ensures CutSoFar(compact.limits, compact.outputs, compact.ends, compact.builder[0].key)
    ensures |compact.builder| > 1 ==>
      compact.tableSize(compact.builder[..|compact.builder| - 1]) < compact.limits.maxFileSize
    ensures compact.last == scan.grandparentIndex && scan.since <= compact.first
    ensures LimitedOverlap(compact.limits, compact.builder, compact.first, compact.last)
  {
    ghost var n := scan.grandparentIndex;
    if compact.builder == [] {
      FirstOfOutput(compact.limits, compact.outputs, compact.ends, n, e);
      compact.first := n;
    } else {
      MoreOfOutput(compact.limits, compact.builder, compact.first, compact.last, n, e);
    }
    compact.last := n;
    ghost var before := compact.builder;
    compact.Add(e);
    assert compact.builder[..|compact.builder| - 1] == before;
  }

  lemma FirstOfOutput(c: Limits, outputs: seq<File>, ends: seq<nat>, n: nat, e: Entry)
    requires WellCut(c, outputs, ends) && PassedUpTo(c.grandparents, n, e.key)
    requires outputs != [] ==> CutRightly(c, outputs[|outputs| - 1], ends[|outputs| - 1]) && ends[|outputs| - 1] <= n
    ensures CutSoFar(c, outputs, ends, e.key) && LimitedOverlap(c, [e], n, n)
  {
    assert c.grandparents[n..n] == [];
  }

  lemma MoreOfOutput(c: Limits, es: seq<Entry>, i: nat, j: nat, n: nat, e: Entry)
    requires es != [] && LimitedOverlap(c, es, i, j) && j <= n && PassedUpTo(c.grandparents, n, e.key)
    requires TotalFileSize(c.grandparents[i..n]) <= c.maxOverlapBytes
    ensures LimitedOverlap(c, es + [e], i, n)
  {
  }

  /**
   * DBImpl::DoCompactionWork: runs over the merged entries of the input files. File sizes come from
   * `tableSize`; where the output is cut does not affect what is kept.
   */
  method DoCompactionWork(scan: CompactionScan, input: Merger.MergingIterator, smallestSnapshot: SequenceNumber,
                          compact: CompactionState, maxOutputFileSize: nat)
    requires (input as object) !in {scan as object, scan.levelPtrs, compact}
    requires input.Consistent()
    requires scan.Valid() && (forall u :: scan.Passed(u)) && SortedFrom(scan.version, scan.level + 2)
    requires scan.grandparentIndex == 0 && Limited(scan, compact) && compact.limits.maxFileSize == maxOutputFileSize
    requires compact.Valid() && compact.Written() == [] && compact.builder == [] && compact.Cut(0)
    requires smallestSnapshot < MAX_SEQUENCE
    modifies input, scan, scan.levelPtrs, compact
    ensures compact.Valid() && compact.builder == []
    ensures Flatten(compact.outputs)
         == KeptSeq(input.merged, |input.merged|, smallestSnapshot, scan.version, scan.level)
    ensures WellCut(compact.limits, compact.outputs, compact.ends)
  {
    input.SeekToFirst();
    var currentUserKey: Option<UserKey> := None;
    var lastSequenceForKey: SequenceNumber := MAX_SEQUENCE;
    while input.Valid()
      invariant input.Consistent()
      invariant AtEntry(scan, compact, input.merged, input.at, smallestSnapshot, currentUserKey, lastSequenceForKey)
      decreases |input.merged| - input.at
    {
      currentUserKey, lastSequenceForKey :=
        CompactNext(scan, compact, input, smallestSnapshot, maxOutputFileSize, currentUserKey, lastSequenceForKey);
    }
    if compact.builder != [] {
      NotFullIsOk(compact);
      compact.FinishCompactionOutputFile(scan.grandparentIndex);
    }
  }

  /** One round of the loop: the entry the input stands at, then the next one. */
  method CompactNext(scan: CompactionScan, compact: CompactionState, input: Merger.MergingIterator, s: SequenceNumber,
                     maxOutputFileSize: nat, currentUserKey: Option<UserKey>, lastSequence: SequenceNumber)
      returns (currentUserKey': Option<UserKey>, lastSequence': SequenceNumber)
    requires (input as object) !in {scan as object, scan.levelPtrs, compact}
    requires input.Consistent() && input.Valid() && s < MAX_SEQUENCE && SortedFrom(scan.version, scan.level + 2)
    requires AtEntry(scan, compact, input.merged, input.at, s, currentUserKey, lastSequence)
    requires compact.limits.maxFileSize == maxOutputFileSize
    modifies input, scan`grandparentIndex, scan`seenKey, scan`overlappedBytes, scan`since, scan.levelPtrs, compact
    ensures input.Consistent() && input.at == old(input.at) + 1
    ensures AtEntry(scan, compact, input.merged, input.at, s, currentUserKey', lastSequence')
  {
    currentUserKey', lastSequence' := CompactEntry(scan, compact, input.merged, input.at, input.Current(), s,
      maxOutputFileSize, currentUserKey, lastSequence);
    input.Next();
  }
}
