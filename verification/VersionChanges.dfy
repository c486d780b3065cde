/** The three ways a version changes: a compaction run from its inputs, a trivial move, and a memtable flush. */
module VersionChanges {
  import opened DbFormat
  import opened Versions
  import opened InputSelection
  import opened VersionBuilder
  import opened Compaction
  import opened CompactionInstall
  import opened CompactionReads
  import Merger

  // The merged input

  function Inserted(es: seq<Entry>, e: Entry): seq<Entry> {
    var i := SeekIndex(es, e.key);
    es[..i] + [e] + es[i..]
  }

  lemma InsertedIsSorted(es: seq<Entry>, e: Entry)
    requires Sorted(es) && forall x :: x in es ==> x.key != e.key
    ensures Sorted(Inserted(es, e)) && Elements(Inserted(es, e)) == Elements(es) + {e}
  {
    var i := SeekIndex(es, e.key);
    forall j | i <= j < |es|
      ensures e.key.Less(es[j].key)
    {
      assert i == j || es[i].key.Less(es[j].key);
      NotLessIsGreater(es, j, e.key);
    }
    InsertedSorted(es, i, e, Inserted(es, e));
  }

  lemma NotLessIsGreater(es: seq<Entry>, j: nat, key: InternalKey)
    requires j < |es| && !es[j].key.Less(key) && forall x :: x in es ==> x.key != key
    ensures key.Less(es[j].key)
  {
    assert es[j] in es;
    if es[j].key.user == key.user && es[j].key.Tag() == key.Tag() { TagDeterminesKey(es[j].key, key); }
  }

  lemma InsertedSorted(es: seq<Entry>, i: nat, e: Entry, r: seq<Entry>)
    requires Sorted(es) && i <= |es| && r == es[..i] + [e] + es[i..]
    requires forall j :: 0 <= j < i ==> es[j].key.Less(e.key)
    requires forall j :: i <= j < |es| ==> e.key.Less(es[j].key)
    ensures Sorted(r) && Elements(r) == Elements(es) + {e}
  {
    assert es == es[..i] + es[i..];
    forall a, b | 0 <= a < b < |r|
      ensures r[a].key.Less(r[b].key)
    {
      assert r[a] == if a < i then es[a] else if a == i then e else es[a - 1];
      assert r[b] == if b < i then es[b] else if b == i then e else es[b - 1];
    }
  }

  /** Entries with distinct keys can be listed in order. */
  lemma SortEntries(es: set<Entry>) returns (r: seq<Entry>)
    requires UniqueKeys(es)
    ensures Sorted(r) && Elements(r) == es
  {
    r := [];
    var rest := es;
    while rest != {}
      invariant rest <= es && Sorted(r) && Elements(r) == es - rest
      decreases rest
    {
      var e :| e in rest;
      forall x | x in r ensures x.key != e.key { assert x in Elements(r); }
      InsertedIsSorted(r, e);
      r := Inserted(r, e);
      rest := rest - {e};
    }
  }

  lemma {:induction false} FlattenRun(files: seq<File>)
    requires Disjoint(files) && forall f :: f in files ==> f.Valid()
    ensures Sorted(Flatten(files)) && Elements(Flatten(files)) == LevelEntries(files)
  {
    if files != [] {
      var init, last := files[..|files| - 1], files[|files| - 1];
      assert last in files && forall f :: f in init ==> f in files;
      FlattenRun(init);
      assert files == init + [last];
      LevelEntriesAppend(init, last);
      var a, b := Flatten(init), last.entries;
      assert Elements(a + b) == Elements(a) + Elements(b);
      forall i | 0 <= i < |init| ensures init[i].largest.Less(last.smallest) {}
      forall e, x | e in a && x in b
        ensures e.key.Less(x.key)
      {
        assert e in Elements(a);
        BeforeNext(init, last, e, x);
      }
      ConcatSorted(a, b);
    }
  }

  lemma BeforeNext(init: seq<File>, last: File, e: Entry, x: Entry)
    requires last.Valid() && (forall f :: f in init ==> f.Valid())
    requires forall i :: 0 <= i < |init| ==> init[i].largest.Less(last.smallest)
    requires e in LevelEntries(init) && x in last.entries
    ensures e.key.Less(x.key)
  {
    var f :| f in init && e in f.entries;
    FileBounds(f, e);
    FileBounds(last, x);
  }

  lemma ConcatSorted(a: seq<Entry>, b: seq<Entry>)
    requires Sorted(a) && Sorted(b) && forall e, x :: e in a && x in b ==> e.key.Less(x.key)
    ensures Sorted(a + b)
  {
  }

  /** One child per file at level 0, one for the run of files elsewhere. */
  function InputChildren(level: nat, inputs0: seq<File>, inputs1: seq<File>): seq<seq<Entry>> {
    (if level == 0 then seq(|inputs0|, i requires 0 <= i < |inputs0| => inputs0[i].entries) else [Flatten(inputs0)])
    + (if inputs1 != [] then [Flatten(inputs1)] else [])
  }

  lemma InputsValid(v: Version, level: nat, inputs0: seq<File>, inputs1: seq<File>)
    requires LevelInvariant(v) && ChosenInputs(v, level, inputs0, inputs1)
    ensures (forall f :: f in inputs0 ==> f in v[level] && f.Valid())
      && (forall f :: f in inputs1 ==> f in v[level + 1] && f.Valid())
    ensures Disjoint(inputs1) && (level > 0 ==> Disjoint(inputs0))
  {
    InputsInLevel(v, level, inputs0, inputs1);
    assert LevelOk(v[level], level) && LevelOk(v[level + 1], level + 1);
    forall f | f in inputs0 ensures f in v[level] { assert f in Elements(inputs0); }
    forall f | f in inputs1 ensures f in v[level + 1] { assert f in Elements(inputs1); }
    var lo, hi :| Reaches(inputs0, lo, hi) && inputs1 == Overlapping(v[level + 1], KeyRange(Some(lo), Some(hi)));
    OverlappingKeepsOrder(v[level + 1], KeyRange(Some(lo), Some(hi)));
  }

  /** Each child is sorted and holds input entries of one level; two children share no key. */
  lemma ChildOf(v: Version, level: nat, inputs0: seq<File>, inputs1: seq<File>, i: nat)
    requires LevelInvariant(v) && ChosenInputs(v, level, inputs0, inputs1)
    requires i < |InputChildren(level, inputs0, inputs1)|
    ensures var c := InputChildren(level, inputs0, inputs1)[i];
      && Sorted(c)
      && (if level == 0 && i < |inputs0| then c == inputs0[i].entries
          else if level > 0 && i == 0 then Elements(c) == LevelEntries(inputs0)
          else inputs1 != [] && i == |InputChildren(level, inputs0, inputs1)| - 1 && Elements(c) == LevelEntries(inputs1))
  {
    InputsValid(v, level, inputs0, inputs1);
    FlattenRun(inputs1);
    if level > 0 {
      FlattenRun(inputs0);
    } else if i < |inputs0| {
      assert inputs0[i] in inputs0;
    }
  }

  lemma ChildrenShareNoKey(v: Version, level: nat, inputs0: seq<File>, inputs1: seq<File>, i: nat, j: nat)
    requires LevelInvariant(v) && ChosenInputs(v, level, inputs0, inputs1)
    requires i < j < |InputChildren(level, inputs0, inputs1)|
    ensures var cs := InputChildren(level, inputs0, inputs1); Merger.NoCommonKey(cs[i], cs[j]) && Merger.NoCommonKey(cs[j], cs[i])
  {
    var cs := InputChildren(level, inputs0, inputs1);
    ChildOf(v, level, inputs0, inputs1, i);
    ChildOf(v, level, inputs0, inputs1, j);
    InputsValid(v, level, inputs0, inputs1);
    InputEntriesIn(v, level, inputs0, inputs1);
    assert LevelOk(v[level], level) && LevelsNewer(v, level, level + 1);
    forall e: Entry, x: Entry | e in cs[i] && x in cs[j]
      ensures e.key != x.key
    {
      if level == 0 && j < |inputs0| {
        assert inputs0[i] in inputs0 && inputs0[j] in inputs0;
        KeyInOneFile(v[0], 0, inputs0[i], inputs0[j], e, x);
      } else {
        assert x in Elements(cs[j]) && e in Elements(cs[i]);
        if level == 0 { assert inputs0[i] in inputs0; }
        assert e in LevelEntries(v[level]) && x in LevelEntries(v[level + 1]);
      }
    }
  }

  lemma ChildrenHoldInputs(v: Version, level: nat, inputs0: seq<File>, inputs1: seq<File>, e: Entry)
    requires LevelInvariant(v) && ChosenInputs(v, level, inputs0, inputs1)
    ensures e in InputEntries(inputs0, inputs1) <==> Merger.InSome(InputChildren(level, inputs0, inputs1), e)
  {
    var cs := InputChildren(level, inputs0, inputs1);
    forall i | 0 <= i < |cs| && e in cs[i]
      ensures e in InputEntries(inputs0, inputs1)
    {
      ChildOf(v, level, inputs0, inputs1, i);
      assert e in Elements(cs[i]);
      if level == 0 && i < |inputs0| { assert inputs0[i] in inputs0; }
    }
    if e in LevelEntries(inputs0) {
      var f :| f in inputs0 && e in f.entries;
      var k :| 0 <= k < |inputs0| && inputs0[k] == f;
      ChildOf(v, level, inputs0, inputs1, if level == 0 then k else 0);
      assert level > 0 ==> e in Elements(cs[0]);
      assert e in cs[if level == 0 then k else 0];
    } else if e in LevelEntries(inputs1) {
      ChildOf(v, level, inputs0, inputs1, |cs| - 1);
      assert e in Elements(cs[|cs| - 1]);
      assert e in cs[|cs| - 1];
    }
  }

  /** VersionSet::MakeInputIterator: the merged entries of all input files. */
  method MakeInputIterator(v: Version, level: nat, inputs0: seq<File>, inputs1: seq<File>)
      returns (input: Merger.MergingIterator)
    requires LevelInvariant(v) && ChosenInputs(v, level, inputs0, inputs1)
    ensures fresh(input) && input.Consistent()
    ensures Sorted(input.merged) && Elements(input.merged) == InputEntries(inputs0, inputs1)
  {
    var children := InputChildren(level, inputs0, inputs1);
    VersionUnique(v);
    InputsAreThere(v, level, inputs0, inputs1);
    ghost var merged := SortEntries(InputEntries(inputs0, inputs1));
    forall e
      ensures e in merged <==> Merger.InSome(children, e)
    {
      assert e in merged <==> e in Elements(merged);
      ChildrenHoldInputs(v, level, inputs0, inputs1, e);
    }
    forall i | 0 <= i < |children|
      ensures Merger.Part(children[i], merged)
    {
      ChildOf(v, level, inputs0, inputs1, i);
      forall e | e in children[i] ensures e in merged { assert Merger.InSome(children, e); }
    }
    forall i, j | 0 <= i < |children| && 0 <= j < |children| && i != j
      ensures Merger.NoCommonKey(children[i], children[j])
    {
      ChildrenShareNoKey(v, level, inputs0, inputs1, if i < j then i else j, if i < j then j else i);
    }
    input := new Merger.MergingIterator(children, merged);
  }

  // A whole compaction

  lemma {:induction false} OutputsAreGood(v: Version, level: nat, inputs0: seq<File>, inputs1: seq<File>,
      input: seq<Entry>, s: SequenceNumber,
                       firstNumber: nat, outputs: seq<File>)
    requires LevelInvariant(v) && ChosenInputs(v, level, inputs0, inputs1)
    requires Sorted(input) && Elements(input) == InputEntries(inputs0, inputs1)
    requires Flatten(outputs) == KeptSeq(input, |input|, s, v, level)
    requires forall f :: f in outputs ==> Ends(f)
    requires forall i :: 0 <= i < |outputs| ==> outputs[i].number == firstNumber + i
    requires forall f :: f in v[level + 1] ==> f.number < firstNumber
    ensures GoodOutputs(v, level, inputs0, inputs1, outputs)
    ensures KeptOutputs(v, level, inputs0, inputs1, s, outputs)
  {
    KeptSeqIs(input, |input|, s, v, level);
    assert input[..|input|] == input;
    SplitRun(outputs);
    forall e
      ensures e in LevelEntries(outputs) <==> Kept(InputEntries(inputs0, inputs1), s, v, level, e)
    {
      assert e in LevelEntries(outputs) <==> e in Flatten(outputs);
      assert e in input <==> e in Elements(input);
    }
  }

  /** What limits the outputs of a compaction. */
  function OutputLimits(grandparents: seq<File>, tableSize: seq<Entry> -> nat, targetFileSize: nat): Limits {
    Limits(grandparents, MaxGrandParentOverlapBytes(targetFileSize), tableSize, targetFileSize)
  }

  /**
   * DoCompactionWork and InstallCompactionResults on chosen inputs. The new version keeps the level
   * invariant; readers at or after `s` are unaffected exactly when nothing is resurrected.
   */
  method RunCompaction(v: Version, level: nat, inputs0: seq<File>, inputs1: seq<File>, grandparents: seq<File>,
                       s: SequenceNumber, firstNumber: nat, tableSize: seq<Entry> -> nat, targetFileSize: nat)
      returns (outputs: seq<File>, v2: Version, nextNumber: nat, ghost ends: seq<nat>)
    requires LevelInvariant(v) && ChosenInputs(v, level, inputs0, inputs1) && s < MAX_SEQUENCE
    requires forall f :: f in v[level + 1] ==> f.number < firstNumber
    ensures IsCompaction(v, level, inputs0, inputs1, s, outputs, v2)
    ensures LevelInvariant(v2)
    ensures ReadsPreserved(v, v2, s) <==> !Resurrects(v, level, inputs0, inputs1, s)
    ensures WellCut(OutputLimits(grandparents, tableSize, targetFileSize), outputs, ends)
    ensures nextNumber == firstNumber + |outputs| && forall f :: f in outputs ==> firstNumber <= f.number < nextNumber
  {
    var input := MakeInputIterator(v, level, inputs0, inputs1);
    var scan := new CompactionScan(v, level, grandparents, MaxGrandParentOverlapBytes(targetFileSize));
    var compact := new CompactionState(firstNumber, tableSize, OutputLimits(grandparents, tableSize, targetFileSize));
    forall l | level + 2 <= l < NUM_LEVELS ensures LevelOk(v[l], l) {}
    DoCompactionWork(scan, input, s, compact, targetFileSize);
    outputs, nextNumber, ends := compact.outputs, compact.nextNumber, compact.ends;
    OutputsAreGood(v, level, inputs0, inputs1, input.merged, s, firstNumber, outputs);
    CompactionInstalls(v, level, inputs0, inputs1, outputs);
    v2 := LogAndApply(v, CompactionEdit(level, inputs0, inputs1, outputs));
    CompactionKeepsInvariant(v, level, inputs0, inputs1, outputs, v2);
    ReadsPreservedIff(v, level, inputs0, inputs1, s, outputs, v2);
  }

  // Trivial moves

  /** No file number is in two levels. */
  ghost predicate NumbersInOneLevel(v: Version) {
    forall l, k {:trigger Numbers(Elements(v[l])), Numbers(Elements(v[k]))} ::
      0 <= l < NUM_LEVELS && 0 <= k < NUM_LEVELS && l != k ==> Numbers(Elements(v[l])) !! Numbers(Elements(v[k]))
  }

  /** Compaction::IsTrivialMove and the edit of BackgroundCompaction: the file goes one level down as it is. */
  method TrivialMove(v: Version, level: nat, f: File) returns (v2: Version)
    requires LevelInvariant(v) && NumbersInOneLevel(v) && ChosenInputs(v, level, [f], [])
    ensures CompactedTo(v, level, [f], [], [f], v2)
    ensures LevelInvariant(v2) && VersionEntries(v2) == VersionEntries(v)
  {
    MovedFileIsGood(v, level, f);
    CompactionInstalls(v, level, [f], [], [f]);
    v2 := LogAndApply(v, CompactionEdit(level, [f], [], [f]));
    CompactionKeepsInvariant(v, level, [f], [], [f], v2);
    MoveKeepsEntries(v, level, f, v2);
  }

  lemma MovedFileIsGood(v: Version, level: nat, f: File)
    requires LevelInvariant(v) && NumbersInOneLevel(v) && ChosenInputs(v, level, [f], [])
    ensures GoodOutputs(v, level, [f], [], [f])
  {
    assert f in [f];
    assert LevelOk(v[level], level) && f in v[level] && f.Valid();
    forall g | g in [f] ensures g.number in Numbers(Elements(v[level])) {}
    assert Numbers(Elements(v[level])) !! Numbers(Elements(v[level + 1]));
  }

  lemma MoveKeepsEntries(v: Version, level: nat, f: File, v2: Version)
    requires ChosenInputs(v, level, [f], []) && CompactedTo(v, level, [f], [], [f], v2)
    ensures VersionEntries(v2) == VersionEntries(v)
  {
    CompactedEntries(v, level, [f], [], [f], v2);
    InputEntriesIn(v, level, [f], []);
    RestEntries(v[level], [f]);
    RestEntries(v[level + 1], []);
    forall e | e in VersionEntries(v2) ensures e in VersionEntries(v) {
      var l, g := EntryLevel(v2, e);
      assert e in LevelEntries(v[l]) || e in LevelEntries([f]);
    }
    forall e | e in VersionEntries(v) ensures e in VersionEntries(v2) {
      var l, g := EntryLevel(v, e);
      if e in LevelEntries([f]) {
        assert e in LevelEntries(v2[level + 1]);
      } else {
        OtherStays(v, level, [f], [], e, l, g);
        assert e in LevelEntries(v2[l]);
      }
    }
  }

  // Flushes

  ghost predicate FlushedTo(v: Version, level: nat, f: File, v2: Version)
    requires level < NUM_LEVELS
  {
    && (forall l :: 0 <= l < NUM_LEVELS ==> Ordered(v2[l]))
    && (forall l :: 0 <= l < NUM_LEVELS ==> Elements(v2[l]) == Elements(v[l]) + (if l == level then {f} else {}))
  }

  /** `f` may be added at `level`: it is newer than all, new by number, and overlaps nothing down to that level. */
  ghost predicate Flushable(v: Version, level: nat, f: File)
  {
    && level < NUM_LEVELS && f.Valid()
    && Newer(Elements(f.entries), VersionEntries(v))
    && (forall l, g :: 0 <= l < NUM_LEVELS && g in v[l] ==> g.number < f.number)
    && (level > 0 ==> forall l, g :: 0 <= l <= level && g in v[l] ==> !g.Overlaps(Some(f.smallest.user), Some(f.largest.user)))
  }

  lemma FlushCompatible(v: Version, level: nat, f: File)
    requires LevelInvariant(v) && Flushable(v, level, f)
    ensures Compatible(Elements(v[level]) + {f}, level)
  {
    assert LevelOk(v[level], level);
    LevelIsCompatible(v[level], level);
    if level > 0 {
      FileEnds(f);
      forall g | g in v[level]
        ensures f.largest.Less(g.smallest) || g.largest.Less(f.smallest)
      {
        FileEnds(g);
        assert !g.Overlaps(Some(f.smallest.user), Some(f.largest.user));
      }
    }
  }

  lemma FlushKeepsInvariant(v: Version, level: nat, f: File, v2: Version)
    requires LevelInvariant(v) && Flushable(v, level, f) && FlushedTo(v, level, f, v2)
    ensures LevelInvariant(v2)
    ensures VersionEntries(v2) == VersionEntries(v) + Elements(f.entries)
  {
    FlushedEntries(v, level, f, v2);
    forall l | 0 <= l < NUM_LEVELS
      ensures LevelOk(v2[l], l)
    {
      assert LevelOk(v[l], l);
      if l == level {
        FlushCompatible(v, level, f);
        if level == 0 { FlushAtZero(v, f, v2); }
        OrderedCompatibleIsOk(v2[l], l);
      } else {
        OrderedUnique(v2[l], v[l]);
      }
    }
    forall i, j | 0 <= i < j < NUM_LEVELS
      ensures LevelsNewer(v2, i, j)
    {
      FlushedPair(v, level, f, v2, i, j);
    }
  }

  lemma FlushedPair(v: Version, level: nat, f: File, v2: Version, i: nat, j: nat)
    requires LevelInvariant(v) && Flushable(v, level, f) && FlushedTo(v, level, f, v2) && i < j < NUM_LEVELS
    ensures LevelsNewer(v2, i, j)
  {
    FlushedEntries(v, level, f, v2);
    assert LevelsNewer(v, i, j);
    if i == level {
      NewerParts(Elements(f.entries), VersionEntries(v), Elements(f.entries), LevelEntries(v[j]));
      UnionNewer(LevelEntries(v[i]), Elements(f.entries), LevelEntries(v[j]));
    } else if j == level {
      FlushNoShared(v, level, f, i);
      NewerUnion(LevelEntries(v[i]), LevelEntries(v[j]), Elements(f.entries));
    }
  }

  lemma FlushedEntries(v: Version, level: nat, f: File, v2: Version)
    requires level < NUM_LEVELS && FlushedTo(v, level, f, v2)
    ensures forall l :: 0 <= l < NUM_LEVELS ==>
      LevelEntries(v2[l]) == LevelEntries(v[l]) + (if l == level then Elements(f.entries) else {})
    ensures VersionEntries(v2) == VersionEntries(v) + Elements(f.entries)
  {
    forall l | 0 <= l < NUM_LEVELS
      ensures LevelEntries(v2[l]) == LevelEntries(v[l]) + (if l == level then Elements(f.entries) else {})
    {
      LevelEntriesOf(v2[l]);
      LevelEntriesOf(v[l]);
      assert EntriesOf(Elements(v[l]) + {f}) == EntriesOf(Elements(v[l])) + Elements(f.entries);
    }
    forall e | e in Elements(f.entries) ensures e in VersionEntries(v2) { assert e in LevelEntries(v2[level]); }
  }

  lemma FlushAtZero(v: Version, f: File, v2: Version)
    requires LevelOk(v[0], 0) && Flushable(v, 0, f) && FlushedTo(v, 0, f, v2)
    ensures NewerFilesNewer(v2[0])
  {
    forall g, h | g in v2[0] && h in v2[0] && g.number > h.number
      ensures HoldsNewer(g, h)
    {
      assert g in Elements(v2[0]) && h in Elements(v2[0]);
      if g == f {
        assert h in v[0];
        assert forall e :: e in h.entries ==> e in LevelEntries(v[0]);
      }
    }
  }

  /** Levels above the one the file goes to hold none of its user keys. */
  lemma FlushNoShared(v: Version, level: nat, f: File, i: nat)
    requires LevelInvariant(v) && Flushable(v, level, f) && i < level
    ensures Newer(LevelEntries(v[i]), Elements(f.entries))
  {
    assert LevelOk(v[i], i);
    forall e, x | e in LevelEntries(v[i]) && x in Elements(f.entries)
      ensures e.key.user != x.key.user
    {
      var g :| g in v[i] && e in g.entries;
      FileBounds(g, e);
      FileBounds(f, x);
      assert !g.Overlaps(Some(f.smallest.user), Some(f.largest.user));
    }
  }

  /** WriteLevel0Table and CompactMemTable, for the table `f` built from the immutable memtable. */
  method Flush(v: Version, f: File, targetFileSize: nat) returns (level: nat, v2: Version)
    requires LevelInvariant(v) && f.Valid()
    requires Newer(Elements(f.entries), VersionEntries(v))
    requires forall l, g :: 0 <= l < NUM_LEVELS && g in v[l] ==> g.number < f.number
    ensures level <= MAX_MEM_COMPACT_LEVEL && Flushable(v, level, f) && FlushedTo(v, level, f, v2)
    ensures LevelInvariant(v2) && VersionEntries(v2) == VersionEntries(v) + Elements(f.entries)
  {
    level := PickLevelForMemTableOutput(v, f.smallest.user, f.largest.user, targetFileSize);
    var edit := VersionEdit({}, [(level, f)]);
    FlushCompatible(v, level, f);
    forall l | 0 <= l < NUM_LEVELS
      ensures DeletedAt(edit, l) == {} && AddedAt(edit, l) == if l == level then {f} else {}
      ensures LevelAfter(v, edit, l) == Elements(v[l]) + (if l == level then {f} else {})
      ensures Ordered(v[l]) && Numbers(Elements(v[l])) !! Numbers(AddedAt(edit, l)) && NumbersIdentify(AddedAt(edit, l))
      ensures Compatible(LevelAfter(v, edit, l), l)
    {
      assert edit.newFiles[0] in edit.newFiles;
      assert LevelOk(v[l], l);
      LevelIsCompatible(v[l], l);
    }
    v2 := LogAndApply(v, edit);
    FlushKeepsInvariant(v, level, f, v2);
  }
}
