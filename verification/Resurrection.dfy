/**
 * That compactions can bring a deleted value back is no idle worry: a run of the store in which one does. A
 * snapshot makes a compaction keep a deletion and the value it hides, and the deletion ends one file and the
 * value starts the next. With the snapshot gone, a later compaction takes the first file only.
 */
module Resurrection {
  import opened DbFormat
  import opened Versions
  import opened VersionGet
  import opened InputSelection
  import opened VersionBuilder
  import opened Compaction
  import opened CompactionInstall
  import opened CompactionReads
  import opened VersionChanges
  import opened Database

  const PUT_ONE := Entry(InternalKey(1.0, 1, Value), [])
  const PUT_TWO := Entry(InternalKey(2.0, 2, Value), [7])
  const DELETE_TWO := Entry(InternalKey(2.0, 3, Deletion), [])
  const PUT_ONE_AGAIN := Entry(InternalKey(1.0, 4, Value), [])

  const FLUSHED := File(3, 0, PUT_ONE.key, PUT_TWO.key, [PUT_ONE, DELETE_TWO, PUT_TWO])
  const LEFT := File(4, 0, PUT_ONE.key, DELETE_TWO.key, [PUT_ONE, DELETE_TWO])
  const RIGHT := File(5, 0, PUT_TWO.key, PUT_TWO.key, [PUT_TWO])
  const ABOVE := File(7, 0, PUT_ONE_AGAIN.key, PUT_ONE_AGAIN.key, [PUT_ONE_AGAIN])
  const OUTPUT := File(8, 0, PUT_ONE_AGAIN.key, PUT_ONE_AGAIN.key, [PUT_ONE_AGAIN])

  const FIRST_WRITES: seq<Operation> := [(1.0, Some([])), (2.0, Some([7]))]
  const DELETION: seq<Operation> := [(2.0, None)]
  const LAST_WRITE: seq<Operation> := [(1.0, Some([]))]

  /** A version with files at levels 2 and 3. */
  function At(l2: seq<File>, l3: seq<File>): Version {
    [[], [], l2, l3, [], [], []]
  }

  // The states of the run

  function Written(): Store {
    Store([PUT_ONE, PUT_TWO], None, EmptyVersion(), 2, [], 2, FIRST_WRITES, {PUT_ONE, PUT_TWO})
  }

  function WithSnapshot(): Store {
    Written().(snapshots := [2])
  }

  function Deleted(): Store {
    Store([PUT_ONE, DELETE_TWO, PUT_TWO], None, EmptyVersion(), 3, [2], 2, FIRST_WRITES + DELETION,
          {PUT_ONE, PUT_TWO, DELETE_TWO})
  }

  function Switched(): Store {
    Deleted().(mem := [], imm := Some([PUT_ONE, DELETE_TWO, PUT_TWO]), nextFileNumber := 3)
  }

  function AfterFlush(): Store {
    Switched().(imm := None, version := At([FLUSHED], []), nextFileNumber := 4)
  }

  /** A compaction of level 2 cuts its output between the deletion and the value. */
  function Cut(): Store {
    AfterFlush().(version := At([], [LEFT, RIGHT]), nextFileNumber := 6)
  }

  function Released(): Store {
    Cut().(snapshots := [])
  }

  function WrittenAgain(): Store {
    Released().(mem := [PUT_ONE_AGAIN], lastSequence := 4, history := FIRST_WRITES + DELETION + LAST_WRITE,
                written := {PUT_ONE, PUT_TWO, DELETE_TWO, PUT_ONE_AGAIN})
  }

  function SwitchedAgain(): Store {
    WrittenAgain().(mem := [], imm := Some([PUT_ONE_AGAIN]), nextFileNumber := 7)
  }

  function Before(): Store {
    SwitchedAgain().(imm := None, version := At([ABOVE], [LEFT, RIGHT]), nextFileNumber := 8)
  }

  function After(): Store {
    Before().(version := At([], [OUTPUT, RIGHT]), nextFileNumber := 9)
  }

  // Each step is one of the store's

  lemma FirstWrite()
    ensures WriteStep(Initial(), Written(), FIRST_WRITES)
  {
    assert BatchEntries(FIRST_WRITES, 1) == [PUT_ONE, PUT_TWO];
  }

  lemma Deletes()
    ensures WriteStep(WithSnapshot(), Deleted(), DELETION)
  {
    assert BatchEntries(DELETION, 3) == [DELETE_TWO];
  }

  lemma LastWrite()
    ensures WriteStep(Released(), WrittenAgain(), LAST_WRITE)
  {
    assert BatchEntries(LAST_WRITE, 4) == [PUT_ONE_AGAIN];
  }

  lemma FilesOf(l2: seq<File>, l3: seq<File>)
    ensures VersionEntries(At(l2, l3)) == LevelEntries(l2) + LevelEntries(l3)
  {
    var v := At(l2, l3);
    assert v[2] == l2 && v[3] == l3;
    assert forall l :: 0 <= l < NUM_LEVELS && l != 2 && l != 3 ==> LevelEntries(v[l]) == {};
  }

  lemma OneFile(f: File)
    ensures LevelEntries([f]) == Elements(f.entries)
  {
    LevelEntriesAppend([], f);
    assert [] + [f] == [f];
  }

  lemma TwoFiles(f: File, g: File)
    ensures LevelEntries([f, g]) == Elements(f.entries) + Elements(g.entries)
  {
    OneFile(f);
    LevelEntriesAppend([f], g);
    assert [f] + [g] == [f, g];
  }

  lemma FirstFlush()
    ensures FlushStep(Switched(), AfterFlush(), 2, FLUSHED)
  {
    assert FLUSHED.Valid();
    assert forall l :: 0 <= l < NUM_LEVELS ==> LevelEntries(EmptyVersion()[l]) == {};
    assert VersionEntries(EmptyVersion()) == {};
  }

  lemma SecondFlush()
    ensures FlushStep(SwitchedAgain(), Before(), 2, ABOVE)
  {
    AboveIsNewer();
    AboveIsAdded();
  }

  lemma AboveIsNewer()
    ensures Flushable(At([], [LEFT, RIGHT]), 2, ABOVE)
  {
    FilesOf([], [LEFT, RIGHT]);
    TwoFiles(LEFT, RIGHT);
    assert LevelEntries([]) == {};
    assert Newer(Elements(ABOVE.entries), VersionEntries(At([], [LEFT, RIGHT])));
  }

  lemma AboveIsAdded()
    ensures FlushedTo(At([], [LEFT, RIGHT]), 2, ABOVE, At([ABOVE], [LEFT, RIGHT]))
  {
    assert Ordered([LEFT, RIGHT]) && Ordered([ABOVE]);
    assert Elements([ABOVE]) == Elements([]) + {ABOVE};
    assert At([], [LEFT, RIGHT])[2] == [];
  }

  function FirstCompaction(): Compacted {
    Compacted(2, [FLUSHED], [], 2, [LEFT, RIGHT])
  }

  lemma FirstIsChosen()
    ensures ChosenInputs(At([FLUSHED], []), 2, [FLUSHED], [])
  {
    var v := At([FLUSHED], []);
    assert v[2] == [FLUSHED] && v[3] == [];
    assert FLUSHED in [FLUSHED];
    assert Reaches([FLUSHED], 1.0, 2.0);
    assert Overlapping([], KeyRange(Some(1.0), Some(2.0))) == [];
    assert Selects([FLUSHED], v[3], []);
  }

  /** At the horizon of the snapshot, all three entries are kept. */
  lemma FirstKeepsAll()
    ensures KeptOutputs(At([FLUSHED], []), 2, [FLUSHED], [], 2, [LEFT, RIGHT])
  {
    FirstEntries();
    var es := InputEntries([FLUSHED], []);
    assert IsNewest(es, 1.0, 2, PUT_ONE) && IsNewest(es, 2.0, 2, PUT_TWO);
  }

  lemma FirstEntries()
    ensures InputEntries([FLUSHED], []) == LevelEntries([LEFT, RIGHT]) == {PUT_ONE, DELETE_TWO, PUT_TWO}
  {
    OneFile(FLUSHED);
    TwoFiles(LEFT, RIGHT);
    assert LevelEntries([]) == {};
  }

  lemma FirstIsGood()
    ensures GoodOutputs(At([FLUSHED], []), 2, [FLUSHED], [], [LEFT, RIGHT])
  {
    FirstEntries();
    assert LEFT.Valid() && RIGHT.Valid();
  }

  lemma FirstInstalls()
    ensures CompactedTo(At([FLUSHED], []), 2, [FLUSHED], [], [LEFT, RIGHT], At([], [LEFT, RIGHT]))
  {
    var v, v2 := At([FLUSHED], []), At([], [LEFT, RIGHT]);
    assert v[2] == [FLUSHED] && v[3] == [] && v2[2] == [] && v2[3] == [LEFT, RIGHT];
    assert Ordered([LEFT, RIGHT]);
  }

  lemma FirstCompacts()
    requires LevelInvariant(At([FLUSHED], []))
    ensures SafeCompactStep(AfterFlush(), Cut(), FirstCompaction())
  {
    ClosedNextLevel(At([FLUSHED], []), 2, [FLUSHED], [], FirstCompaction().smallest);
    FirstIsChosen();
    FirstKeepsAll();
    FirstIsGood();
    FirstInstalls();
  }

  function SecondCompaction(): Compacted {
    Compacted(2, [ABOVE], [LEFT], 4, [OUTPUT])
  }

  lemma SecondIsChosen()
    ensures ChosenInputs(At([ABOVE], [LEFT, RIGHT]), 2, [ABOVE], [LEFT])
  {
    var v := At([ABOVE], [LEFT, RIGHT]);
    assert v[2] == [ABOVE] && v[3] == [LEFT, RIGHT];
    var r := KeyRange(Some(1.0), Some(1.0));
    assert [LEFT, RIGHT][..1] == [LEFT] && [LEFT][..0] == [];
    assert Overlapping([LEFT], r) == Overlapping([], r) + [LEFT];
    assert Overlapping([LEFT, RIGHT], r) == Overlapping([LEFT], r);
    assert ABOVE in [ABOVE];
    assert Reaches([ABOVE], 1.0, 1.0);
    assert Selects([ABOVE], v[3], [LEFT]);
  }

  /** Now only the newest value of the first key is kept: nothing seems to be below the deletion. */
  lemma SecondKeepsOne()
    ensures KeptOutputs(At([ABOVE], [LEFT, RIGHT]), 2, [ABOVE], [LEFT], 4, [OUTPUT])
  {
    SecondEntries();
    var es := InputEntries([ABOVE], [LEFT]);
    assert IsNewest(es, 1.0, 4, PUT_ONE_AGAIN) && BaseLevel(At([ABOVE], [LEFT, RIGHT]), 2, 2.0);
  }

  lemma SecondEntries()
    ensures InputEntries([ABOVE], [LEFT]) == {PUT_ONE_AGAIN, PUT_ONE, DELETE_TWO}
    ensures LevelEntries([OUTPUT]) == {PUT_ONE_AGAIN}
  {
    OneFile(ABOVE);
    OneFile(LEFT);
    OneFile(OUTPUT);
  }

  lemma SecondIsGood()
    ensures GoodOutputs(At([ABOVE], [LEFT, RIGHT]), 2, [ABOVE], [LEFT], [OUTPUT])
  {
    SecondEntries();
    assert OUTPUT.Valid() && At([ABOVE], [LEFT, RIGHT])[3] == [LEFT, RIGHT];
  }

  lemma SecondInstalls()
    ensures CompactedTo(At([ABOVE], [LEFT, RIGHT]), 2, [ABOVE], [LEFT], [OUTPUT], At([], [OUTPUT, RIGHT]))
  {
    var v, v2 := At([ABOVE], [LEFT, RIGHT]), At([], [OUTPUT, RIGHT]);
    assert v[2] == [ABOVE] && v[3] == [LEFT, RIGHT] && v2[2] == [] && v2[3] == [OUTPUT, RIGHT];
    assert Ordered([OUTPUT, RIGHT]);
  }

  lemma SecondCompacts()
    requires LevelInvariant(At([ABOVE], [LEFT, RIGHT]))
    ensures CompactStep(Before(), After(), SecondCompaction())
  {
    SecondIsChosen();
    SecondKeepsOne();
    SecondIsGood();
    SecondInstalls();
  }

  // What readers see

  lemma HeldBefore()
    ensures Held(Before()) == {PUT_ONE, PUT_TWO, DELETE_TWO, PUT_ONE_AGAIN}
  {
    FilesOf([ABOVE], [LEFT, RIGHT]);
    OneFile(ABOVE);
    TwoFiles(LEFT, RIGHT);
  }

  lemma HeldAfter()
    ensures Held(After()) == {PUT_ONE_AGAIN, PUT_TWO}
  {
    FilesOf([], [OUTPUT, RIGHT]);
    TwoFiles(OUTPUT, RIGHT);
    assert LevelEntries([]) == {};
  }

  lemma DeletedIsGone(es: set<Entry>)
    requires es == {PUT_ONE, PUT_TWO, DELETE_TWO, PUT_ONE_AGAIN}
    ensures Read(es, 2.0, 4) == None
  {
    assert IsNewest(es, 2.0, 4, DELETE_TWO);
    ReadIs(es, 2.0, 4, DELETE_TWO);
  }

  lemma DeletedIsBack(es: set<Entry>)
    requires es == {PUT_ONE_AGAIN, PUT_TWO}
    ensures Read(es, 2.0, 4) == Some([7])
  {
    assert IsNewest(es, 2.0, 4, PUT_TWO);
    ReadIs(es, 2.0, 4, PUT_TWO);
  }

  // The run

  lemma QuietSteps()
    ensures SnapshotStep(Written(), WithSnapshot()) && SwitchStep(Deleted(), Switched())
    ensures ReleaseStep(Cut(), Released(), 0) && SwitchStep(WrittenAgain(), SwitchedAgain())
  {
  }

  /** A write, a snapshot, a write, a switch, a flush. */
  lemma FiveSteps(a: Store, b: Store, c: Store, d: Store, e: Store, f: Store, w: seq<Operation>,
                  w2: seq<Operation>, file: File)
    requires Structure(a) && WriteStep(a, b, w) && SnapshotStep(b, c) && WriteStep(c, d, w2) && SwitchStep(d, e)
    requires FlushStep(e, f, 2, file)
    ensures SafeStep(a, b) && SafeStep(b, c) && SafeStep(c, d) && SafeStep(d, e) && SafeStep(e, f) && Structure(f)
  {
    WriteKeeps(a, b, w);
    StepButCompactKeeps(b, c);
    WriteKeeps(c, d, w2);
    SwitchKeeps(d, e);
    FlushKeeps(e, f, 2, file);
  }

  /** A release, a write, a switch, a flush. */
  lemma FourSteps(a: Store, b: Store, c: Store, d: Store, e: Store, w: seq<Operation>, file: File)
    requires Structure(a) && ReleaseStep(a, b, 0) && WriteStep(b, c, w) && SwitchStep(c, d) && FlushStep(d, e, 2, file)
    ensures SafeStep(a, b) && SafeStep(b, c) && SafeStep(c, d) && SafeStep(d, e) && Structure(e)
  {
    ReleaseKeeps(a, b, 0);
    WriteKeeps(b, c, w);
    SwitchKeeps(c, d);
    FlushKeeps(d, e, 2, file);
  }

  lemma FirstHalf()
    ensures SafeStep(Initial(), Written()) && SafeStep(Written(), WithSnapshot()) && SafeStep(WithSnapshot(), Deleted())
    ensures SafeStep(Deleted(), Switched()) && SafeStep(Switched(), AfterFlush()) && Structure(AfterFlush())
  {
    FirstWrite();
    Deletes();
    FirstFlush();
    QuietSteps();
    InitialOk();
    FiveSteps(Initial(), Written(), WithSnapshot(), Deleted(), Switched(), AfterFlush(), FIRST_WRITES, DELETION, FLUSHED);
  }

  lemma SecondHalf()
    requires Structure(Cut())
    ensures SafeStep(Cut(), Released()) && SafeStep(Released(), WrittenAgain()) && SafeStep(WrittenAgain(), SwitchedAgain())
    ensures SafeStep(SwitchedAgain(), Before()) && Structure(Before())
  {
    LastWrite();
    SecondFlush();
    QuietSteps();
    FourSteps(Cut(), Released(), WrittenAgain(), SwitchedAgain(), Before(), LAST_WRITE, ABOVE);
  }

  /** One state more, by a step that resurrects nothing. */
  lemma Onward(run: seq<Store>, last: Store, s: Store) returns (more: seq<Store>)
    requires IsSafeRun(run) && last == run[|run| - 1] && SafeStep(last, s)
    ensures IsSafeRun(more) && s == more[|more| - 1]
  {
    more := run + [s];
    forall i | 0 <= i < |run| ensures SafeStep(more[i], more[i + 1]) {
      if i < |run| - 1 {
        assert SafeStep(run[i], run[i + 1]);
      }
    }
  }

  lemma LastOne(run: seq<Store>, last: Store, s: Store)
    requires IsSafeRun(run) && last == run[|run| - 1] && Step(last, s)
    ensures IsRun(run + [s])
  {
    var more := run + [s];
    forall i | 0 <= i < |run| ensures Step(more[i], more[i + 1]) {
      if i < |run| - 1 {
        assert SafeStep(run[i], run[i + 1]);
      }
    }
  }

  /** A compaction after which some reader sees something else resurrects. */
  lemma MustResurrect(s: Store, s2: Store, c: Compacted, u: UserKey, t: SequenceNumber)
    requires Structure(s) && Structure(s2) && CompactStep(s, s2, c) && c.smallest <= t
    requires Read(Held(s2), u, t) != Read(Held(s), u, t)
    ensures Resurrects(s.version, c.level, c.inputs0, c.inputs1, c.smallest)
  {
    if !Resurrects(s.version, c.level, c.inputs0, c.inputs1, c.smallest) {
      UnlessResurrected(s.version, c.level, c.inputs0, c.inputs1, c.smallest, c.outputs, s2.version, u, t);
      CompactRead(s, s2, u, t);
    }
  }

  /** From `s`, the compaction `c` brings back a value of key 2.0 that was deleted. */
  ghost predicate BringsBack(s: Store, s2: Store, c: Compacted) {
    && CompactStep(s, s2, c)
    && LevelInvariant(s.version) && ChosenInputs(s.version, c.level, c.inputs0, c.inputs1)
    && Resurrects(s.version, c.level, c.inputs0, c.inputs1, c.smallest)
    && s2.lastSequence == s.lastSequence
    && Read(Held(s), 2.0, s.lastSequence) == None && Read(s.written, 2.0, s.lastSequence) == None
    && Read(s2.written, 2.0, s.lastSequence) == None && Read(Held(s2), 2.0, s.lastSequence) == Some([7])
  }

  lemma LastStep()
    requires Structure(Before()) && Structure(After()) && CompactStep(Before(), After(), SecondCompaction())
    ensures BringsBack(Before(), After(), SecondCompaction())
  {
    HeldBefore();
    HeldAfter();
    DeletedIsGone(Before().written);
    DeletedIsBack(Held(After()));
    MustResurrect(Before(), After(), SecondCompaction(), 2.0, 4);
  }

  lemma RunToDeleted() returns (run: seq<Store>)
    ensures IsSafeRun(run) && run[|run| - 1] == Deleted()
  {
    FirstHalf();
    InitialOk();
    run := [Initial()];
    run := Onward(run, Initial(), Written());
    run := Onward(run, Written(), WithSnapshot());
    run := Onward(run, WithSnapshot(), Deleted());
  }

  lemma RunToCut() returns (run: seq<Store>)
    ensures IsSafeRun(run) && run[|run| - 1] == Cut() && Structure(Cut())
  {
    run := RunToDeleted();
    FirstHalf();
    run := Onward(run, Deleted(), Switched());
    run := Onward(run, Switched(), AfterFlush());
    FirstCompacts();
    CompactKeepsStructure(AfterFlush(), Cut(), FirstCompaction());
    run := Onward(run, AfterFlush(), Cut());
  }

  lemma RunToBefore() returns (run: seq<Store>)
    ensures IsSafeRun(run) && run[|run| - 1] == Before() && Structure(Before())
  {
    run := RunToCut();
    SecondHalf();
    run := Onward(run, Cut(), Released());
    run := Onward(run, Released(), WrittenAgain());
    run := Onward(run, WrittenAgain(), SwitchedAgain());
    run := Onward(run, SwitchedAgain(), Before());
  }

  /** A run of the store, safe but for its last step: a compaction of chosen inputs that brings back a deleted value. */
  lemma ResurrectingRun() returns (run: seq<Store>, s: Store, s2: Store, c: Compacted)
    ensures IsSafeRun(run) && IsRun(run + [s2]) && s == run[|run| - 1] && BringsBack(s, s2, c)
  {
    run := RunToBefore();
    s, s2, c := Before(), After(), SecondCompaction();
    SecondCompacts();
    CompactKeepsStructure(s, s2, c);
    LastStep();
    LastOne(run, s, s2);
  }
}
