/** When installing a compaction changes what readers see. */
module CompactionReads {
  import opened DbFormat
  import opened Versions
  import opened InputSelection
  import opened VersionBuilder
  import opened Compaction
  import opened CompactionInstall

  /** The outputs hold just the entries the drop rules keep for horizon `s`. */
  ghost predicate KeptOutputs(v: Version, level: nat, inputs0: seq<File>, inputs1: seq<File>, s: SequenceNumber,
                              outputs: seq<File>) {
    forall e :: e in LevelEntries(outputs) <==> Kept(InputEntries(inputs0, inputs1), s, v, level, e)
  }

  ghost predicate IsCompaction(v: Version, level: nat, inputs0: seq<File>, inputs1: seq<File>, s: SequenceNumber,
                               outputs: seq<File>, v2: Version) {
    && LevelInvariant(v)
    && ChosenInputs(v, level, inputs0, inputs1)
    && GoodOutputs(v, level, inputs0, inputs1, outputs)
    && KeptOutputs(v, level, inputs0, inputs1, s, outputs)
    && CompactedTo(v, level, inputs0, inputs1, outputs, v2)
  }

  /**
   * The deletion that is the newest entry at `s` for the last user key of `inputs1` is dropped, while
   * the next file, which was not taken, goes on with an older value for it.
   */
  ghost predicate Resurrects(v: Version, level: nat, inputs0: seq<File>, inputs1: seq<File>, s: SequenceNumber)
    requires level + 1 < NUM_LEVELS
  {
    exists g, m ::
      && FirstBoundary(v[level + 1], inputs1, g)
      && m in InputEntries(inputs0, inputs1)
      && IsNewest(VersionEntries(v), g.smallest.user, s, m)
      && m.key.kind.Deletion? && BaseLevel(v, level, g.smallest.user)
      && g.smallest.kind.Value?
  }

  ghost predicate ReadsPreserved(v: Version, v2: Version, s: SequenceNumber) {
    forall u, t: SequenceNumber :: s <= t ==> Read(VersionEntries(v2), u, t) == Read(VersionEntries(v), u, t)
  }

  // Where entries are before and after

  lemma EntryLevel(v: Version, e: Entry) returns (l: nat, f: File)
    requires e in VersionEntries(v)
    ensures l < NUM_LEVELS && f in v[l] && e in f.entries && e in LevelEntries(v[l])
  {
    var l' :| 0 <= l' < NUM_LEVELS && e in LevelEntries(v[l']);
    l := l';
    f :| f in v[l] && e in f.entries;
  }

  lemma InputsAreThere(v: Version, level: nat, inputs0: seq<File>, inputs1: seq<File>)
    requires ChosenInputs(v, level, inputs0, inputs1)
    ensures InputEntries(inputs0, inputs1) <= VersionEntries(v)
  {
    InputEntriesIn(v, level, inputs0, inputs1);
  }

  /** An entry of an input file is in no file of its level that stays. */
  lemma NotInRest(fs: seq<File>, level: nat, inputs: seq<File>, e: Entry)
    requires LevelOk(fs, level) && Elements(inputs) <= Elements(fs) && e in LevelEntries(inputs)
    ensures e !in EntriesOf(Rest(fs, inputs))
  {
    var f :| f in inputs && e in f.entries;
    assert f in Elements(inputs);
    forall g | g in Rest(fs, inputs) ensures e !in g.entries { NotInBoth(fs, level, f, g, e); }
  }

  /** An entry of one level is in no other. */
  lemma NotInOther(v: Version, e: Entry, l: nat, k: nat)
    requires LevelInvariant(v) && l < NUM_LEVELS && k < NUM_LEVELS && l != k && e in LevelEntries(v[l])
    ensures e !in LevelEntries(v[k])
  {
    assert l < k ==> LevelsNewer(v, l, k);
    assert k < l ==> LevelsNewer(v, k, l);
  }

  /** Nothing that stays holds an input entry. */
  lemma InputsNotInRest(v: Version, level: nat, inputs0: seq<File>, inputs1: seq<File>, e: Entry)
    requires LevelInvariant(v) && ChosenInputs(v, level, inputs0, inputs1)
    requires e in InputEntries(inputs0, inputs1)
    ensures e !in EntriesOf(Rest(v[level], inputs0)) && e !in EntriesOf(Rest(v[level + 1], inputs1))
    ensures forall l :: 0 <= l < NUM_LEVELS && l != level && l != level + 1 ==> e !in LevelEntries(v[l])
  {
    InputEntriesIn(v, level, inputs0, inputs1);
    InputsInLevel(v, level, inputs0, inputs1);
    RestEntries(v[level], inputs0);
    RestEntries(v[level + 1], inputs1);
    var home := if e in LevelEntries(inputs0) then level else level + 1;
    forall l | 0 <= l < NUM_LEVELS && l != home ensures e !in LevelEntries(v[l]) { NotInOther(v, e, home, l); }
    assert LevelOk(v[level], level) && LevelOk(v[level + 1], level + 1);
    if home == level {
      NotInRest(v[level], level, inputs0, e);
    } else {
      NotInRest(v[level + 1], level + 1, inputs1, e);
    }
  }

  lemma NotInBoth(fs: seq<File>, level: nat, f: File, g: File, e: Entry)
    requires LevelOk(fs, level) && f in fs && g in fs && f != g && e in f.entries
    ensures e !in g.entries
  {
    if e in g.entries {
      KeyInOneFile(fs, level, f, g, e, e);
    }
  }

  lemma InputAfter(v: Version, level: nat, inputs0: seq<File>, inputs1: seq<File>, s: SequenceNumber,
                   outputs: seq<File>, v2: Version, e: Entry)
    requires IsCompaction(v, level, inputs0, inputs1, s, outputs, v2) && e in InputEntries(inputs0, inputs1)
    ensures e in VersionEntries(v2) <==> Kept(InputEntries(inputs0, inputs1), s, v, level, e)
  {
    CompactedEntries(v, level, inputs0, inputs1, outputs, v2);
    InputsNotInRest(v, level, inputs0, inputs1, e);
    assert e in LevelEntries(outputs) <==> Kept(InputEntries(inputs0, inputs1), s, v, level, e);
    assert e in LevelEntries(v2[level + 1]) <==> e in LevelEntries(outputs);
    if e in VersionEntries(v2) {
      var l, f := EntryLevel(v2, e);
      assert l == level + 1;
    }
  }

  /** Where an entry that is not an input sits, it stays. */
  lemma OtherStays(v: Version, level: nat, inputs0: seq<File>, inputs1: seq<File>, e: Entry, l: nat, f: File)
    requires ChosenInputs(v, level, inputs0, inputs1) && e !in InputEntries(inputs0, inputs1)
    requires l < NUM_LEVELS && f in v[l] && e in f.entries
    ensures l == level ==> e in EntriesOf(Rest(v[level], inputs0))
    ensures l == level + 1 ==> e in EntriesOf(Rest(v[level + 1], inputs1))
  {
    assert f in inputs0 ==> e in LevelEntries(inputs0);
    assert f in inputs1 ==> e in LevelEntries(inputs1);
  }

  lemma OtherWasThere(v: Version, level: nat, inputs0: seq<File>, inputs1: seq<File>,
                      outputs: seq<File>, v2: Version, e: Entry, l: nat)
    requires level + 1 < NUM_LEVELS && CompactedTo(v, level, inputs0, inputs1, outputs, v2)
    requires l < NUM_LEVELS && e in LevelEntries(v2[l]) && e !in LevelEntries(outputs)
    ensures e in LevelEntries(v[l])
  {
    CompactedEntries(v, level, inputs0, inputs1, outputs, v2);
    RestEntries(v[level], inputs0);
    RestEntries(v[level + 1], inputs1);
  }

  lemma OtherAfter(v: Version, level: nat, inputs0: seq<File>, inputs1: seq<File>, s: SequenceNumber,
                   outputs: seq<File>, v2: Version, e: Entry)
    requires IsCompaction(v, level, inputs0, inputs1, s, outputs, v2) && e !in InputEntries(inputs0, inputs1)
    ensures e in VersionEntries(v2) <==> e in VersionEntries(v)
  {
    assert e !in LevelEntries(outputs);
    if e in VersionEntries(v2) {
      var l, f := EntryLevel(v2, e);
      OtherWasThere(v, level, inputs0, inputs1, outputs, v2, e, l);
    }
    if e in VersionEntries(v) {
      var l, f := EntryLevel(v, e);
      OtherStays(v, level, inputs0, inputs1, e, l, f);
      CompactedEntries(v, level, inputs0, inputs1, outputs, v2);
      assert e in LevelEntries(v2[l]);
    }
  }

  lemma AfterEntries(v: Version, level: nat, inputs0: seq<File>, inputs1: seq<File>, s: SequenceNumber,
                     outputs: seq<File>, v2: Version, e: Entry)
    requires IsCompaction(v, level, inputs0, inputs1, s, outputs, v2)
    ensures e in VersionEntries(v2) <==>
      if e in InputEntries(inputs0, inputs1) then Kept(InputEntries(inputs0, inputs1), s, v, level, e)
      else e in VersionEntries(v)
  {
    if e in InputEntries(inputs0, inputs1) {
      InputAfter(v, level, inputs0, inputs1, s, outputs, v2, e);
    } else {
      OtherAfter(v, level, inputs0, inputs1, s, outputs, v2, e);
    }
  }

  /** Some file two or more levels down has `u` in its range. */
  ghost predicate CoveredBelow(v: Version, level: nat, u: UserKey) {
    exists l, f :: level + 2 <= l < NUM_LEVELS && f in v[l] && f.smallest.user <= u <= f.largest.user
  }

  /**
   * A compaction leaves no garbage: of its inputs that stay, no two entries of one user key are visible to all
   * readers from `s` on, and none of these is a deletion that nothing below could need.
   */
  ghost predicate NoGarbage(v: Version, level: nat, inputs: set<Entry>, s: SequenceNumber, after: set<Entry>) {
    && (forall e, x :: e in inputs && x in inputs && e in after && x in after && e.key.user == x.key.user ==>
          e.key.sequence <= s && x.key.sequence <= s ==> e == x)
    && (forall e :: e in inputs && e in after && e.key.sequence <= s && e.key.kind.Deletion? ==>
          CoveredBelow(v, level, e.key.user))
  }

  lemma CompactionLeavesNoGarbage(v: Version, level: nat, inputs0: seq<File>, inputs1: seq<File>, s: SequenceNumber,
                                  outputs: seq<File>, v2: Version)
    requires IsCompaction(v, level, inputs0, inputs1, s, outputs, v2)
    ensures NoGarbage(v, level, InputEntries(inputs0, inputs1), s, VersionEntries(v2))
  {
    var inputs := InputEntries(inputs0, inputs1);
    InputsAreThere(v, level, inputs0, inputs1);
    VersionUnique(v);
    forall e | e in inputs && e in VersionEntries(v2) ensures Kept(inputs, s, v, level, e) {
      InputAfter(v, level, inputs0, inputs1, s, outputs, v2, e);
    }
    forall e, x | e in inputs && x in inputs && e in VersionEntries(v2) && x in VersionEntries(v2) &&
                  e.key.user == x.key.user && e.key.sequence <= s && x.key.sequence <= s
      ensures e == x
    {
      TagDeterminesKey(e.key, x.key);
    }
  }

  /** What lies above the next level and is not an input is newer than every input of its user key. */
  lemma HigherIsNewer(v: Version, level: nat, inputs0: seq<File>, inputs1: seq<File>, m: Entry, x: Entry, l: nat, g: File)
    requires LevelInvariant(v) && ChosenInputs(v, level, inputs0, inputs1)
    requires m in InputEntries(inputs0, inputs1) && l <= level
    requires g in v[l] && x in g.entries && x !in InputEntries(inputs0, inputs1) && x.key.user == m.key.user
    ensures x.key.Tag() > m.key.Tag()
  {
    InputEntriesIn(v, level, inputs0, inputs1);
    assert x in LevelEntries(v[l]);
    if l < level {
      assert LevelsNewer(v, l, level) && LevelsNewer(v, l, level + 1);
    } else {
      assert LevelsNewer(v, level, level + 1);
      if m in LevelEntries(inputs0) {
        assert LevelOk(v[level], level);
        LeftBehindIsNewer(v[level], level, inputs0);
        OtherStays(v, level, inputs0, inputs1, x, l, g);
      }
    }
  }

  /** If nothing deeper holds its user key, whatever else is older than an input entry is in the next level. */
  lemma OlderLevel(v: Version, level: nat, inputs0: seq<File>, inputs1: seq<File>, m: Entry, x: Entry, l: nat, g: File)
    requires LevelInvariant(v) && ChosenInputs(v, level, inputs0, inputs1)
    requires m in InputEntries(inputs0, inputs1) && BaseLevel(v, level, m.key.user)
    requires l < NUM_LEVELS && g in v[l] && x in g.entries && x !in InputEntries(inputs0, inputs1)
    requires x.key.user == m.key.user && x.key.Tag() < m.key.Tag()
    ensures l == level + 1
  {
    if l <= level {
      HigherIsNewer(v, level, inputs0, inputs1, m, x, l, g);
    }
    assert LevelOk(v[l], l);
    FileBounds(g, x);
  }

  /** ... and in a file past all inputs. */
  lemma OlderOutside(v: Version, level: nat, inputs0: seq<File>, inputs1: seq<File>, m: Entry, x: Entry) returns (g: File)
    requires LevelInvariant(v) && ChosenInputs(v, level, inputs0, inputs1)
    requires m in InputEntries(inputs0, inputs1) && BaseLevel(v, level, m.key.user)
    requires x in VersionEntries(v) && x !in InputEntries(inputs0, inputs1)
    requires x.key.user == m.key.user && x.key.Tag() < m.key.Tag()
    ensures g in Rest(v[level + 1], inputs1) && x in g.entries && g.smallest.user == m.key.user
    ensures AllBefore(InputEntries(inputs0, inputs1), g)
  {
    var l;
    l, g := EntryLevel(v, x);
    OlderLevel(v, level, inputs0, inputs1, m, x, l, g);
    assert LevelOk(v[l], l);
    FileBounds(g, x);
    assert g !in inputs1 by { assert g in inputs1 ==> x in LevelEntries(inputs1); }
    RestIsSeparate(v, level, inputs0, inputs1, g);
  }

  // Boundary files

  lemma LargestKeyExists(files: seq<File>) returns (key: InternalKey)
    requires files != []
    ensures IsLargestKey(files, key)
  {
    var i, k := 1, 0;
    while i < |files|
      invariant k < i <= |files|
      invariant forall j :: 0 <= j < i ==> !files[k].largest.Less(files[j].largest)
    {
      if files[k].largest.Less(files[i].largest) { k := i; }
      i := i + 1;
    }
    key := files[k].largest;
    assert files[k] in files;
  }

  lemma FirstBoundaryExists(next: seq<File>, key: InternalKey, g: File) returns (h: File)
    requires g in next && IsBoundary(g, key)
    ensures h in next && IsBoundary(h, key) && !g.smallest.Less(h.smallest)
    ensures forall f :: f in next && IsBoundary(f, key) ==> !f.smallest.Less(h.smallest)
  {
    h := g;
    var i := 0;
    while i < |next|
      invariant 0 <= i <= |next| && h in next && IsBoundary(h, key)
      invariant !g.smallest.Less(h.smallest)
      invariant forall j :: 0 <= j < i && IsBoundary(next[j], key) ==> !next[j].smallest.Less(h.smallest)
    {
      if IsBoundary(next[i], key) && next[i].smallest.Less(h.smallest) { h := next[i]; }
      i := i + 1;
    }
  }

  /** A file that goes on with the user key of an input entry continues the last user key of `inputs1`. */
  lemma ContinuesLastKey(v: Version, level: nat, inputs0: seq<File>, inputs1: seq<File>, m: Entry, g: File)
      returns (key: InternalKey)
    requires LevelInvariant(v) && ChosenInputs(v, level, inputs0, inputs1)
    requires m in InputEntries(inputs0, inputs1)
    requires g in Rest(v[level + 1], inputs1) && g.smallest.user == m.key.user && AllBefore(InputEntries(inputs0, inputs1), g)
    ensures IsLargestKey(inputs1, key) && IsBoundary(g, key)
  {
    RestIsSeparate(v, level, inputs0, inputs1, g);
    InputsInLevel(v, level, inputs0, inputs1);
    assert LevelOk(v[level + 1], level + 1) && g in v[level + 1];
    FileEnds(g);
    assert m in LevelEntries(inputs1);
    var f :| f in inputs1 && m in f.entries;
    key := LargestKeyExists(inputs1);
    var last :| last in inputs1 && last.largest == key;
    assert f in Elements(inputs1) && last in Elements(inputs1);
    FileBounds(f, m);
    FileEnds(last);
    assert last.entries[|last.entries| - 1] in LevelEntries(inputs1);
  }

  /** The file that continues the last user key starts with the newest of what is left of it. */
  lemma BoundaryStart(v: Version, level: nat, inputs0: seq<File>, inputs1: seq<File>, g: File)
    requires LevelInvariant(v) && ChosenInputs(v, level, inputs0, inputs1) && FirstBoundary(v[level + 1], inputs1, g)
    ensures g in Rest(v[level + 1], inputs1) && AllBefore(InputEntries(inputs0, inputs1), g)
    ensures g.entries != [] && g.entries[0].key == g.smallest
    ensures g.entries[0] in VersionEntries(v) && g.entries[0] !in InputEntries(inputs0, inputs1)
  {
    var key :| IsLargestKey(inputs1, key) && IsBoundary(g, key);
    var last :| last in inputs1 && last.largest == key;
    InputsInLevel(v, level, inputs0, inputs1);
    assert LevelOk(v[level + 1], level + 1);
    assert last in Elements(inputs1);
    FileEnds(g);
    FileEnds(last);
    var e := last.entries[|last.entries| - 1];
    assert e in LevelEntries(inputs1);
    RestIsSeparate(v, level, inputs0, inputs1, g);
    assert g.entries[0] in LevelEntries(v[level + 1]);
    assert !AllAfter(g, InputEntries(inputs0, inputs1));
  }

  // The theorem

  lemma VersionsUnique(v: Version, level: nat, inputs0: seq<File>, inputs1: seq<File>, s: SequenceNumber,
                       outputs: seq<File>, v2: Version)
    requires IsCompaction(v, level, inputs0, inputs1, s, outputs, v2)
    ensures UniqueKeys(VersionEntries(v)) && UniqueKeys(VersionEntries(v2))
    ensures VersionEntries(v2) <= VersionEntries(v)
  {
    CompactionKeepsInvariant(v, level, inputs0, inputs1, outputs, v2);
    VersionUnique(v);
    VersionUnique(v2);
    InputsAreThere(v, level, inputs0, inputs1);
    forall e | e in VersionEntries(v2) ensures e in VersionEntries(v) {
      AfterEntries(v, level, inputs0, inputs1, s, outputs, v2, e);
    }
  }

  /** If the newest entry a reader past the horizon saw is gone, it was a deletion with nothing deeper. */
  lemma LostNewest(v: Version, level: nat, inputs0: seq<File>, inputs1: seq<File>, s: SequenceNumber,
                   outputs: seq<File>, v2: Version, u: UserKey, t: SequenceNumber, m: Entry)
    requires IsCompaction(v, level, inputs0, inputs1, s, outputs, v2) && s <= t
    requires IsNewest(VersionEntries(v), u, t, m) && m !in VersionEntries(v2)
    ensures m in InputEntries(inputs0, inputs1) && m.key.kind.Deletion? && BaseLevel(v, level, u)
    ensures IsNewest(VersionEntries(v), u, s, m)
  {
    AfterEntries(v, level, inputs0, inputs1, s, outputs, v2, m);
    InputsAreThere(v, level, inputs0, inputs1);
    assert IsNewest(InputEntries(inputs0, inputs1), u, s, m);
  }

  /** What is older than a deletion at the base level, and no input, is in the file past the inputs or after it. */
  lemma OlderFile(v: Version, level: nat, inputs0: seq<File>, inputs1: seq<File>, m: Entry, n: Entry) returns (g: File)
    requires LevelInvariant(v) && ChosenInputs(v, level, inputs0, inputs1)
    requires m in InputEntries(inputs0, inputs1) && BaseLevel(v, level, m.key.user)
    requires n in VersionEntries(v) && n !in InputEntries(inputs0, inputs1)
    requires n.key.user == m.key.user && n.key.Tag() < m.key.Tag()
    ensures FirstBoundary(v[level + 1], inputs1, g) && g.smallest.user == m.key.user
    ensures m.key.Less(g.smallest) && !n.key.Less(g.smallest)
  {
    var h := OlderOutside(v, level, inputs0, inputs1, m, n);
    var key := ContinuesLastKey(v, level, inputs0, inputs1, m, h);
    g := FirstBoundaryExists(v[level + 1], key, h);
    assert LevelOk(v[level + 1], level + 1);
    FileBounds(h, n);
    BoundaryStart(v, level, inputs0, inputs1, g);
    FileEnds(g);
  }

  /** Once such a deletion is gone, the newest a reader finds starts the file past the inputs. */
  lemma NewestLeft(v: Version, level: nat, inputs0: seq<File>, inputs1: seq<File>, s: SequenceNumber,
                   outputs: seq<File>, v2: Version, u: UserKey, t: SequenceNumber, m: Entry, n: Entry) returns (g: File)
    requires IsCompaction(v, level, inputs0, inputs1, s, outputs, v2) && s <= t
    requires m in InputEntries(inputs0, inputs1) && m.key.kind.Deletion? && BaseLevel(v, level, u)
    requires IsNewest(VersionEntries(v), u, t, m) && IsNewest(VersionEntries(v), u, s, m) && m !in VersionEntries(v2)
    requires IsNewest(VersionEntries(v2), u, t, n)
    ensures FirstBoundary(v[level + 1], inputs1, g) && g.entries != [] && g.entries[0] == n && g.smallest == n.key
  {
    VersionsUnique(v, level, inputs0, inputs1, s, outputs, v2);
    InputsAreThere(v, level, inputs0, inputs1);
    assert n.key.Tag() < m.key.Tag() by {
      if n.key.Tag() == m.key.Tag() { TagDeterminesKey(n.key, m.key); }
    }
    AfterEntries(v, level, inputs0, inputs1, s, outputs, v2, n);
    assert n !in InputEntries(inputs0, inputs1);
    g := OlderFile(v, level, inputs0, inputs1, m, n);
    BoundaryStart(v, level, inputs0, inputs1, g);
    var g0 := g.entries[0];
    AfterEntries(v, level, inputs0, inputs1, s, outputs, v2, g0);
    assert m.key.Less(g.smallest);
    assert Visible(g0, u, t);
    TagDeterminesKey(n.key, g0.key);
  }

  /** Reads are preserved unless an older value comes back. */
  lemma UnlessResurrected(v: Version, level: nat, inputs0: seq<File>, inputs1: seq<File>, s: SequenceNumber,
                          outputs: seq<File>, v2: Version, u: UserKey, t: SequenceNumber)
    requires IsCompaction(v, level, inputs0, inputs1, s, outputs, v2) && s <= t
    requires !Resurrects(v, level, inputs0, inputs1, s)
    ensures Read(VersionEntries(v2), u, t) == Read(VersionEntries(v), u, t)
  {
    VersionsUnique(v, level, inputs0, inputs1, s, outputs, v2);
    var es, es2 := VersionEntries(v), VersionEntries(v2);
    if m :| IsNewest(es, u, t, m) {
      ReadIs(es, u, t, m);
      if m in es2 {
        ReadIs(es2, u, t, m);
      } else {
        LostNewest(v, level, inputs0, inputs1, s, outputs, v2, u, t, m);
        if n :| IsNewest(es2, u, t, n) {
          ReadIs(es2, u, t, n);
          var g := NewestLeft(v, level, inputs0, inputs1, s, outputs, v2, u, t, m, n);
        }
      }
    } else if n :| IsNewest(es2, u, t, n) {
      var m := NewestExists(es, u, t, n);
    }
  }

  /** When an older value comes back, the reader at the horizon itself sees it. */
  lemma WhenResurrected(v: Version, level: nat, inputs0: seq<File>, inputs1: seq<File>, s: SequenceNumber,
                        outputs: seq<File>, v2: Version, g: File, m: Entry)
    requires IsCompaction(v, level, inputs0, inputs1, s, outputs, v2)
    requires FirstBoundary(v[level + 1], inputs1, g) && g.smallest.kind.Value?
    requires m in InputEntries(inputs0, inputs1) && IsNewest(VersionEntries(v), g.smallest.user, s, m)
    requires m.key.kind.Deletion? && BaseLevel(v, level, g.smallest.user)
    ensures Read(VersionEntries(v2), g.smallest.user, s) != Read(VersionEntries(v), g.smallest.user, s)
  {
    var u := g.smallest.user;
    var es, es2 := VersionEntries(v), VersionEntries(v2);
    VersionsUnique(v, level, inputs0, inputs1, s, outputs, v2);
    InputsAreThere(v, level, inputs0, inputs1);
    assert IsNewest(InputEntries(inputs0, inputs1), u, s, m);
    AfterEntries(v, level, inputs0, inputs1, s, outputs, v2, m);
    ReadIs(es, u, s, m);
    BoundaryStart(v, level, inputs0, inputs1, g);
    var g0 := g.entries[0];
    AfterEntries(v, level, inputs0, inputs1, s, outputs, v2, g0);
    assert m.key.Less(g.smallest);
    var n := NewestExists(es2, u, s, g0);
    ReadIs(es2, u, s, n);
    var h := NewestLeft(v, level, inputs0, inputs1, s, outputs, v2, u, s, m, n);
    SameFirstBoundary(v[level + 1], inputs1, g, h);
  }

  lemma SameFirstBoundary(next: seq<File>, inputs1: seq<File>, g: File, h: File)
    requires FirstBoundary(next, inputs1, g) && FirstBoundary(next, inputs1, h)
    ensures g.smallest == h.smallest
  {
    var a :| IsLargestKey(inputs1, a) && IsBoundary(g, a)
      && forall f :: f in next && IsBoundary(f, a) ==> !f.smallest.Less(g.smallest);
    var b :| IsLargestKey(inputs1, b) && IsBoundary(h, b)
      && forall f :: f in next && IsBoundary(f, b) ==> !f.smallest.Less(h.smallest);
    assert !a.Less(b) && !b.Less(a);
    TagDeterminesKey(a, b);
    TagDeterminesKey(g.smallest, h.smallest);
  }

  /**
   * A compaction leaves what every reader at or after the horizon sees unchanged if and only if it
   * does not resurrect an older value.
   */
  lemma ReadsPreservedIff(v: Version, level: nat, inputs0: seq<File>, inputs1: seq<File>, s: SequenceNumber,
                          outputs: seq<File>, v2: Version)
    requires IsCompaction(v, level, inputs0, inputs1, s, outputs, v2)
    ensures ReadsPreserved(v, v2, s) <==> !Resurrects(v, level, inputs0, inputs1, s)
  {
    if Resurrects(v, level, inputs0, inputs1, s) {
      var g, m :|
        && FirstBoundary(v[level + 1], inputs1, g)
        && m in InputEntries(inputs0, inputs1)
        && IsNewest(VersionEntries(v), g.smallest.user, s, m)
        && m.key.kind.Deletion? && BaseLevel(v, level, g.smallest.user)
        && g.smallest.kind.Value?;
      WhenResurrected(v, level, inputs0, inputs1, s, outputs, v2, g, m);
    } else {
      forall u, t: SequenceNumber | s <= t
        ensures Read(VersionEntries(v2), u, t) == Read(VersionEntries(v), u, t)
      {
        UnlessResurrected(v, level, inputs0, inputs1, s, outputs, v2, u, t);
      }
    }
  }

  /** Had the inputs of the next level been closed on the right as those of the first are, nothing could come back. */
  lemma ClosedNextLevel(v: Version, level: nat, inputs0: seq<File>, inputs1: seq<File>, s: SequenceNumber)
    requires level + 1 < NUM_LEVELS && NoBoundary(v[level + 1], inputs1)
    ensures !Resurrects(v, level, inputs0, inputs1, s)
  {
  }

  lemma EmptyLevelOk(fs: seq<File>, l: nat)
    requires fs == []
    ensures LevelOk(fs, l)
  {
  }
}
