/**
 * Installing a compaction: the level invariant always survives; reads survive exactly when no dropped
 * deletion leaves an older value of the same user key behind in a neighbour file of the next level.
 */
module CompactionInstall {
  import opened DbFormat
  import opened Versions
  import opened InputSelection
  import opened VersionBuilder
  import opened Compaction

  ghost function EntriesOf(fs: set<File>): set<Entry> {
    set f, e | f in fs && e in f.entries :: e
  }

  lemma LevelEntriesOf(fs: seq<File>)
    ensures LevelEntries(fs) == EntriesOf(Elements(fs))
  {
  }

  /** The files of a level that a compaction leaves in place. */
  ghost function Rest(fs: seq<File>, inputs: seq<File>): set<File> {
    Elements(fs) - Elements(inputs)
  }

  ghost function InputEntries(inputs0: seq<File>, inputs1: seq<File>): set<Entry> {
    LevelEntries(inputs0) + LevelEntries(inputs1)
  }

  /** InstallCompactionResults: delete the inputs, add the outputs to the next level. */
  function CompactionEdit(level: nat, inputs0: seq<File>, inputs1: seq<File>, outputs: seq<File>): VersionEdit {
    VersionEdit(
      (set f | f in inputs0 :: (level, f.number)) + (set f | f in inputs1 :: (level + 1, f.number)),
      seq(|outputs|, i requires 0 <= i < |outputs| => (level + 1, outputs[i])))
  }

  /** Output files a compaction may install: sorted, holding only input entries, with numbers new to the level. */
  ghost predicate GoodOutputs(v: Version, level: nat, inputs0: seq<File>, inputs1: seq<File>, outputs: seq<File>)
    requires level + 1 < NUM_LEVELS
  {
    && (forall f :: f in outputs ==> f.Valid())
    && Disjoint(outputs)
    && LevelEntries(outputs) <= InputEntries(inputs0, inputs1)
    && NumbersIdentify(Elements(outputs))
    && Numbers(Elements(v[level + 1])) !! Numbers(Elements(outputs))
  }

  /** What an installed compaction leaves in each level. */
  ghost predicate CompactedTo(v: Version, level: nat, inputs0: seq<File>, inputs1: seq<File>, outputs: seq<File>, v2: Version)
    requires level + 1 < NUM_LEVELS
  {
    && (forall l :: 0 <= l < NUM_LEVELS ==> Ordered(v2[l]))
    && Elements(v2[level]) == Rest(v[level], inputs0)
    && Elements(v2[level + 1]) == Rest(v[level + 1], inputs1) + Elements(outputs)
    && (forall l :: 0 <= l < NUM_LEVELS && l != level && l != level + 1 ==> Elements(v2[l]) == Elements(v[l]))
  }

  lemma EditAdds(level: nat, inputs0: seq<File>, inputs1: seq<File>, outputs: seq<File>, l: nat)
    ensures AddedAt(CompactionEdit(level, inputs0, inputs1, outputs), l) == if l == level + 1 then Elements(outputs) else {}
  {
    var e := CompactionEdit(level, inputs0, inputs1, outputs);
    forall f | f in outputs
      ensures (level + 1, f) in e.newFiles
    {
      var i :| 0 <= i < |outputs| && outputs[i] == f;
      assert e.newFiles[i] == (level + 1, f);
    }
  }

  lemma EditDeletes(level: nat, inputs0: seq<File>, inputs1: seq<File>, outputs: seq<File>, l: nat)
    ensures DeletedAt(CompactionEdit(level, inputs0, inputs1, outputs), l)
         == if l == level then Numbers(Elements(inputs0)) else if l == level + 1 then Numbers(Elements(inputs1)) else {}
  {
    var e := CompactionEdit(level, inputs0, inputs1, outputs);
    forall f | f in inputs0 ensures (level, f.number) in e.deletedFiles {}
    forall f | f in inputs1 ensures (level + 1, f.number) in e.deletedFiles {}
    forall n | n in DeletedAt(e, l)
      ensures l == level ==> n in Numbers(Elements(inputs0))
      ensures l == level + 1 ==> n in Numbers(Elements(inputs1))
      ensures l == level || l == level + 1
    {
      assert (l, n) in e.deletedFiles;
    }
    if l == level {
      forall n | n in Numbers(Elements(inputs0)) ensures n in DeletedAt(e, l) {
        var f :| f in inputs0 && f.number == n;
        assert (level, f.number) in e.deletedFiles;
      }
    } else if l == level + 1 {
      forall n | n in Numbers(Elements(inputs1)) ensures n in DeletedAt(e, l) {
        var f :| f in inputs1 && f.number == n;
        assert (level + 1, f.number) in e.deletedFiles;
      }
    }
  }

  lemma InputsInLevel(v: Version, level: nat, inputs0: seq<File>, inputs1: seq<File>)
    requires ChosenInputs(v, level, inputs0, inputs1)
    ensures Elements(inputs0) <= Elements(v[level])
    ensures Elements(inputs1) <= Elements(v[level + 1])
  {
    var lo, hi :| Reaches(inputs0, lo, hi) && inputs1 == Overlapping(v[level + 1], KeyRange(Some(lo), Some(hi)));
    OverlappingIn(v[level + 1], KeyRange(Some(lo), Some(hi)));
  }

  /** Deleting by number removes just the inputs. */
  lemma DeleteByNumber(fs: seq<File>, inputs: seq<File>)
    requires NumbersIdentify(Elements(fs)) && Elements(inputs) <= Elements(fs)
    ensures Remaining(Elements(fs), Numbers(Elements(inputs))) == Rest(fs, inputs)
  {
    forall f | f in Elements(fs)
      ensures f.number in Numbers(Elements(inputs)) <==> f in Elements(inputs)
    {
      if f.number in Numbers(Elements(inputs)) {
        var g :| g in Elements(inputs) && g.number == f.number;
      }
    }
  }

  /** The files an edit leaves in a level. */
  ghost function LevelAfter(v: Version, e: VersionEdit, l: nat): set<File>
    requires l < NUM_LEVELS
  {
    Remaining(Elements(v[l]) + AddedAt(e, l), DeletedAfter({}, e, l))
  }

  /** What the edit of a compaction leaves in a level. */
  lemma EditLeaves(v: Version, level: nat, inputs0: seq<File>, inputs1: seq<File>, outputs: seq<File>, l: nat)
    requires LevelInvariant(v) && ChosenInputs(v, level, inputs0, inputs1) && l < NUM_LEVELS
    requires GoodOutputs(v, level, inputs0, inputs1, outputs)
    ensures LevelAfter(v, CompactionEdit(level, inputs0, inputs1, outputs), l)
         == if l == level then Rest(v[level], inputs0)
            else if l == level + 1 then Rest(v[level + 1], inputs1) + Elements(outputs)
            else Elements(v[l])
  {
    EditAdds(level, inputs0, inputs1, outputs, l);
    EditDeletes(level, inputs0, inputs1, outputs, l);
    InputsInLevel(v, level, inputs0, inputs1);
    assert LevelOk(v[l], l);
    if l == level {
      DeleteByNumber(v[level], inputs0);
    } else if l == level + 1 {
      DeleteByNumber(v[level + 1], inputs1);
      forall f | f in outputs ensures f.number in Numbers(Elements(outputs)) {}
      forall f | f in v[level + 1] ensures f.number !in Numbers(Elements(outputs)) {
        assert f.number in Numbers(Elements(v[level + 1]));
      }
    }
  }

  // Where the inputs sit among the files left behind

  /** What stays behind in the level of `inputs0` is newer than what is taken. */
  lemma LeftBehindIsNewer(fs: seq<File>, level: nat, inputs0: seq<File>)
    requires LevelOk(fs, level) && ClosedInputs(fs, level, inputs0)
    ensures Newer(EntriesOf(Rest(fs, inputs0)), LevelEntries(inputs0))
  {
    forall e, x | e in EntriesOf(Rest(fs, inputs0)) && x in LevelEntries(inputs0) && e.key.user == x.key.user
      ensures e.key.Tag() > x.key.Tag()
    {
      var g :| g in Rest(fs, inputs0) && e in g.entries;
      var f :| f in inputs0 && x in f.entries;
      assert g in fs && g !in inputs0 && MayStay(level, inputs0, g);
      FileBounds(g, e);
      FileBounds(f, x);
    }
  }

  /** Every key in `es` lies after the end of `g`. */
  ghost predicate AllAfter(g: File, es: set<Entry>) {
    forall x :: x in es ==> g.largest.Less(x.key)
  }

  ghost predicate AllBefore(es: set<Entry>, g: File) {
    forall x :: x in es ==> x.key.Less(g.smallest)
  }

  /** A file left behind in the next level lies wholly before or wholly after all input entries. */
  lemma RestIsSeparate(v: Version, level: nat, inputs0: seq<File>, inputs1: seq<File>, g: File)
    requires LevelInvariant(v) && ChosenInputs(v, level, inputs0, inputs1)
    requires g in Rest(v[level + 1], inputs1)
    ensures AllAfter(g, InputEntries(inputs0, inputs1)) || AllBefore(InputEntries(inputs0, inputs1), g)
    ensures forall x :: x in LevelEntries(inputs0) ==> x.key.user < g.smallest.user || g.largest.user < x.key.user
  {
    var lo, hi :| Reaches(inputs0, lo, hi) && inputs1 == Overlapping(v[level + 1], KeyRange(Some(lo), Some(hi)));
    assert LevelOk(v[level], level) && LevelOk(v[level + 1], level + 1);
    MissedFile(v[level + 1], inputs1, lo, hi, g);
    forall x | x in LevelEntries(inputs0)
      ensures lo <= x.key.user <= hi
    {
      var f :| f in inputs0 && x in f.entries;
      FileBounds(f, x);
    }
    forall x | x in LevelEntries(inputs1)
      ensures if g.largest.user < lo then g.largest.Less(x.key) else x.key.Less(g.smallest)
    {
      var f :| f in inputs1 && x in f.entries;
      TakenFile(v[level + 1], inputs1, lo, hi, g, f);
      FileBounds(f, x);
    }
  }

  lemma {:induction false} MissedFile(next: seq<File>, inputs1: seq<File>, lo: UserKey, hi: UserKey, g: File)
    requires g in Rest(next, inputs1) && inputs1 == Overlapping(next, KeyRange(Some(lo), Some(hi))) && g.Valid()
    ensures g in next && (g.largest.user < lo || hi < g.smallest.user) && g.smallest.user <= g.largest.user
  {
    OverlappingIn(next, KeyRange(Some(lo), Some(hi)));
    assert !KeyRange(Some(lo), Some(hi)).Meets(g);
    FileEnds(g);
  }

  lemma {:induction false} TakenFile(next: seq<File>, inputs1: seq<File>, lo: UserKey, hi: UserKey, g: File, f: File)
    requires Disjoint(next) && (forall h :: h in next ==> h.Valid()) && inputs1 == Overlapping(next, KeyRange(Some(lo), Some(hi)))
    requires f in inputs1 && g in next && (g.largest.user < lo || hi < g.smallest.user)
    ensures f in next && (if g.largest.user < lo then g.largest.Less(f.smallest) else f.largest.Less(g.smallest))
  {
    OverlappingIn(next, KeyRange(Some(lo), Some(hi)));
    assert KeyRange(Some(lo), Some(hi)).Meets(f);
    FileEnds(f);
    FileEnds(g);
    InOrder(next, f, g);
  }

  // The level invariant

  lemma OutputKeys(outputs: seq<File>, o: File)
    requires o in outputs && o.Valid()
    ensures exists a, b :: a in LevelEntries(outputs) && b in LevelEntries(outputs) && a.key == o.smallest && b.key == o.largest
  {
    FileEnds(o);
    assert o.entries[0] in LevelEntries(outputs);
    assert o.entries[|o.entries| - 1] in LevelEntries(outputs);
  }

  lemma NextLevelCompatible(v: Version, level: nat, inputs0: seq<File>, inputs1: seq<File>, outputs: seq<File>)
    requires LevelInvariant(v) && ChosenInputs(v, level, inputs0, inputs1)
    requires GoodOutputs(v, level, inputs0, inputs1, outputs)
    ensures Compatible(Rest(v[level + 1], inputs1) + Elements(outputs), level + 1)
  {
    var rest := Rest(v[level + 1], inputs1);
    assert LevelOk(v[level + 1], level + 1);
    forall f, g | f in rest + Elements(outputs) && g in rest + Elements(outputs)
      ensures f != g ==> f.number != g.number && (f.largest.Less(g.smallest) || g.largest.Less(f.smallest))
    {
      if f != g {
        PairCompatible(v, level, inputs0, inputs1, outputs, f, g);
      }
    }
  }

  lemma PairCompatible(v: Version, level: nat, inputs0: seq<File>, inputs1: seq<File>, outputs: seq<File>, f: File, g: File)
    requires LevelInvariant(v) && ChosenInputs(v, level, inputs0, inputs1)
    requires GoodOutputs(v, level, inputs0, inputs1, outputs)
    requires f != g
    requires f in Rest(v[level + 1], inputs1) + Elements(outputs) && g in Rest(v[level + 1], inputs1) + Elements(outputs)
    ensures f.number != g.number && (f.largest.Less(g.smallest) || g.largest.Less(f.smallest))
  {
    var rest := Rest(v[level + 1], inputs1);
    assert LevelOk(v[level + 1], level + 1);
    if f in rest && g in rest {
      InOrder(v[level + 1], f, g);
    } else if f in outputs && g in outputs {
      InOrder(outputs, f, g);
    } else {
      var (r, o) := if f in rest then (f, g) else (g, f);
      assert r in rest && o in outputs;
      assert r.number in Numbers(Elements(v[level + 1])) && o.number in Numbers(Elements(outputs));
      RestIsSeparate(v, level, inputs0, inputs1, r);
      OutputKeys(outputs, o);
    }
  }

  lemma LevelSubset(fs: seq<File>, level: nat, sub: seq<File>)
    requires LevelOk(fs, level) && Ordered(sub) && Elements(sub) <= Elements(fs)
    ensures LevelOk(sub, level)
  {
    forall f | f in sub ensures f in fs { assert f in Elements(sub); }
    LevelIsCompatible(fs, level);
    OrderedCompatibleIsOk(sub, level);
  }

  /** The edit of a compaction can be installed, and installing it does what it says. */
  lemma CompactionInstalls(v: Version, level: nat, inputs0: seq<File>, inputs1: seq<File>, outputs: seq<File>)
    requires LevelInvariant(v) && ChosenInputs(v, level, inputs0, inputs1)
    requires GoodOutputs(v, level, inputs0, inputs1, outputs)
    ensures Installable(v, CompactionEdit(level, inputs0, inputs1, outputs))
    ensures forall v2 :: Installs(v, CompactionEdit(level, inputs0, inputs1, outputs), v2) ==>
      CompactedTo(v, level, inputs0, inputs1, outputs, v2)
  {
    var e := CompactionEdit(level, inputs0, inputs1, outputs);
    forall l | 0 <= l < NUM_LEVELS
      ensures Ordered(v[l]) && Numbers(Elements(v[l])) !! Numbers(AddedAt(e, l)) && NumbersIdentify(AddedAt(e, l))
      ensures Compatible(LevelAfter(v, e, l), l)
    {
      EditAdds(level, inputs0, inputs1, outputs, l);
      EditLeaves(v, level, inputs0, inputs1, outputs, l);
      LevelIsCompatible(v[l], l);
      if l == level + 1 {
        NextLevelCompatible(v, level, inputs0, inputs1, outputs);
      }
    }
    forall v2 | Installs(v, e, v2)
      ensures CompactedTo(v, level, inputs0, inputs1, outputs, v2)
    {
      forall l | 0 <= l < NUM_LEVELS
        ensures Ordered(v2[l])
        ensures Elements(v2[l]) == if l == level then Rest(v[level], inputs0)
            else if l == level + 1 then Rest(v[level + 1], inputs1) + Elements(outputs)
            else Elements(v[l])
      {
        EditLeaves(v, level, inputs0, inputs1, outputs, l);
      }
    }
  }

  /** Where the entries of each level went. */
  lemma CompactedEntries(v: Version, level: nat, inputs0: seq<File>, inputs1: seq<File>, outputs: seq<File>, v2: Version)
    requires level + 1 < NUM_LEVELS && CompactedTo(v, level, inputs0, inputs1, outputs, v2)
    ensures LevelEntries(v2[level]) == EntriesOf(Rest(v[level], inputs0))
    ensures LevelEntries(v2[level + 1]) == EntriesOf(Rest(v[level + 1], inputs1)) + LevelEntries(outputs)
    ensures forall l :: 0 <= l < NUM_LEVELS && l != level && l != level + 1 ==> LevelEntries(v2[l]) == LevelEntries(v[l])
  {
    forall l | 0 <= l < NUM_LEVELS ensures LevelEntries(v2[l]) == EntriesOf(Elements(v2[l])) { LevelEntriesOf(v2[l]); }
    forall l | 0 <= l < NUM_LEVELS ensures LevelEntries(v[l]) == EntriesOf(Elements(v[l])) { LevelEntriesOf(v[l]); }
    LevelEntriesOf(outputs);
  }

  lemma RestEntries(fs: seq<File>, inputs: seq<File>)
    ensures EntriesOf(Rest(fs, inputs)) <= LevelEntries(fs)
  {
  }

  lemma InputEntriesIn(v: Version, level: nat, inputs0: seq<File>, inputs1: seq<File>)
    requires ChosenInputs(v, level, inputs0, inputs1)
    ensures LevelEntries(inputs0) <= LevelEntries(v[level])
    ensures LevelEntries(inputs1) <= LevelEntries(v[level + 1])
  {
    InputsInLevel(v, level, inputs0, inputs1);
    forall f | f in inputs0 ensures f in v[level] { assert f in Elements(inputs0); }
    forall f | f in inputs1 ensures f in v[level + 1] { assert f in Elements(inputs1); }
  }

  /** Each level of the new version holds no more than the old one, but for what moved one level down. */
  lemma CompactedSubset(v: Version, level: nat, inputs0: seq<File>, inputs1: seq<File>, outputs: seq<File>, v2: Version)
    requires ChosenInputs(v, level, inputs0, inputs1)
    requires GoodOutputs(v, level, inputs0, inputs1, outputs)
    requires CompactedTo(v, level, inputs0, inputs1, outputs, v2)
    ensures forall l :: 0 <= l < NUM_LEVELS && l != level + 1 ==> LevelEntries(v2[l]) <= LevelEntries(v[l])
    ensures LevelEntries(v2[level + 1]) <= LevelEntries(inputs0) + LevelEntries(v[level + 1])
    ensures LevelEntries(inputs0) <= LevelEntries(v[level])
  {
    CompactedEntries(v, level, inputs0, inputs1, outputs, v2);
    RestEntries(v[level], inputs0);
    RestEntries(v[level + 1], inputs1);
    InputEntriesIn(v, level, inputs0, inputs1);
  }

  lemma NewerThanTaken(v: Version, level: nat, inputs0: seq<File>, inputs1: seq<File>, outputs: seq<File>, v2: Version, i: nat)
    requires LevelInvariant(v) && ChosenInputs(v, level, inputs0, inputs1)
    requires GoodOutputs(v, level, inputs0, inputs1, outputs)
    requires CompactedTo(v, level, inputs0, inputs1, outputs, v2)
    requires i <= level
    ensures Newer(LevelEntries(v2[i]), LevelEntries(inputs0))
  {
    if i == level {
      CompactedEntries(v, level, inputs0, inputs1, outputs, v2);
      assert LevelOk(v[level], level);
      LeftBehindIsNewer(v[level], level, inputs0);
    } else {
      CompactedSubset(v, level, inputs0, inputs1, outputs, v2);
      assert LevelsNewer(v, i, level);
      NewerParts(LevelEntries(v[i]), LevelEntries(v[level]), LevelEntries(v2[i]), LevelEntries(inputs0));
    }
  }

  lemma CompactedPair(v: Version, level: nat, inputs0: seq<File>, inputs1: seq<File>, outputs: seq<File>, v2: Version,
                      i: nat, j: nat)
    requires LevelInvariant(v) && ChosenInputs(v, level, inputs0, inputs1)
    requires GoodOutputs(v, level, inputs0, inputs1, outputs)
    requires CompactedTo(v, level, inputs0, inputs1, outputs, v2)
    requires i < j < NUM_LEVELS
    ensures LevelsNewer(v2, i, j)
  {
    CompactedSubset(v, level, inputs0, inputs1, outputs, v2);
    var a, b := LevelEntries(v[i]), LevelEntries(v[j]);
    var a2, b2 := LevelEntries(v2[i]), LevelEntries(v2[j]);
    var taken := LevelEntries(inputs0);
    assert LevelsNewer(v, i, j);
    if j == level + 1 {
      NewerThanTaken(v, level, inputs0, inputs1, outputs, v2, i);
      NewerParts(a, b, a2, b);
      NewerUnion(a2, taken, b);
      NewerParts(a2, taken + b, a2, b2);
    } else if i == level + 1 {
      assert LevelsNewer(v, level, j);
      NewerParts(LevelEntries(v[level]), b, taken, b);
      UnionNewer(taken, a, b);
      NewerParts(taken + a, b, a2, b2);
    } else {
      NewerParts(a, b, a2, b2);
    }
  }

  lemma NewerParts(a: set<Entry>, b: set<Entry>, c: set<Entry>, d: set<Entry>)
    requires Newer(a, b) && c <= a && d <= b
    ensures Newer(c, d)
  {
  }

  lemma NewerUnion(a: set<Entry>, b: set<Entry>, c: set<Entry>)
    requires Newer(a, b) && Newer(a, c)
    ensures Newer(a, b + c)
  {
  }

  lemma UnionNewer(a: set<Entry>, b: set<Entry>, c: set<Entry>)
    requires Newer(a, c) && Newer(b, c)
    ensures Newer(a + b, c)
  {
  }

  /** Installing a compaction keeps the level invariant, whatever entries it dropped. */
  lemma CompactionKeepsInvariant(v: Version, level: nat, inputs0: seq<File>, inputs1: seq<File>, outputs: seq<File>, v2: Version)
    requires LevelInvariant(v) && ChosenInputs(v, level, inputs0, inputs1)
    requires GoodOutputs(v, level, inputs0, inputs1, outputs)
    requires CompactedTo(v, level, inputs0, inputs1, outputs, v2)
    ensures LevelInvariant(v2)
  {
    forall l | 0 <= l < NUM_LEVELS
      ensures LevelOk(v2[l], l)
    {
      assert LevelOk(v[l], l);
      if l == level + 1 {
        NextLevelCompatible(v, level, inputs0, inputs1, outputs);
        OrderedCompatibleIsOk(v2[l], l);
      } else {
        LevelSubset(v[l], l, v2[l]);
      }
    }
    forall i, j | 0 <= i < j < NUM_LEVELS
      ensures LevelsNewer(v2, i, j)
    {
      CompactedPair(v, level, inputs0, inputs1, outputs, v2, i, j);
    }
  }
}
