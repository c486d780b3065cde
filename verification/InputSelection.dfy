/** Choosing the files of a flush or compaction (db/version_set.cc). */
module InputSelection {
  import opened DbFormat
  import opened Versions
  import VersionGet

  const MAX_MEM_COMPACT_LEVEL := 2

  datatype KeyRange = KeyRange(lo: Option<UserKey>, hi: Option<UserKey>) {
    predicate Meets(f: File) {
      f.Overlaps(lo, hi)
    }

    predicate Contains(f: File) {
      (lo.Some? ==> lo.value <= f.smallest.user) && (hi.Some? ==> f.largest.user <= hi.value)
    }

    predicate Includes(r: KeyRange) {
      && (lo.Some? ==> r.lo.Some? && lo.value <= r.lo.value)
      && (hi.Some? ==> r.hi.Some? && r.hi.value <= hi.value)
    }
  }

  function TotalFileSize(files: seq<File>): nat {
    if files == [] then 0 else files[0].size + TotalFileSize(files[1..])
  }

  function MaxGrandParentOverlapBytes(targetFileSize: nat): nat { 10 * targetFileSize }

  function ExpandedCompactionByteSizeLimit(targetFileSize: nat): nat { 25 * targetFileSize }

  /** The files of `fs` that meet `r`, in order. */
  function Overlapping(fs: seq<File>, r: KeyRange): seq<File> {
    if fs == [] then []
    else
      var init := Overlapping(fs[..|fs| - 1], r);
      if r.Meets(fs[|fs| - 1]) then init + [fs[|fs| - 1]] else init
  }

  lemma {:induction false} OverlappingIn(fs: seq<File>, r: KeyRange)
    ensures forall f :: f in Overlapping(fs, r) <==> f in fs && r.Meets(f)
  {
    if fs != [] {
      OverlappingIn(fs[..|fs| - 1], r);
    }
  }

  lemma {:induction false} OverlappingKeepsOrder(fs: seq<File>, r: KeyRange)
    requires Disjoint(fs)
    ensures Disjoint(Overlapping(fs, r))
  {
    if fs != [] {
      var init := fs[..|fs| - 1];
      OverlappingKeepsOrder(init, r);
      OverlappingIn(init, r);
      var o := Overlapping(init, r);
      assert forall i :: 0 <= i < |o| ==> o[i] in o && o[i] in init;
    }
  }

  lemma {:induction false} OverlappingKeepsDistinct(fs: seq<File>, r: KeyRange)
    requires NewFrom(0, fs)
    ensures NewFrom(0, Overlapping(fs, r))
  {
    if fs != [] {
      var init := fs[..|fs| - 1];
      OverlappingKeepsDistinct(init, r);
      OverlappingIn(init, r);
      AppendNew(0, Overlapping(init, r), fs[|fs| - 1]);
    }
  }

  /** A range that includes another selects at least its files, and just those when it selects as many. */
  lemma {:induction false} OverlappingGrows(fs: seq<File>, r: KeyRange, wide: KeyRange)
    requires wide.Includes(r)
    ensures |Overlapping(fs, r)| <= |Overlapping(fs, wide)|
    ensures |Overlapping(fs, r)| == |Overlapping(fs, wide)| ==> Overlapping(fs, r) == Overlapping(fs, wide)
  {
    if fs != [] {
      OverlappingGrows(fs[..|fs| - 1], r, wide);
    }
  }

  /** No file sticks out of `r`. */
  ghost predicate ClosedRange(fs: seq<File>, r: KeyRange) {
    forall f :: f in fs && r.Meets(f) ==> r.Contains(f)
  }

  /** Every range that includes `start` and that no file sticks out of includes `r`. */
  ghost predicate InAllClosed(fs: seq<File>, start: KeyRange, r: KeyRange) {
    forall other {:trigger other.Includes(r)} :: ClosedRange(fs, other) && other.Includes(start) ==> other.Includes(r)
  }

  /** `r` is the least range that includes `start` and that no file of `fs` sticks out of. */
  ghost predicate LeastClosed(fs: seq<File>, start: KeyRange, r: KeyRange) {
    ClosedRange(fs, r) && r.Includes(start) && InAllClosed(fs, start, r)
  }

  /** The range Version::GetOverlappingInputs picks files by: at level 0 the least closed one. */
  ghost predicate PicksRange(fs: seq<File>, level: nat, start: KeyRange, range: KeyRange) {
    if level > 0 then range == start else LeastClosed(fs, start, range)
  }

  /** Taking in a file that meets the range does not leave the least closed one. */
  lemma ExtendsInAllClosed(fs: seq<File>, start: KeyRange, r: KeyRange, f: File)
    requires InAllClosed(fs, start, r) && f in fs && r.Meets(f)
    ensures r.lo.Some? ==>
      InAllClosed(fs, start, r.(lo := Some(if f.smallest.user < r.lo.value then f.smallest.user else r.lo.value)))
    ensures r.hi.Some? ==> InAllClosed(fs, start, r.(hi := Some(if f.largest.user > r.hi.value then f.largest.user
      else r.hi.value)))
  {
    forall other | ClosedRange(fs, other) && other.Includes(start)
      ensures other.Includes(r) && other.Contains(f)
    {
      assert other.Includes(r) && other.Meets(f);
    }
  }

  ghost function StartsBefore(fs: seq<File>, lo: Option<UserKey>): set<nat> {
    set k: nat | k < |fs| && lo.Some? && fs[k].smallest.user < lo.value
  }

  ghost function EndsAfter(fs: seq<File>, hi: Option<UserKey>): set<nat> {
    set k: nat | k < |fs| && hi.Some? && fs[k].largest.user > hi.value
  }

  lemma SmallerSet(a: set<nat>, b: set<nat>, x: nat)
    requires a <= b && x in b && x !in a
    ensures |a| < |b|
  {
    assert b == a + (b - a) && x in b - a;
    assert |b| == |a| + |b - a|;
  }

  /**
   * Version::GetOverlappingInputs. At level 0 a file that sticks out of the range extends it and
   * restarts the scan; each restart leaves fewer files sticking out on one side.
   */
  method GetOverlappingInputs(fs: seq<File>, level: nat, begin: Option<UserKey>, end: Option<UserKey>)
      returns (inputs: seq<File>, ghost range: KeyRange)
    requires forall f :: f in fs ==> f.Valid()
    ensures inputs == Overlapping(fs, range)
    ensures PicksRange(fs, level, KeyRange(begin, end), range)
  {
    inputs := [];
    var userBegin, userEnd := begin, end;
    var i := 0;
    while i < |fs|
      invariant 0 <= i <= |fs|
      invariant inputs == Overlapping(fs[..i], KeyRange(userBegin, userEnd))
      invariant KeyRange(userBegin, userEnd).Includes(KeyRange(begin, end))
      invariant userBegin.Some? == begin.Some? && userEnd.Some? == end.Some?
      invariant level > 0 ==> userBegin == begin && userEnd == end
      invariant level == 0 ==> ClosedRange(fs[..i], KeyRange(userBegin, userEnd))
      invariant InAllClosed(fs, KeyRange(begin, end), KeyRange(userBegin, userEnd))
      decreases |StartsBefore(fs, userBegin)| + |EndsAfter(fs, userEnd)|, |fs| - i
    {
      var f := fs[i];
      FileEnds(f);
      ghost var k := i;
      assert fs[..i + 1][..i] == fs[..i];
      i := i + 1;
      if f.Overlaps(userBegin, userEnd) {
        inputs := inputs + [f];
        if level == 0 {
          ExtendsInAllClosed(fs, KeyRange(begin, end), KeyRange(userBegin, userEnd), f);
          ghost var wasBefore, wasAfter := StartsBefore(fs, userBegin), EndsAfter(fs, userEnd);
          if begin.Some? && f.smallest.user < userBegin.value {
            userBegin := Some(f.smallest.user);
            SmallerSet(StartsBefore(fs, userBegin), wasBefore, k);
            inputs := [];
            i := 0;
          } else if end.Some? && f.largest.user > userEnd.value {
            userEnd := Some(f.largest.user);
            SmallerSet(EndsAfter(fs, userEnd), wasAfter, k);
            inputs := [];
            i := 0;
          }
        }
      }
    }
    assert fs[..|fs|] == fs;
    range := KeyRange(userBegin, userEnd);
  }

  // Boundary files

  ghost predicate IsLargestKey(files: seq<File>, key: InternalKey) {
    && (exists f :: f in files && f.largest == key)
    && (forall f :: f in files ==> !key.Less(f.largest))
  }

  ghost predicate IsSmallestKey(files: seq<File>, key: InternalKey) {
    && (exists f :: f in files && f.smallest == key)
    && (forall f :: f in files ==> !f.smallest.Less(key))
  }

  method FindLargestKey(files: seq<File>) returns (found: bool, largestKey: InternalKey)
    ensures found <==> files != []
    ensures found ==> IsLargestKey(files, largestKey)
  {
    if files == [] {
      return false, InternalKey(0.0, 0, Deletion);
    }
    largestKey := files[0].largest;
    for i := 1 to |files|
      invariant IsLargestKey(files[..i], largestKey)
    {
      assert files[..i + 1] == files[..i] + [files[i]];
      if largestKey.Less(files[i].largest) {
        largestKey := files[i].largest;
        assert files[i] in files[..i + 1];
      } else {
        var f :| f in files[..i] && f.largest == largestKey;
        assert f in files[..i + 1];
      }
    }
    assert files[..|files|] == files;
    found := true;
  }

  predicate IsBoundary(f: File, key: InternalKey) {
    key.Less(f.smallest) && f.smallest.user == key.user
  }

  method FindSmallestBoundaryFile(levelFiles: seq<File>, largestKey: InternalKey) returns (r: Option<File>)
    ensures r.None? ==> forall f :: f in levelFiles ==> !IsBoundary(f, largestKey)
    ensures r.Some? ==> r.value in levelFiles && IsBoundary(r.value, largestKey)
    ensures r.Some? ==> forall f :: f in levelFiles && IsBoundary(f, largestKey) ==> !f.smallest.Less(r.value.smallest)
  {
    r := None;
    for i := 0 to |levelFiles|
      invariant r.None? ==> forall j :: 0 <= j < i ==> !IsBoundary(levelFiles[j], largestKey)
      invariant r.Some? ==> r.value in levelFiles && IsBoundary(r.value, largestKey)
      invariant r.Some? ==> forall j :: 0 <= j < i && IsBoundary(levelFiles[j], largestKey) ==>
        !levelFiles[j].smallest.Less(r.value.smallest)
    {
      var f := levelFiles[i];
      if IsBoundary(f, largestKey) {
        if r.None? || f.smallest.Less(r.value.smallest) {
          r := Some(f);
        }
      }
    }
  }

  ghost predicate Apart(cs: seq<File>, g: File) {
    (forall f :: f in cs ==> g.largest.Less(f.smallest)) || (forall f :: f in cs ==> f.largest.Less(g.smallest))
  }

  /** Every file of the level left out of `cs` lies wholly before or wholly after it. */
  ghost predicate Convex(fs: seq<File>, cs: seq<File>) {
    forall g {:trigger Apart(cs, g)} :: g in fs && g !in cs ==> Apart(cs, g)
  }

  /** `g` lies before all of `cs` or has greater user keys only. At level 0 it shares no user key on the left either. */
  ghost predicate MayStay(level: nat, cs: seq<File>, g: File) {
    || (forall f :: f in cs ==> if level == 0 then g.largest.user < f.smallest.user else g.largest.Less(f.smallest))
    || (forall f :: f in cs ==> f.largest.user < g.smallest.user)
  }

  /** Files of one level that a compaction may take without those it leaves behind. */
  ghost predicate ClosedInputs(fs: seq<File>, level: nat, cs: seq<File>) {
    && (forall f :: f in cs ==> f in fs)
    && (forall g {:trigger MayStay(level, cs, g)} :: g in fs && g !in cs ==> MayStay(level, cs, g))
  }

  /** No file of the level continues the last user key of `cs` past its largest key. */
  ghost predicate NoBoundary(fs: seq<File>, cs: seq<File>) {
    forall key, f :: IsLargestKey(cs, key) && f in fs ==> !IsBoundary(f, key)
  }

  /** `g` is the first file that continues the last user key of `cs`. */
  ghost predicate FirstBoundary(fs: seq<File>, cs: seq<File>, g: File) {
    && g in fs
    && exists key :: IsLargestKey(cs, key) && IsBoundary(g, key) &&
         forall f :: f in fs && IsBoundary(f, key) ==> !f.smallest.Less(g.smallest)
  }

  /** From position `n` on, each file is the first that continues the ones before it. */
  ghost predicate Chained(fs: seq<File>, n: nat, files: seq<File>) {
    forall i {:trigger FirstBoundary(fs, files[..i], files[i])} :: n <= i < |files| ==> FirstBoundary(fs, files[..i], files[i])
  }

  /** `files` is `start` and what continues it, as far as that goes. */
  ghost predicate IsClosure(fs: seq<File>, start: seq<File>, files: seq<File>) {
    start <= files && Chained(fs, |start|, files) && NoBoundary(fs, files)
  }

  lemma ChainMore(fs: seq<File>, n: nat, files: seq<File>, f: File)
    requires Chained(fs, n, files) && FirstBoundary(fs, files, f)
    ensures Chained(fs, n, files + [f])
  {
    var more := files + [f];
    forall i | n <= i < |more| ensures FirstBoundary(fs, more[..i], more[i]) {
      if i < |files| {
        assert more[..i] == files[..i];
        assert FirstBoundary(fs, files[..i], files[i]);
      } else {
        assert more[..i] == files;
      }
    }
  }

  lemma LargestDecides(fs: seq<File>, cs: seq<File>, largestKey: InternalKey)
    requires IsLargestKey(cs, largestKey) && forall f :: f in fs ==> !IsBoundary(f, largestKey)
    ensures NoBoundary(fs, cs)
  {
    forall key, f | IsLargestKey(cs, key) && f in fs
      ensures !IsBoundary(f, key)
    {
      assert !key.Less(largestKey) && !largestKey.Less(key);
    }
  }

  ghost function FilesAfter(fs: seq<File>, key: InternalKey): set<nat> {
    set k: nat | k < |fs| && key.Less(fs[k].smallest)
  }

  /** From position `n` on, no file repeats one before it. */
  ghost predicate NewFrom(n: nat, files: seq<File>) {
    forall i, j :: n <= i < |files| && 0 <= j < i ==> files[i] != files[j]
  }

  lemma AppendNew(n: nat, files: seq<File>, f: File)
    requires NewFrom(n, files) && f !in files
    ensures NewFrom(n, files + [f])
  {
  }

  lemma AppendDisjoint(files: seq<File>, largestKey: InternalKey, f: File)
    requires IsLargestKey(files, largestKey) && largestKey.Less(f.smallest)
    ensures Disjoint(files) ==> Disjoint(files + [f])
  {
    forall i | 0 <= i < |files| ensures files[i].largest.Less(f.smallest) { assert files[i] in files; }
  }

  /** AddBoundaryInputs: take in files that continue the last user key, until none does. */
  method AddBoundaryInputs(levelFiles: seq<File>, compactionFiles: seq<File>) returns (files: seq<File>)
    requires forall f :: f in levelFiles ==> f.Valid()
    requires forall f :: f in compactionFiles ==> f in levelFiles
    ensures compactionFiles <= files && forall f :: f in files ==> f in levelFiles
    ensures NewFrom(|compactionFiles|, files)
    ensures IsClosure(levelFiles, compactionFiles, files)
    ensures ClosedInputs(levelFiles, 0, compactionFiles) ==> files == compactionFiles
    ensures Disjoint(levelFiles) && Convex(levelFiles, compactionFiles) ==> ClosedInputs(levelFiles, 1, files)
    ensures Disjoint(compactionFiles) ==> Disjoint(files)
  {
    files := compactionFiles;
    var found, largestKey := FindLargestKey(compactionFiles);
    if !found {
      return;
    }
    var searching := true;
    while searching
      invariant IsLargestKey(files, largestKey)
      invariant compactionFiles <= files && forall f :: f in files ==> f in levelFiles
      invariant NewFrom(|compactionFiles|, files) && Chained(levelFiles, |compactionFiles|, files)
      invariant !searching ==> forall f :: f in levelFiles ==> !IsBoundary(f, largestKey)
      invariant ClosedInputs(levelFiles, 0, compactionFiles) ==> files == compactionFiles
      invariant Disjoint(levelFiles) && Convex(levelFiles, compactionFiles) ==> Convex(levelFiles, files)
      invariant Disjoint(compactionFiles) ==> Disjoint(files)
      decreases searching, |FilesAfter(levelFiles, largestKey)|
    {
      var boundary := FindSmallestBoundaryFile(levelFiles, largestKey);
      if boundary.Some? {
        var f := boundary.value;
        BoundaryIsNew(levelFiles, files, largestKey, f);
        if Disjoint(levelFiles) && Convex(levelFiles, files) {
          BoundaryIsConvex(levelFiles, files, largestKey, f);
        }
        ghost var k :| 0 <= k < |levelFiles| && levelFiles[k] == f;
        SmallerSet(FilesAfter(levelFiles, f.largest), FilesAfter(levelFiles, largestKey), k);
        AppendNew(|compactionFiles|, files, f);
        ChainMore(levelFiles, |compactionFiles|, files, f);
        AppendDisjoint(files, largestKey, f);
        files := files + [f];
        largestKey := f.largest;
      } else {
        searching := false;
      }
    }
    LargestDecides(levelFiles, files, largestKey);
    if Disjoint(levelFiles) && Convex(levelFiles, compactionFiles) {
      ConvexIsClosed(levelFiles, files, largestKey);
    }
  }

  /** The boundary file nearest to the end of `files` is not among them, and lies past them. */
  lemma BoundaryIsNew(levelFiles: seq<File>, files: seq<File>, largestKey: InternalKey, b: File)
    requires b.Valid() && (forall f :: f in files ==> f.Valid())
    requires IsLargestKey(files, largestKey) && b in levelFiles && IsBoundary(b, largestKey)
    ensures b !in files && !b.largest.Less(b.smallest)
    ensures IsLargestKey(files + [b], b.largest)
    ensures !ClosedInputs(levelFiles, 0, files)
    ensures FilesAfter(levelFiles, b.largest) <= FilesAfter(levelFiles, largestKey)
    ensures forall k: nat :: k < |levelFiles| && levelFiles[k] == b ==>
      k in FilesAfter(levelFiles, largestKey) && k !in FilesAfter(levelFiles, b.largest)
  {
    FileEnds(b);
    var last :| last in files && last.largest == largestKey;
    FileEnds(last);
    assert b in files + [b];
    assert !MayStay(0, files, b);
  }

  /** Adding it leaves no gap. */
  lemma BoundaryIsConvex(levelFiles: seq<File>, files: seq<File>, largestKey: InternalKey, b: File)
    requires forall f :: f in levelFiles ==> f.Valid()
    requires forall f :: f in files ==> f in levelFiles
    requires IsLargestKey(files, largestKey) && b in levelFiles && IsBoundary(b, largestKey)
    requires forall f :: f in levelFiles && IsBoundary(f, largestKey) ==> !f.smallest.Less(b.smallest)
    requires Disjoint(levelFiles) && Convex(levelFiles, files)
    ensures Convex(levelFiles, files + [b])
  {
    var last :| last in files && last.largest == largestKey;
    FileEnds(b);
    FileEnds(last);
    forall g | g in levelFiles && g !in files + [b]
      ensures Apart(files + [b], g)
    {
      assert Apart(files, g);
      FileEnds(g);
      InOrder(levelFiles, g, b);
      assert g.largest.Less(last.smallest) || last.largest.Less(g.smallest);
    }
  }

  lemma InOrder(fs: seq<File>, f: File, g: File)
    requires Disjoint(fs) && f in fs && g in fs && f != g
    ensures f.largest.Less(g.smallest) || g.largest.Less(f.smallest)
  {
    var i :| 0 <= i < |fs| && fs[i] == f;
    var j :| 0 <= j < |fs| && fs[j] == g;
    assert i < j || j < i;
  }

  lemma ConvexIsClosed(levelFiles: seq<File>, files: seq<File>, largestKey: InternalKey)
    requires forall f :: f in levelFiles ==> f.Valid()
    requires forall f :: f in files ==> f in levelFiles
    requires Convex(levelFiles, files) && IsLargestKey(files, largestKey)
    requires forall f :: f in levelFiles ==> !IsBoundary(f, largestKey)
    ensures ClosedInputs(levelFiles, 1, files)
  {
    var last :| last in files && last.largest == largestKey;
    forall g | g in levelFiles && g !in files
      ensures MayStay(1, files, g)
    {
      assert Apart(files, g);
      forall f | f in files ensures f.largest.user <= largestKey.user {}
    }
  }

  lemma ClosedAtDepth(fs: seq<File>, level: nat, cs: seq<File>)
    requires level > 0 && ClosedInputs(fs, 1, cs)
    ensures ClosedInputs(fs, level, cs)
  {
    forall g | g in fs && g !in cs
      ensures MayStay(level, cs, g)
    {
      assert MayStay(1, cs, g);
    }
  }

  // Setting up a compaction

  /** VersionSet::GetRange. */
  method GetRange(inputs: seq<File>) returns (smallest: InternalKey, largest: InternalKey)
    requires inputs != []
    ensures IsSmallestKey(inputs, smallest) && IsLargestKey(inputs, largest)
  {
    smallest, largest := inputs[0].smallest, inputs[0].largest;
    ghost var s, l := 0, 0;
    for i := 1 to |inputs|
      invariant 0 <= s < i && inputs[s].smallest == smallest
      invariant 0 <= l < i && inputs[l].largest == largest
      invariant forall j :: 0 <= j < i ==> !inputs[j].smallest.Less(smallest) && !largest.Less(inputs[j].largest)
    {
      if inputs[i].smallest.Less(smallest) {
        smallest, s := inputs[i].smallest, i;
      }
      if largest.Less(inputs[i].largest) {
        largest, l := inputs[i].largest, i;
      }
    }
    assert inputs[s] in inputs && inputs[l] in inputs;
  }

  /** `cs` reaches exactly from `lo` to `hi` in user keys. */
  ghost predicate Reaches(cs: seq<File>, lo: UserKey, hi: UserKey) {
    && (forall f :: f in cs ==> lo <= f.smallest.user && f.largest.user <= hi)
    && (exists f :: f in cs && f.smallest.user == lo)
    && (exists f :: f in cs && f.largest.user == hi)
  }

  /** The files of the next level that a compaction of `cs` takes. */
  ghost predicate Selects(cs: seq<File>, next: seq<File>, inputs1: seq<File>) {
    exists lo, hi :: Reaches(cs, lo, hi) && inputs1 == Overlapping(next, KeyRange(Some(lo), Some(hi)))
  }

  /** Inputs come without repetition at level 0 and in order elsewhere. */
  ghost predicate Listed(level: nat, cs: seq<File>) {
    if level == 0 then NewFrom(0, cs) else Disjoint(cs)
  }

  /** What a compaction of `level` starts from: an overlap-closed set at level 0, else a run of files. */
  ghost predicate StartInputs(fs: seq<File>, level: nat, cs: seq<File>) {
    && cs != []
    && (forall f :: f in cs ==> f in fs)
    && Listed(level, cs)
    && (if level == 0 then ClosedInputs(fs, 0, cs) else Convex(fs, cs))
  }

  ghost predicate ChosenInputs(v: Version, level: nat, inputs0: seq<File>, inputs1: seq<File>) {
    && level + 1 < NUM_LEVELS
    && inputs0 != []
    && Listed(level, inputs0)
    && ClosedInputs(v[level], level, inputs0)
    && Selects(inputs0, v[level + 1], inputs1)
  }

  /** A range picks an overlap-closed set at level 0 and a run of files elsewhere. */
  lemma {:induction false} RangeStarts(fs: seq<File>, level: nat, r: KeyRange)
    requires LevelOk(fs, level)
    requires level == 0 ==> ClosedRange(fs, r)
    requires Overlapping(fs, r) != []
    ensures StartInputs(fs, level, Overlapping(fs, r))
  {
    var cs := Overlapping(fs, r);
    OverlappingIn(fs, r);
    if level == 0 {
      assert forall i, j :: 0 <= j < i < |fs| ==> fs[j].Before(fs[i]);
      OverlappingKeepsDistinct(fs, r);
    } else {
      OverlappingKeepsOrder(fs, r);
    }
    forall f | f in fs ensures f.smallest.user <= f.largest.user { FileEnds(f); }
    if level > 0 {
      forall g | g in fs && g !in cs
        ensures Apart(cs, g)
      {
        forall f | f in cs ensures f.largest.Less(g.smallest) || g.largest.Less(f.smallest) { InOrder(fs, f, g); }
      }
    }
  }

  lemma ReachesRange(cs: seq<File>, smallest: InternalKey, largest: InternalKey)
    requires IsSmallestKey(cs, smallest) && IsLargestKey(cs, largest)
    ensures Reaches(cs, smallest.user, largest.user)
  {
  }

  /** Growing the files only grows the range they reach. */
  lemma ReachesGrows(cs: seq<File>, more: seq<File>, lo: UserKey, hi: UserKey, lo': UserKey, hi': UserKey)
    requires forall f :: f in cs ==> f in more
    requires Reaches(cs, lo, hi) && Reaches(more, lo', hi')
    ensures lo' <= lo && hi <= hi'
  {
  }

  /** AddBoundaryInputs on the files a compaction starts from. */
  method CloseInputs(v: Version, level: nat, start: seq<File>) returns (files: seq<File>)
    requires LevelInvariant(v) && level < NUM_LEVELS && StartInputs(v[level], level, start)
    ensures ClosedInputs(v[level], level, files) && Listed(level, files)
    ensures IsClosure(v[level], start, files)
    ensures start <= files && files != [] && forall f :: f in start ==> f in files
  {
    assert LevelOk(v[level], level);
    files := AddBoundaryInputs(v[level], start);
    if level > 0 {
      ClosedAtDepth(v[level], level, files);
    }
    assert start == files[..|start|];
  }

  /** Files inside a wider reach are picked by the range of that reach. */
  lemma {:induction false} WiderReachTakes(fs: seq<File>, cs: seq<File>, more: seq<File>, lo: UserKey, hi: UserKey)
    requires forall f :: f in fs ==> f.Valid()
    requires forall f :: f in cs ==> f in fs && f in more
    requires Reaches(more, lo, hi)
    ensures forall f :: f in cs ==> f in Overlapping(fs, KeyRange(Some(lo), Some(hi)))
  {
    OverlappingIn(fs, KeyRange(Some(lo), Some(hi)));
    forall f | f in cs
      ensures KeyRange(Some(lo), Some(hi)).Meets(f)
    {
      FileEnds(f);
    }
  }

  lemma {:induction false} WiderRangeTakes(fs: seq<File>, cs: seq<File>, r: KeyRange, wide: KeyRange)
    requires wide.Includes(r) && forall f :: f in cs ==> f in Overlapping(fs, r)
    ensures forall f :: f in cs ==> f in Overlapping(fs, wide)
  {
    OverlappingIn(fs, r);
    OverlappingIn(fs, wide);
  }

  /** What the files of `level` grow to: those within the reach of all inputs, and what continues them. */
  ghost predicate WouldGrow(v: Version, level: nat, inputs: seq<File>, more: seq<File>)
    requires level < NUM_LEVELS
  {
    exists lo, hi, range :: Reaches(inputs, lo, hi) && PicksRange(v[level], level, KeyRange(Some(lo), Some(hi)), range) &&
      IsClosure(v[level], Overlapping(v[level], range), more)
  }

  /** They grow if that takes more files, not too many bytes, and leaves as many files of the next level. */
  ghost predicate MayGrow(v: Version, level: nat, inputs0: seq<File>, inputs1: seq<File>, more: seq<File>,
                          targetFileSize: nat)
    requires level + 1 < NUM_LEVELS
  {
    && |more| > |inputs0|
    && TotalFileSize(inputs1) + TotalFileSize(more) < ExpandedCompactionByteSizeLimit(targetFileSize)
    && exists next :: Selects(more, v[level + 1], next) && |next| == |inputs1|
  }

  ghost predicate Grown(v: Version, level: nat, inputs0: seq<File>, inputs1: seq<File>, targetFileSize: nat,
                        grown: seq<File>)
    requires level + 1 < NUM_LEVELS
  {
    exists more :: WouldGrow(v, level, inputs0 + inputs1, more) &&
      grown == if MayGrow(v, level, inputs0, inputs1, more, targetFileSize) then more else inputs0
  }

  lemma ReachIsUnique(cs: seq<File>, lo: UserKey, hi: UserKey, lo': UserKey, hi': UserKey)
    requires Reaches(cs, lo, hi) && Reaches(cs, lo', hi')
    ensures lo == lo' && hi == hi'
  {
  }

  lemma OnlyOneSelected(cs: seq<File>, next: seq<File>, selected: seq<File>)
    requires Selects(cs, next, selected)
    ensures forall other :: Selects(cs, next, other) ==> other == selected
  {
    forall other | Selects(cs, next, other) ensures other == selected {
      var lo, hi :| Reaches(cs, lo, hi) && selected == Overlapping(next, KeyRange(Some(lo), Some(hi)));
      var lo', hi' :| Reaches(cs, lo', hi') && other == Overlapping(next, KeyRange(Some(lo'), Some(hi')));
      ReachIsUnique(cs, lo, hi, lo', hi');
    }
  }

  /** What the files would grow to. */
  method GrownInputs(v: Version, level: nat, inputs0: seq<File>, inputs1: seq<File>) returns (expanded0: seq<File>)
    requires LevelInvariant(v) && ChosenInputs(v, level, inputs0, inputs1)
    ensures ClosedInputs(v[level], level, expanded0) && Listed(level, expanded0)
    ensures forall f :: f in inputs0 ==> f in expanded0
    ensures WouldGrow(v, level, inputs0 + inputs1, expanded0)
  {
    assert LevelOk(v[level], level);
    var allStart, allLimit := GetRange(inputs0 + inputs1);
    ReachesRange(inputs0 + inputs1, allStart, allLimit);
    ghost var start, range := KeyRange(Some(allStart.user), Some(allLimit.user)), KeyRange(None, None);
    expanded0, range := GetOverlappingInputs(v[level], level, Some(allStart.user), Some(allLimit.user));
    WiderReachTakes(v[level], inputs0, inputs0 + inputs1, allStart.user, allLimit.user);
    WiderRangeTakes(v[level], inputs0, start, range);
    assert inputs0[0] in expanded0;
    RangeStarts(v[level], level, range);
    expanded0 := CloseInputs(v, level, expanded0);
    forall f | f in inputs0 ensures f in expanded0 {}
  }

  /** The part of SetupOtherInputs that grows `inputs0` while the files of the next level stay the same. */
  method GrowInputs(v: Version, level: nat, inputs0: seq<File>, inputs1: seq<File>, targetFileSize: nat)
      returns (grown: seq<File>)
    requires LevelInvariant(v) && ChosenInputs(v, level, inputs0, inputs1)
    ensures ChosenInputs(v, level, grown, inputs1)
    ensures forall f :: f in inputs0 ==> f in grown
    ensures Grown(v, level, inputs0, inputs1, targetFileSize, grown)
  {
    var expanded0 := GrownInputs(v, level, inputs0, inputs1);
    grown := inputs0;
    if |expanded0| > |inputs0| &&
       TotalFileSize(inputs1) + TotalFileSize(expanded0) < ExpandedCompactionByteSizeLimit(targetFileSize)
    {
      var same := PicksSame(v, level, inputs0, inputs1, expanded0);
      if same {
        grown := expanded0;
      }
    }
    assert grown == if MayGrow(v, level, inputs0, inputs1, expanded0, targetFileSize) then expanded0 else inputs0;
  }

  /** Whether the grown inputs pick as many files of the next level as before. */
  method PicksSame(v: Version, level: nat, inputs0: seq<File>, inputs1: seq<File>, expanded0: seq<File>)
      returns (same: bool)
    requires LevelInvariant(v) && level + 1 < NUM_LEVELS && Selects(inputs0, v[level + 1], inputs1)
    requires expanded0 != [] && forall f :: f in inputs0 ==> f in expanded0
    ensures same <==> exists next :: Selects(expanded0, v[level + 1], next) && |next| == |inputs1|
    ensures same ==> Selects(expanded0, v[level + 1], inputs1)
  {
    assert LevelOk(v[level + 1], level + 1);
    var newStart, newLimit := GetRange(expanded0);
    ReachesRange(expanded0, newStart, newLimit);
    var expanded1, range1 := GetOverlappingInputs(v[level + 1], level + 1, Some(newStart.user), Some(newLimit.user));
    assert Selects(expanded0, v[level + 1], expanded1);
    OnlyOneSelected(expanded0, v[level + 1], expanded1);
    same := |expanded1| == |inputs1|;
    if same {
      SameSizeSameFiles(inputs0, expanded0, v[level + 1], inputs1, newStart.user, newLimit.user);
    }
  }

  /** If the grown inputs pick as many files of the next level as before, they pick the same files. */
  lemma {:induction false} SameSizeSameFiles(cs: seq<File>, more: seq<File>, next: seq<File>, inputs1: seq<File>,
      lo: UserKey, hi: UserKey)
    requires forall f :: f in cs ==> f in more
    requires Selects(cs, next, inputs1) && Reaches(more, lo, hi)
    requires |Overlapping(next, KeyRange(Some(lo), Some(hi)))| == |inputs1|
    ensures Overlapping(next, KeyRange(Some(lo), Some(hi))) == inputs1
    ensures Selects(more, next, inputs1)
  {
    var lo0, hi0 :| Reaches(cs, lo0, hi0) && inputs1 == Overlapping(next, KeyRange(Some(lo0), Some(hi0)));
    ReachesGrows(cs, more, lo0, hi0, lo, hi);
    OverlappingGrows(next, KeyRange(Some(lo0), Some(hi0)), KeyRange(Some(lo), Some(hi)));
  }

  /**
   * VersionSet::SetupOtherInputs. Grows the inputs of `level` when that leaves the inputs of the next
   * level unchanged; `closed0` is what the inputs of `level` were before growing.
   */
  method SetupOtherInputs(v: Version, level: nat, start: seq<File>, targetFileSize: nat)
      returns (inputs0: seq<File>, inputs1: seq<File>, grandparents: seq<File>, compactPointer: InternalKey,
               ghost closed0: seq<File>)
    requires LevelInvariant(v) && level + 1 < NUM_LEVELS && StartInputs(v[level], level, start)
    ensures ChosenInputs(v, level, inputs0, inputs1)
    ensures IsClosure(v[level], start, closed0) && (forall f :: f in closed0 ==> f in inputs0)
    ensures Selects(closed0, v[level + 1], inputs1)
    ensures if inputs1 == [] then inputs0 == closed0 else Grown(v, level, closed0, inputs1, targetFileSize, inputs0)
    ensures IsLargestKey(inputs0, compactPointer)
    ensures if level + 2 < NUM_LEVELS then Selects(inputs0 + inputs1, v[level + 2], grandparents) else grandparents == []
  {
    inputs0 := CloseInputs(v, level, start);
    closed0 := inputs0;
    var smallest, largest := GetRange(inputs0);
    ReachesRange(inputs0, smallest, largest);
    ghost var range;
    assert LevelOk(v[level + 1], level + 1);
    inputs1, range := GetOverlappingInputs(v[level + 1], level + 1, Some(smallest.user), Some(largest.user));
    if inputs1 != [] {
      inputs0 := GrowInputs(v, level, inputs0, inputs1, targetFileSize);
      smallest, largest := GetRange(inputs0);
    }
    var allStart, allLimit := GetRange(inputs0 + inputs1);
    ReachesRange(inputs0 + inputs1, allStart, allLimit);
    grandparents := [];
    if level + 2 < NUM_LEVELS {
      assert LevelOk(v[level + 2], level + 2);
      grandparents, range := GetOverlappingInputs(v[level + 2], level + 2, Some(allStart.user), Some(allLimit.user));
    }
    compactPointer := largest;
  }

  /** The first file past the compact pointer, or the first of all when none is. */
  ghost predicate IsNextFile(files: seq<File>, compactPointer: Option<InternalKey>, k: nat) {
    && k < |files|
    && (forall j :: 0 <= j < k ==> !IsPast(compactPointer, files[j]))
    && (IsPast(compactPointer, files[k]) || (k == 0 && forall j :: 0 <= j < |files| ==> !IsPast(compactPointer, files[j])))
  }

  predicate IsPast(compactPointer: Option<InternalKey>, f: File) {
    compactPointer.None? || compactPointer.value.Less(f.largest)
  }

  /** `start` is that file, at level 0 with all that overlap it, directly or through others. */
  ghost predicate StartsWith(fs: seq<File>, level: nat, picked: File, start: seq<File>) {
    && picked in start
    && if level > 0 then start == [picked]
       else exists range :: LeastClosed(fs, KeyRange(Some(picked.smallest.user), Some(picked.largest.user)), range) &&
              start == Overlapping(fs, range)
  }

  /** VersionSet::PickCompaction, for a level chosen by its size or for a file chosen by its seeks. */
  method PickStart(v: Version, level: nat, seekFile: Option<File>, compactPointer: Option<InternalKey>)
      returns (start: seq<File>)
    requires LevelInvariant(v) && level + 1 < NUM_LEVELS && v[level] != []
    requires seekFile.Some? ==> seekFile.value in v[level]
    ensures StartInputs(v[level], level, start)
    ensures seekFile.Some? ==> StartsWith(v[level], level, seekFile.value, start)
    ensures seekFile.None? ==>
      exists k: nat :: IsNextFile(v[level], compactPointer, k) && StartsWith(v[level], level, v[level][k], start)
  {
    var files := v[level];
    assert LevelOk(files, level);
    ghost var n := 0;
    if seekFile.Some? {
      start := [seekFile.value];
    } else {
      start := [];
      var i := 0;
      while i < |files| && start == []
        invariant 0 <= i <= |files|
        invariant start == [] ==> forall j :: 0 <= j < i ==> !IsPast(compactPointer, files[j])
        invariant start != [] ==> IsNextFile(files, compactPointer, n) && start == [files[n]]
      {
        if compactPointer.None? || compactPointer.value.Less(files[i].largest) {
          start := [files[i]];
          n := i;
        }
        i := i + 1;
      }
      if start == [] {
        start := [files[0]];
      }
    }
    var picked := start[0];
    start := FromPicked(files, level, picked);
  }

  /** A file to start from; at level 0 files may overlap, so all overlapping ones are picked up. */
  method FromPicked(files: seq<File>, level: nat, picked: File) returns (start: seq<File>)
    requires LevelOk(files, level) && picked in files
    ensures StartInputs(files, level, start) && StartsWith(files, level, picked, start)
  {
    FileEnds(picked);
    start := [picked];
    if level == 0 {
      var smallest, largest := GetRange(start);
      ghost var range;
      start, range := GetOverlappingInputs(files, 0, Some(smallest.user), Some(largest.user));
      OverlappingIn(files, range);
      assert picked in start by { assert range.Meets(picked); }
      RangeStarts(files, 0, range);
    } else {
      forall g | g in files && g != picked
        ensures g.largest.Less(picked.smallest) || picked.largest.Less(g.smallest)
      {
        InOrder(files, g, picked);
      }
    }
  }

  lemma {:induction false} TotalAppend(files: seq<File>, f: File)
    ensures TotalFileSize(files + [f]) == TotalFileSize(files) + f.size
  {
    if files != [] {
      assert (files + [f])[1..] == files[1..] + [f];
      TotalAppend(files[1..], f);
    }
  }

  /** The shortest prefix of `all` that reaches `limit` in bytes, or all. */
  ghost predicate IsLimited(all: seq<File>, limit: nat, files: seq<File>) {
    && files <= all
    && (files == all || TotalFileSize(files) >= limit)
    && forall n :: 0 < n < |files| ==> TotalFileSize(all[..n]) < limit
  }

  /** The files VersionSet::CompactRange starts from; past level 0 it takes no more than the limit in bytes. */
  method CompactRangeStart(v: Version, level: nat, begin: Option<UserKey>, end: Option<UserKey>, limit: nat)
      returns (inputs: seq<File>, ghost range: KeyRange)
    requires LevelInvariant(v) && level + 1 < NUM_LEVELS
    ensures inputs != [] ==> StartInputs(v[level], level, inputs)
    ensures PicksRange(v[level], level, KeyRange(begin, end), range)
    ensures level == 0 ==> inputs == Overlapping(v[0], range)
    ensures level > 0 ==> IsLimited(Overlapping(v[level], range), limit, inputs)
    ensures inputs == [] <==> forall f :: f in v[level] ==> !f.Overlaps(begin, end)
  {
    assert LevelOk(v[level], level);
    inputs, range := GetOverlappingInputs(v[level], level, begin, end);
    RangeMeets(v[level], level, begin, end, range);
    if inputs == [] {
      return;
    }
    RangeStarts(v[level], level, range);
    if level > 0 {
      OverlappingKeepsOrder(v[level], range);
      ghost var all := inputs;
      inputs := Limit(inputs, limit);
      PrefixStarts(v[level], level, all, inputs);
    }
  }

  /** A range picks no file just when no file meets what it was asked for. */
  lemma {:induction false} RangeMeets(fs: seq<File>, level: nat, begin: Option<UserKey>, end: Option<UserKey>, range: KeyRange)
    requires (forall f :: f in fs ==> f.Valid()) && PicksRange(fs, level, KeyRange(begin, end), range)
    ensures Overlapping(fs, range) == [] <==> forall f :: f in fs ==> !f.Overlaps(begin, end)
  {
    OverlappingIn(fs, range);
    var start := KeyRange(begin, end);
    if f :| f in fs && f.Overlaps(begin, end) {
      assert range.Includes(start) && range.Meets(f);
      assert f in Overlapping(fs, range);
    } else {
      assert ClosedRange(fs, start) && start.Includes(start);
      assert start.Includes(range);
      forall f | f in fs ensures !range.Meets(f) { assert !start.Meets(f); }
      NoneOverlaps(fs, range);
    }
  }

  lemma {:induction false} NoneOverlaps(fs: seq<File>, range: KeyRange)
    requires forall f :: f in fs ==> !range.Meets(f)
    ensures Overlapping(fs, range) == []
  {
    if fs != [] {
      NoneOverlaps(fs[..|fs| - 1], range);
    }
  }

  /** Avoids compacting too much in one shot. */
  method Limit(all: seq<File>, limit: nat) returns (inputs: seq<File>)
    requires all != []
    ensures inputs != [] && IsLimited(all, limit, inputs)
  {
    inputs := all;
    var total, i := 0, 0;
    while i < |inputs|
      invariant 0 <= i <= |all| && inputs == all && total == TotalFileSize(all[..i])
      invariant forall n :: 0 < n <= i ==> TotalFileSize(all[..n]) < limit
    {
      assert all[..i + 1] == all[..i] + [all[i]];
      TotalAppend(all[..i], all[i]);
      total := total + inputs[i].size;
      if total >= limit {
        inputs := inputs[..i + 1];
        break;
      }
      i := i + 1;
    }
  }

  lemma PrefixStarts(fs: seq<File>, level: nat, all: seq<File>, cs: seq<File>)
    requires LevelOk(fs, level) && level > 0 && StartInputs(fs, level, all) && Disjoint(all)
    requires cs <= all && cs != []
    ensures StartInputs(fs, level, cs)
  {
    assert forall f :: f in cs ==> f in all;
    forall g | g in fs && g !in cs
      ensures Apart(cs, g)
    {
      assert g !in all ==> Apart(all, g);
      if g in all {
        var j :| 0 <= j < |all| && all[j] == g;
        assert j >= |cs| by { assert forall i :: 0 <= i < |cs| ==> cs[i] in cs; }
        forall f | f in cs
          ensures f.largest.Less(g.smallest)
        {
          var i :| 0 <= i < |cs| && cs[i] == f;
          assert all[i] == f;
        }
      }
    }
  }

  /** No file of these has a key between the bounds. */
  ghost predicate ClearOf(fs: seq<File>, lo: UserKey, hi: UserKey) {
    forall f :: f in fs ==> !f.Overlaps(Some(lo), Some(hi))
  }

  /** A table may go from `level` to the next: it meets nothing there, and not too many bytes one further down. */
  ghost predicate MayDescend(v: Version, level: nat, lo: UserKey, hi: UserKey, targetFileSize: nat)
    requires level + 2 < NUM_LEVELS
  {
    && ClearOf(v[level + 1], lo, hi)
    && TotalFileSize(Overlapping(v[level + 2], KeyRange(Some(lo), Some(hi)))) <= MaxGrandParentOverlapBytes(targetFileSize)
  }

  /** Version::PickLevelForMemTableOutput: as deep as the table may go, down to the level that limits it. */
  method PickLevelForMemTableOutput(v: Version, lo: UserKey, hi: UserKey, targetFileSize: nat) returns (level: nat)
    requires LevelInvariant(v)
    ensures level <= MAX_MEM_COMPACT_LEVEL
    ensures level > 0 ==> forall l :: 0 <= l <= level ==> ClearOf(v[l], lo, hi)
    ensures forall l :: 0 <= l < level ==> MayDescend(v, l, lo, hi, targetFileSize)
    ensures || level == MAX_MEM_COMPACT_LEVEL
            || (level == 0 && !ClearOf(v[0], lo, hi))
            || !MayDescend(v, level, lo, hi, targetFileSize)
  {
    level := 0;
    assert LevelOk(v[0], 0);
    var overlap := VersionGet.SomeFileOverlapsRange(false, v[0], Some(lo), Some(hi));
    if !overlap {
      while level < MAX_MEM_COMPACT_LEVEL
        invariant level <= MAX_MEM_COMPACT_LEVEL
        invariant forall l :: 0 <= l <= level ==> ClearOf(v[l], lo, hi)
        invariant forall l :: 0 <= l < level ==> MayDescend(v, l, lo, hi, targetFileSize)
      {
        assert LevelOk(v[level + 1], level + 1);
        overlap := VersionGet.SomeFileOverlapsRange(true, v[level + 1], Some(lo), Some(hi));
        if overlap {
          break;
        }
        if level + 2 < NUM_LEVELS {
          assert LevelOk(v[level + 2], level + 2);
          var overlaps, _ := GetOverlappingInputs(v[level + 2], level + 2, Some(lo), Some(hi));
          if TotalFileSize(overlaps) > MaxGrandParentOverlapBytes(targetFileSize) {
            break;
          }
        }
        level := level + 1;
      }
    }
  }
}
