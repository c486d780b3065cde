/** Point lookups: binary search in a level, Version::Get and DBImpl::Get. */
module VersionGet {
  import opened DbFormat
  import opened Versions

  datatype SaverState = NotFound | Found(value: Bytes) | Deleted

  /**
   * MemTable::Get, and TableCache::Get with SaveValue: seek among sorted entries and look at the one the
   * seek lands on; NotFound when the key is not there at all.
   */
  function RunGet(es: seq<Entry>, u: UserKey, s: SequenceNumber): SaverState {
    var i := SeekIndex(es, LookupKey(u, s));
    if i == |es| || es[i].key.user != u then NotFound
    else if es[i].key.kind.Value? then Found(es[i].value)
    else Deleted
  }

  predicate SortedRun(files: seq<File>) {
    (forall f :: f in files ==> f.Valid()) && Disjoint(files)
  }

  /** Binary search for the first file whose largest key is at or after `key`. */
  method FindFile(files: seq<File>, key: InternalKey) returns (right: nat)
    requires SortedRun(files)
    ensures right <= |files|
    ensures forall i :: 0 <= i < right ==> files[i].largest.Less(key)
    ensures forall i :: right <= i < |files| ==> !files[i].largest.Less(key)
  {
    var left := 0;
    right := |files|;
    while left < right
      invariant 0 <= left <= right <= |files|
      invariant forall i :: 0 <= i < left ==> files[i].largest.Less(key)
      invariant forall i :: right <= i < |files| ==> !files[i].largest.Less(key)
    {
      var mid := (left + right) / 2;
      forall i | 0 <= i < |files|
        ensures i < mid ==> files[i].largest.Less(files[mid].largest)
        ensures mid < i ==> files[mid].largest.Less(files[i].largest)
      {
        FileEnds(files[i]);
        FileEnds(files[mid]);
      }
      if files[mid].largest.Less(key) {
        left := mid + 1;
      } else {
        right := mid;
      }
    }
  }

  /** Whether some file meets the user keys from `lo` to `hi`, by scan or by binary search. */
  method SomeFileOverlapsRange(disjointSortedFiles: bool, files: seq<File>, lo: Option<UserKey>, hi: Option<UserKey>)
      returns (r: bool)
    requires forall f :: f in files ==> f.Valid()
    requires disjointSortedFiles ==> Disjoint(files)
    ensures r <==> exists f :: f in files && f.Overlaps(lo, hi)
  {
    if !disjointSortedFiles {
      for i := 0 to |files|
        invariant forall j :: 0 <= j < i ==> !files[j].Overlaps(lo, hi)
      {
        if files[i].Overlaps(lo, hi) {
          return true;
        }
      }
      return false;
    }
    var index := 0;
    if lo.Some? {
      index := FindFile(files, LookupKey(lo.value, MAX_SEQUENCE));
    }
    if index >= |files| {
      return false;
    }
    r := hi.None? || !(hi.value < files[index].smallest.user);
    assert r ==> files[index].Overlaps(lo, hi) by { FileEnds(files[index]); }
    forall f | f in files && f.Overlaps(lo, hi)
      ensures r
    {
      var j :| 0 <= j < |files| && files[j] == f;
      FileEnds(files[index]);
      FileEnds(f);
      assert index < j ==> files[index].largest.Less(files[j].smallest);
    }
  }

  predicate DistinctNumbers(fs: seq<File>) {
    forall i, j :: 0 <= i < j < |fs| ==> fs[i].number != fs[j].number
  }

  predicate NewestFirst(fs: seq<File>) {
    forall i, j :: 0 <= i < j < |fs| ==> fs[i].number > fs[j].number
  }

  function InsertNewestFirst(f: File, fs: seq<File>): (r: seq<File>)
    requires NewestFirst(fs) && forall g :: g in fs ==> g.number != f.number
    ensures forall g :: g in r <==> g in fs || g == f
    ensures NewestFirst(r)
  {
    if fs == [] || f.number > fs[0].number then [f] + fs
    else
      var rest := InsertNewestFirst(f, fs[1..]);
      RestIsOlder(f, fs, rest);
      [fs[0]] + rest
  }

  lemma RestIsOlder(f: File, fs: seq<File>, rest: seq<File>)
    requires fs != [] && NewestFirst(fs) && f.number < fs[0].number
    requires forall g :: g in rest ==> g in fs[1..] || g == f
    ensures forall k :: 0 <= k < |rest| ==> rest[k].number < fs[0].number
  {
    forall k | 0 <= k < |rest| ensures rest[k].number < fs[0].number {
      assert rest[k] in rest;
      if rest[k] != f {
        var j :| 0 <= j < |fs[1..]| && fs[1..][j] == rest[k];
        assert fs[j + 1] == rest[k];
      }
    }
  }

  /** std::sort with NewestFirst. */
  function SortNewestFirst(fs: seq<File>): (r: seq<File>)
    requires DistinctNumbers(fs)
    ensures forall g :: g in r <==> g in fs
    ensures NewestFirst(r)
  {
    if fs == [] then [] else InsertNewestFirst(fs[0], SortNewestFirst(fs[1..]))
  }

  /** The files `cs` to search, in order, hold the newest visible entry of the level if there is one. */
  ghost predicate Candidates(fs: seq<File>, cs: seq<File>, u: UserKey, s: SequenceNumber) {
    && (forall f :: f in cs ==> f in fs)
    && (forall m :: IsNewest(LevelEntries(fs), u, s, m) ==> exists i :: 0 <= i < |cs| && m in cs[i].entries)
    && (forall i, j :: 0 <= i < j < |cs| ==> HoldsNewer(cs[i], cs[j]))
  }

  ghost predicate NoneVisible(es: set<Entry>, u: UserKey, s: SequenceNumber) {
    forall e :: e in es ==> !Visible(e, u, s)
  }

  /** Level 0: the files around `u`, newest first. */
  method LevelZeroFiles(fs: seq<File>, u: UserKey, s: SequenceNumber) returns (cs: seq<File>)
    requires LevelOk(fs, 0)
    ensures Candidates(fs, cs, u, s)
  {
    var tmp: seq<File> := [];
    for i := 0 to |fs|
      invariant forall f :: f in tmp ==> f in fs[..i]
      invariant forall j :: 0 <= j < i && fs[j].smallest.user <= u <= fs[j].largest.user ==> fs[j] in tmp
      invariant DistinctNumbers(tmp)
    {
      assert forall j :: 0 <= j < i ==> fs[j].Before(fs[i]) && fs[j].number != fs[i].number;
      assert forall j :: 0 <= j < |tmp| ==> tmp[j] in fs[..i];
      if fs[i].smallest.user <= u <= fs[i].largest.user {
        tmp := tmp + [fs[i]];
      }
    }
    cs := SortNewestFirst(tmp);
    forall f | f in fs && f.smallest.user <= u <= f.largest.user ensures f in cs {
      var j :| 0 <= j < |fs| && fs[j] == f;
      assert f in tmp;
    }
    NewestIsIn(fs, cs, u, s);
  }

  lemma NewestIsIn(fs: seq<File>, cs: seq<File>, u: UserKey, s: SequenceNumber)
    requires LevelOk(fs, 0) && forall f :: f in fs && f.smallest.user <= u <= f.largest.user ==> f in cs
    ensures forall m :: IsNewest(LevelEntries(fs), u, s, m) ==> exists i :: 0 <= i < |cs| && m in cs[i].entries
  {
    forall m | IsNewest(LevelEntries(fs), u, s, m)
      ensures exists i :: 0 <= i < |cs| && m in cs[i].entries
    {
      var f :| f in fs && m in f.entries;
      FileBounds(f, m);
      assert f in cs;
    }
  }

  /**
   * In a sorted level the newest visible entry is in the first file that ends at or after the target:
   * were that file an earlier one, its last entry would be visible and newer.
   */
  lemma SearchedFileHoldsNewest(fs: seq<File>, index: nat, u: UserKey, s: SequenceNumber, m: Entry)
    requires SortedRun(fs) && IsNewest(LevelEntries(fs), u, s, m) && index <= |fs|
    requires forall i :: 0 <= i < index ==> fs[i].largest.Less(LookupKey(u, s))
    requires index < |fs| ==> !fs[index].largest.Less(LookupKey(u, s))
    ensures index < |fs| && m in fs[index].entries && fs[index].smallest.user <= u
  {
    var f :| f in fs && m in f.entries;
    var k :| 0 <= k < |fs| && fs[k] == f;
    FileBounds(f, m);
    assert !(k < index);
    var found := fs[index];
    FileEnds(found);
    var last := found.entries[|found.entries| - 1];
    assert last in LevelEntries(fs);
    assert index < k ==> found.largest.Less(f.smallest);
  }

  /** Deeper levels: the one file a binary search finds, if it starts at or before `u`. */
  method SortedLevelFiles(fs: seq<File>, level: nat, u: UserKey, s: SequenceNumber) returns (cs: seq<File>)
    requires level > 0 && LevelOk(fs, level)
    ensures Candidates(fs, cs, u, s)
  {
    var index := FindFile(fs, LookupKey(u, s));
    if index >= |fs| || u < fs[index].smallest.user {
      cs := [];
    } else {
      cs := [fs[index]];
    }
    forall m | IsNewest(LevelEntries(fs), u, s, m)
      ensures |cs| == 1 && m in cs[0].entries
    {
      SearchedFileHoldsNewest(fs, index, u, s, m);
    }
  }

  lemma FoundInLevel(v: Version, l: nat, cs: seq<File>, i: nat, u: UserKey, s: SequenceNumber)
    requires LevelInvariant(v) && l < NUM_LEVELS && Candidates(v[l], cs, u, s)
    requires forall k :: 0 <= k < l ==> NoneVisible(LevelEntries(v[k]), u, s)
    requires i < |cs| && forall k :: 0 <= k < i ==> NoneVisible(Elements(cs[k].entries), u, s)
    requires RunGet(cs[i].entries, u, s) != NotFound
    ensures IsNewest(VersionEntries(v), u, s, cs[i].entries[SeekIndex(cs[i].entries, LookupKey(u, s))])
  {
    var f := cs[i];
    assert LevelOk(v[l], l) && f in v[l] && f.Valid();
    SeekFindsNewest(f.entries, u, s);
    var e := f.entries[SeekIndex(f.entries, LookupKey(u, s))];
    assert e in LevelEntries(v[l]);
    var m := NewestExists(LevelEntries(v[l]), u, s, e);
    var k :| 0 <= k < |cs| && m in cs[k].entries;
    var g := cs[k];
    assert m in Elements(g.entries) && e in Elements(f.entries);
    assert k < i ==> NoneVisible(Elements(g.entries), u, s);
    assert i < k ==> HoldsNewer(f, g);
    assert IsNewest(LevelEntries(v[l]), u, s, e);
    forall x | x in VersionEntries(v) && Visible(x, u, s)
      ensures x.key.Tag() <= e.key.Tag()
    {
      var j :| 0 <= j < NUM_LEVELS && x in LevelEntries(v[j]);
      assert l <= j;
      assert l < j ==> LevelsNewer(v, l, j);
    }
  }

  /** Version::Get: search level by level and stop at the first table that knows the key. */
  method Get(v: Version, u: UserKey, s: SequenceNumber) returns (found: bool, r: Option<Bytes>)
    requires LevelInvariant(v)
    ensures r == Read(VersionEntries(v), u, s)
    ensures !found ==> NoneVisible(VersionEntries(v), u, s)
  {
    VersionUnique(v);
    for level := 0 to NUM_LEVELS
      invariant forall k :: 0 <= k < level ==> NoneVisible(LevelEntries(v[k]), u, s)
    {
      var files;
      assert LevelOk(v[level], level);
      if level == 0 {
        files := LevelZeroFiles(v[0], u, s);
      } else {
        files := SortedLevelFiles(v[level], level, u, s);
      }
      for i := 0 to |files|
        invariant forall k :: 0 <= k < i ==> NoneVisible(Elements(files[k].entries), u, s)
      {
        assert files[i] in v[level];
        SeekFindsNewest(files[i].entries, u, s);
        var state := RunGet(files[i].entries, u, s);
        if state != NotFound {
          FoundInLevel(v, level, files, i, u, s);
          ReadIs(VersionEntries(v), u, s, files[i].entries[SeekIndex(files[i].entries, LookupKey(u, s))]);
          return true, if state.Found? then Some(state.value) else None;
        }
      }
      forall e | e in LevelEntries(v[level]) && Visible(e, u, s)
        ensures false
      {
        var m := NewestExists(LevelEntries(v[level]), u, s, e);
      }
    }
    return false, None;
  }

  lemma MemTableReads(mem: seq<Entry>, u: UserKey, s: SequenceNumber)
    requires Sorted(mem)
    ensures RunGet(mem, u, s) == NotFound <==> NoneVisible(Elements(mem), u, s)
    ensures RunGet(mem, u, s).Found? ==> Read(Elements(mem), u, s) == Some(RunGet(mem, u, s).value)
    ensures RunGet(mem, u, s).Deleted? ==> Read(Elements(mem), u, s) == None
  {
    SeekFindsNewest(mem, u, s);
    SortedIsUnique(mem);
    var i := SeekIndex(mem, LookupKey(u, s));
    if RunGet(mem, u, s) != NotFound {
      ReadIs(Elements(mem), u, s, mem[i]);
      assert Visible(mem[i], u, s);
    }
  }

  ghost function AllEntries(mem: seq<Entry>, imm: Option<seq<Entry>>, v: Version): set<Entry> {
    Elements(mem) + ((if imm.Some? then Elements(imm.value) else {}) + VersionEntries(v))
  }

  /** DBImpl::Get: memtable, then immutable memtable, then the version. */
  method DbGet(mem: seq<Entry>, imm: Option<seq<Entry>>, v: Version, u: UserKey, s: SequenceNumber)
      returns (r: Option<Bytes>)
    requires Sorted(mem) && (imm.Some? ==> Sorted(imm.value)) && LevelInvariant(v)
    requires imm.Some? ==> Newer(Elements(imm.value), VersionEntries(v))
    requires Newer(Elements(mem), (if imm.Some? then Elements(imm.value) else {}) + VersionEntries(v))
    ensures r == Read(AllEntries(mem, imm, v), u, s)
  {
    ghost var older := if imm.Some? then Elements(imm.value) else {};
    SortedIsUnique(mem);
    if imm.Some? { SortedIsUnique(imm.value); }
    VersionUnique(v);
    UniqueUnion(older, VersionEntries(v));
    UniqueUnion(Elements(mem), older + VersionEntries(v));
    ReadUnion(older, VersionEntries(v), u, s);
    ReadUnion(Elements(mem), older + VersionEntries(v), u, s);
    MemTableReads(mem, u, s);
    var state := RunGet(mem, u, s);
    if state != NotFound {
      return if state.Found? then Some(state.value) else None;
    }
    if imm.Some? {
      MemTableReads(imm.value, u, s);
      state := RunGet(imm.value, u, s);
      if state != NotFound {
        return if state.Found? then Some(state.value) else None;
      }
    }
    var found;
    found, r := Get(v, u, s);
  }
}
