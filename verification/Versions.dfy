/**
 * Table files, versions, and the invariant every version keeps (db/version_set.cc, db/version_edit.h).
 * A version is seven levels of files. Files of level 0 may overlap; the other levels are sorted runs.
 */
module Versions {
  import opened DbFormat

  datatype File = File(number: nat, size: nat, smallest: InternalKey, largest: InternalKey, entries: seq<Entry>) {
    predicate Valid() {
      && entries != []
      && Sorted(entries)
      && smallest == entries[0].key
      && largest == entries[|entries| - 1].key
    }

    /** The file's range of user keys meets the range from `lo` to `hi`; None is unbounded. */
    predicate Overlaps(lo: Option<UserKey>, hi: Option<UserKey>) {
      (lo.Some? ==> lo.value <= largest.user) && (hi.Some? ==> smallest.user <= hi.value)
    }

    /** The order files have within a level: by smallest key, then by number. */
    predicate Before(that: File) {
      smallest.Less(that.smallest) || (smallest == that.smallest && number < that.number)
    }
  }

  type Version = v: seq<seq<File>> | |v| == NUM_LEVELS witness seq(NUM_LEVELS, _ => [])

  ghost function LevelEntries(fs: seq<File>): set<Entry> {
    set f, e | f in fs && e in f.entries :: e
  }

  ghost function VersionEntries(v: Version): set<Entry> {
    set l, e | 0 <= l < NUM_LEVELS && e in LevelEntries(v[l]) :: e
  }

  /** Later files start strictly after earlier ones end, in internal key order. */
  predicate Disjoint(fs: seq<File>) {
    forall i, j :: 0 <= i < j < |fs| ==> fs[i].largest.Less(fs[j].smallest)
  }

  predicate Ordered(fs: seq<File>) {
    forall i, j :: 0 <= i < j < |fs| ==> fs[i].Before(fs[j])
  }

  ghost predicate HoldsNewer(f: File, g: File) {
    Newer(Elements(f.entries), Elements(g.entries))
  }

  ghost predicate NewerFilesNewer(fs: seq<File>) {
    forall f, g {:trigger HoldsNewer(f, g)} :: f in fs && g in fs && f.number > g.number ==> HoldsNewer(f, g)
  }

  ghost predicate LevelOk(fs: seq<File>, level: nat) {
    && (forall f :: f in fs ==> f.Valid())
    && (forall f, g :: f in fs && g in fs && f.number == g.number ==> f == g)
    && Ordered(fs)
    && (if level == 0 then NewerFilesNewer(fs) else Disjoint(fs))
  }

  ghost predicate LevelsNewer(v: Version, i: nat, j: nat)
    requires i < NUM_LEVELS && j < NUM_LEVELS
  {
    Newer(LevelEntries(v[i]), LevelEntries(v[j]))
  }

  /** Every level is in order, and for one user key a smaller level holds the newer entries. */
  ghost predicate LevelInvariant(v: Version) {
    && (forall l {:trigger LevelOk(v[l], l)} :: 0 <= l < NUM_LEVELS ==> LevelOk(v[l], l))
    && (forall i, j {:trigger LevelsNewer(v, i, j)} :: 0 <= i < j < NUM_LEVELS ==> LevelsNewer(v, i, j))
  }

  // Consequences

  lemma FileBounds(f: File, e: Entry)
    requires f.Valid() && e in f.entries
    ensures !e.key.Less(f.smallest) && !f.largest.Less(e.key)
    ensures f.smallest.user <= e.key.user <= f.largest.user
  {
    var i :| 0 <= i < |f.entries| && f.entries[i] == e;
    assert i == 0 || f.entries[0].key.Less(f.entries[i].key);
    assert i == |f.entries| - 1 || f.entries[i].key.Less(f.entries[|f.entries| - 1].key);
  }

  lemma FileEnds(f: File)
    requires f.Valid()
    ensures f.entries[0] in f.entries && f.entries[|f.entries| - 1] in f.entries
    ensures !f.largest.Less(f.smallest) && f.smallest.user <= f.largest.user
  {
    FileBounds(f, f.entries[0]);
  }

  /** Two files of one level never hold the same key. */
  lemma KeyInOneFile(fs: seq<File>, level: nat, f: File, g: File, e: Entry, x: Entry)
    requires LevelOk(fs, level) && f in fs && g in fs && f != g
    requires e in f.entries && x in g.entries
    ensures e.key != x.key
  {
    if level == 0 {
      assert e in Elements(f.entries) && x in Elements(g.entries);
      assert f.number > g.number ==> HoldsNewer(f, g);
      assert g.number > f.number ==> HoldsNewer(g, f);
    } else {
      FileBounds(f, e);
      FileBounds(g, x);
      var i :| 0 <= i < |fs| && fs[i] == f;
      var j :| 0 <= j < |fs| && fs[j] == g;
      assert i < j || j < i;
    }
  }

  lemma LevelUnique(fs: seq<File>, level: nat)
    requires LevelOk(fs, level)
    ensures UniqueKeys(LevelEntries(fs))
  {
    forall e, x | e in LevelEntries(fs) && x in LevelEntries(fs) && e.key == x.key
      ensures e == x
    {
      var f :| f in fs && e in f.entries;
      var g :| g in fs && x in g.entries;
      if f != g {
        KeyInOneFile(fs, level, f, g, e, x);
      }
      SortedIsUnique(f.entries);
      assert e in Elements(f.entries) && x in Elements(f.entries);
    }
  }

  lemma VersionUnique(v: Version)
    requires LevelInvariant(v)
    ensures UniqueKeys(VersionEntries(v))
  {
    forall e, x | e in VersionEntries(v) && x in VersionEntries(v) && e.key == x.key
      ensures e == x
    {
      var i :| 0 <= i < NUM_LEVELS && e in LevelEntries(v[i]);
      var j :| 0 <= j < NUM_LEVELS && x in LevelEntries(v[j]);
      assert i == j by {
        assert i < j ==> LevelsNewer(v, i, j);
        assert j < i ==> LevelsNewer(v, j, i);
      }
      assert LevelOk(v[i], i);
      LevelUnique(v[i], i);
    }
  }
}
