/**
 * Iterators over the store (DBImpl::NewInternalIterator and NewIterator in db/db_impl.cc, Version::AddIterators
 * in db/version_set.cc): what a user iterates over is the sorted map that the history of writes describes.
 */
module StoreIterator {
  import opened DbFormat
  import opened Versions
  import opened VersionGet
  import opened Compaction
  import opened VersionChanges
  import opened Database
  import DbIter
  import Merger

  // The children of the internal iterator

  /** The children are sorted and share no entry, and hold exactly `es`. */
  ghost predicate Cover(children: seq<seq<Entry>>, es: set<Entry>) {
    && (forall i :: 0 <= i < |children| ==> Sorted(children[i]) && Elements(children[i]) <= es)
    && (forall i, j {:trigger Elements(children[i]), Elements(children[j])} :: 0 <= i < j < |children| ==>
          Elements(children[i]) !! Elements(children[j]))
    && (forall e {:trigger Merger.InSome(children, e)} :: e in es ==> Merger.InSome(children, e))
  }

  lemma CoverMore(children: seq<seq<Entry>>, es: set<Entry>, child: seq<Entry>)
    requires Cover(children, es) && Sorted(child) && Elements(child) !! es
    ensures Cover(children + [child], es + Elements(child))
  {
    var more := children + [child];
    forall e | e in es + Elements(child) ensures Merger.InSome(more, e) {
      if e in es {
        assert Merger.InSome(children, e);
        var i :| 0 <= i < |children| && e in children[i];
        assert e in more[i];
      } else {
        assert e in more[|children|];
      }
    }
  }

  /** Entries with distinct keys can be merged from such children. */
  lemma CoverMerges(children: seq<seq<Entry>>, es: set<Entry>, merged: seq<Entry>)
    requires Cover(children, es) && UniqueKeys(es) && Sorted(merged) && Elements(merged) == es
    ensures Merger.IsMerge(children, merged)
  {
    forall i | 0 <= i < |children| ensures Merger.Part(children[i], merged) {
      forall e | e in children[i] ensures e in merged { assert e in Elements(children[i]) && e in Elements(merged); }
    }
    forall i, j | 0 <= i < |children| && 0 <= j < |children| && i != j
      ensures Merger.NoCommonKey(children[i], children[j])
    {
      NoneInCommon(children, es, if i < j then i else j, if i < j then j else i);
    }
    forall e | e in merged ensures Merger.InSome(children, e) { assert e in Elements(merged); }
  }

  lemma NoneInCommon(children: seq<seq<Entry>>, es: set<Entry>, i: nat, j: nat)
    requires Cover(children, es) && UniqueKeys(es) && i < j < |children|
    ensures Merger.NoCommonKey(children[i], children[j]) && Merger.NoCommonKey(children[j], children[i])
  {
    forall e, x | e in children[i] && x in children[j] ensures e.key != x.key {
      assert e in Elements(children[i]) && x in Elements(children[j]);
    }
  }

  ghost function LevelsUpTo(v: Version, n: nat): set<Entry>
    requires n <= NUM_LEVELS
  {
    set l, e | 0 <= l < n && e in LevelEntries(v[l]) :: e
  }

  lemma OneMoreLevel(v: Version, n: nat)
    requires LevelInvariant(v) && n < NUM_LEVELS
    ensures LevelsUpTo(v, n + 1) == LevelsUpTo(v, n) + LevelEntries(v[n])
    ensures LevelsUpTo(v, n) !! LevelEntries(v[n])
  {
    forall e | e in LevelsUpTo(v, n) ensures e !in LevelEntries(v[n]) {
      var l :| 0 <= l < n && e in LevelEntries(v[l]);
      assert LevelsNewer(v, l, n);
    }
  }

  lemma OneMoreFile(fs: seq<File>, i: nat)
    requires LevelOk(fs, 0) && i < |fs|
    ensures LevelEntries(fs[..i + 1]) == LevelEntries(fs[..i]) + Elements(fs[i].entries)
    ensures LevelEntries(fs[..i]) !! Elements(fs[i].entries)
  {
    assert fs[..i + 1] == fs[..i] + [fs[i]];
    LevelEntriesAppend(fs[..i], fs[i]);
    forall e | e in LevelEntries(fs[..i]) ensures e !in fs[i].entries {
      var f :| f in fs[..i] && e in f.entries;
      assert f in fs && f.number != fs[i].number;
      if e in fs[i].entries { KeyInOneFile(fs, 0, f, fs[i], e, e); }
    }
  }

  /** Version::AddIterators: one child for each file of level 0, one for each other level that is not empty. */
  method AddIterators(v: Version, iters: seq<seq<Entry>>, ghost es: set<Entry>) returns (children: seq<seq<Entry>>)
    requires LevelInvariant(v) && Cover(iters, es) && es !! VersionEntries(v)
    ensures Cover(children, es + VersionEntries(v))
  {
    children := iters;
    assert LevelOk(v[0], 0);
    assert LevelEntries(v[0][..0]) == {};
    for i := 0 to |v[0]|
      invariant Cover(children, es + LevelEntries(v[0][..i]))
    {
      OneMoreFile(v[0], i);
      FileInVersion(v, 0, v[0][i]);
      CoverMore(children, es + LevelEntries(v[0][..i]), v[0][i].entries);
      children := children + [v[0][i].entries];
      assert es + LevelEntries(v[0][..i]) + Elements(v[0][i].entries) == es + LevelEntries(v[0][..i + 1]);
    }
    assert v[0][..|v[0]|] == v[0];
    assert LevelsUpTo(v, 1) == LevelEntries(v[0]);
    for level := 1 to NUM_LEVELS
      invariant Cover(children, es + LevelsUpTo(v, level))
    {
      OneMoreLevel(v, level);
      assert es + LevelsUpTo(v, level) + LevelEntries(v[level]) == es + LevelsUpTo(v, level + 1);
      if v[level] != [] {
        assert LevelOk(v[level], level);
        FlattenRun(v[level]);
        CoverMore(children, es + LevelsUpTo(v, level), Flatten(v[level]));
        children := children + [Flatten(v[level])];
      } else {
        assert LevelEntries(v[level]) == {};
        assert es + LevelsUpTo(v, level) == es + LevelsUpTo(v, level + 1);
      }
    }
    assert LevelsUpTo(v, NUM_LEVELS) == VersionEntries(v);
  }

  lemma FileInVersion(v: Version, l: nat, f: File)
    requires l < NUM_LEVELS && f in v[l]
    ensures Elements(f.entries) <= VersionEntries(v)
  {
    forall e | e in f.entries ensures e in VersionEntries(v) { assert e in LevelEntries(v[l]); }
  }

  /** Nothing is in two of memtable, immutable memtable and version. */
  lemma HeldApart(s: Store)
    requires Structure(s)
    ensures Elements(s.mem) !! ImmEntries(s) && Elements(s.mem) + ImmEntries(s) !! VersionEntries(s.version)
    ensures UniqueKeys(Held(s)) && Held(s) == Elements(s.mem) + ImmEntries(s) + VersionEntries(s.version)
  {
    HeldUnique(s);
  }

  /** DBImpl::NewInternalIterator: the merging iterator over everything the store holds. */
  method NewInternalIterator(db: DB) returns (iter: Merger.MergingIterator)
    requires Structure(db.State())
    ensures fresh(iter) && iter.Consistent()
    ensures Sorted(iter.merged) && Elements(iter.merged) == Held(db.State())
  {
    ghost var s := db.State();
    HeldApart(s);
    assert Cover([], {});
    CoverMore([], {}, db.mem);
    var list := [db.mem];
    assert [] + [db.mem] == list && {} + Elements(db.mem) == Elements(db.mem);
    ghost var es := Elements(db.mem);
    if db.imm.Some? {
      CoverMore(list, es, db.imm.value);
      list := list + [db.imm.value];
      es := es + Elements(db.imm.value);
    }
    assert es == Elements(s.mem) + ImmEntries(s);
    list := AddIterators(db.version, list, es);
    ghost var merged := SortEntries(Held(s));
    CoverMerges(list, Held(s), merged);
    iter := new Merger.MergingIterator(list, merged);
  }

  // What the user sees

  /** `view` is the map `m` in order: each key once, with its value. */
  ghost predicate Shows(view: seq<Entry>, m: map<UserKey, Bytes>) {
    && (forall i, j :: 0 <= i < j < |view| ==> view[i].key.user < view[j].key.user)
    && (forall u, v :: Holds(view, u, v) <==> Lookup(m, u) == Some(v))
  }

  ghost predicate Holds(view: seq<Entry>, u: UserKey, v: Bytes) {
    exists e :: e in view && e.key.user == u && e.value == v
  }

  /**
   * In every state of every run whose compactions bring nothing back: an iterator at a live snapshot or at the
   * last sequence number, over all that memtables and version hold, runs over the map that the operations up to
   * that number make.
   */
  lemma IteratorsShowHistory(run: seq<Store>, i: nat, t: SequenceNumber, merged: seq<Entry>)
    requires IsSafeRun(run) && i < |run| && Horizon(run[i]) <= t <= run[i].lastSequence
    requires Sorted(merged) && Elements(merged) == Held(run[i])
    ensures t <= |run[i].history| && Shows(DbIter.View(merged, t), Contents(run[i].history[..t]))
  {
    EveryRunIsAMap(run, i, 0.0, t);
    var view, m := DbIter.View(merged, t), Contents(run[i].history[..t]);
    forall u, v ensures Holds(view, u, v) <==> Lookup(m, u) == Some(v) {
      EveryRunIsAMap(run, i, u, t);
      DbIter.ViewIsWhatReadersSee(merged, t, u, v);
    }
    DbIter.ViewIsWhatReadersSee(merged, t, 0.0, []);
  }

  /** What an iterator shows stays what the operations up to its number make, whatever steps follow. */
  lemma {:induction false} HistoryStays(run: seq<Store>, i: nat, j: nat, t: SequenceNumber, view: seq<Entry>)
    requires IsRun(run) && i <= j < |run| && t <= |run[i].history| && Shows(view, Contents(run[i].history[..t]))
    ensures t <= |run[j].history| && Shows(view, Contents(run[j].history[..t]))
  {
    HistoryGrows(run, i, j);
    assert run[j].history[..t] == run[i].history[..t];
  }

  lemma {:induction false} HistoryGrows(run: seq<Store>, i: nat, j: nat)
    requires IsRun(run) && i <= j < |run|
    ensures run[i].history <= run[j].history
  {
    if i < j {
      HistoryGrows(run, i, j - 1);
      assert Step(run[j - 1], run[j - 1 + 1]);
      StepAddsHistory(run[j - 1], run[j]);
    }
  }

  lemma StepAddsHistory(s: Store, s2: Store)
    requires Step(s, s2)
    ensures s.history <= s2.history
  {
  }
}
