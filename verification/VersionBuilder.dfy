/** Applying edits to a version: VersionSet::Builder, LogAndApply and the replay of a manifest. */
module VersionBuilder {
  import opened DbFormat
  import opened Versions

  datatype VersionEdit = VersionEdit(deletedFiles: set<(nat, nat)>, newFiles: seq<(nat, File)>)

  ghost function DeletedAt(e: VersionEdit, level: nat): set<nat> {
    set d | d in e.deletedFiles && d.0 == level :: d.1
  }

  ghost function AddedAt(e: VersionEdit, level: nat): set<File> {
    set a | a in e.newFiles && a.0 == level :: a.1
  }

  ghost function Numbers(fs: set<File>): set<nat> {
    set f | f in fs :: f.number
  }

  ghost function Remaining(fs: set<File>, deleted: set<nat>): set<File> {
    set f | f in fs && f.number !in deleted
  }

  predicate ValidLevels(e: VersionEdit) {
    && (forall d :: d in e.deletedFiles ==> d.0 < NUM_LEVELS)
    && (forall a :: a in e.newFiles ==> a.0 < NUM_LEVELS)
  }

  /** The builder's set of deleted numbers after one more edit: deletions first, then additions undo them. */
  ghost function DeletedAfter(deleted: set<nat>, e: VersionEdit, level: nat): set<nat> {
    (deleted + DeletedAt(e, level)) - Numbers(AddedAt(e, level))
  }

  lemma BeforeTotal(f: File, g: File)
    ensures f.Before(g) || g.Before(f) || (f.smallest == g.smallest && f.number == g.number)
  {
    if f.smallest.user == g.smallest.user && f.smallest.Tag() == g.smallest.Tag() {
      TagDeterminesKey(f.smallest, g.smallest);
    }
  }

  ghost predicate NumbersIdentify(fs: set<File>) {
    forall f, g :: f in fs && g in fs && f.number == g.number ==> f == g
  }

  /** Files of one level that can be told apart, and do not overlap past level 0. */
  ghost predicate Compatible(fs: set<File>, level: nat) {
    && (forall f :: f in fs ==> f.Valid())
    && NumbersIdentify(fs)
    && (level > 0 ==> forall f, g :: f in fs && g in fs && f != g ==>
          f.largest.Less(g.smallest) || g.largest.Less(f.smallest))
  }

  /** An ordered list is determined by its files, so a level is. */
  lemma {:induction false} OrderedUnique(a: seq<File>, b: seq<File>)
    requires Ordered(a) && Ordered(b) && Elements(a) == Elements(b)
    ensures a == b
  {
    forall f ensures f in a <==> f in b {
      assert f in a <==> f in Elements(a);
      assert f in b <==> f in Elements(b);
    }
    assert b == [] || b[0] in b;
    if a != [] {
      assert a[0] in b;
      FirstIsLeast(a, b[0]);
      FirstIsLeast(b, a[0]);
      TailElements(a);
      TailElements(b);
      OrderedUnique(a[1..], b[1..]);
      assert a == [a[0]] + a[1..] && b == [b[0]] + b[1..];
    }
  }

  lemma FirstIsLeast(a: seq<File>, f: File)
    requires Ordered(a) && f in a
    ensures f == a[0] || a[0].Before(f)
  {
  }

  lemma TailElements(a: seq<File>)
    requires a != [] && Ordered(a)
    ensures Elements(a[1..]) == Elements(a) - {a[0]}
  {
    forall f | f in Elements(a) - {a[0]}
      ensures f in Elements(a[1..])
    {
      var i :| 0 <= i < |a| && a[i] == f;
      assert a[1..][i - 1] == f;
    }
    assert forall i :: 0 <= i < |a| - 1 ==> a[0].Before(a[1..][i]);
  }

  lemma OrderedCompatibleIsOk(fs: seq<File>, level: nat)
    requires Ordered(fs) && Compatible(Elements(fs), level)
    requires level == 0 ==> NewerFilesNewer(fs)
    ensures LevelOk(fs, level)
  {
    if level > 0 {
      forall i, j | 0 <= i < j < |fs|
        ensures fs[i].largest.Less(fs[j].smallest)
      {
        assert fs[i].Before(fs[j]);
        assert fs[i] in Elements(fs) && fs[j] in Elements(fs);
        FileEnds(fs[i]);
        FileEnds(fs[j]);
      }
    }
  }

  class Builder {
    const base: Version
    var deleted: seq<set<nat>>
    var added: seq<seq<File>>

    ghost predicate Valid()
      reads this
    {
      |deleted| == NUM_LEVELS && |added| == NUM_LEVELS && forall l :: 0 <= l < NUM_LEVELS ==> Ordered(added[l])
    }

    constructor (base: Version)
      ensures Valid() && this.base == base
      ensures forall l :: 0 <= l < NUM_LEVELS ==> deleted[l] == {} && added[l] == []
    {
      this.base := base;
      deleted := seq(NUM_LEVELS, _ => {});
      added := seq(NUM_LEVELS, _ => []);
    }

    /** Builder::Apply. Adding a file that compares equal to one already there has no effect. */
    method Apply(edit: VersionEdit)
      requires Valid() && ValidLevels(edit)
      requires forall l :: 0 <= l < NUM_LEVELS ==> NumbersIdentify(Elements(added[l]) + AddedAt(edit, l))
      modifies this
      ensures Valid()
      ensures forall l :: 0 <= l < NUM_LEVELS ==> deleted[l] == DeletedAfter(old(deleted[l]), edit, l)
      ensures forall l :: 0 <= l < NUM_LEVELS ==> Elements(added[l]) == old(Elements(added[l])) + AddedAt(edit, l)
    {
      DeleteFiles(edit);
      AddFiles(edit, old(deleted));
      forall l | 0 <= l < NUM_LEVELS
        ensures AddedUpTo(edit, |edit.newFiles|, l) == AddedAt(edit, l)
      {
        assert edit.newFiles[..|edit.newFiles|] == edit.newFiles;
      }
    }

    method DeleteFiles(edit: VersionEdit)
      requires Valid() && ValidLevels(edit)
      modifies this`deleted
      ensures Valid()
      ensures forall l :: 0 <= l < NUM_LEVELS ==> deleted[l] == old(deleted[l]) + DeletedAt(edit, l)
    {
      var del := edit.deletedFiles;
      while del != {}
        invariant Valid() && del <= edit.deletedFiles
        invariant forall l: nat, n :: l < NUM_LEVELS ==>
          (n in deleted[l] <==> n in old(deleted[l]) || (l, n) in edit.deletedFiles - del)
        decreases del
      {
        var d :| d in del;
        del := del - {d};
        deleted := deleted[d.0 := deleted[d.0] + {d.1}];
      }
      forall l | 0 <= l < NUM_LEVELS
        ensures deleted[l] == old(deleted[l]) + DeletedAt(edit, l)
      {
        assert forall n :: n in DeletedAt(edit, l) <==> (l, n) in edit.deletedFiles;
      }
    }

    method AddFiles(edit: VersionEdit, ghost deleted0: seq<set<nat>>)
      requires Valid() && ValidLevels(edit) && |deleted0| == NUM_LEVELS
      requires forall l :: 0 <= l < NUM_LEVELS ==> deleted[l] == deleted0[l] + DeletedAt(edit, l)
      requires forall l :: 0 <= l < NUM_LEVELS ==> NumbersIdentify(Elements(added[l]) + AddedAt(edit, l))
      modifies this
      ensures Valid()
      ensures forall l :: 0 <= l < NUM_LEVELS ==>
        AppliedLevel(edit, |edit.newFiles|, l, deleted0[l], old(Elements(added[l])), deleted[l], Elements(added[l]))
    {
      for i := 0 to |edit.newFiles|
        invariant Valid()
        invariant forall l :: 0 <= l < NUM_LEVELS ==>
          AppliedLevel(edit, i, l, deleted0[l], old(Elements(added[l])), deleted[l], Elements(added[l]))
      {
        var (level, f) := edit.newFiles[i];
        AddedFileIsKnown(edit, i, added[level], old(Elements(added[level])));
        var files := InsertFile(added[level], f);
        forall l | 0 <= l < NUM_LEVELS {
          AppliedStep(edit, i, l, deleted0[l], old(Elements(added[l])), deleted[l], Elements(added[l]));
        }
        deleted := deleted[level := deleted[level] - {f.number}];
        added := added[level := files];
      }
    }

    /** Builder::SaveTo; level by level, the files of the base and the added ones in order, less the deleted ones. */
    method SaveTo() returns (v: Version)
      requires Valid()
      requires forall l :: 0 <= l < NUM_LEVELS ==> Ordered(base[l])
      requires forall l: nat, f, g :: l < NUM_LEVELS && f in base[l] && g in added[l] ==> f.number != g.number
      requires forall l :: 0 <= l < NUM_LEVELS ==>
        Compatible(Remaining(Elements(base[l]) + Elements(added[l]), deleted[l]), l)
      ensures forall l :: 0 <= l < NUM_LEVELS ==> Ordered(v[l])
      ensures forall l :: 0 <= l < NUM_LEVELS ==>
        Elements(v[l]) == Remaining(Elements(base[l]) + Elements(added[l]), deleted[l])
    {
      v := seq(NUM_LEVELS, _ => []);
      for level := 0 to NUM_LEVELS
        invariant forall l :: 0 <= l < level ==> Ordered(v[l])
        invariant forall l :: 0 <= l < level ==>
          Elements(v[l]) == Remaining(Elements(base[l]) + Elements(added[l]), deleted[l])
      {
        var files := SaveLevel(base[level], added[level], deleted[level], level);
        v := v[level := files];
      }
    }
  }

  ghost function AddedUpTo(e: VersionEdit, i: nat, level: nat): set<File>
    requires i <= |e.newFiles|
  {
    set a | a in e.newFiles[..i] && a.0 == level :: a.1
  }

  lemma AddedStep(e: VersionEdit, i: nat, l: nat)
    requires i < |e.newFiles|
    ensures AddedUpTo(e, i + 1, l) == AddedUpTo(e, i, l) + (if e.newFiles[i].0 == l then {e.newFiles[i].1} else {})
  {
    assert e.newFiles[..i + 1] == e.newFiles[..i] + [e.newFiles[i]];
  }

  /** One level of the builder once the deletions and `i` of the additions of an edit are applied. */
  ghost predicate AppliedLevel(e: VersionEdit, i: nat, l: nat, deleted0: set<nat>, added0: set<File>,
                               deleted: set<nat>, added: set<File>)
    requires i <= |e.newFiles|
  {
    && added == added0 + AddedUpTo(e, i, l)
    && deleted == (deleted0 + DeletedAt(e, l)) - Numbers(AddedUpTo(e, i, l))
  }

  lemma AppliedStep(e: VersionEdit, i: nat, l: nat, deleted0: set<nat>, added0: set<File>,
                    deleted: set<nat>, added: set<File>)
    requires i < |e.newFiles| && AppliedLevel(e, i, l, deleted0, added0, deleted, added)
    ensures e.newFiles[i].0 == l ==>
      var f := e.newFiles[i].1; AppliedLevel(e, i + 1, l, deleted0, added0, deleted - {f.number}, added + {f})
    ensures e.newFiles[i].0 != l ==> AppliedLevel(e, i + 1, l, deleted0, added0, deleted, added)
  {
    AddedStep(e, i, l);
  }

  lemma AddedFileIsKnown(e: VersionEdit, i: nat, files: seq<File>, added0: set<File>)
    requires i < |e.newFiles|
    requires var l := e.newFiles[i].0; Elements(files) == added0 + AddedUpTo(e, i, l) && NumbersIdentify(added0 + AddedAt(e, l))
    ensures forall g :: g in files && g.number == e.newFiles[i].1.number ==> g == e.newFiles[i].1
  {
    var (l, f) := e.newFiles[i];
    assert e.newFiles[i] in e.newFiles && f in AddedAt(e, l);
    assert AddedUpTo(e, i, l) <= AddedAt(e, l);
    assert forall g :: g in files ==> g in Elements(files);
  }

  /** std::set insertion under BySmallestKey. */
  method InsertFile(files: seq<File>, f: File) returns (r: seq<File>)
    requires Ordered(files)
    requires forall g :: g in files && g.number == f.number ==> g == f
    ensures Ordered(r) && Elements(r) == Elements(files) + {f}
  {
    var i := 0;
    while i < |files| && files[i].Before(f)
      invariant 0 <= i <= |files|
      invariant forall j :: 0 <= j < i ==> files[j].Before(f)
    {
      i := i + 1;
    }
    if i < |files| && !f.Before(files[i]) {
      BeforeTotal(f, files[i]);
      assert f == files[i];
      return files;
    }
    forall j | i <= j < |files|
      ensures f.Before(files[j])
    {
      assert i == j || files[i].Before(files[j]);
    }
    r := files[..i] + [f] + files[i..];
    InsertedInOrder(files, i, f, r);
  }

  lemma InsertedInOrder(files: seq<File>, i: nat, f: File, r: seq<File>)
    requires Ordered(files) && i <= |files| && r == files[..i] + [f] + files[i..]
    requires forall j :: 0 <= j < i ==> files[j].Before(f)
    requires forall j :: i <= j < |files| ==> f.Before(files[j])
    ensures Ordered(r) && Elements(r) == Elements(files) + {f}
  {
    forall a, b | 0 <= a < b < |r|
      ensures r[a].Before(r[b])
    {
      assert r[a] == if a < i then files[a] else if a == i then f else files[a - 1];
      assert r[b] == if b < i then files[b] else if b == i then f else files[b - 1];
    }
    assert files == files[..i] + files[i..];
  }

  /** std::upper_bound under BySmallestKey. */
  method UpperBound(files: seq<File>, start: nat, f: File) returns (pos: nat)
    requires Ordered(files) && start <= |files|
    ensures start <= pos <= |files|
    ensures forall j :: start <= j < pos ==> !f.Before(files[j])
    ensures forall j :: pos <= j < |files| ==> f.Before(files[j])
  {
    pos := start;
    while pos < |files| && !f.Before(files[pos])
      invariant start <= pos <= |files|
      invariant forall j :: start <= j < pos ==> !f.Before(files[j])
    {
      pos := pos + 1;
    }
  }

  /** What has been saved of a level once `b` base files and `a` added ones are through. */
  ghost predicate Saved(base: seq<File>, added: seq<File>, deleted: set<nat>, b: nat, a: nat, files: seq<File>)
    requires b <= |base| && a <= |added|
  {
    && Ordered(files)
    && (forall f :: f in files <==> (f in base[..b] || f in added[..a]) && f.number !in deleted)
    && (forall i, j :: 0 <= i < b && a <= j < |added| ==> base[i].Before(added[j]))
    && (forall i, j :: b <= i < |base| && 0 <= j < a ==> added[j].Before(base[i]))
  }

  /** Builder::MaybeAddFile; its assertion that files past level 0 do not overlap is the precondition. */
  method MaybeAddFile(files: seq<File>, level: nat, deleted: set<nat>, f: File) returns (r: seq<File>)
    requires f.number !in deleted && level > 0 && files != [] ==> files[|files| - 1].largest.Less(f.smallest)
    ensures r == if f.number in deleted then files else files + [f]
  {
    if f.number in deleted {
      r := files;
    } else {
      r := files + [f];
    }
  }

  lemma NextFits(fs: set<File>, level: nat, files: seq<File>, f: File, deleted: set<nat>)
    requires Compatible(Remaining(fs, deleted), level) && f in fs
    requires forall g :: g in files ==> g in Remaining(fs, deleted) && g.Before(f)
    ensures f.number !in deleted && level > 0 && files != [] ==> files[|files| - 1].largest.Less(f.smallest)
  {
    if f.number !in deleted && level > 0 && files != [] {
      var g := files[|files| - 1];
      assert g in files;
      assert f in Remaining(fs, deleted);
      FileEnds(f);
      FileEnds(g);
    }
  }

  lemma SavedBase(base: seq<File>, added: seq<File>, deleted: set<nat>, b: nat, a: nat, files: seq<File>, r: seq<File>)
    requires Ordered(base) && Ordered(added) && b < |base| && a <= |added|
    requires Saved(base, added, deleted, b, a, files)
    requires forall j :: a <= j < |added| ==> base[b].Before(added[j])
    requires r == if base[b].number in deleted then files else files + [base[b]]
    ensures forall g :: g in files ==> g.Before(base[b])
    ensures Saved(base, added, deleted, b + 1, a, r)
  {
    assert base[..b + 1] == base[..b] + [base[b]];
  }

  lemma SavedAdded(base: seq<File>, added: seq<File>, deleted: set<nat>, b: nat, a: nat, files: seq<File>, r: seq<File>)
    requires Ordered(base) && Ordered(added) && b <= |base| && a < |added|
    requires Saved(base, added, deleted, b, a, files)
    requires forall i :: b <= i < |base| ==> added[a].Before(base[i])
    requires r == if added[a].number in deleted then files else files + [added[a]]
    ensures forall g :: g in files ==> g.Before(added[a])
    ensures Saved(base, added, deleted, b, a + 1, r)
  {
    assert added[..a + 1] == added[..a] + [added[a]];
  }

  /** One level of SaveTo. */
  method SaveLevel(base: seq<File>, added: seq<File>, deleted: set<nat>, level: nat) returns (files: seq<File>)
    requires Ordered(base) && Ordered(added)
    requires forall f, g :: f in base && g in added ==> f.number != g.number
    requires Compatible(Remaining(Elements(base) + Elements(added), deleted), level)
    ensures Ordered(files) && Elements(files) == Remaining(Elements(base) + Elements(added), deleted)
  {
    files := [];
    ghost var all := Elements(base) + Elements(added);
    var b := 0;
    for a := 0 to |added|
      invariant 0 <= b <= |base| && Saved(base, added, deleted, b, a, files)
    {
      var pos := UpperBound(base, b, added[a]);
      while b < pos
        invariant 0 <= b <= pos <= |base| && Saved(base, added, deleted, b, a, files)
      {
        BeforeTotal(base[b], added[a]);
        assert base[b] in base && added[a] in added;
        SavedBase(base, added, deleted, b, a, files, if base[b].number in deleted then files else files + [base[b]]);
        NextFits(all, level, files, base[b], deleted);
        files := MaybeAddFile(files, level, deleted, base[b]);
        b := b + 1;
      }
      SavedAdded(base, added, deleted, b, a, files, if added[a].number in deleted then files else files + [added[a]]);
      NextFits(all, level, files, added[a], deleted);
      files := MaybeAddFile(files, level, deleted, added[a]);
    }
    while b < |base|
      invariant 0 <= b <= |base| && Saved(base, added, deleted, b, |added|, files)
    {
      SavedBase(base, added, deleted, b, |added|, files, if base[b].number in deleted then files else files + [base[b]]);
      NextFits(all, level, files, base[b], deleted);
      files := MaybeAddFile(files, level, deleted, base[b]);
      b := b + 1;
    }
    assert base[..|base|] == base && added[..|added|] == added;
  }

  // Installing edits one at a time, and replaying them all at once

  /** `v2` is what a builder on `v` saves after the one edit `e`. */
  ghost predicate Installs(v: Version, e: VersionEdit, v2: Version) {
    forall l :: 0 <= l < NUM_LEVELS ==>
      && Ordered(v2[l])
      && Elements(v2[l]) == Remaining(Elements(v[l]) + AddedAt(e, l), DeletedAfter({}, e, l))
  }

  /** The edit adds only files with new numbers, and leaves levels that do not overlap. */
  ghost predicate Installable(v: Version, e: VersionEdit) {
    && ValidLevels(e)
    && forall l :: 0 <= l < NUM_LEVELS ==>
        && Ordered(v[l])
        && Numbers(Elements(v[l])) !! Numbers(AddedAt(e, l))
        && NumbersIdentify(AddedAt(e, l))
        && Compatible(Remaining(Elements(v[l]) + AddedAt(e, l), DeletedAfter({}, e, l)), l)
  }

  /** The in-memory half of VersionSet::LogAndApply. */
  method LogAndApply(v: Version, edit: VersionEdit) returns (v2: Version)
    requires Installable(v, edit)
    ensures Installs(v, edit, v2)
  {
    var builder := new Builder(v);
    builder.Apply(edit);
    forall l: nat, f, g | l < NUM_LEVELS && f in v[l] && g in builder.added[l]
      ensures f.number != g.number
    {
      assert g in Elements(builder.added[l]);
      assert f.number in Numbers(Elements(v[l])) && g.number in Numbers(AddedAt(edit, l));
    }
    v2 := builder.SaveTo();
  }

  ghost function AddedIn(edits: seq<VersionEdit>, l: nat): set<File> {
    if edits == [] then {} else AddedIn(edits[..|edits| - 1], l) + AddedAt(edits[|edits| - 1], l)
  }

  ghost function DeletedIn(edits: seq<VersionEdit>, l: nat): set<nat> {
    if edits == [] then {} else DeletedAfter(DeletedIn(edits[..|edits| - 1], l), edits[|edits| - 1], l)
  }

  /** No file number is added to a level twice. */
  ghost predicate AddedOnce(edits: seq<VersionEdit>) {
    && (forall e :: e in edits ==> ValidLevels(e))
    && (forall l :: 0 <= l < NUM_LEVELS ==> NumbersIdentify(AddedIn(edits, l)))
    && (forall i, l :: 0 <= i < |edits| && 0 <= l < NUM_LEVELS ==>
          Numbers(AddedIn(edits[..i], l)) !! Numbers(AddedAt(edits[i], l)))
  }

  /** Versions installed one after the other, from the empty one. */
  ghost predicate History(edits: seq<VersionEdit>, vs: seq<Version>) {
    && |vs| == |edits| + 1
    && (forall l :: 0 <= l < NUM_LEVELS ==> vs[0][l] == [])
    && (forall i :: 0 <= i < |edits| ==> Installs(vs[i], edits[i], vs[i + 1]))
  }

  /** The files left after installing edit by edit are those a single builder keeps. */
  lemma {:induction false} ReplayKeepsFiles(edits: seq<VersionEdit>, vs: seq<Version>, l: nat)
    requires History(edits, vs) && AddedOnce(edits) && l < NUM_LEVELS
    ensures Elements(vs[|edits|][l]) == Remaining(AddedIn(edits, l), DeletedIn(edits, l))
  {
    if edits != [] {
      var n := |edits| - 1;
      InitIsHistory(edits, vs);
      ReplayKeepsFiles(edits[..n], vs[..n + 1], l);
      assert Numbers(AddedIn(edits[..n], l)) !! Numbers(AddedAt(edits[n], l));
      LastEdit(AddedIn(edits[..n], l), DeletedIn(edits[..n], l), edits[n], l);
      assert Installs(vs[n], edits[n], vs[n + 1]);
    }
  }

  lemma InitIsHistory(edits: seq<VersionEdit>, vs: seq<Version>)
    requires edits != [] && History(edits, vs) && AddedOnce(edits)
    ensures History(edits[..|edits| - 1], vs[..|edits|]) && AddedOnce(edits[..|edits| - 1])
  {
    var n := |edits| - 1;
    var init := edits[..n];
    assert History(init, vs[..n + 1]) by {
      forall i | 0 <= i < n ensures Installs(vs[..n + 1][i], init[i], vs[..n + 1][i + 1]) {
        assert Installs(vs[i], edits[i], vs[i + 1]);
      }
    }
    assert AddedOnce(init) by {
      forall i, k | 0 <= i < n && 0 <= k < NUM_LEVELS
        ensures Numbers(AddedIn(init[..i], k)) !! Numbers(AddedAt(init[i], k))
      {
        assert init[..i] == edits[..i] && init[i] == edits[i];
      }
      forall k | 0 <= k < NUM_LEVELS ensures NumbersIdentify(AddedIn(init, k)) { AddedSubset(edits, n, k); }
    }
  }

  lemma {:induction false} AddedSubset(edits: seq<VersionEdit>, n: nat, l: nat)
    requires |edits| == n + 1
    ensures AddedIn(edits[..n], l) <= AddedIn(edits, l)
  {
  }

  lemma LastEdit(added: set<File>, deleted: set<nat>, e: VersionEdit, l: nat)
    requires Numbers(added) !! Numbers(AddedAt(e, l))
    ensures Remaining(Remaining(added, deleted) + AddedAt(e, l), DeletedAfter({}, e, l))
         == Remaining(added + AddedAt(e, l), DeletedAfter(deleted, e, l))
  {
    forall f | f in added ensures f.number !in Numbers(AddedAt(e, l)) {
      assert f.number in Numbers(added);
    }
    forall f | f in AddedAt(e, l) ensures f.number in Numbers(AddedAt(e, l)) {}
  }

  /** VersionSet::Recover: one builder for all edits of the manifest, saved once, gives the last version installed. */
  method Recover(edits: seq<VersionEdit>, ghost history: seq<Version>) returns (v: Version)
    requires History(edits, history) && AddedOnce(edits)
    requires forall l :: 0 <= l < NUM_LEVELS ==> LevelOk(history[|edits|][l], l)
    ensures v == history[|edits|]
  {
    var empty: Version := seq(NUM_LEVELS, _ => []);
    var builder := new Builder(empty);
    for i := 0 to |edits|
      invariant builder.Valid() && fresh(builder)
      invariant forall l :: 0 <= l < NUM_LEVELS ==> builder.deleted[l] == DeletedIn(edits[..i], l)
      invariant forall l :: 0 <= l < NUM_LEVELS ==> Elements(builder.added[l]) == AddedIn(edits[..i], l)
    {
      assert edits[..i + 1][..i] == edits[..i];
      forall l | 0 <= l < NUM_LEVELS
        ensures NumbersIdentify(Elements(builder.added[l]) + AddedAt(edits[i], l))
      {
        AddedPrefix(edits, i + 1, l);
      }
      builder.Apply(edits[i]);
    }
    assert edits[..|edits|] == edits;
    forall l | 0 <= l < NUM_LEVELS
      ensures Remaining(Elements(empty[l]) + Elements(builder.added[l]), builder.deleted[l]) == Elements(history[|edits|][l])
      ensures Compatible(Elements(history[|edits|][l]), l)
    {
      ReplayKeepsFiles(edits, history, l);
      LevelIsCompatible(history[|edits|][l], l);
    }
    v := builder.SaveTo();
    forall l | 0 <= l < NUM_LEVELS
      ensures v[l] == history[|edits|][l]
    {
      OrderedUnique(v[l], history[|edits|][l]);
    }
  }

  lemma {:induction false} AddedPrefix(edits: seq<VersionEdit>, i: nat, l: nat)
    requires i <= |edits|
    ensures AddedIn(edits[..i], l) <= AddedIn(edits, l)
    decreases |edits|
  {
    if i == |edits| {
      assert edits[..i] == edits;
    } else {
      assert edits[..|edits| - 1][..i] == edits[..i];
      AddedPrefix(edits[..|edits| - 1], i, l);
    }
  }

  lemma LevelIsCompatible(fs: seq<File>, level: nat)
    requires LevelOk(fs, level)
    ensures Compatible(Elements(fs), level)
  {
    if level > 0 {
      forall f, g | f in Elements(fs) && g in Elements(fs) && f != g
        ensures f.largest.Less(g.smallest) || g.largest.Less(f.smallest)
      {
        var i :| 0 <= i < |fs| && fs[i] == f;
        var j :| 0 <= j < |fs| && fs[j] == g;
        assert i < j || j < i;
      }
    }
  }
}
