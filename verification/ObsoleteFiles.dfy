/**
 * Which files may go (DBImpl::DeleteObsoleteFiles, MakeRoomForWrite, CompactMemTable, BackgroundCompaction
 * and Recover in db/db_impl.cc; VersionSet::LogAndApply and AddLiveFiles in db/version_set.cc). Writers,
 * iterators, one background activity with a flush nested in a compaction, failed manifest writes, crashes
 * and reopening are interleaved at the points where the mutex is free.
 */
module ObsoleteFiles {
  import opened DbFormat

  type Rec = nat  // a logged write

  /** What the manifest says; `installed` are the records whose memtable it has declared flushed. */
  datatype Manifest = Manifest(files: set<nat>, log: nat, next: nat, installed: set<Rec>)

  /** `current` is the number of the manifest that the file CURRENT names. */
  datatype Disk = Disk(tables: set<nat>, logs: map<nat, set<Rec>>, manifests: map<nat, Manifest>, current: nat) {
    function Named(): Manifest {
      if current in manifests then manifests[current] else Manifest({}, 0, 0, {})
    }
  }

  /** A version in the list of live versions, with its reference count. */
  datatype Live = Live(files: set<nat>, refs: nat)

  datatype Compaction = Compaction(input: nat, inputs: set<nat>, outputs: set<nat>, created: set<nat>)

  /** A memtable being written to a table; `base` is the version held meanwhile. */
  datatype Flush = Flush(number: nat, base: nat, built: bool)

  datatype Purpose = Opening | Flushing | Compacting | Moving

  /** LogAndApply between computing the new version and committing it; `written` once the manifest holds it. */
  datatype Install = Install(purpose: Purpose, del: set<nat>, add: set<nat>, log: nat, adds: set<Rec>, written: bool)

  datatype Memory = Memory(
    next: nat,
    pending: set<nat>,
    versions: map<nat, Live>,
    current: nat,
    nextVersion: nat,
    logNumber: nat,
    manifestNumber: nat,
    drafted: bool,
    logfile: nat,
    mem: set<Rec>,
    imm: Option<set<Rec>>,
    writing: Option<Rec>,
    bgError: bool,
    iterators: multiset<nat>,
    compaction: Option<Compaction>,
    flush: Option<Flush>,
    install: Option<Install>)

  /**
   * `manifestNumber` is that of the manifest edits go to. When the database is opened it may be new: it is `drafted`
   * when it is complete and CURRENT does not name it yet. `recorded` are all records ever added to a log.
   */
  datatype State = Closed(disk: Disk, recorded: set<Rec>) | Opened(disk: Disk, recorded: set<Rec>, m: Memory)

  // Versions and their references

  function Ref(vs: map<nat, Live>, v: nat): map<nat, Live> {
    if v in vs then vs[v := vs[v].(refs := vs[v].refs + 1)] else vs
  }

  /** Version::Unref: the last reference takes the version off the list. */
  function Unref(vs: map<nat, Live>, v: nat): map<nat, Live> {
    if v !in vs then vs
    else if vs[v].refs <= 1 then vs - {v}
    else vs[v := vs[v].(refs := vs[v].refs - 1)]
  }

  // Deleting

  datatype FileName =
    LogFile(number: nat) | DescriptorFile(number: nat) | TableFile(number: nat) | TempFile(number: nat)
    | CurrentFile | LockFile | InfoLogFile

  /** Pending outputs and the tables of all versions still referenced. */
  function LiveFiles(m: Memory): set<nat> {
    m.pending + set v, f | v in m.versions && f in m.versions[v].files :: f
  }

  /** What DeleteObsoleteFiles leaves of the tables, logs and manifests. */
  function Cleaned(d: Disk, m: Memory): Disk {
    if m.bgError then d
    else d.(tables := d.tables * LiveFiles(m), logs := map n | n in d.logs && n >= m.logNumber :: d.logs[n],
            manifests := map n | n in d.manifests && n >= m.manifestNumber :: d.manifests[n])
  }

  /** The names on disk. */
  ghost predicate Names(files: seq<FileName>, d: Disk) {
    && (forall n :: TableFile(n) in files <==> n in d.tables)
    && (forall n :: LogFile(n) in files <==> n in d.logs)
    && (forall n :: DescriptorFile(n) in files <==> n in d.manifests)
    && CurrentFile in files
  }

  /** A table that is pending or in a version still referenced. */
  ghost predicate IsLive(m: Memory, n: nat) {
    n in m.pending || exists v :: v in m.versions && n in m.versions[v].files
  }

  /** Of logs and manifests those not too old stay, of tables and temporary files those that are live. */
  ghost predicate LeavesCurrent(files: seq<FileName>, kept: seq<FileName>, m: Memory, prevLogNumber: nat) {
    && (forall n: nat :: LogFile(n) in kept <==> LogFile(n) in files && (n >= m.logNumber || n == prevLogNumber))
    && (forall n: nat :: DescriptorFile(n) in kept <==> DescriptorFile(n) in files && n >= m.manifestNumber)
    && (forall n :: TableFile(n) in kept <==> TableFile(n) in files && IsLive(m, n))
    && (forall n :: TempFile(n) in kept <==> TempFile(n) in files && IsLive(m, n))
  }

  ghost predicate LeavesOthers(files: seq<FileName>, kept: seq<FileName>) {
    && (CurrentFile in kept <==> CurrentFile in files)
    && (LockFile in kept <==> LockFile in files)
    && (InfoLogFile in kept <==> InfoLogFile in files)
  }

  /** DBImpl::DeleteObsoleteFiles, on the names that GetChildren lists: those that are kept. */
  method DeleteObsoleteFiles(files: seq<FileName>, m: Memory, prevLogNumber: nat, ghost d: Disk)
      returns (kept: seq<FileName>)
    requires Names(files, d) && prevLogNumber !in d.logs
    ensures Names(kept, Cleaned(d, m))
    ensures m.bgError ==> kept == files
    ensures !m.bgError ==> LeavesCurrent(files, kept, m, prevLogNumber) && LeavesOthers(files, kept)
  {
    if m.bgError {
      return files;
    }
    var live := LiveFiles(m);
    assert forall n :: n in live <==> IsLive(m, n);
    kept := [];
    for i := 0 to |files|
      invariant LeavesCurrent(files[..i], kept, m, prevLogNumber) && LeavesOthers(files[..i], kept)
    {
      var keep := true;
      match files[i] {
        case LogFile(number) => keep := number >= m.logNumber || number == prevLogNumber;
        case DescriptorFile(number) => keep := number >= m.manifestNumber;
        case TableFile(number) => keep := number in live;
        case TempFile(number) => keep := number in live;
        case CurrentFile => keep := true;
        case LockFile => keep := true;
        case InfoLogFile => keep := true;
      }
      assert files[..i + 1] == files[..i] + [files[i]];
      if keep {
        kept := kept + [files[i]];
      }
    }
    assert files[..|files|] == files;
  }

  // Steps of the writers and readers

  ghost predicate AddRecord(s: State, s2: State, r: Rec) {
    && s.Opened? && Ready(s.m) && !s.m.bgError && s.m.writing.None? && s.m.logfile in s.disk.logs
    && s2 == s.(disk := s.disk.(logs := s.disk.logs[s.m.logfile := s.disk.logs[s.m.logfile] + {r}]),
                recorded := s.recorded + {r}, m := s.m.(writing := Some(r)))
  }

  ghost predicate InsertRecord(s: State, s2: State) {
    && s.Opened? && s.m.writing.Some?
    && s2 == s.(m := s.m.(mem := s.m.mem + {s.m.writing.value}, writing := None))
  }

  /** The log could not be synced: the record may or may not survive, and no more writes are taken. */
  ghost predicate SyncFails(s: State, s2: State) {
    && s.Opened? && s.m.writing.Some?
    && s2 == s.(m := s.m.(writing := None, bgError := true))
  }

  /** MakeRoomForWrite switches to a new log and memtable. */
  ghost predicate SwitchMemTable(s: State, s2: State) {
    && s.Opened? && Ready(s.m) && !s.m.bgError && s.m.writing.None? && s.m.imm.None?
    && s2 == s.(disk := s.disk.(logs := s.disk.logs[s.m.next := {}]),
                m := s.m.(next := s.m.next + 1, logfile := s.m.next, imm := Some(s.m.mem), mem := {}))
  }

  ghost predicate OpenIterator(s: State, s2: State) {
    && s.Opened? && Ready(s.m)
    && s2 == s.(m := s.m.(versions := Ref(s.m.versions, s.m.current), iterators := s.m.iterators + multiset{s.m.current}))
  }

  ghost predicate CloseIterator(s: State, s2: State, v: nat) {
    && s.Opened? && v in s.m.iterators
    && s2 == s.(m := s.m.(versions := Unref(s.m.versions, v), iterators := s.m.iterators - multiset{v}))
  }

  /** The database is open for use. */
  predicate Ready(m: Memory) {
    m.install.Some? ==> m.install.value.purpose != Opening
  }

  predicate NoBackground(m: Memory) {
    m.compaction.None? && m.flush.None? && m.install.None?
  }

  // Steps of the background activity

  ghost predicate StartCompaction(s: State, s2: State, inputs: set<nat>) {
    && s.Opened? && NoBackground(s.m) && !s.m.bgError
    && s.m.current in s.m.versions && inputs <= s.m.versions[s.m.current].files
    && s2 == s.(m := s.m.(versions := Ref(s.m.versions, s.m.current),
                          compaction := Some(Compaction(s.m.current, inputs, {}, {}))))
  }

  ghost predicate OpenOutput(s: State, s2: State) {
    && s.Opened? && s.m.compaction.Some? && s.m.flush.None? && s.m.install.None?
    && var c := s.m.compaction.value;
       s2 == s.(m := s.m.(next := s.m.next + 1, pending := s.m.pending + {s.m.next},
                          compaction := Some(c.(outputs := c.outputs + {s.m.next}))))
  }

  ghost predicate CreateOutput(s: State, s2: State, n: nat) {
    && s.Opened? && s.m.compaction.Some? && s.m.flush.None? && s.m.install.None?
    && var c := s.m.compaction.value;
       && n in c.outputs
       && s2 == s.(disk := s.disk.(tables := s.disk.tables + {n}),
                   m := s.m.(compaction := Some(c.(created := c.created + {n}))))
  }

  /** CompactMemTable, by itself or inside the loop of a compaction. */
  ghost predicate StartFlush(s: State, s2: State) {
    && s.Opened? && s.m.imm.Some? && s.m.flush.None? && s.m.install.None?
    && s2 == s.(m := s.m.(next := s.m.next + 1, pending := s.m.pending + {s.m.next},
                          versions := Ref(s.m.versions, s.m.current),
                          flush := Some(Flush(s.m.next, s.m.current, false))))
  }

  ghost predicate BuildTable(s: State, s2: State) {
    && s.Opened? && s.m.flush.Some?
    && s2 == s.(disk := s.disk.(tables := s.disk.tables + {s.m.flush.value.number}),
                m := s.m.(flush := Some(s.m.flush.value.(built := true))))
  }

  /** WriteLevel0Table failed; what there is of the table is removed or not. */
  ghost predicate BuildFails(s: State, s2: State, removed: bool) {
    && s.Opened? && s.m.flush.Some?
    && var f := s.m.flush.value;
       s2 == s.(disk := s.disk.(tables := s.disk.tables - if removed then {f.number} else {}),
                m := s.m.(bgError := true, pending := s.m.pending - {f.number},
                          versions := Unref(s.m.versions, f.base), flush := None))
  }

  /** WriteLevel0Table succeeded, with no table for an empty memtable; LogAndApply begins. */
  ghost predicate EndBuild(s: State, s2: State) {
    && s.Opened? && s.m.flush.Some? && s.m.imm.Some? && (s.m.imm.value != {} ==> s.m.flush.value.built)
    && var f := s.m.flush.value;
       var add := if s.m.imm.value == {} then {} else {f.number};
       s2 == s.(m := s.m.(pending := s.m.pending - {f.number}, versions := Unref(s.m.versions, f.base), flush := None,
                          install := Some(Install(Flushing, {}, add, s.m.logfile, s.m.imm.value, false))))
  }

  /** InstallCompactionResults, or the edit of a trivial move, which changes no set of files. */
  ghost predicate BeginInstall(s: State, s2: State, purpose: Purpose) {
    && s.Opened? && s.m.compaction.Some? && s.m.flush.None? && s.m.install.None?
    && var c := s.m.compaction.value;
       && c.outputs == c.created
       && (purpose == Compacting || (purpose == Moving && c.inputs == {} && c.outputs == {}))
       && s2 == s.(m := s.m.(install := Some(Install(purpose, c.inputs, c.outputs, s.m.logNumber, {}, false))))
  }

  /** The manifest after an edit. */
  function Edited(before: Manifest, i: Install, next: nat): Manifest {
    Manifest(before.files - i.del + i.add, i.log, next, before.installed + i.adds)
  }

  /** The edit at the end of the manifest that CURRENT names. */
  function Applied(d: Disk, i: Install, next: nat): Disk {
    d.(manifests := d.manifests[d.current := Edited(d.Named(), i, next)])
  }

  ghost predicate WriteManifest(s: State, s2: State) {
    && s.Opened? && s.m.install.Some? && !s.m.install.value.written && s.m.manifestNumber == s.disk.current
    && s2 == s.(disk := Applied(s.disk, s.m.install.value, s.m.next),
                m := s.m.(install := Some(s.m.install.value.(written := true))))
  }

  predicate MakesManifest(s: State) {
    && s.Opened? && s.m.install.Some? && s.m.install.value.purpose == Opening && !s.m.install.value.written
    && s.m.manifestNumber != s.disk.current
  }

  /** The first LogAndApply of a new manifest: a file with a snapshot and the edit, at some point of its writing. */
  ghost predicate BeginManifest(s: State, s2: State, part: Manifest) {
    && MakesManifest(s) && !s.m.drafted
    && s2 == s.(disk := s.disk.(manifests := s.disk.manifests[s.m.manifestNumber := part]))
  }

  ghost predicate DraftManifest(s: State, s2: State) {
    && MakesManifest(s) && !s.m.drafted
    && var whole := Edited(s.disk.Named(), s.m.install.value, s.m.next);
       s2 == s.(disk := s.disk.(manifests := s.disk.manifests[s.m.manifestNumber := whole]), m := s.m.(drafted := true))
  }

  /** SetCurrentFile renames a temporary file to CURRENT. */
  ghost predicate SetCurrentFile(s: State, s2: State) {
    && MakesManifest(s) && s.m.drafted
    && s2 == s.(disk := s.disk.(current := s.m.manifestNumber),
                m := s.m.(drafted := false, install := Some(s.m.install.value.(written := true))))
  }

  /** CleanupCompaction and the release of the input version. */
  function Cleanup(m: Memory): Memory {
    if m.compaction.None? then m
    else m.(pending := m.pending - m.compaction.value.outputs, versions := Unref(m.versions, m.compaction.value.input),
            compaction := None)
  }

  /** A new manifest could not be written or named: it is deleted, and the database is not opened. */
  ghost predicate NewManifestFails(s: State, s2: State) {
    && MakesManifest(s)
    && s2 == Closed(s.disk.(manifests := s.disk.manifests - {s.m.manifestNumber}), s.recorded)
  }

  /** The manifest write failed, though the edit may have reached the file. */
  ghost predicate ManifestFails(s: State, s2: State, reached: bool) {
    && s.Opened? && s.m.install.Some? && !s.m.install.value.written && s.m.manifestNumber == s.disk.current
    && var i := s.m.install.value;
       var disk := if reached then Applied(s.disk, i, s.m.next) else s.disk;
       if i.purpose == Opening then
         s2 == Closed(disk, s.recorded)
       else
         var m := s.m.(install := None, bgError := true);
         s2 == s.(disk := disk, m := if i.purpose == Flushing then m else Cleanup(m))
  }

  /** The new version becomes current; then come cleanup and, but for a trivial move, DeleteObsoleteFiles. */
  ghost predicate Commit(s: State, s2: State) {
    && s.Opened? && s.m.install.Some? && s.m.install.value.written && s.m.current in s.m.versions
    && var i := s.m.install.value;
       var files := s.m.versions[s.m.current].files - i.del + i.add;
       var m := s.m.(versions := Replaced(s.m.versions, s.m.current, s.m.nextVersion, files),
                     current := s.m.nextVersion, nextVersion := s.m.nextVersion + 1, logNumber := i.log, install := None);
       match i.purpose
       case Opening => s2 == s.(disk := Cleaned(s.disk, m), m := m)
       case Flushing => var m2 := m.(imm := None); s2 == s.(disk := Cleaned(s.disk, m2), m := m2)
       case Compacting => var m2 := Cleanup(m); s2 == s.(disk := Cleaned(s.disk, m2), m := m2)
       case Moving => s2 == s.(m := Cleanup(m))
  }

  /** A compaction that fails or meets a shutdown. */
  ghost predicate AbandonCompaction(s: State, s2: State) {
    && s.Opened? && s.m.compaction.Some? && s.m.flush.None? && s.m.install.None?
    && s2 == s.(m := Cleanup(s.m.(bgError := true)))
  }

  // Crashes and reopening

  /** DeleteObsoleteFiles at the end of DB::Open, when there is no manifest to save; it may come at any time. */
  ghost predicate CleanAfterOpen(s: State, s2: State) {
    s.Opened? && s.m.install.None? && s2 == s.(disk := Cleaned(s.disk, s.m))
  }

  ghost predicate Crash(s: State, s2: State) {
    s.Opened? && s2 == Closed(s.disk, s.recorded)
  }

  /** Records of the logs in `ns`. */
  function RecordsOf(logs: map<nat, set<Rec>>, ns: set<nat>): set<Rec> {
    set n, r | n in ns && n in logs && r in logs[n] :: r
  }

  function LogsFrom(logs: map<nat, set<Rec>>, log: nat): set<nat> {
    set n | n in logs && n >= log
  }

  /**
   * Recover and the rest of DB::Open up to DeleteObsoleteFiles, which comes with the commit of a saved manifest
   * and is a step of its own otherwise. The logs from the manifest's log number on
   * are replayed into `tables`, except the last one when `reuse` keeps it as the current log. `next` is past
   * all numbers in use. Without `append` a new manifest takes the place of the one that CURRENT names.
   */
  ghost predicate Reopen(s: State, s2: State, reuse: bool, tables: set<nat>, next: nat, append: bool, save: bool) {
    && s.Closed? && s.disk.Named().next < next
    && var logs := LogsFrom(s.disk.logs, s.disk.Named().log);
       && (forall n :: n in s.disk.logs ==> n < next)
       && s2.Opened? && s2.recorded == s.recorded
       && var logfile := s2.m.logfile;
          && (if reuse then logfile in logs && forall n :: n in logs ==> n <= logfile else logfile == next)
          && var kept := if reuse then {logfile} else {};
             var replayed := RecordsOf(s.disk.logs, logs - kept);
             && (forall t :: t in tables ==> next < t < s2.m.next)
             && next < s2.m.next
             && (replayed != {} || !append ==> save)
             && s2.disk == s.disk.(tables := s.disk.tables + tables,
                                   logs := if reuse then s.disk.logs else s.disk.logs[next := {}])
             && var m := Memory(s2.m.next, {}, map[0 := Live(s.disk.Named().files, 1)], 0, 1, s.disk.Named().log,
                                if append then s.disk.current else s.disk.Named().next, false, logfile,
                                RecordsOf(s.disk.logs, kept), None, None, false, multiset{}, None, None, None);
                if save then
                  s2.m == m.(install := Some(Install(Opening, {}, tables, logfile, replayed, false)))
                else
                  && tables == {} && s2.m == m
  }

  // The invariant

  /** How many hold version `v`: the version set, iterators, the compaction and the flush at hand. */
  function Holders(current: nat, iterators: multiset<nat>, input: Option<nat>, base: Option<nat>, v: nat): nat {
    (if v == current then 1 else 0) + iterators[v] + (if input == Some(v) then 1 else 0) + (if base == Some(v) then 1 else 0)
  }

  /** Reference counts are right, and every version held is on the list. */
  ghost predicate RefsOk(vs: map<nat, Live>, nextVersion: nat, current: nat, iterators: multiset<nat>,
                         input: Option<nat>, base: Option<nat>) {
    && (forall v :: v in vs ==> vs[v].refs == Holders(current, iterators, input, base, v) && v < nextVersion)
    && (forall v :: Holders(current, iterators, input, base, v) > 0 ==> v in vs)
  }

  function InputOf(m: Memory): Option<nat> {
    if m.compaction.Some? then Some(m.compaction.value.input) else None
  }

  function BaseOf(m: Memory): Option<nat> {
    if m.flush.Some? then Some(m.flush.value.base) else None
  }

  function Outputs(m: Memory): set<nat> {
    if m.compaction.Some? then m.compaction.value.outputs else {}
  }

  function Created(m: Memory): set<nat> {
    if m.compaction.Some? then m.compaction.value.created else {}
  }

  function Added(m: Memory): set<nat> {
    if m.install.Some? then m.install.value.add else {}
  }

  function Building(m: Memory): set<nat> {
    if m.flush.Some? then {m.flush.value.number} else {}
  }

  function Built(m: Memory): set<nat> {
    if m.flush.Some? && m.flush.value.built then {m.flush.value.number} else {}
  }

  /** Every table of a referenced version is there. */
  ghost predicate FilesThere(tables: set<nat>, vs: map<nat, Live>) {
    forall v :: v in vs ==> vs[v].files <= tables
  }

  /** Files of referenced versions all satisfy: their number is below `next`. */
  ghost predicate FilesBelow(vs: map<nat, Live>, next: nat) {
    forall v, f :: v in vs && f in vs[v].files ==> f < next
  }

  ghost predicate NotIn(vs: map<nat, Live>, making: set<nat>) {
    forall v :: v in vs ==> vs[v].files !! making
  }

  ghost predicate Below(ns: set<nat>, next: nat) {
    forall n :: n in ns ==> n < next
  }

  /** A reopened database has the record: in a table of the manifest, or by replaying a log. */
  ghost predicate Recoverable(d: Disk, r: Rec) {
    r in d.Named().installed || exists n :: n in d.logs && n >= d.Named().log && r in d.logs[n]
  }

  /** All of log `n` is in installed tables. */
  ghost predicate Flushed(logs: map<nat, set<Rec>>, n: nat, installed: set<Rec>)
    requires n in logs
  {
    logs[n] <= installed
  }

  ghost predicate FlushedBelow(logs: map<nat, set<Rec>>, log: nat, installed: set<Rec>) {
    forall n :: n in logs && n < log ==> Flushed(logs, n, installed)
  }

  /** Whatever a crash leaves can be reopened: the manifest's tables are there and no record is lost. */
  ghost predicate DiskOk(d: Disk, recorded: set<Rec>) {
    && d.current in d.manifests && d.current < d.Named().next
    && d.Named().files <= d.tables && Below(d.Named().files, d.Named().next) && d.Named().log < d.Named().next
    && FlushedBelow(d.logs, d.Named().log, d.Named().installed)
    && forall r :: r in recorded ==> Recoverable(d, r)
  }

  /** What is being made is pending or about to be installed, and is no file of a version or of the manifest. */
  ghost predicate MakingOk(d: Disk, m: Memory) {
    && Created(m) <= Outputs(m) <= m.pending && Created(m) <= d.tables
    && Building(m) <= m.pending && Building(m) !! Outputs(m) && Built(m) <= d.tables
    && (m.flush.Some? ==> m.install.None?)
    && Added(m) <= d.tables && Below(Added(m), m.next) && Below(m.pending, m.next)
    && NotIn(m.versions, Outputs(m) + Building(m))
    && (m.install.None? || m.install.value.purpose == Flushing ==> d.Named().files !! Outputs(m) + Building(m))
    && (m.install.Some? ==>
          && (m.install.value.purpose == Compacting || m.install.value.purpose == Moving ==> m.compaction.Some?)
          && (m.install.value.purpose == Opening ==> m.compaction.None?)
          && (m.install.value.purpose == Flushing ==> m.install.value.add !! Outputs(m)))
  }

  ghost predicate NumbersOk(d: Disk, m: Memory) {
    && FilesBelow(m.versions, m.next) && Below(d.Named().files, m.next) && Below(d.logs.Keys, m.next)
    && d.Named().next <= m.next && m.nextVersion !in m.versions
  }

  /** Without errors the manifest and the current version agree, but for an edit that is written and not committed. */
  ghost predicate ManifestIs(d: Disk, m: Memory) {
    m.current in m.versions && (!m.bgError ==>
      d.Named().files == if m.install.Some? && m.install.value.written
                          then m.versions[m.current].files - m.install.value.del + m.install.value.add
                          else m.versions[m.current].files)
  }

  function ImmRecords(m: Memory): set<Rec> {
    if m.imm.Some? then m.imm.value else {}
  }

  /** Records that an install at hand brings in. */
  function Adds(m: Memory): set<Rec> {
    if m.install.Some? then m.install.value.adds else {}
  }

  function Writing(m: Memory): set<Rec> {
    if m.writing.Some? then {m.writing.value} else {}
  }

  ghost predicate RecordsOk(d: Disk, m: Memory) {
    && m.logfile in d.logs && (forall n :: n in d.logs ==> n <= m.logfile) && m.logfile < m.next
    && m.logNumber <= m.logfile && d.Named().log <= m.logfile
    && FlushedBelow(d.logs, m.logNumber, d.Named().installed)
    && FlushedBelow(d.logs, m.logfile, d.Named().installed + ImmRecords(m) + Adds(m))
    && (!m.bgError ==> d.logs[m.logfile] <= d.Named().installed + m.mem + Writing(m))
    && (m.install.Some? ==> InstallOk(d, m, m.install.value))
  }

  ghost predicate InstallOk(d: Disk, m: Memory, i: Install) {
    && i.log <= m.logfile
    && (i.purpose == Flushing ==> i.log == m.logfile && m.imm == Some(i.adds))
    && (i.purpose == Opening ==> i.log == m.logfile && m.imm.None?)
    && (i.purpose == Compacting || i.purpose == Moving ==> i.log <= m.logNumber && i.adds == {})
    && (i.written ==> i.adds <= d.Named().installed && d.Named().log == i.log)
  }

  /** Edits go to the manifest that CURRENT names, but for a new one that is in the making. */
  ghost predicate DescriptorOk(d: Disk, m: Memory) {
    && m.manifestNumber < m.next
    && (m.manifestNumber != d.current ==>
          d.current < m.manifestNumber && m.install.Some? && m.install.value.purpose == Opening && !m.install.value.written)
    && (m.drafted ==>
          && m.manifestNumber != d.current && m.manifestNumber in d.manifests && m.install.Some?
          && d.manifests[m.manifestNumber] == Edited(d.Named(), m.install.value, m.next))
  }

  ghost predicate MemoryOk(d: Disk, m: Memory) {
    && DescriptorOk(d, m)
    && RefsOk(m.versions, m.nextVersion, m.current, m.iterators, InputOf(m), BaseOf(m))
    && FilesThere(d.tables, m.versions)
    && MakingOk(d, m) && NumbersOk(d, m) && ManifestIs(d, m) && RecordsOk(d, m)
  }

  ghost predicate Invariant(s: State) {
    DiskOk(s.disk, s.recorded) && (s.Opened? ==> MemoryOk(s.disk, s.m))
  }

  // Every step keeps it

  lemma RecoverableStays(d: Disk, d2: Disk, recorded: set<Rec>)
    requires forall r :: r in recorded ==> Recoverable(d, r)
    requires d2.Named().installed >= d.Named().installed
    requires forall n :: n in d.logs && n >= d.Named().log ==>
      (n in d2.logs && n >= d2.Named().log && d.logs[n] <= d2.logs[n]) || d.logs[n] <= d2.Named().installed
    ensures forall r :: r in recorded ==> Recoverable(d2, r)
  {
    forall r | r in recorded
      ensures Recoverable(d2, r)
    {
      assert Recoverable(d, r);
      if r !in d.Named().installed {
        var n :| n in d.logs && n >= d.Named().log && r in d.logs[n];
      }
    }
  }

  lemma AddRecordKeeps(s: State, s2: State, r: Rec)
    requires Invariant(s) && AddRecord(s, s2, r)
    ensures Invariant(s2)
  {
    RecoverableStays(s.disk, s2.disk, s.recorded);
    assert r in s2.disk.logs[s.m.logfile];
  }

  lemma InsertRecordKeeps(s: State, s2: State)
    requires Invariant(s) && InsertRecord(s, s2)
    ensures Invariant(s2)
  {
  }

  lemma SyncFailsKeeps(s: State, s2: State)
    requires Invariant(s) && SyncFails(s, s2)
    ensures Invariant(s2)
  {
  }

  lemma SwitchMemTableKeeps(s: State, s2: State)
    requires Invariant(s) && SwitchMemTable(s, s2)
    ensures Invariant(s2)
  {
    RecoverableStays(s.disk, s2.disk, s.recorded);
  }

  /** Ref of the current version by a new holder. */
  lemma RefKeeps(vs: map<nat, Live>, nextVersion: nat, current: nat, iterators: multiset<nat>,
                 input: Option<nat>, base: Option<nat>,
                 iterators2: multiset<nat>, input2: Option<nat>, base2: Option<nat>)
    requires RefsOk(vs, nextVersion, current, iterators, input, base)
    requires forall w ::
      Holders(current, iterators2, input2, base2, w) == Holders(current, iterators, input, base,
        w) + (if w == current then 1 else 0)
    ensures current in vs
    ensures RefsOk(Ref(vs, current), nextVersion, current, iterators2, input2, base2)
    ensures Ref(vs, current).Keys == vs.Keys && forall v :: v in vs ==> Ref(vs, current)[v].files == vs[v].files
  {
    assert Holders(current, iterators, input, base, current) > 0;
  }

  /** Unref by any one holder. */
  lemma UnrefKeeps(vs: map<nat, Live>, nextVersion: nat, current: nat, iterators: multiset<nat>,
                   input: Option<nat>, base: Option<nat>, v: nat,
                   iterators2: multiset<nat>, input2: Option<nat>, base2: Option<nat>)
    requires RefsOk(vs, nextVersion, current, iterators, input, base)
    requires forall w ::
      Holders(current, iterators, input, base, w) == Holders(current, iterators2, input2, base2, w) + (if w == v then 1 else 0)
    ensures RefsOk(Unref(vs, v), nextVersion, current, iterators2, input2, base2)
    ensures Unref(vs, v).Keys <= vs.Keys && forall w :: w in Unref(vs, v) ==> Unref(vs, v)[w].files == vs[w].files
    ensures current in Unref(vs, v)
  {
    assert Holders(current, iterators, input, base, v) > 0;
    assert Holders(current, iterators2, input2, base2, current) > 0;
    forall w | w in Unref(vs, v)
      ensures Unref(vs, v)[w].refs == Holders(current, iterators2, input2, base2, w)
    {
      assert vs[w].refs == Holders(current, iterators, input, base, w);
    }
    forall w | Holders(current, iterators2, input2, base2, w) > 0
      ensures w in Unref(vs, v)
    {
      assert Holders(current, iterators, input, base, w) > 0;
    }
  }

  lemma OpenIteratorKeeps(s: State, s2: State)
    requires Invariant(s) && OpenIterator(s, s2)
    ensures Invariant(s2)
  {
    var m := s.m;
    RefKeeps(m.versions, m.nextVersion, m.current, m.iterators, InputOf(m), BaseOf(m),
             m.iterators + multiset{m.current}, InputOf(m), BaseOf(m));
  }

  lemma CloseIteratorKeeps(s: State, s2: State, v: nat)
    requires Invariant(s) && CloseIterator(s, s2, v)
    ensures Invariant(s2)
  {
    var m := s.m;
    UnrefKeeps(m.versions, m.nextVersion, m.current, m.iterators, InputOf(m), BaseOf(m), v,
               m.iterators - multiset{v}, InputOf(m), BaseOf(m));
  }

  lemma StartCompactionKeeps(s: State, s2: State, inputs: set<nat>)
    requires Invariant(s) && StartCompaction(s, s2, inputs)
    ensures Invariant(s2)
  {
    var m := s.m;
    RefKeeps(m.versions, m.nextVersion, m.current, m.iterators, InputOf(m), BaseOf(m),
             m.iterators, Some(m.current), BaseOf(m));
  }

  lemma OpenOutputKeeps(s: State, s2: State)
    requires Invariant(s) && OpenOutput(s, s2)
    ensures Invariant(s2)
  {
  }

  lemma CreateOutputKeeps(s: State, s2: State, n: nat)
    requires Invariant(s) && CreateOutput(s, s2, n)
    ensures Invariant(s2)
  {
    RecoverableStays(s.disk, s2.disk, s.recorded);
  }

  lemma StartFlushKeeps(s: State, s2: State)
    requires Invariant(s) && StartFlush(s, s2)
    ensures Invariant(s2)
  {
    var m := s.m;
    RefKeeps(m.versions, m.nextVersion, m.current, m.iterators, InputOf(m), BaseOf(m),
             m.iterators, InputOf(m), Some(m.current));
  }

  lemma BuildTableKeeps(s: State, s2: State)
    requires Invariant(s) && BuildTable(s, s2)
    ensures Invariant(s2)
  {
    RecoverableStays(s.disk, s2.disk, s.recorded);
  }

  lemma BuildFailsKeeps(s: State, s2: State, removed: bool)
    requires Invariant(s) && BuildFails(s, s2, removed)
    ensures Invariant(s2)
  {
    var m := s.m;
    UnrefKeeps(m.versions, m.nextVersion, m.current, m.iterators, InputOf(m), BaseOf(m), m.flush.value.base,
               m.iterators, InputOf(m), None);
    RecoverableStays(s.disk, s2.disk, s.recorded);
  }

  lemma EndBuildKeeps(s: State, s2: State)
    requires Invariant(s) && EndBuild(s, s2)
    ensures Invariant(s2)
  {
    var m := s.m;
    UnrefKeeps(m.versions, m.nextVersion, m.current, m.iterators, InputOf(m), BaseOf(m), m.flush.value.base,
               m.iterators, InputOf(m), None);
  }

  lemma BeginInstallKeeps(s: State, s2: State, purpose: Purpose)
    requires Invariant(s) && BeginInstall(s, s2, purpose)
    ensures Invariant(s2)
  {
  }

  /** Writing the edit at hand to the manifest loses no record. */
  lemma AppliedOk(d: Disk, m: Memory, recorded: set<Rec>)
    requires DiskOk(d, recorded) && m.install.Some? && MakingOk(d, m) && NumbersOk(d, m) && RecordsOk(d, m)
    ensures DiskOk(Applied(d, m.install.value, m.next), recorded)
  {
    var i := m.install.value;
    var d2 := Applied(d, i, m.next);
    forall n | n in d2.logs && n < i.log
      ensures Flushed(d2.logs, n, d2.Named().installed)
    {
      if n < m.logNumber {
        assert Flushed(d.logs, n, d.Named().installed);
      } else {
        assert Flushed(d.logs, n, d.Named().installed + ImmRecords(m) + Adds(m));
      }
    }
    forall n | n in d.logs && n >= d.Named().log && n < i.log
      ensures d.logs[n] <= d2.Named().installed
    {
      assert Flushed(d2.logs, n, d2.Named().installed);
    }
    RecoverableStays(d, d2, recorded);
  }

  lemma WriteManifestKeeps(s: State, s2: State)
    requires Invariant(s) && WriteManifest(s, s2)
    ensures Invariant(s2)
  {
    AppliedOk(s.disk, s.m, s.recorded);
  }

  /** A manifest other than the one that CURRENT names does not matter after a crash. */
  lemma OtherManifest(d: Disk, d2: Disk, recorded: set<Rec>)
    requires DiskOk(d, recorded) && d2 == d.(manifests := d2.manifests) && d.current in d2.manifests
    requires d2.manifests[d.current] == d.manifests[d.current]
    ensures DiskOk(d2, recorded) && d2.Named() == d.Named()
  {
    RecoverableStays(d, d2, recorded);
  }

  lemma NewManifestKeeps(s: State, s2: State, part: Manifest)
    requires Invariant(s) && BeginManifest(s, s2, part)
    ensures Invariant(s2)
  {
    OtherManifest(s.disk, s2.disk, s.recorded);
  }

  lemma DraftManifestKeeps(s: State, s2: State)
    requires Invariant(s) && DraftManifest(s, s2)
    ensures Invariant(s2)
  {
    OtherManifest(s.disk, s2.disk, s.recorded);
  }

  lemma NewManifestFailsKeeps(s: State, s2: State)
    requires Invariant(s) && NewManifestFails(s, s2)
    ensures Invariant(s2)
  {
    OtherManifest(s.disk, s2.disk, s.recorded);
  }

  /** Naming the new manifest is like adding the edit to the old one. */
  lemma SetCurrentFileKeeps(s: State, s2: State)
    requires Invariant(s) && SetCurrentFile(s, s2)
    ensures Invariant(s2)
  {
    AppliedOk(s.disk, s.m, s.recorded);
  }

  /** A new version takes the place of the current one. */
  function Replaced(vs: map<nat, Live>, current: nat, nextVersion: nat, files: set<nat>): map<nat, Live> {
    Unref(vs, current)[nextVersion := Live(files, 1)]
  }

  lemma ReplaceKeeps(vs: map<nat, Live>, nextVersion: nat, current: nat, iterators: multiset<nat>,
                     input: Option<nat>, base: Option<nat>, files: set<nat>)
    requires RefsOk(vs, nextVersion, current, iterators, input, base) && nextVersion !in vs
    ensures RefsOk(Replaced(vs, current, nextVersion, files), nextVersion + 1, nextVersion, iterators, input, base)
    ensures var vs2 := Replaced(vs, current, nextVersion, files);
      && nextVersion in vs2 && vs2[nextVersion].files == files
      && forall v :: v in vs2 && v != nextVersion ==> v in vs && vs2[v].files == vs[v].files
  {
    var vs2 := Replaced(vs, current, nextVersion, files);
    assert Holders(current, iterators, input, base, nextVersion) == 0;
    forall v | v in vs2
      ensures vs2[v].refs == Holders(nextVersion, iterators, input, base, v)
    {
      assert v != nextVersion ==> vs[v].refs == Holders(current, iterators, input, base, v);
    }
    forall v | Holders(nextVersion, iterators, input, base, v) > 0
      ensures v in vs2
    {
      assert v != nextVersion ==> Holders(current, iterators, input, base, v) > 0;
    }
  }

  /** What a commit leaves before cleanup. */
  function Committed(m: Memory, i: Install): Memory
    requires m.current in m.versions
  {
    var files := m.versions[m.current].files - i.del + i.add;
    m.(versions := Replaced(m.versions, m.current, m.nextVersion, files), current := m.nextVersion,
       nextVersion := m.nextVersion + 1, logNumber := i.log, install := None)
  }

  lemma CommitFiles(d: Disk, m: Memory, i: Install)
    requires MemoryOk(d, m) && m.install == Some(i) && i.written
    ensures m.current in m.versions
    ensures var m2 := Committed(m, i);
      && RefsOk(m2.versions, m2.nextVersion, m2.current, m2.iterators, InputOf(m2), BaseOf(m2))
      && FilesThere(d.tables, m2.versions) && NumbersOk(d, m2) && ManifestIs(d, m2)
      && (forall v :: v in m2.versions && v != m2.current ==> v in m.versions && m2.versions[v].files == m.versions[v].files)
      && m2.versions[m2.current].files == m.versions[m.current].files - i.del + i.add
  {
    var files := m.versions[m.current].files - i.del + i.add;
    ReplaceKeeps(m.versions, m.nextVersion, m.current, m.iterators, InputOf(m), BaseOf(m), files);
    var m2 := Committed(m, i);
    forall v, f | v in m2.versions && f in m2.versions[v].files
      ensures f < m2.next && f in d.tables
    {
      if v != m2.current {
        assert m2.versions[v].files == m.versions[v].files;
      }
    }
  }

  /** A memtable goes with the install of its flush. */
  function WithoutFlushed(m: Memory, i: Install): Memory {
    if i.purpose == Flushing then m.(imm := None) else m
  }

  lemma CommitRecords(d: Disk, m: Memory, i: Install)
    requires RecordsOk(d, m) && m.install == Some(i) && i.written && m.current in m.versions
    requires FlushedBelow(d.logs, d.Named().log, d.Named().installed)
    ensures RecordsOk(d, WithoutFlushed(Committed(m, i), i))
  {
    var m2 := WithoutFlushed(Committed(m, i), i);
    forall n | n in d.logs && n < m2.logfile
      ensures Flushed(d.logs, n, d.Named().installed + ImmRecords(m2) + Adds(m2))
    {
      assert Flushed(d.logs, n, d.Named().installed + ImmRecords(m) + Adds(m));
    }
  }

  /** DeleteObsoleteFiles removes nothing that is needed, now or after a crash. */
  lemma CleanedOk(d: Disk, m: Memory, recorded: set<Rec>)
    requires DiskOk(d, recorded) && MemoryOk(d, m) && m.install.None?
    ensures DiskOk(Cleaned(d, m), recorded) && MemoryOk(Cleaned(d, m), m)
  {
    var d2 := Cleaned(d, m);
    if !m.bgError {
      forall f | f in d.Named().files
        ensures f in LiveFiles(m)
      {
        assert f in m.versions[m.current].files;
      }
      forall n | n in d.logs && n < m.logNumber
        ensures d.logs[n] <= d.Named().installed
      {
        assert Flushed(d.logs, n, d.Named().installed);
      }
      RecoverableStays(d, d2, recorded);
      CleanedTables(d, m);
      CleanedRecords(d, m);
    }
  }

  lemma CleanedTables(d: Disk, m: Memory)
    requires FilesThere(d.tables, m.versions) && MakingOk(d, m) && m.install.None? && !m.bgError
    ensures FilesThere(Cleaned(d, m).tables, m.versions) && MakingOk(Cleaned(d, m), m)
  {
    forall v, f | v in m.versions && f in m.versions[v].files
      ensures f in LiveFiles(m)
    {
    }
  }

  lemma CleanedRecords(d: Disk, m: Memory)
    requires RecordsOk(d, m) && m.install.None? && !m.bgError
    requires d.current in d.manifests && m.manifestNumber == d.current
    ensures RecordsOk(Cleaned(d, m), m)
  {
    var d2 := Cleaned(d, m);
    assert d2.Named() == d.Named();
    forall n | n in d2.logs
      ensures n in d.logs && d2.logs[n] == d.logs[n]
    {
    }
    forall n | n in d2.logs && n < m.logfile
      ensures Flushed(d2.logs, n, d.Named().installed + ImmRecords(m) + Adds(m))
    {
      assert Flushed(d.logs, n, d.Named().installed + ImmRecords(m) + Adds(m));
    }
  }

  /** The memory after a commit and the cleanup that goes with it. */
  function AfterCommit(m: Memory, i: Install): Memory
    requires m.current in m.versions
  {
    var m2 := WithoutFlushed(Committed(m, i), i);
    if i.purpose == Compacting || i.purpose == Moving then Cleanup(m2) else m2
  }

  lemma AfterCommitOk(d: Disk, m: Memory, i: Install)
    requires MemoryOk(d, m) && m.install == Some(i) && i.written
    requires FlushedBelow(d.logs, d.Named().log, d.Named().installed)
    ensures m.current in m.versions && MemoryOk(d, AfterCommit(m, i)) && AfterCommit(m, i).install.None?
  {
    CommitFiles(d, m, i);
    CommitRecords(d, m, i);
    if i.purpose == Compacting || i.purpose == Moving {
      AfterCleanupOk(d, m, i);
    } else {
      CommitMaking(d, m, i);
    }
  }

  lemma CommitMaking(d: Disk, m: Memory, i: Install)
    requires MakingOk(d, m) && NumbersOk(d, m) && ManifestIs(d, m) && m.install == Some(i)
    requires i.purpose == Opening || i.purpose == Flushing
    requires forall v :: v in Committed(m, i).versions && v != m.nextVersion ==>
      v in m.versions && Committed(m, i).versions[v].files == m.versions[v].files
    requires m.nextVersion in Committed(m, i).versions
    requires Committed(m, i).versions[m.nextVersion].files == m.versions[m.current].files - i.del + i.add
    requires i.purpose == Opening ==> m.flush.None?
    ensures MakingOk(d, WithoutFlushed(Committed(m, i), i))
  {
  }

  lemma AfterCleanupMaking(d: Disk, m: Memory, i: Install)
    requires MakingOk(d, m) && m.install == Some(i) && m.current in m.versions
    requires i.purpose == Compacting || i.purpose == Moving
    ensures m.compaction.Some? && MakingOk(d, Cleanup(Committed(m, i)))
  {
    var m2 := Cleanup(Committed(m, i));
    assert m2.compaction.None? && m2.flush.None? && m2.install.None?;
  }

  lemma AfterCleanupOk(d: Disk, m: Memory, i: Install)
    requires MemoryOk(d, m) && m.install == Some(i) && i.written && m.current in m.versions
    requires i.purpose == Compacting || i.purpose == Moving
    requires RecordsOk(d, Committed(m, i))
    ensures MemoryOk(d, Cleanup(Committed(m, i)))
  {
    CommitFiles(d, m, i);
    AfterCleanupMaking(d, m, i);
    var m2 := Committed(m, i);
    UnrefKeeps(m2.versions, m2.nextVersion, m2.current, m2.iterators, InputOf(m2), BaseOf(m2), m.compaction.value.input,
               m2.iterators, None, BaseOf(m2));
  }

  lemma CommitKeeps(s: State, s2: State)
    requires Invariant(s) && Commit(s, s2)
    ensures Invariant(s2)
  {
    var i := s.m.install.value;
    AfterCommitOk(s.disk, s.m, i);
    CleanedOk(s.disk, AfterCommit(s.m, i), s.recorded);
  }

  lemma CleanupOk(d: Disk, m: Memory)
    requires MemoryOk(d, m) && m.flush.None? && m.install.None? && m.compaction.Some?
    ensures MemoryOk(d, Cleanup(m))
  {
    UnrefKeeps(m.versions, m.nextVersion, m.current, m.iterators, InputOf(m), BaseOf(m), m.compaction.value.input,
               m.iterators, None, BaseOf(m));
  }

  lemma AbandonCompactionKeeps(s: State, s2: State)
    requires Invariant(s) && AbandonCompaction(s, s2)
    ensures Invariant(s2)
  {
    CleanupOk(s.disk, s.m.(bgError := true));
  }

  lemma ManifestFailsKeeps(s: State, s2: State, reached: bool)
    requires Invariant(s) && ManifestFails(s, s2, reached)
    ensures Invariant(s2)
  {
    AppliedOk(s.disk, s.m, s.recorded);
    var i := s.m.install.value;
    if i.purpose != Opening {
      var m := s.m.(install := None, bgError := true);
      if i.purpose != Flushing {
        UnrefKeeps(m.versions, m.nextVersion, m.current, m.iterators, InputOf(m), BaseOf(m), m.compaction.value.input,
                   m.iterators, None, BaseOf(m));
      }
    }
  }

  lemma ReopenKeeps(s: State, s2: State, reuse: bool, tables: set<nat>, next: nat, append: bool, save: bool)
    requires Invariant(s) && Reopen(s, s2, reuse, tables, next, append, save)
    ensures Invariant(s2)
  {
    RecoverableStays(s.disk, s2.disk, s.recorded);
    var logs := LogsFrom(s.disk.logs, s.disk.Named().log);
    forall n | n in s2.disk.logs
      ensures n <= s2.m.logfile
    {
      assert n in s.disk.logs && n >= s.disk.Named().log ==> n in logs;
    }
    forall n | n in s2.disk.logs && n < s2.m.logfile
      ensures Flushed(s2.disk.logs, n, s2.disk.Named().installed + Adds(s2.m))
    {
      if n < s.disk.Named().log {
        assert Flushed(s.disk.logs, n, s.disk.Named().installed);
      } else {
        assert n in logs;
      }
    }
  }

  lemma CleanAfterOpenKeeps(s: State, s2: State)
    requires Invariant(s) && CleanAfterOpen(s, s2)
    ensures Invariant(s2)
  {
    CleanedOk(s.disk, s.m, s.recorded);
  }

  ghost predicate WriterStep(s: State, s2: State) {
    || (exists r :: AddRecord(s, s2, r)) || InsertRecord(s, s2) || SyncFails(s, s2) || SwitchMemTable(s, s2)
    || OpenIterator(s, s2) || (exists v :: CloseIterator(s, s2, v))
  }

  ghost predicate BackgroundStep(s: State, s2: State) {
    || (exists inputs :: StartCompaction(s, s2, inputs)) || OpenOutput(s, s2) || (exists n :: CreateOutput(s, s2, n))
    || AbandonCompaction(s, s2)
    || StartFlush(s, s2) || BuildTable(s, s2) || (exists removed :: BuildFails(s, s2, removed)) || EndBuild(s, s2)
  }

  ghost predicate InstallStep(s: State, s2: State) {
    || (exists purpose :: BeginInstall(s, s2, purpose)) || WriteManifest(s, s2)
    || (exists part :: BeginManifest(s, s2, part)) || DraftManifest(s, s2) || SetCurrentFile(s, s2)
    || NewManifestFails(s, s2) || (exists reached :: ManifestFails(s, s2, reached)) || Commit(s, s2)
    || Crash(s, s2) || CleanAfterOpen(s, s2) || (exists reuse, tables, next, append, save :: Reopen(s, s2, reuse,
      tables, next, append, save))
  }

  ghost predicate Next(s: State, s2: State) {
    WriterStep(s, s2) || BackgroundStep(s, s2) || InstallStep(s, s2)
  }

  lemma WriterStepKeeps(s: State, s2: State)
    requires Invariant(s) && WriterStep(s, s2)
    ensures Invariant(s2)
  {
    if r :| AddRecord(s, s2, r) {
      AddRecordKeeps(s, s2, r);
    } else if InsertRecord(s, s2) {
      InsertRecordKeeps(s, s2);
    } else if SyncFails(s, s2) {
      SyncFailsKeeps(s, s2);
    } else if SwitchMemTable(s, s2) {
      SwitchMemTableKeeps(s, s2);
    } else if OpenIterator(s, s2) {
      OpenIteratorKeeps(s, s2);
    } else {
      var v :| CloseIterator(s, s2, v);
      CloseIteratorKeeps(s, s2, v);
    }
  }

  lemma BackgroundStepKeeps(s: State, s2: State)
    requires Invariant(s) && BackgroundStep(s, s2)
    ensures Invariant(s2)
  {
    if inputs :| StartCompaction(s, s2, inputs) {
      StartCompactionKeeps(s, s2, inputs);
    } else if OpenOutput(s, s2) {
      OpenOutputKeeps(s, s2);
    } else if n :| CreateOutput(s, s2, n) {
      CreateOutputKeeps(s, s2, n);
    } else if AbandonCompaction(s, s2) {
      AbandonCompactionKeeps(s, s2);
    } else if StartFlush(s, s2) {
      StartFlushKeeps(s, s2);
    } else if BuildTable(s, s2) {
      BuildTableKeeps(s, s2);
    } else if removed :| BuildFails(s, s2, removed) {
      BuildFailsKeeps(s, s2, removed);
    } else {
      EndBuildKeeps(s, s2);
    }
  }

  lemma InstallStepKeeps(s: State, s2: State)
    requires Invariant(s) && InstallStep(s, s2)
    ensures Invariant(s2)
  {
    if purpose :| BeginInstall(s, s2, purpose) {
      BeginInstallKeeps(s, s2, purpose);
    } else if WriteManifest(s, s2) {
      WriteManifestKeeps(s, s2);
    } else if part :| BeginManifest(s, s2, part) {
      NewManifestKeeps(s, s2, part);
    } else if DraftManifest(s, s2) {
      DraftManifestKeeps(s, s2);
    } else if SetCurrentFile(s, s2) {
      SetCurrentFileKeeps(s, s2);
    } else if NewManifestFails(s, s2) {
      NewManifestFailsKeeps(s, s2);
    } else if reached :| ManifestFails(s, s2, reached) {
      ManifestFailsKeeps(s, s2, reached);
    } else if Commit(s, s2) {
      CommitKeeps(s, s2);
    } else if CleanAfterOpen(s, s2) {
      CleanAfterOpenKeeps(s, s2);
    } else if reuse, tables, next, append, save :| Reopen(s, s2, reuse, tables, next, append, save) {
      ReopenKeeps(s, s2, reuse, tables, next, append, save);
    }
  }

  /** A new database: NewDB writes a manifest with no tables, and the database is then opened. */
  function NewDatabase(): State {
    Closed(Disk({}, map[], map[1 := Manifest({}, 0, 2, {})], 1), {})
  }

  ghost predicate IsRun(run: seq<State>) {
    run != [] && run[0] == NewDatabase() && forall i :: 0 <= i < |run| - 1 ==> Next(run[i], run[i + 1])
  }

  lemma {:induction false} EveryRunKeepsInvariant(run: seq<State>)
    requires IsRun(run)
    ensures forall i :: 0 <= i < |run| ==> Invariant(run[i])
  {
    for i := 1 to |run|
      invariant forall j :: 0 <= j < i ==> Invariant(run[j])
    {
      var s, s2 := run[i - 1], run[i - 1 + 1];
      assert Next(s, s2);
      if WriterStep(s, s2) {
        WriterStepKeeps(s, s2);
      } else if BackgroundStep(s, s2) {
        BackgroundStepKeeps(s, s2);
      } else {
        InstallStepKeeps(s, s2);
      }
    }
  }

  // What a run guarantees

  /**
   * In every state of every run, crashed or not: the manifest that CURRENT names is there, and so are the tables
   * it names; and every record ever logged is in an installed table or in a log that reopening replays.
   */
  lemma NothingIsLost(run: seq<State>, i: nat)
    requires IsRun(run) && i < |run|
    ensures run[i].disk.current in run[i].disk.manifests
    ensures run[i].disk.Named().files <= run[i].disk.tables
    ensures forall r :: r in run[i].recorded ==> Recoverable(run[i].disk, r)
  {
    EveryRunKeepsInvariant(run);
  }

  /** In every state of every run, all tables of the current version and of all versions held by iterators are there. */
  lemma ReadersHaveTheirTables(run: seq<State>, i: nat, v: nat)
    requires IsRun(run) && i < |run| && run[i].Opened?
    requires v == run[i].m.current || v in run[i].m.iterators
    ensures v in run[i].m.versions && run[i].m.versions[v].files <= run[i].disk.tables
  {
    EveryRunKeepsInvariant(run);
    var m := run[i].m;
    assert Invariant(run[i]);
    assert Holders(m.current, m.iterators, InputOf(m), BaseOf(m), v) > 0;
  }

  /**
   * No step removes a table that a referenced version or the manifest has or that is pending, and no step
   * removes a log that holds a record not yet in an installed table.
   */
  lemma OnlyObsoleteFilesGo(run: seq<State>, i: nat)
    requires IsRun(run) && i + 1 < |run|
    ensures var s, s2 := run[i], run[i + 1];
      && (forall f :: f in s.disk.tables && f !in s2.disk.tables ==>
            && f !in s2.disk.Named().files
            && (s2.Opened? ==> f !in s2.m.pending && forall v :: v in s2.m.versions ==> f !in s2.m.versions[v].files))
      && (forall n :: n in s.disk.logs && n !in s2.disk.logs ==> s.disk.logs[n] <= s2.disk.Named().installed)
  {
    EveryRunKeepsInvariant(run);
    var s, s2 := run[i], run[i + 1];
    assert Invariant(s) && Invariant(s2) && Next(s, s2);
    forall n | n in s.disk.logs && n !in s2.disk.logs
      ensures s.disk.logs[n] <= s2.disk.Named().installed
    {
      RemovedLogsAreFlushed(s, s2, n);
    }
    if s2.Opened? {
      forall f | f in s.disk.tables && f !in s2.disk.tables
        ensures f !in s2.m.pending
      {
        RemovedTablesAreNotPending(s, s2, f);
      }
    }
  }

  lemma RemovedTablesAreNotPending(s: State, s2: State, f: nat)
    requires Next(s, s2) && s2.Opened? && f in s.disk.tables && f !in s2.disk.tables
    ensures f !in s2.m.pending
  {
  }

  lemma RemovedLogsAreFlushed(s: State, s2: State, n: nat)
    requires Invariant(s) && Next(s, s2) && n in s.disk.logs && n !in s2.disk.logs
    ensures s.disk.logs[n] <= s2.disk.Named().installed
  {
    if CleanAfterOpen(s, s2) {
      assert Flushed(s.disk.logs, n, s.disk.Named().installed);
      return;
    }
    if !Commit(s, s2) { LogsStay(s, s2); }
    var i := s.m.install.value;
    AfterCommitOk(s.disk, s.m, i);
    assert RecordsOk(s.disk, AfterCommit(s.m, i));
    assert Flushed(s.disk.logs, n, s.disk.Named().installed);
  }

  lemma LogsStay(s: State, s2: State)
    requires Next(s, s2) && !Commit(s, s2) && !CleanAfterOpen(s, s2)
    ensures s.disk.logs.Keys <= s2.disk.logs.Keys
  {
    if WriterStep(s, s2) {
      WriterLogsStay(s, s2);
    } else if BackgroundStep(s, s2) {
      BackgroundLogsStay(s, s2);
    } else {
      InstallLogsStay(s, s2);
    }
  }

  lemma WriterLogsStay(s: State, s2: State)
    requires WriterStep(s, s2)
    ensures s.disk.logs.Keys <= s2.disk.logs.Keys
  {
  }

  lemma BackgroundLogsStay(s: State, s2: State)
    requires BackgroundStep(s, s2)
    ensures s.disk.logs == s2.disk.logs
  {
  }

  lemma InstallLogsStay(s: State, s2: State)
    requires InstallStep(s, s2) && !Commit(s, s2) && !CleanAfterOpen(s, s2)
    ensures s.disk.logs.Keys <= s2.disk.logs.Keys
  {
  }

  /** The steps that end with DeleteObsoleteFiles, without an error before. */
  ghost predicate Cleans(s: State, s2: State) {
    && s2.Opened? && !s2.m.bgError
    && (CleanAfterOpen(s, s2) || (Commit(s, s2) && s.m.install.value.purpose != Moving))
  }

  /**
   * After a cleanup every table there is pending or in a referenced version, every log is from the log number on,
   * and no manifest is older than the one that CURRENT names.
   */
  lemma NothingObsoleteStays(run: seq<State>, i: nat)
    requires IsRun(run) && i + 1 < |run| && Cleans(run[i], run[i + 1])
    ensures var d, m := run[i + 1].disk, run[i + 1].m;
      && (forall f :: f in d.tables ==> IsLive(m, f))
      && (forall n :: n in d.logs ==> n >= m.logNumber)
      && (forall n :: n in d.manifests ==> n >= d.current)
  {
    EveryRunKeepsInvariant(run);
    var s, s2 := run[i], run[i + 1];
    assert Invariant(s2);
    var d := CleanedFrom(s, s2);
    assert s2.m.install.None? && s2.m.manifestNumber == s2.disk.current;
  }

  lemma CleanedFrom(s: State, s2: State) returns (d: Disk)
    requires Cleans(s, s2)
    ensures s2.m.install.None? && s2.disk == Cleaned(d, s2.m)
  {
    d := s.disk;
  }

  /** A table that is being made is none that a referenced version or the manifest already has. */
  lemma NoLiveTableIsOverwritten(run: seq<State>, i: nat, n: nat)
    requires IsRun(run) && i + 1 < |run| && run[i].Opened?
    requires CreateOutput(run[i], run[i + 1], n) || (BuildTable(run[i], run[i + 1]) && n == run[i].m.flush.value.number)
    ensures n !in run[i].disk.Named().files
    ensures forall v :: v in run[i].m.versions ==> n !in run[i].m.versions[v].files
  {
    EveryRunKeepsInvariant(run);
    assert Invariant(run[i]);
    assert n in Outputs(run[i].m) + Building(run[i].m);
  }
}
