/**
 * DBIter (db/db_iter.cc): a cursor over the user keys visible at one sequence number, driven by a
 * cursor over all internal entries.
 */
module DbIter {
  import opened DbFormat

  predicate Seen(e: Entry, s: SequenceNumber) {
    e.key.sequence <= s
  }

  /** Entry `i` is what a reader at `s` gets for its user key: the newest visible one, and a value. */
  predicate Live(es: seq<Entry>, s: SequenceNumber, i: nat)
    requires i < |es|
  {
    && Seen(es[i], s) && es[i].key.kind.Value?
    && forall j :: 0 <= j < i && es[j].key.user == es[i].key.user ==> !Seen(es[j], s)
  }

  /** The live entries among the first `n`. */
  ghost function LiveUpTo(es: seq<Entry>, s: SequenceNumber, n: nat): seq<Entry>
    requires n <= |es|
  {
    if n == 0 then []
    else LiveUpTo(es, s, n - 1) + (if Live(es, s, n - 1) then [es[n - 1]] else [])
  }

  /** What the iterator shows: the live entries, in order. */
  ghost function View(es: seq<Entry>, s: SequenceNumber): seq<Entry> {
    LiveUpTo(es, s, |es|)
  }

  // The view is the sorted map of what readers see

  lemma {:induction false} LiveUpToIs(es: seq<Entry>, s: SequenceNumber, n: nat)
    requires Sorted(es) && n <= |es|
    ensures forall e :: e in LiveUpTo(es, s, n) <==> exists i :: 0 <= i < n && Live(es, s, i) && es[i] == e
    ensures forall i, j :: 0 <= i < j < |LiveUpTo(es, s, n)| ==>
      LiveUpTo(es, s, n)[i].key.user < LiveUpTo(es, s, n)[j].key.user
  {
    if n > 0 {
      LiveUpToIs(es, s, n - 1);
      var l := LiveUpTo(es, s, n - 1);
      if Live(es, s, n - 1) {
        forall i | 0 <= i < |l|
          ensures l[i].key.user < es[n - 1].key.user
        {
          assert l[i] in l;
          var j :| 0 <= j < n - 1 && Live(es, s, j) && es[j] == l[i];
          assert es[j].key.Less(es[n - 1].key);
        }
      }
    }
  }

  lemma LiveIsNewest(es: seq<Entry>, s: SequenceNumber, i: nat)
    requires Sorted(es) && i < |es| && Live(es, s, i)
    ensures Read(Elements(es), es[i].key.user, s) == Some(es[i].value)
  {
    SortedIsUnique(es);
    forall x | x in Elements(es) && Visible(x, es[i].key.user, s)
      ensures x.key.Tag() <= es[i].key.Tag()
    {
      var j :| 0 <= j < |es| && es[j] == x;
      assert i == j || es[i].key.Less(es[j].key);
    }
    ReadIs(Elements(es), es[i].key.user, s, es[i]);
  }

  lemma NewestIsLive(es: seq<Entry>, s: SequenceNumber, u: UserKey, v: Bytes) returns (i: nat)
    requires Sorted(es) && Read(Elements(es), u, s) == Some(v)
    ensures i < |es| && Live(es, s, i) && es[i].key.user == u && es[i].value == v
  {
    SortedIsUnique(es);
    var m :| IsNewest(Elements(es), u, s, m);
    ReadIs(Elements(es), u, s, m);
    assert IsNewest(Elements(es), u, s, m) && Visible(m, u, s);
    assert m in es;
    i :| 0 <= i < |es| && es[i] == m;
    forall j | 0 <= j < i && es[j].key.user == m.key.user
      ensures !Seen(es[j], s)
    {
      assert es[j].key.Less(es[i].key) && es[j] in Elements(es);
      assert !Visible(es[j], u, s);
    }
  }

  /** The view holds `v` for `u` exactly when a reader at `s` reads `v`, and each user key once, in order. */
  lemma ViewIsWhatReadersSee(es: seq<Entry>, s: SequenceNumber, u: UserKey, v: Bytes)
    requires Sorted(es)
    ensures (exists e :: e in View(es, s) && e.key.user == u && e.value == v) <==> Read(Elements(es), u, s) == Some(v)
    ensures forall i, j :: 0 <= i < j < |View(es, s)| ==> View(es, s)[i].key.user < View(es, s)[j].key.user
  {
    LiveUpToIs(es, s, |es|);
    if e :| e in View(es, s) && e.key.user == u && e.value == v {
      var i :| 0 <= i < |es| && Live(es, s, i) && es[i] == e;
      LiveIsNewest(es, s, i);
    }
    if Read(Elements(es), u, s) == Some(v) {
      var i := NewestIsLive(es, s, u, v);
      assert es[i] in View(es, s);
    }
  }

  /** Positions without live entries do not count. */
  lemma {:induction false} NoneBetween(es: seq<Entry>, s: SequenceNumber, a: nat, b: nat)
    requires a <= b <= |es| && forall i :: a <= i < b ==> !Live(es, s, i)
    ensures LiveUpTo(es, s, a) == LiveUpTo(es, s, b)
    decreases b
  {
    if a < b {
      NoneBetween(es, s, a, b - 1);
    }
  }

  lemma {:induction false} ViewAt(es: seq<Entry>, s: SequenceNumber, i: nat, n: nat)
    requires i < n <= |es| && Live(es, s, i)
    ensures |LiveUpTo(es, s, i)| < |LiveUpTo(es, s, n)|
    ensures LiveUpTo(es, s, n)[|LiveUpTo(es, s, i)|] == es[i]
    decreases n
  {
    if i < n - 1 {
      ViewAt(es, s, i, n - 1);
    }
  }

  /** How many entries of a view come before user key `target`. */
  ghost function CountBelow(view: seq<Entry>, target: UserKey): nat {
    if view == [] || view[0].key.user >= target then 0 else 1 + CountBelow(view[1..], target)
  }

  lemma {:induction false} CountBelowIs(view: seq<Entry>, target: UserKey, n: nat)
    requires n <= |view|
    requires forall i :: 0 <= i < n ==> view[i].key.user < target
    requires n < |view| ==> view[n].key.user >= target
    ensures CountBelow(view, target) == n
  {
    if n > 0 {
      CountBelowIs(view[1..], target, n - 1);
    }
  }

  class DBIter {
    const es: seq<Entry>  // the entries the internal iterator runs over
    const s: SequenceNumber
    const emptyKey: UserKey  // where the comparator puts the empty string
    var pos: nat  // the internal iterator: a position in es, |es| when invalid
    var savedKey: UserKey
    var savedValue: Bytes
    var direction: Direction
    var valid: bool
    ghost var at: nat  // the position in the view, its length when invalid

    constructor (es: seq<Entry>, s: SequenceNumber, emptyKey: UserKey)
      requires Sorted(es)
      ensures Consistent() && !valid && this.es == es && this.s == s
    {
      this.es, this.s, this.emptyKey := es, s, emptyKey;
      pos, savedKey, savedValue, direction, valid := |es|, emptyKey, [], Forward, false;
      at := |View(es, s)|;
    }

    /** Entry `c` is what the iterator shows. */
    ghost predicate Shows(c: nat)
      reads this
      requires c < |es| && pos <= |es|
    {
      && Live(es, s, c)
      && at == |LiveUpTo(es, s, c)|
      && if direction == Forward then
           pos == c
         else
           && savedKey == es[c].key.user && savedValue == es[c].value
           && JustBefore(es, s, pos, savedKey)
    }

    ghost predicate Consistent()
      reads this
    {
      && Sorted(es) && pos <= |es|
      && (if valid then exists c :: 0 <= c < |es| && Shows(c) else at == |View(es, s)|)
    }

    function Key(): UserKey
      requires Consistent() && valid
      reads this
      ensures at < |View(es, s)| && Key() == View(es, s)[at].key.user
    {
      ShownIsInView();
      if direction == Forward then es[pos].key.user else savedKey
    }

    function Value(): Bytes
      requires Consistent() && valid
      reads this
      ensures at < |View(es, s)| && Value() == View(es, s)[at].value
    {
      ShownIsInView();
      if direction == Forward then es[pos].value else savedValue
    }

    lemma ShownIsInView()
      requires Consistent() && valid
      ensures at < |View(es, s)|
      ensures direction == Forward ==> pos < |es| && View(es, s)[at] == es[pos]
      ensures direction == Reverse ==> View(es, s)[at].key.user == savedKey && View(es, s)[at].value == savedValue
    {
      var c :| 0 <= c < |es| && Shows(c);
      ViewAt(es, s, c, |es|);
    }

    /** The internal iterator's Prev. */
    method StepBack()
      requires pos < |es|
      modifies this`pos
      ensures pos == if old(pos) == 0 then |es| else old(pos) - 1
    {
      pos := if pos == 0 then |es| else pos - 1;
    }

    /**
     * FindNextUserEntry. On entry the iterator stands at `pos`; with `skipping`, entries up to user key
     * `savedKey` are to be passed over.
     */
    method FindNextUserEntry(skipping: bool)
      requires Sorted(es) && pos < |es| && direction == Forward
      requires NextScan(es, s, pos, pos, skipping, savedKey, skipping, savedKey)
      modifies this
      ensures old(pos) <= pos <= |es| && direction == Forward
      ensures forall j {:trigger Live(es, s, j)} ::
        old(pos) <= j < pos && Live(es, s, j) ==> Skipped(skipping, old(savedKey), es[j].key.user)
      ensures valid <==> pos < |es|
      ensures valid ==> !Skipped(skipping, old(savedKey), es[pos].key.user)
      ensures Consistent() && at == |LiveUpTo(es, s, pos)| && (valid ==> Live(es, s, pos))
    {
      ghost var p, k0 := pos, savedKey;
      var skip := skipping;
      while pos < |es|
        invariant direction == Forward && p <= pos <= |es| && NextScan(es, s, p, pos, skipping, k0, skip, savedKey)
        decreases |es| - pos
      {
        var ikey := es[pos].key;
        if ikey.sequence <= s && ikey.kind.Value? && !Skipped(skip, savedKey, ikey.user) {
          ScanFound(es, s, p, pos, skipping, k0, skip, savedKey);
          valid := true;
          savedKey := emptyKey;
          at := |LiveUpTo(es, s, pos)|;
          assert Shows(pos);
          return;
        }
        if ikey.sequence <= s && ikey.kind.Deletion? {
          ScanDeletion(es, s, p, pos, skipping, k0, skip, savedKey);
          savedKey := ikey.user;
          skip := true;
        } else {
          ScanHidden(es, s, p, pos, skipping, k0, skip, savedKey);
        }
        pos := pos + 1;
      }
      savedKey := emptyKey;
      valid := false;
      at := |View(es, s)|;
    }

    /**
     * FindPrevUserEntry: back to the nearest live entry `c` at or before the internal iterator. It stops
     * at a visible entry of a smaller user key, so invisible ones may lie between.
     */
    method FindPrevUserEntry() returns (ghost c: nat)
      requires Sorted(es) && pos <= |es| && direction == Reverse
      modifies this
      ensures Consistent()
      ensures valid ==> c <= old(pos) < |es| && Shows(c) && forall j :: c < j <= old(pos) ==> !Live(es, s, j)
      ensures !valid && old(pos) < |es| ==> forall j :: 0 <= j <= old(pos) ==> !Live(es, s, j)
    {
      var valueType := Deletion;
      c := 0;
      ghost var lo, found := if pos < |es| then pos as int else -1, false;
      ghost var q := lo;
      while pos < |es|
        invariant pos <= |es| && lo == (if pos < |es| then pos as int else -1) && direction == Reverse
        invariant PrevScan(es, s, q, lo, found, c, valueType, savedKey, savedValue)
        decreases lo + 1
      {
        var ikey := es[pos].key;
        if ikey.sequence <= s && valueType != Deletion && ikey.user < savedKey {
          break;
        }
        BackStep(es, s, q, lo, found, c, valueType, savedKey, savedValue,
                 if ikey.kind.Value? then ikey.user else emptyKey, if ikey.kind.Value? then es[pos].value else []);
        if ikey.sequence <= s {
          valueType := ikey.kind;
          if valueType == Deletion {
            savedKey := emptyKey;
            savedValue := [];
          } else {
            savedKey := ikey.user;
            savedValue := es[pos].value;
          }
          c, found := pos, true;
        }
        StepBack();
        lo := lo - 1;
      }
      if valueType == Deletion {
        valid := false;
        savedKey := emptyKey;
        savedValue := [];
        direction := Forward;
        at := |View(es, s)|;
        BackNone(es, s, q, found, c);
      } else {
        valid := true;
        at := |LiveUpTo(es, s, c)|;
        BackFound(es, s, q, pos, c, savedKey, savedValue);
        assert Shows(c);
      }
    }

    /** Which live entries lie around the one shown. */
    lemma {:induction false} AroundShown(c: nat, n: nat)
      requires Sorted(es) && c < |es| && Live(es, s, c) && c < n <= |es|
      requires forall j :: c < j < n && Live(es, s, j) ==> es[j].key.user <= es[c].key.user
      ensures |LiveUpTo(es, s, n)| == |LiveUpTo(es, s, c)| + 1
    {
      forall j | c < j < n ensures !Live(es, s, j) { assert es[c].key.Less(es[j].key); }
      NoneBetween(es, s, c + 1, n);
    }

    method Next()
      requires Consistent() && valid
      modifies this
      ensures Consistent() && at == old(at) + 1 && (valid <==> at < |View(es, s)|)
    {
      ghost var c :| 0 <= c < |es| && Shows(c);
      UsersInOrder(es);
      if direction == Reverse {
        direction := Forward;
        if pos == |es| {
          pos := 0;
        } else {
          pos := pos + 1;
        }
        if pos == |es| {
          assert false;  // the entry shown lies ahead
        }
      } else {
        savedKey := es[pos].key.user;
      }
      PastShown(es, s, c, pos, savedKey);
      FindNextUserEntry(true);
      AroundShown(c, pos);
      if valid { ViewAt(es, s, pos, |es|); }
    }

    /** The part of Prev that turns round: back past all entries of the user key shown. */
    method TurnBack(ghost c: nat) returns (ended: bool)
      requires Sorted(es) && c < |es| && Live(es, s, c) && pos == c && direction == Forward
      modifies this
      ensures ended ==> !valid && at == |View(es, s)| && LiveUpTo(es, s, c) == [] && pos == |es|
      ensures !ended ==> pos < c && direction == Reverse && JustBefore(es, s, pos, es[c].key.user)
    {
      savedKey := es[pos].key.user;
      while true
        invariant pos <= c && savedKey == es[c].key.user
        invariant forall j :: pos <= j < c ==> es[j].key.user == savedKey
        decreases pos
      {
        StepBack();
        if pos == |es| {
          valid := false;
          savedKey := emptyKey;
          savedValue := [];
          at := |View(es, s)|;
          NoneBetween(es, s, 0, c);
          return true;
        }
        if es[pos].key.user < savedKey {
          break;
        }
        assert es[pos].key.Less(es[c].key);
      }
      direction := Reverse;
      BeforeShown(es, s, c, pos, savedKey);
      return false;
    }

    method Prev()
      requires Consistent() && valid
      modifies this
      ensures Consistent() && at == (if old(at) == 0 then |View(es, s)| else old(at) - 1)
      ensures valid <==> old(at) > 0
    {
      ghost var c :| 0 <= c < |es| && Shows(c);
      if direction == Forward {
        var ended := TurnBack(c);
        if ended {
          return;
        }
      }
      NoneLiveBetween(es, s, c, pos);
      ghost var b := FindPrevUserEntry();
      if valid {
        NoneBetween(es, s, b + 1, c);
      } else {
        NoneBetween(es, s, 0, c);
      }
    }

    method Seek(target: UserKey)
      requires Consistent()
      modifies this
      ensures Consistent() && at == CountBelow(View(es, s), target) && (valid <==> at < |View(es, s)|)
    {
      direction := Forward;
      savedValue := [];
      savedKey := target;
      pos := SeekIndex(es, LookupKey(target, s));
      ghost var p := pos;
      SeekCounts(target, p);
      if pos < |es| {
        FromTarget(es, s, target, p);
        FindNextUserEntry(false);
        NoneBetween(es, s, p, pos);
        if valid { ViewAt(es, s, pos, |es|); }
      } else {
        valid := false;
        at := |View(es, s)|;
      }
    }

    lemma {:induction false} SeekCounts(target: UserKey, p: nat)
      requires Sorted(es) && p == SeekIndex(es, LookupKey(target, s))
      ensures CountBelow(View(es, s), target) == |LiveUpTo(es, s, p)|
    {
      var view, n := View(es, s), |LiveUpTo(es, s, p)|;
      LiveUpToIs(es, s, |es|);
      LiveUpToIs(es, s, p);
      LiveUpToPrefix(es, s, p, |es|);
      forall i | 0 <= i < n
        ensures view[i].key.user < target
      {
        var e := LiveUpTo(es, s, p)[i];
        assert e in LiveUpTo(es, s, p) && view[i] == e;
        var j :| 0 <= j < p && Live(es, s, j) && es[j] == e;
        assert es[j].key.Less(LookupKey(target, s));
      }
      if n < |view| {
        var j := FirstLiveFrom(es, s, p, view[n]);
        assert j == p || es[p].key.Less(es[j].key);
      }
      CountBelowIs(view, target, n);
    }

    method SeekToFirst()
      requires Consistent()
      modifies this
      ensures Consistent() && at == 0 && (valid <==> at < |View(es, s)|)
    {
      direction := Forward;
      savedValue := [];
      pos := 0;
      if pos < |es| {
        FindNextUserEntry(false);
        NoneBetween(es, s, 0, pos);
        if valid { ViewAt(es, s, pos, |es|); }
      } else {
        valid := false;
        at := |View(es, s)|;
      }
    }

    method SeekToLast()
      requires Consistent()
      modifies this
      ensures Consistent() && at == (if View(es, s) == [] then 0 else |View(es, s)| - 1) && (valid <==> View(es, s) != [])
    {
      direction := Reverse;
      savedValue := [];
      pos := if |es| > 0 then |es| - 1 else 0;
      ghost var c := FindPrevUserEntry();
      if valid {
        NoneBetween(es, s, c + 1, |es|);
      } else {
        NoneBetween(es, s, 0, |es|);
      }
    }
  }

  // Scanning forward

  predicate Skipped(skip: bool, key: UserKey, u: UserKey) {
    skip && u <= key
  }

  lemma UsersInOrder(es: seq<Entry>)
    requires Sorted(es)
    ensures forall i, j :: 0 <= i <= j < |es| ==> es[i].key.user <= es[j].key.user
  {
    forall i, j | 0 <= i <= j < |es|
      ensures es[i].key.user <= es[j].key.user
    {
      assert i == j || es[i].key.Less(es[j].key);
    }
  }

  /**
   * A forward scan that started at `p`, skipping up to `key0`, has come to `pos` and now skips up to
   * `key`: it has passed nothing it should have stopped at, and what it will skip it should.
   */
  ghost predicate NextScan(es: seq<Entry>, s: SequenceNumber, p: nat, pos: nat, skip0: bool, key0: UserKey,
                           skip: bool, key: UserKey)
    requires p <= pos <= |es|
  {
    && (forall j {:trigger Live(es, s, j)} :: p <= j < pos && Live(es, s, j) ==> Skipped(skip0, key0, es[j].key.user))
    && (skip ==> forall j {:trigger Seen(es[j], s)} :: pos <= j < |es| && Seen(es[j], s) ==> key <= es[j].key.user)
    && (forall j {:trigger Live(es, s, j)} :: pos <= j < |es| && Live(es, s, j) && Skipped(skip, key, es[j].key.user) ==>
          Skipped(skip0, key0, es[j].key.user))
    && (forall j {:trigger Seen(es[j], s)} :: pos <= j < |es| && Seen(es[j], s) && !Skipped(skip, key, es[j].key.user) ==>
          !Skipped(skip0, key0, es[j].key.user) && NotSeenBefore(es, s, pos, es[j].key.user))
  }

  /** No visible entry of user key `u` among the first `n`. */
  ghost predicate NotSeenBefore(es: seq<Entry>, s: SequenceNumber, n: nat, u: UserKey)
    requires n <= |es|
  {
    forall i :: 0 <= i < n && es[i].key.user == u ==> !Seen(es[i], s)
  }

  lemma ScanFound(es: seq<Entry>, s: SequenceNumber, p: nat, pos: nat, skip0: bool, key0: UserKey, skip: bool, key: UserKey)
    requires Sorted(es) && p <= pos < |es| && NextScan(es, s, p, pos, skip0, key0, skip, key)
    requires Seen(es[pos], s) && es[pos].key.kind.Value? && !Skipped(skip, key, es[pos].key.user)
    ensures Live(es, s, pos) && !Skipped(skip0, key0, es[pos].key.user)
  {
    assert NotSeenBefore(es, s, pos, es[pos].key.user);
  }

  lemma ScanDeletion(es: seq<Entry>, s: SequenceNumber, p: nat, pos: nat, skip0: bool, key0: UserKey, skip: bool, key: UserKey)
    requires Sorted(es) && p <= pos < |es| && NextScan(es, s, p, pos, skip0, key0, skip, key)
    requires Seen(es[pos], s) && es[pos].key.kind.Deletion?
    ensures NextScan(es, s, p, pos + 1, skip0, key0, true, es[pos].key.user)
  {
    UsersInOrder(es);
    forall j | pos + 1 <= j < |es| && Seen(es[j], s) && !Skipped(true, es[pos].key.user, es[j].key.user)
      ensures !Skipped(skip0, key0, es[j].key.user) && NotSeenBefore(es, s, pos + 1, es[j].key.user)
    {
      assert !Skipped(skip, key, es[j].key.user);
    }
  }

  lemma ScanHidden(es: seq<Entry>, s: SequenceNumber, p: nat, pos: nat, skip0: bool, key0: UserKey, skip: bool, key: UserKey)
    requires Sorted(es) && p <= pos < |es| && NextScan(es, s, p, pos, skip0, key0, skip, key)
    requires !Seen(es[pos], s) || (es[pos].key.kind.Value? && Skipped(skip, key, es[pos].key.user))
    ensures NextScan(es, s, p, pos + 1, skip0, key0, skip, key)
  {
    forall j | pos + 1 <= j < |es| && Seen(es[j], s) && !Skipped(skip, key, es[j].key.user)
      ensures NotSeenBefore(es, s, pos + 1, es[j].key.user)
    {
      assert NotSeenBefore(es, s, pos, es[j].key.user);
    }
  }

  /** Where a scan past the entry shown starts. */
  lemma PastShown(es: seq<Entry>, s: SequenceNumber, c: nat, pos: nat, key: UserKey)
    requires Sorted(es) && c < |es| && key == es[c].key.user && pos <= c
    requires forall j :: pos <= j < |es| && Seen(es[j], s) ==> key <= es[j].key.user
    ensures NextScan(es, s, pos, pos, true, key, true, key)
  {
    UsersInOrder(es);
  }

  /** A scan from a seek target starts with nothing to skip. */
  lemma {:induction false} FromTarget(es: seq<Entry>, s: SequenceNumber, target: UserKey, p: nat)
    requires Sorted(es) && p == SeekIndex(es, LookupKey(target, s)) && p < |es|
    ensures forall key :: NextScan(es, s, p, p, false, key, false, key)
  {
    forall j | p <= j < |es|
      ensures NotSeenBefore(es, s, p, es[j].key.user)
    {
      assert p == j || es[p].key.Less(es[j].key);
      forall i | 0 <= i < p && es[i].key.user == es[j].key.user
        ensures !Seen(es[i], s)
      {
        assert es[i].key.Less(LookupKey(target, s));
      }
    }
  }

  // Scanning backward

  /**
   * A backward scan that started at `q` has come down to `lo`: `c` is the last visible entry it passed,
   * and nothing between `c` and `q` is live.
   */
  ghost predicate PrevScan(es: seq<Entry>, s: SequenceNumber, q: int, lo: int, found: bool, c: nat, kind: ValueType,
                           key: UserKey, value: Bytes)
    requires -1 <= lo <= q < |es|
  {
    && (!found ==> kind == Deletion && forall j :: lo < j <= q ==> !Seen(es[j], s))
    && (found ==>
          && lo < c <= q && Seen(es[c], s) && kind == es[c].key.kind
          && (kind.Value? ==> key == es[c].key.user && value == es[c].value)
          && (forall j :: lo < j < c ==> !Seen(es[j], s))
          && (forall j :: c < j <= q ==> !Live(es, s, j)))
  }

  lemma BackStep(es: seq<Entry>, s: SequenceNumber, q: int, lo: int, found: bool, c: nat, kind: ValueType,
                 key: UserKey, value: Bytes, key': UserKey, value': Bytes)
    requires Sorted(es) && 0 <= lo <= q < |es| && PrevScan(es, s, q, lo, found, c, kind, key, value)
    requires !(Seen(es[lo], s) && kind != Deletion && es[lo].key.user < key)
    requires es[lo].key.kind.Value? ==> key' == es[lo].key.user && value' == es[lo].value
    ensures Seen(es[lo], s) ==> PrevScan(es, s, q, lo - 1, true, lo, es[lo].key.kind, key', value')
    ensures !Seen(es[lo], s) ==> PrevScan(es, s, q, lo - 1, found, c, kind, key, value)
  {
    UsersInOrder(es);
    if Seen(es[lo], s) && found {
      assert !Live(es, s, c);
    }
  }

  lemma BackNone(es: seq<Entry>, s: SequenceNumber, q: int, found: bool, c: nat)
    requires -1 <= q < |es|
    requires !found ==> forall j :: 0 <= j <= q ==> !Seen(es[j], s)
    requires found ==> c <= q && es[c].key.kind == Deletion
    requires found ==> forall j :: 0 <= j < c ==> !Seen(es[j], s)
    requires found ==> forall j :: c < j <= q ==> !Live(es, s, j)
    ensures forall j :: 0 <= j <= q ==> !Live(es, s, j)
  {
  }

  lemma BackFound(es: seq<Entry>, s: SequenceNumber, q: int, pos: nat, c: nat, key: UserKey, value: Bytes)
    requires Sorted(es) && -1 <= q < |es| && pos <= |es| && c <= q
    requires Seen(es[c], s) && es[c].key.kind.Value? && key == es[c].key.user && value == es[c].value
    requires forall j :: (if pos < |es| then pos as int else -1) < j < c ==> !Seen(es[j], s)
    requires pos < |es| ==> pos < c && es[pos].key.user < key
    ensures Live(es, s, c) && JustBefore(es, s, pos, key)
  {
    UsersInOrder(es);
  }

  /** An iterator before all entries of the user key shown is just before them. */
  lemma BeforeShown(es: seq<Entry>, s: SequenceNumber, c: nat, pos: nat, key: UserKey)
    requires Sorted(es) && pos < c < |es| && key == es[c].key.user && es[pos].key.user < key
    requires forall j :: pos < j < c ==> es[j].key.user == key
    ensures JustBefore(es, s, pos, key)
  {
    UsersInOrder(es);
  }

  lemma NoneLiveBetween(es: seq<Entry>, s: SequenceNumber, c: nat, pos: nat)
    requires Sorted(es) && c < |es| && pos <= |es| && Live(es, s, c) && JustBefore(es, s, pos, es[c].key.user)
    ensures pos < |es| ==> pos < c
    ensures forall j :: (if pos < |es| then pos + 1 else 0) <= j < c ==> !Live(es, s, j)
  {
    UsersInOrder(es);
    forall j | (if pos < |es| then pos + 1 else 0) <= j < c
      ensures !Live(es, s, j)
    {
      assert es[j].key.user <= es[c].key.user;
    }
  }

  lemma {:induction false} LiveUpToPrefix(es: seq<Entry>, s: SequenceNumber, a: nat, b: nat)
    requires a <= b <= |es|
    ensures LiveUpTo(es, s, a) <= LiveUpTo(es, s, b)
    decreases b
  {
    if a < b {
      LiveUpToPrefix(es, s, a, b - 1);
    }
  }

  /** The entry of the view right after the live entries before `p` comes from position `p` on. */
  lemma {:induction false} FirstLiveFrom(es: seq<Entry>, s: SequenceNumber, p: nat, e: Entry) returns (j: nat)
    requires p <= |es| && |LiveUpTo(es, s, p)| < |View(es, s)| && View(es, s)[|LiveUpTo(es, s, p)|] == e
    ensures p <= j < |es| && Live(es, s, j) && es[j] == e
  {
    j := p;
    while !Live(es, s, j)
      invariant p <= j < |es| && LiveUpTo(es, s, j) == LiveUpTo(es, s, p)
      decreases |es| - j
    {
      j := j + 1;
    }
    ViewAt(es, s, j, |es|);
  }

  /** An internal iterator at `pos` stands before all entries of `u` that a reader can see, if not before those it cannot. */
  ghost predicate JustBefore(es: seq<Entry>, s: SequenceNumber, pos: nat, u: UserKey)
    requires pos <= |es|
  {
    && (pos < |es| ==> es[pos].key.user < u)
    && forall j :: 0 <= j < |es| && (pos == |es| || pos < j) && Seen(es[j], s) ==> u <= es[j].key.user
  }
}
