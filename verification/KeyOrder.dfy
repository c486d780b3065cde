/**
 * Byte strings in bytewise order and internal keys over them, and the short keys an index may use in place
 * of full ones (util/comparator.cc, db/dbformat.cc).
 */
module KeyOrder {
  import opened Checksums

  type Text = seq<Byte>

  /** At position `i` the strings part: `a` ends or has the smaller byte. */
  predicate PartsAt(a: Text, b: Text, i: nat) {
    i <= |a| && i < |b| && a[..i] == b[..i] && (i < |a| ==> a[i] < b[i])
  }

  /** Slice::compare is negative. */
  predicate Less(a: Text, b: Text) {
    exists i :: 0 <= i < |b| && PartsAt(a, b, i)
  }

  lemma LessIrreflexive(a: Text)
    ensures !Less(a, a)
  {
  }

  lemma PrefixByte(a: Text, b: Text, n: nat, i: nat)
    requires i < n <= |a| && n <= |b| && a[..n] == b[..n]
    ensures a[i] == b[i] && a[..i] == b[..i]
  {
    assert a[..n][i] == b[..n][i];
    assert a[..n][..i] == a[..i] && b[..n][..i] == b[..i];
  }

  lemma LessTransitive(a: Text, b: Text, c: Text)
    requires Less(a, b) && Less(b, c)
    ensures Less(a, c)
  {
    var i: nat :| i < |b| && PartsAt(a, b, i);
    var j: nat :| j < |c| && PartsAt(b, c, j);
    if i < j {
      PrefixByte(b, c, j, i);
      assert PartsAt(a, c, i);
    } else {
      if j < i { PrefixByte(a, b, i, j); }
      assert a[..j] == b[..j];
      assert PartsAt(a, c, j);
    }
  }

  lemma LessTotal(a: Text, b: Text)
    ensures a == b || Less(a, b) || Less(b, a)
  {
    var n := 0;
    while n < |a| && n < |b| && a[n] == b[n]
      invariant n <= |a| && n <= |b| && a[..n] == b[..n]
    {
      n := n + 1;
    }
    if n < |b| && (n == |a| || a[n] < b[n]) {
      assert PartsAt(a, b, n);
    } else if n < |a| {
      assert PartsAt(b, a, n);
    } else {
      assert a == a[..n] && b == b[..n];
    }
  }

  lemma LessAsymmetric(a: Text, b: Text)
    requires Less(a, b)
    ensures !Less(b, a)
  {
    if Less(b, a) { LessTransitive(a, b, a); LessIrreflexive(a); }
  }

  /** BytewiseComparator's FindShortestSeparator. */
  method FindShortestSeparator(start: Text, limit: Text) returns (r: Text)
    ensures r == start || (Less(start, r) && |r| <= |start|)
    ensures Less(start, limit) ==> Less(r, limit)
    ensures !Less(start, limit) ==> r == start
    ensures r != start ==> exists n: nat :: DifferAt(start, limit, n)
    ensures forall n: nat :: DifferAt(start, limit, n) ==>
      r == if start[n] as int + 1 < limit[n] as int then start[..n] + [start[n] + 1] else start
  {
    var minLength := if |start| < |limit| then |start| else |limit|;
    var diff := 0;
    while diff < minLength && start[diff] == limit[diff]
      invariant diff <= minLength && start[..diff] == limit[..diff]
    {
      diff := diff + 1;
    }
    r := start;
    if diff < minLength {
      var b: int := start[diff];
      if b < 0xff && b + 1 < limit[diff] {
        r := start[..diff] + [b + 1];
        assert r[..diff] == start[..diff];
        assert DifferAt(start, limit, diff);
        assert PartsAt(start, r, diff) && PartsAt(r, limit, diff) && PartsAt(start, limit, diff);
      }
    }
    forall n: nat | DifferAt(start, limit, n) ensures n == diff && diff < minLength {
      if n < diff { PrefixByte(start, limit, diff, n); }
      if diff < n && diff < minLength { PrefixByte(start, limit, n, diff); }
    }
  }

  /** The first byte in which they differ. */
  predicate DifferAt(a: Text, b: Text, n: nat) {
    n < |a| && n < |b| && a[..n] == b[..n] && a[n] != b[n]
  }

  /** BytewiseComparator's FindShortSuccessor. */
  method FindShortSuccessor(key: Text) returns (r: Text)
    ensures r == key || (Less(key, r) && |r| <= |key|)
    ensures r == key <==> forall i :: 0 <= i < |key| ==> key[i] == 0xff
    ensures r != key ==> |r| > 0 && r[..|r| - 1] == key[..|r| - 1] && forall i :: 0 <= i < |r| - 1 ==> key[i] == 0xff
  {
    for i := 0 to |key|
      invariant forall j :: 0 <= j < i ==> key[j] == 0xff
    {
      var b: int := key[i];
      if b != 0xff {
        r := key[..i] + [b + 1];
        assert r[..i] == key[..i];
        assert PartsAt(key, r, i);
        return;
      }
    }
    r := key;
  }

  // Internal keys

  const MAX_TAG: nat := 0xffff_ffff_ffff_ff01  // kMaxSequenceNumber and kValueTypeForSeek, packed

  datatype Key = Key(user: Text, tag: nat) {
    /** Increasing user key, then decreasing packed number. */
    predicate Before(that: Key) {
      Less(user, that.user) || (user == that.user && tag > that.tag)
    }
  }

  lemma BeforeTransitive(a: Key, b: Key, c: Key)
    requires a.Before(b) && b.Before(c)
    ensures a.Before(c)
  {
    if Less(a.user, b.user) && Less(b.user, c.user) { LessTransitive(a.user, b.user, c.user); }
  }

  lemma BeforeTotal(a: Key, b: Key)
    ensures a == b || a.Before(b) || b.Before(a)
  {
    LessTotal(a.user, b.user);
  }

  lemma BeforeAsymmetric(a: Key, b: Key)
    requires a.Before(b)
    ensures !b.Before(a)
  {
    LessIrreflexive(a.user);
    if Less(a.user, b.user) { LessAsymmetric(a.user, b.user); }
  }

  /**
   * A key for the index between `last`, the last key of a block, and the first key of the next block: `last`
   * itself, or one whose user key lies strictly between theirs.
   */
  ghost predicate Separates(last: Key, sep: Key) {
    sep == last || Less(last.user, sep.user)
  }

  ghost predicate SeparatesFrom(sep: Key, last: Key, next: Key) {
    (sep == last && last.Before(next)) || Less(sep.user, next.user)
  }

  /** InternalKeyComparator::FindShortestSeparator. */
  method ShortestSeparator(start: Key, limit: Key) returns (r: Key)
    requires start.Before(limit)
    ensures Separates(start, r) && SeparatesFrom(r, start, limit)
    ensures r != start ==> |r.user| < |start.user| && r.tag == MAX_TAG
    ensures forall n: nat :: DifferAt(start.user, limit.user, n) ==>
      if start.user[n] as int + 1 < limit.user[n] as int && n + 1 < |start.user|
      then r.user == start.user[..n] + [start.user[n] + 1] else r == start
    ensures start.user <= limit.user ==> r == start
  {
    var tmp := FindShortestSeparator(start.user, limit.user);
    r := start;
    if |tmp| < |start.user| && Less(start.user, tmp) {
      LessIrreflexive(start.user);
      r := Key(tmp, MAX_TAG);
    }
    forall n: nat | DifferAt(start.user, limit.user, n) && tmp != start.user ensures Less(start.user, tmp) {}
  }

  /** InternalKeyComparator::FindShortSuccessor. */
  method ShortSuccessor(key: Key) returns (r: Key)
    ensures Separates(key, r)
    ensures r != key ==> |r.user| < |key.user| && r.tag == MAX_TAG
    ensures r == key <==> forall i :: 0 <= i < |key.user| - 1 ==> key.user[i] == 0xff
  {
    var tmp := FindShortSuccessor(key.user);
    r := key;
    if |tmp| < |key.user| && Less(key.user, tmp) {
      r := Key(tmp, MAX_TAG);
    }
  }
}
