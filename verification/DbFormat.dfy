/**
 * Internal keys and entries (db/dbformat.cc), and what reading a set of entries means.
 *
 * The store looks at user keys only through the comparator of its options, a total order. Byte
 * strings are countable, and every countable total order embeds in the rationals, so a user key is
 * modelled by a real number: any comparator is covered, and no two keys are forced to be adjacent.
 */
module DbFormat {

  type UserKey = real
  type Bytes = seq<bv8>

  const MAX_SEQUENCE: nat := 0xff_ffff_ffff_ffff
  type SequenceNumber = n: nat | n <= MAX_SEQUENCE

  const NUM_LEVELS := 7

  datatype Option<+T> = None | Some(value: T)

  datatype ValueType = Deletion | Value

  /** Which way an iterator moves. */
  datatype Direction = Forward | Reverse

  datatype InternalKey = InternalKey(user: UserKey, sequence: SequenceNumber, kind: ValueType) {
    /** The sequence number and the type, packed: the type is the low byte. */
    function Tag(): nat {
      sequence * 256 + (if kind.Value? then 1 else 0)
    }

    /** Increasing user key, then decreasing packed number. */
    predicate Less(that: InternalKey) {
      user < that.user || (user == that.user && Tag() > that.Tag())
    }
  }

  datatype Entry = Entry(key: InternalKey, value: Bytes)

  /** The key a reader at sequence number `s` seeks to: the first possible one for `u` it may see. */
  function LookupKey(u: UserKey, s: SequenceNumber): InternalKey {
    InternalKey(u, s, Value)
  }

  predicate Sorted(es: seq<Entry>) {
    forall i, j {:trigger es[i].key.Less(es[j].key)} :: 0 <= i < j < |es| ==> es[i].key.Less(es[j].key)
  }

  ghost function Elements<T>(s: seq<T>): set<T> {
    set x | x in s
  }

  /** Position of the first entry at or after `target`; |es| when there is none. */
  function SeekIndex(es: seq<Entry>, target: InternalKey): (i: nat)
    ensures i <= |es|
    ensures forall j :: 0 <= j < i ==> es[j].key.Less(target)
    ensures i < |es| ==> !es[i].key.Less(target)
  {
    if es == [] || !es[0].key.Less(target) then 0 else 1 + SeekIndex(es[1..], target)
  }

  // Reading a set of entries

  predicate Visible(e: Entry, u: UserKey, s: SequenceNumber) {
    e.key.user == u && e.key.sequence <= s
  }

  ghost predicate IsNewest(es: set<Entry>, u: UserKey, s: SequenceNumber, e: Entry) {
    e in es && Visible(e, u, s) && forall x :: x in es && Visible(x, u, s) ==> x.key.Tag() <= e.key.Tag()
  }

  ghost predicate UniqueKeys(es: set<Entry>) {
    forall e, x :: e in es && x in es && e.key == x.key ==> e == x
  }

  /** Every entry of `a` is newer than every entry of `b` for the same user key. */
  ghost predicate Newer(a: set<Entry>, b: set<Entry>) {
    forall e, x :: e in a && x in b && e.key.user == x.key.user ==> e.key.Tag() > x.key.Tag()
  }

  function Answer(e: Entry): Option<Bytes> {
    if e.key.kind.Value? then Some(e.value) else None
  }

  /** What a reader at `s` sees for `u`: the value of the newest entry, nothing if that is a deletion. */
  ghost function Read(es: set<Entry>, u: UserKey, s: SequenceNumber): Option<Bytes> {
    if exists e :: IsNewest(es, u, s, e) then
      var e :| IsNewest(es, u, s, e);
      Answer(e)
    else
      None
  }

  /** Keys of one user key with equal tags are equal. */
  lemma TagDeterminesKey(a: InternalKey, b: InternalKey)
    requires a.user == b.user && a.Tag() == b.Tag()
    ensures a == b
  {
  }

  lemma ReadIs(es: set<Entry>, u: UserKey, s: SequenceNumber, e: Entry)
    requires UniqueKeys(es) && IsNewest(es, u, s, e)
    ensures Read(es, u, s) == Answer(e)
  {
    var x :| IsNewest(es, u, s, x) && Read(es, u, s) == Answer(x);
    assert IsNewest(es, u, s, x);
    TagDeterminesKey(e.key, x.key);
  }

  lemma NewestExists(es: set<Entry>, u: UserKey, s: SequenceNumber, e: Entry) returns (m: Entry)
    requires e in es && Visible(e, u, s)
    ensures IsNewest(es, u, s, m)
    decreases es
  {
    m := e;
    var rest := es;
    while rest != {}
      invariant rest <= es && m in es && Visible(m, u, s)
      invariant forall x :: x in es && x !in rest && Visible(x, u, s) ==> x.key.Tag() <= m.key.Tag()
      decreases rest
    {
      var x :| x in rest;
      rest := rest - {x};
      if Visible(x, u, s) && x.key.Tag() > m.key.Tag() {
        m := x;
      }
    }
  }

  /** Entries that are older than `b` for every key both hold do not matter to a reader who sees one of `a`. */
  lemma ReadUnion(a: set<Entry>, b: set<Entry>, u: UserKey, s: SequenceNumber)
    requires UniqueKeys(a + b) && Newer(a, b)
    ensures (exists e :: e in a && Visible(e, u, s)) ==> Read(a + b, u, s) == Read(a, u, s)
    ensures !(exists e :: e in a && Visible(e, u, s)) ==> Read(a + b, u, s) == Read(b, u, s)
  {
    if e :| e in a && Visible(e, u, s) {
      var m := NewestExists(a, u, s, e);
      ReadIs(a, u, s, m);
      ReadIs(a + b, u, s, m);
    } else if e :| e in b && Visible(e, u, s) {
      var m := NewestExists(b, u, s, e);
      ReadIs(b, u, s, m);
      ReadIs(a + b, u, s, m);
    } else {
    }
  }

  /** Newer is preserved by making either side smaller, and distributes over unions. */
  lemma UniqueUnion(a: set<Entry>, b: set<Entry>)
    requires UniqueKeys(a) && UniqueKeys(b) && Newer(a, b)
    ensures UniqueKeys(a + b)
  {
  }

  lemma SortedIsUnique(es: seq<Entry>)
    requires Sorted(es)
    ensures UniqueKeys(Elements(es))
  {
    forall e, x | e in es && x in es && e.key == x.key
      ensures e == x
    {
      var i :| 0 <= i < |es| && es[i] == e;
      var j :| 0 <= j < |es| && es[j] == x;
      assert !es[i].key.Less(es[j].key) && !es[j].key.Less(es[i].key);
    }
  }

  /** In a sorted run, the entry a seek lands on is the newest the reader may see, or there is none. */
  lemma {:induction false} SeekFindsNewest(es: seq<Entry>, u: UserKey, s: SequenceNumber)
    requires Sorted(es)
    ensures var i := SeekIndex(es, LookupKey(u, s));
            if i < |es| && es[i].key.user == u then IsNewest(Elements(es), u, s, es[i])
            else forall e :: e in es ==> !Visible(e, u, s)
  {
    var i := SeekIndex(es, LookupKey(u, s));
    forall e | e in es && Visible(e, u, s)
      ensures i < |es| && es[i].key.user == u && e.key.Tag() <= es[i].key.Tag()
    {
      var j :| 0 <= j < |es| && es[j] == e;
      assert !es[j].key.Less(LookupKey(u, s));
      assert i <= j;
      assert i == j || es[i].key.Less(es[j].key);
    }
  }
}
