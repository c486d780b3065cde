/**
 * One shard of the LRU cache (util/cache.cc). Handles are named by numbers, in the order they are made; a
 * number is never used again. The hash table and the two lists always describe the same entries, and each
 * deleter runs once, when the last reference goes.
 */
module LruCache {
  import opened DbFormat

  type Key = Bytes

  datatype Handle = Handle(key: Key, charge: nat, inCache: bool, refs: nat)

  // Lists without repetition

  predicate Differ(x: nat, y: nat) {
    x != y
  }

  predicate NoDup(s: seq<nat>) {
    forall i, j {:trigger Differ(s[i], s[j])} :: 0 <= i < j < |s| ==> Differ(s[i], s[j])
  }

  lemma NoDupTail(s: seq<nat>)
    requires NoDup(s) && s != []
    ensures NoDup(s[1..]) && s[0] !in s[1..]
  {
    var t := s[1..];
    forall i, j | 0 <= i < j < |t| ensures Differ(t[i], t[j]) { assert Differ(s[i + 1], s[j + 1]); }
    forall i | 0 <= i < |t| ensures t[i] != s[0] { assert Differ(s[0], s[i + 1]); }
  }

  lemma NoDupCons(x: nat, t: seq<nat>)
    requires NoDup(t) && x !in t
    ensures NoDup([x] + t)
  {
    var s := [x] + t;
    forall i, j | 0 <= i < j < |s|
      ensures Differ(s[i], s[j])
    {
      if i > 0 { assert Differ(t[i - 1], t[j - 1]); } else { assert t[j - 1] in t; }
    }
  }

  lemma NoDupAppend(s: seq<nat>, x: nat)
    requires NoDup(s) && x !in s
    ensures NoDup(s + [x])
  {
    var t := s + [x];
    forall i, j | 0 <= i < j < |t|
      ensures Differ(t[i], t[j])
    {
      if j < |s| { assert Differ(s[i], s[j]); } else { assert s[i] in s; }
    }
  }

  /** LRU_Remove. */
  function Without(s: seq<nat>, x: nat): (r: seq<nat>)
    ensures |r| <= |s|
  {
    if s == [] then [] else if s[0] == x then s[1..] else [s[0]] + Without(s[1..], x)
  }

  lemma {:induction false} WithoutIs(s: seq<nat>, x: nat)
    requires NoDup(s)
    ensures NoDup(Without(s, x))
    ensures forall y :: y in Without(s, x) <==> y in s && y != x
    ensures x !in s ==> Without(s, x) == s
  {
    if s != [] {
      assert s == [s[0]] + s[1..];
      NoDupTail(s);
      if s[0] != x {
        WithoutIs(s[1..], x);
        NoDupCons(s[0], Without(s[1..], x));
      }
    }
  }

  /** The total charge of some handles. */
  ghost function Sum(hs: map<nat, Handle>, s: seq<nat>): nat {
    if s == [] then 0 else (if s[0] in hs then hs[s[0]].charge else 0) + Sum(hs, s[1..])
  }

  lemma {:induction false} SumWithout(hs: map<nat, Handle>, s: seq<nat>, x: nat)
    requires NoDup(s) && x in s && x in hs
    ensures Sum(hs, s) == Sum(hs, Without(s, x)) + hs[x].charge
  {
    NoDupTail(s);
    if s[0] != x {
      SumWithout(hs, s[1..], x);
      assert ([s[0]] + Without(s[1..], x))[1..] == Without(s[1..], x);
    }
  }

  lemma {:induction false} SumAppend(hs: map<nat, Handle>, s: seq<nat>, x: nat)
    requires x in hs
    ensures Sum(hs, s + [x]) == Sum(hs, s) + hs[x].charge
  {
    if s != [] {
      SumAppend(hs, s[1..], x);
      assert (s + [x])[1..] == s[1..] + [x];
    } else {
      assert [x][1..] == [];
    }
  }

  /** Only charges matter, and only those of the handles summed. */
  lemma {:induction false} SumSame(a: map<nat, Handle>, b: map<nat, Handle>, s: seq<nat>)
    requires forall x :: x in s ==> x in a && x in b && a[x].charge == b[x].charge
    ensures Sum(a, s) == Sum(b, s)
  {
    if s != [] {
      SumSame(a, b, s[1..]);
    }
  }

  // The invariant

  ghost predicate Mapped(hs: map<nat, Handle>, table: map<Key, nat>, k: Key) {
    k in table ==> table[k] in hs && hs[table[k]].key == k && hs[table[k]].inCache
  }

  ghost predicate Filed(hs: map<nat, Handle>, table: map<Key, nat>, e: nat) {
    e in hs && hs[e].inCache ==> hs[e].key in table && table[hs[e].key] == e
  }

  /** The table has just the handles in the cache, by their keys. */
  ghost predicate TableOk(hs: map<nat, Handle>, table: map<Key, nat>) {
    && (forall k {:trigger Mapped(hs, table, k)} :: Mapped(hs, table, k))
    && (forall e {:trigger Filed(hs, table, e)} :: Filed(hs, table, e))
  }

  ghost predicate Listed(hs: map<nat, Handle>, lru: seq<nat>, inUse: seq<nat>, e: nat) {
    && (e in lru <==> e in hs && hs[e].inCache && hs[e].refs == 1)
    && (e in inUse <==> e in hs && hs[e].inCache && hs[e].refs >= 2)
  }

  /** In the cache and used by nobody else: lru; in the cache and in use: inUse; never both. */
  ghost predicate ListsOk(hs: map<nat, Handle>, lru: seq<nat>, inUse: seq<nat>) {
    && NoDup(lru) && NoDup(inUse)
    && (forall e {:trigger Listed(hs, lru, inUse, e)} :: Listed(hs, lru, inUse, e))
  }

  ghost predicate Counted(hs: map<nat, Handle>, clients: multiset<nat>, e: nat) {
    && (e in hs ==> hs[e].refs == clients[e] + (if hs[e].inCache then 1 else 0) && hs[e].refs >= 1)
    && (e in clients ==> e in hs)
  }

  /** Each handle counts its clients, and the cache while it is in it. */
  ghost predicate RefsOk(hs: map<nat, Handle>, clients: multiset<nat>) {
    forall e {:trigger Counted(hs, clients, e)} :: Counted(hs, clients, e)
  }

  ghost predicate AliveOrDeleted(hs: map<nat, Handle>, deleted: seq<nat>, made: nat, e: nat) {
    (e in hs || e in deleted <==> e < made) && !(e in hs && e in deleted)
  }

  /** Every handle ever made is either alive or was passed to its deleter, just once. */
  ghost predicate DeletedOk(hs: map<nat, Handle>, deleted: seq<nat>, made: nat) {
    NoDup(deleted) && forall e: nat {:trigger AliveOrDeleted(hs, deleted, made, e)} :: AliveOrDeleted(hs, deleted, made, e)
  }

  /** Table, lists, counts and charges agree. */
  ghost predicate Good(hs: map<nat, Handle>, table: map<Key, nat>, lru: seq<nat>, inUse: seq<nat>, usage: nat,
                       clients: multiset<nat>, deleted: seq<nat>, made: nat) {
    TableOk(hs, table) && Kept(hs, lru, inUse, usage, clients, deleted, made)
  }

  ghost predicate Kept(hs: map<nat, Handle>, lru: seq<nat>, inUse: seq<nat>, usage: nat,
                       clients: multiset<nat>, deleted: seq<nat>, made: nat) {
    && ListsOk(hs, lru, inUse) && RefsOk(hs, clients) && DeletedOk(hs, deleted, made)
    && usage == Sum(hs, lru) + Sum(hs, inUse)
  }

  // What each operation does to them

  /** A change of one handle's count, with its clients. */
  lemma CountChanges(hs: map<nat, Handle>, table: map<Key, nat>, clients: multiset<nat>, clients2: multiset<nat>,
                     deleted: seq<nat>, made: nat, e: nat, refs: nat)
    requires TableOk(hs, table) && RefsOk(hs, clients) && DeletedOk(hs, deleted, made) && e in hs && refs >= 1
    requires forall x :: x != e ==> clients2[x] == clients[x]
    requires refs == clients2[e] + (if hs[e].inCache then 1 else 0)
    ensures var hs2 := hs[e := hs[e].(refs := refs)];
      TableOk(hs2, table) && RefsOk(hs2, clients2) && DeletedOk(hs2, deleted, made)
  {
    var hs2 := hs[e := hs[e].(refs := refs)];
    forall k ensures Mapped(hs2, table, k) { assert Mapped(hs, table, k); }
    forall x ensures Filed(hs2, table, x) { assert Filed(hs, table, x); }
    forall x ensures Counted(hs2, clients2, x) { assert Counted(hs, clients, x); }
    forall x: nat ensures AliveOrDeleted(hs2, deleted, made, x) { assert AliveOrDeleted(hs, deleted, made, x); }
  }

  lemma {:induction false} ChargesStay(hs: map<nat, Handle>, hs2: map<nat, Handle>, lru: seq<nat>, inUse: seq<nat>)
    requires forall x :: x in lru || x in inUse ==> x in hs && x in hs2 && hs[x].charge == hs2[x].charge
    ensures Sum(hs2, lru) == Sum(hs, lru) && Sum(hs2, inUse) == Sum(hs, inUse)
  {
    SumSame(hs, hs2, lru);
    SumSame(hs, hs2, inUse);
  }

  /** The handles in the lists are there. */
  lemma ListedAreThere(hs: map<nat, Handle>, lru: seq<nat>, inUse: seq<nat>)
    requires ListsOk(hs, lru, inUse)
    ensures forall x :: x in lru || x in inUse ==> x in hs && hs[x].inCache
  {
    forall x | x in lru || x in inUse ensures x in hs && hs[x].inCache { assert Listed(hs, lru, inUse, x); }
  }

  /** A handle moves from one list to the other. */
  lemma {:induction false} MoveKeeps(hs: map<nat, Handle>, a: seq<nat>, b: seq<nat>, e: nat)
    requires NoDup(a) && NoDup(b) && e in a && e !in b && e in hs
    ensures NoDup(Without(a, e)) && NoDup(b + [e])
    ensures forall x :: x in Without(a, e) <==> x in a && x != e
    ensures Sum(hs, Without(a, e)) + Sum(hs, b + [e]) == Sum(hs, a) + Sum(hs, b)
  {
    WithoutIs(a, e);
    NoDupAppend(b, e);
    SumWithout(hs, a, e);
    SumAppend(hs, b, e);
  }

  /** Ref of an entry in the cache. */
  lemma {:induction false} RefKeeps(hs: map<nat, Handle>, table: map<Key, nat>, lru: seq<nat>, inUse: seq<nat>, usage: nat,
                 clients: multiset<nat>, deleted: seq<nat>, made: nat, e: nat)
    requires Good(hs, table, lru, inUse, usage, clients, deleted, made) && e in hs && hs[e].inCache
    ensures var hs2 := hs[e := hs[e].(refs := hs[e].refs + 1)];
      var inUse2 := if hs[e].refs == 1 then inUse + [e] else inUse;
      Good(hs2, table, Without(lru, e), inUse2, usage, clients + multiset{e}, deleted, made) && e in inUse2
  {
    var hs2 := hs[e := hs[e].(refs := hs[e].refs + 1)];
    assert Counted(hs, clients, e) && Listed(hs, lru, inUse, e);
    CountChanges(hs, table, clients, clients + multiset{e}, deleted, made, e, hs[e].refs + 1);
    ListedAreThere(hs, lru, inUse);
    ChargesStay(hs, hs2, lru, inUse);
    if hs[e].refs == 1 { MoveKeeps(hs2, lru, inUse, e); } else { WithoutIs(lru, e); }
    var inUse2 := if hs[e].refs == 1 then inUse + [e] else inUse;
    forall x ensures Listed(hs2, Without(lru, e), inUse2, x) { assert Listed(hs, lru, inUse, x); }
  }

  /** Unref by a client, of a handle that others still hold. */
  lemma {:induction false} UnrefKeeps(hs: map<nat, Handle>, table: map<Key, nat>, lru: seq<nat>, inUse: seq<nat>, usage: nat,
                   clients: multiset<nat>, deleted: seq<nat>, made: nat, e: nat)
    requires Good(hs, table, lru, inUse, usage, clients, deleted, made) && e in clients && e in hs && hs[e].refs > 1
    ensures var hs2 := hs[e := hs[e].(refs := hs[e].refs - 1)];
      var last := hs[e].inCache && hs[e].refs == 2;
      Good(hs2, table, if last then lru + [e] else lru, if last then Without(inUse, e) else inUse, usage,
           clients - multiset{e}, deleted, made)
  {
    var hs2 := hs[e := hs[e].(refs := hs[e].refs - 1)];
    assert Counted(hs, clients, e) && Listed(hs, lru, inUse, e);
    CountChanges(hs, table, clients, clients - multiset{e}, deleted, made, e, hs[e].refs - 1);
    ListedAreThere(hs, lru, inUse);
    ChargesStay(hs, hs2, lru, inUse);
    var last := hs[e].inCache && hs[e].refs == 2;
    if last { MoveKeeps(hs2, inUse, lru, e); }
    var lru2, inUse2 := if last then lru + [e] else lru, if last then Without(inUse, e) else inUse;
    forall x ensures Listed(hs2, lru2, inUse2, x) { assert Listed(hs, lru, inUse, x); }
  }

  /** A handle goes; the table and the lists do not have it. */
  lemma RemoveKeeps(hs: map<nat, Handle>, table: map<Key, nat>, clients: multiset<nat>, clients2: multiset<nat>,
                    deleted: seq<nat>, made: nat, e: nat)
    requires TableOkBut(hs, table, e) && RefsOk(hs, clients) && DeletedOk(hs, deleted, made) && e in hs
    requires clients2[e] == 0 && forall x :: x != e ==> clients2[x] == clients[x]
    ensures TableOk(hs - {e}, table) && RefsOk(hs - {e}, clients2) && DeletedOk(hs - {e}, deleted + [e], made)
  {
    forall k ensures Mapped(hs - {e}, table, k) { assert MappedBut(hs, table, e, k); }
    forall x ensures Filed(hs - {e}, table, x) { assert FiledBut(hs, table, e, x); }
    forall x ensures Counted(hs - {e}, clients2, x) { assert Counted(hs, clients, x); }
    assert AliveOrDeleted(hs, deleted, made, e);
    NoDupAppend(deleted, e);
    forall x: nat ensures AliveOrDeleted(hs - {e}, deleted + [e], made, x) { assert AliveOrDeleted(hs, deleted, made, x); }
  }

  /** Unref by the last client, of a handle that is not in the cache: its deleter runs. */
  lemma DeleteKeeps(hs: map<nat, Handle>, table: map<Key, nat>, lru: seq<nat>, inUse: seq<nat>, usage: nat,
                    clients: multiset<nat>, deleted: seq<nat>, made: nat, e: nat)
    requires Good(hs, table, lru, inUse, usage, clients, deleted, made) && e in clients && e in hs && hs[e].refs == 1
    ensures !hs[e].inCache
    ensures Good(hs - {e}, table, lru, inUse, usage, clients - multiset{e}, deleted + [e], made)
  {
    assert Counted(hs, clients, e);
    forall k ensures MappedBut(hs, table, e, k) { assert Mapped(hs, table, k); }
    forall x ensures FiledBut(hs, table, e, x) { assert Filed(hs, table, x); }
    RemoveKeeps(hs, table, clients, clients - multiset{e}, deleted, made, e);
    ListedAreThere(hs, lru, inUse);
    ChargesStay(hs, hs - {e}, lru, inUse);
    forall x ensures Listed(hs - {e}, lru, inUse, x) { assert Listed(hs, lru, inUse, x); }
  }

  ghost predicate MappedBut(hs: map<nat, Handle>, table: map<Key, nat>, x: nat, k: Key) {
    Mapped(hs, table, k) && (k in table ==> table[k] != x)
  }

  ghost predicate FiledBut(hs: map<nat, Handle>, table: map<Key, nat>, x: nat, e: nat) {
    e != x ==> Filed(hs, table, e)
  }

  /** The table is right but for `x`, which it does not have. */
  ghost predicate TableOkBut(hs: map<nat, Handle>, table: map<Key, nat>, x: nat) {
    && (forall k {:trigger MappedBut(hs, table, x, k)} :: MappedBut(hs, table, x, k))
    && (forall e {:trigger FiledBut(hs, table, x, e)} :: FiledBut(hs, table, x, e))
  }

  function Erased(hs: map<nat, Handle>, x: nat): map<nat, Handle>
    requires x in hs && hs[x].refs > 0
  {
    if hs[x].refs == 1 then hs - {x} else hs[x := hs[x].(inCache := false, refs := hs[x].refs - 1)]
  }

  /** FinishErase: the cache lets go of an entry; its deleter runs if no client holds it. */
  lemma {:induction false} EraseKeeps(hs: map<nat, Handle>, table: map<Key, nat>, lru: seq<nat>, inUse: seq<nat>, usage: nat,
                   clients: multiset<nat>, deleted: seq<nat>, made: nat, x: nat)
    requires Kept(hs, lru, inUse, usage, clients, deleted, made) && TableOkBut(hs, table, x) && x in hs && hs[x].inCache
    ensures usage >= hs[x].charge && hs[x].refs > 0
    ensures Good(Erased(hs, x), table, Without(lru, x), Without(inUse, x), usage - hs[x].charge, clients,
                 if hs[x].refs == 1 then deleted + [x] else deleted, made)
  {
    assert Counted(hs, clients, x) && Listed(hs, lru, inUse, x);
    var hs2 := Erased(hs, x);
    WithoutIs(lru, x);
    WithoutIs(inUse, x);
    ListedAreThere(hs, lru, inUse);
    if hs[x].refs == 1 {
      SumWithout(hs, lru, x);
      RemoveKeeps(hs, table, clients, clients, deleted, made, x);
    } else {
      SumWithout(hs, inUse, x);
      LeavesTheCache(hs, table, clients, deleted, made, x);
    }
    ChargesStay(hs, hs2, Without(lru, x), Without(inUse, x));
    forall y ensures Listed(hs2, Without(lru, x), Without(inUse, x), y) { assert Listed(hs, lru, inUse, y); }
  }

  lemma LeavesTheCache(hs: map<nat, Handle>, table: map<Key, nat>, clients: multiset<nat>, deleted: seq<nat>, made: nat, x: nat)
    requires TableOkBut(hs, table, x) && RefsOk(hs, clients) && DeletedOk(hs, deleted, made)
    requires x in hs && hs[x].inCache && hs[x].refs > 1
    ensures TableOk(Erased(hs, x), table) && RefsOk(Erased(hs, x), clients) && DeletedOk(Erased(hs, x), deleted, made)
  {
    var hs2 := Erased(hs, x);
    forall k ensures Mapped(hs2, table, k) { assert MappedBut(hs, table, x, k); }
    forall y ensures Filed(hs2, table, y) { assert FiledBut(hs, table, x, y); }
    forall y ensures Counted(hs2, clients, y) { assert Counted(hs, clients, y); }
    forall y: nat ensures AliveOrDeleted(hs2, deleted, made, y) { assert AliveOrDeleted(hs, deleted, made, y); }
  }

  /** A new handle, held by its client, and by the cache if it has any capacity. */
  lemma NewKeeps(hs: map<nat, Handle>, table: map<Key, nat>, lru: seq<nat>, inUse: seq<nat>, usage: nat,
                 clients: multiset<nat>, deleted: seq<nat>, made: nat, h: Handle)
    requires Good(hs, table, lru, inUse, usage, clients, deleted, made) && h.refs == (if h.inCache then 2 else 1)
    ensures made !in hs
    ensures Kept(hs[made := h], lru, if h.inCache then inUse + [made] else inUse,
                 usage + (if h.inCache then h.charge else 0), clients + multiset{made}, deleted, made + 1)
    ensures !h.inCache ==> TableOk(hs[made := h], table)
    ensures h.inCache && h.key !in table ==> TableOk(hs[made := h], table[h.key := made])
    ensures h.inCache && h.key in table ==>
      var x := table[h.key]; x in hs && hs[x].inCache && TableOkBut(hs[made := h], table[h.key := made], x)
  {
    var hs2, inUse2 := hs[made := h], if h.inCache then inUse + [made] else inUse;
    assert AliveOrDeleted(hs, deleted, made, made) && Counted(hs, clients, made) && Listed(hs, lru, inUse, made);
    ListedAreThere(hs, lru, inUse);
    ChargesStay(hs, hs2, lru, inUse);
    SumAppend(hs2, inUse, made);
    NoDupAppend(inUse, made);
    forall x ensures Listed(hs2, lru, inUse2, x) { assert Listed(hs, lru, inUse, x); }
    forall x ensures Counted(hs2, clients + multiset{made}, x) { assert Counted(hs, clients, x); }
    var made2 := made + 1;
    forall x: nat ensures AliveOrDeleted(hs2, deleted, made2, x) { assert AliveOrDeleted(hs, deleted, made, x); }
    NewInTable(hs, table, made, h);
  }

  lemma NewInTable(hs: map<nat, Handle>, table: map<Key, nat>, made: nat, h: Handle)
    requires TableOk(hs, table) && made !in hs
    ensures !h.inCache ==> TableOk(hs[made := h], table)
    ensures h.inCache && h.key !in table ==> TableOk(hs[made := h], table[h.key := made])
    ensures h.inCache && h.key in table ==>
      var x := table[h.key]; x in hs && hs[x].inCache && TableOkBut(hs[made := h], table[h.key := made], x)
  {
    var hs2, table2 := hs[made := h], table[h.key := made];
    assert Mapped(hs, table, h.key);
    forall k
      ensures h.inCache ==> Mapped(hs2, table2, k) && (h.key in table ==> MappedBut(hs2, table2, table[h.key], k))
      ensures !h.inCache ==> Mapped(hs2, table, k)
    {
      assert Mapped(hs, table, k);
    }
    forall e
      ensures h.inCache && h.key !in table ==> Filed(hs2, table2, e)
      ensures h.inCache && h.key in table ==> FiledBut(hs2, table2, table[h.key], e)
      ensures !h.inCache ==> Filed(hs2, table, e)
    {
      assert Filed(hs, table, e);
    }
  }

  /** The oldest entry of the lru list has only the cache's reference, and is in the table. */
  lemma OldestIsUnused(hs: map<nat, Handle>, table: map<Key, nat>, lru: seq<nat>, inUse: seq<nat>, clients: multiset<nat>, x: nat)
    requires TableOk(hs, table) && ListsOk(hs, lru, inUse) && RefsOk(hs, clients) && x in lru
    ensures x in hs && hs[x].inCache && hs[x].refs == 1 && x !in inUse && x !in clients
    ensures hs[x].key in table && table[hs[x].key] == x
    ensures TableOkBut(hs, table - {hs[x].key}, x)
  {
    assert Listed(hs, lru, inUse, x) && Counted(hs, clients, x) && Filed(hs, table, x);
    TakenOut(hs, table, hs[x].key);
  }

  /** Removing a key from the table leaves it right but for its entry. */
  lemma TakenOut(hs: map<nat, Handle>, table: map<Key, nat>, key: Key)
    requires TableOk(hs, table) && key in table
    ensures table[key] in hs && hs[table[key]].inCache && TableOkBut(hs, table - {key}, table[key])
  {
    assert Mapped(hs, table, key);
    forall k ensures MappedBut(hs, table - {key}, table[key], k) { assert Mapped(hs, table, k); }
    forall e ensures FiledBut(hs, table - {key}, table[key], e) { assert Filed(hs, table, e); }
  }

  /** The dropped entries were the oldest, and their deleters ran. */
  predicate Shrunk(lru: seq<nat>, lru2: seq<nat>, deleted: seq<nat>, deleted2: seq<nat>, dropped: seq<nat>) {
    lru == dropped + lru2 && deleted2 == deleted + dropped
  }

  lemma ShrunkMore(lru: seq<nat>, lru2: seq<nat>, deleted: seq<nat>, deleted2: seq<nat>, dropped: seq<nat>)
    requires Shrunk(lru, lru2, deleted, deleted2, dropped) && lru2 != []
    ensures Shrunk(lru, lru2[1..], deleted, deleted2 + [lru2[0]], dropped + [lru2[0]])
  {
  }

  /** With the last of the dropped entries there was still too much. */
  predicate NoMore(hs: map<nat, Handle>, dropped: seq<nat>, usage: nat, capacity: nat) {
    dropped != [] ==>
      var x := dropped[|dropped| - 1]; x in hs && usage + hs[x].charge > capacity
  }

  /** The entry of a key, if there is one. */
  function At(table: map<Key, nat>, key: Key): seq<nat> {
    if key in table then [table[key]] else []
  }

  /** Evicted entries have the charges they had before. */
  lemma {:induction false} DroppedWereThere(hs: map<nat, Handle>, mid: map<nat, Handle>, dropped: seq<nat>)
    requires forall x :: x in dropped ==> x in mid && x in hs && mid[x].charge == hs[x].charge
    ensures Sum(mid, dropped) == Sum(hs, dropped)
    ensures forall usage, capacity :: NoMore(mid, dropped, usage, capacity) ==> NoMore(hs, dropped, usage, capacity)
  {
    SumSame(mid, hs, dropped);
    assert dropped != [] ==> dropped[|dropped| - 1] in dropped;
  }

  class LRUCache {
    const capacity: nat
    var usage: nat
    var lru: seq<nat>    // the oldest first
    var inUse: seq<nat>
    var table: map<Key, nat>
    var handles: map<nat, Handle>
    var made: nat
    ghost var clients: multiset<nat>  // what clients hold
    ghost var deleted: seq<nat>       // what deleters were called for, in order

    constructor (capacity: nat)
      ensures Valid() && table == map[] && clients == multiset{} && deleted == [] && this.capacity == capacity
    {
      this.capacity := capacity;
      usage, lru, inUse, table, handles, made, clients, deleted := 0, [], [], map[], map[], 0, multiset{}, [];
    }

    ghost predicate Valid()
      reads this
    {
      Good(handles, table, lru, inUse, usage, clients, deleted, made)
    }

    method Lookup(key: Key) returns (r: Option<nat>)
      requires Valid()
      modifies this
      ensures Valid() && table == old(table) && usage == old(usage) && made == old(made) && deleted == old(deleted)
      ensures r == if key in table then Some(table[key]) else None
      ensures clients == if key in table then old(clients) + multiset{table[key]} else old(clients)
      ensures key in table ==> lru == Without(old(lru), table[key]) && table[key] in inUse
    {
      if key !in table {
        return None;
      }
      var e := table[key];
      assert Mapped(handles, table, key);
      RefKeeps(handles, table, lru, inUse, usage, clients, deleted, made, e);
      var h := handles[e];
      if h.refs == 1 {
        inUse := inUse + [e];
      }
      lru := Without(lru, e);
      handles := handles[e := h.(refs := h.refs + 1)];
      clients := clients + multiset{e};
      return Some(e);
    }

    /** Release of a handle that a client holds. */
    method Release(e: nat)
      requires Valid() && e in clients && e in handles
      modifies this
      ensures Valid() && clients == old(clients) - multiset{e} && table == old(table) && usage == old(usage) && made == old(made)
      ensures deleted == if old(handles[e].refs) == 1 then old(deleted) + [e] else old(deleted)
      ensures lru == if old(handles[e].inCache && handles[e].refs == 2) then old(lru) + [e] else old(lru)
    {
      var h := handles[e];
      assert Counted(handles, clients, e);
      if h.refs == 1 {
        DeleteKeeps(handles, table, lru, inUse, usage, clients, deleted, made, e);
        handles := handles - {e};
        deleted := deleted + [e];
      } else {
        UnrefKeeps(handles, table, lru, inUse, usage, clients, deleted, made, e);
        if h.inCache && h.refs == 2 {
          inUse := Without(inUse, e);
          lru := lru + [e];
        }
        handles := handles[e := h.(refs := h.refs - 1)];
      }
      clients := clients - multiset{e};
    }

    /** FinishErase of an entry that is already out of the table. */
    method FinishErase(x: nat)
      requires Kept(handles, lru, inUse, usage, clients, deleted, made) && TableOkBut(handles, table, x)
      requires x in handles && handles[x].inCache && handles[x].refs > 0
      modifies this
      ensures Valid() && clients == old(clients) && table == old(table) && made == old(made)
      ensures inUse == Without(old(inUse), x)
      ensures handles == Erased(old(handles), x) && usage == old(usage) - old(handles[x].charge)
      ensures lru == Without(old(lru), x)
      ensures deleted == if old(handles[x].refs) == 1 then old(deleted) + [x] else old(deleted)
    {
      EraseKeeps(handles, table, lru, inUse, usage, clients, deleted, made, x);
      var h := handles[x];
      lru, inUse := Without(lru, x), Without(inUse, x);
      usage := usage - h.charge;
      if h.refs == 1 {
        deleted := deleted + [x];
        handles := handles - {x};
      } else {
        handles := handles[x := h.(inCache := false, refs := h.refs - 1)];
      }
    }

    /** Drop the oldest entry that nobody uses. */
    method EraseOldest()
      requires Valid() && lru != [] && lru[0] in handles
      modifies this
      ensures Valid() && clients == old(clients) && made == old(made) && lru == old(lru)[1..] && inUse == old(inUse)
      ensures handles == old(handles) - {old(lru)[0]}
      ensures deleted == old(deleted) + [old(lru)[0]]
      ensures usage == old(usage) - old(handles[lru[0]].charge)
      ensures forall k :: k in table <==> k in old(table) && old(table)[k] != old(lru)[0]
      ensures forall k :: k in table ==> table[k] == old(table)[k]
    {
      var x := lru[0];
      OldestIsUnused(handles, table, lru, inUse, clients, x);
      WithoutIs(inUse, x);
      forall k | k in table && table[k] == x ensures k == handles[x].key { assert Mapped(handles, table, k); }
      table := table - {handles[x].key};
      FinishErase(x);
    }

    /**
     * `dropped` are the entries evicted: the oldest unused ones, no more than there is need for. An entry with the
     * same key is replaced.
     */
    method Insert(key: Key, charge: nat) returns (e: nat, ghost dropped: seq<nat>)
      requires Valid()
      modifies this
      ensures Valid() && e == old(made) && e in clients && clients == old(clients) + multiset{e}
      ensures usage <= capacity || lru == []
      ensures e in handles
      ensures capacity == 0 ==> handles[e] == Handle(key, charge, false, 1)
      ensures capacity > 0 ==> key in table && table[key] == e && handles[e] == Handle(key, charge, true, 2)
      ensures forall k :: k in table && (k != key || capacity == 0) ==> k in old(table) && table[k] == old(table)[k]
      ensures forall k :: k in old(table) && (k != key || capacity == 0) ==> (k in table <==> old(table)[k] !in dropped)
      ensures var gone := if capacity > 0 then At(old(table), key) else [];
        && old(LruWithout(gone)) == dropped + lru
        && usage + Sum(old(handles), gone) + Sum(old(handles), dropped) == old(usage) + (if capacity > 0 then charge else 0)
        && deleted == old(deleted) + old(Unused(gone)) + dropped
      ensures NoMore(old(handles), dropped, usage, capacity)
    {
      e := made;
      var h := Handle(key, charge, capacity > 0, if capacity > 0 then 2 else 1);
      if capacity > 0 {
        AddEntry(h);
      } else {
        NewKeeps(handles, table, lru, inUse, usage, clients, deleted, made, h);
        handles := handles[e := h];
        made := made + 1;
        clients := clients + multiset{e};
      }
      ghost var mid := handles;
      dropped := Shrink(e);
      DroppedWereThere(old(handles), mid, dropped);
    }

    /** The list of unused entries without these. */
    ghost function LruWithout(gone: seq<nat>): seq<nat>
      reads this
    {
      if gone == [] then lru else Without(lru, gone[0])
    }

    /** Those of these that no client holds. */
    ghost function Unused(gone: seq<nat>): seq<nat>
      reads this
    {
      if gone != [] && gone[0] !in clients then gone else []
    }

    /** The part of Insert that puts the new handle into the cache, in place of the entry with its key. */
    method AddEntry(h: Handle)
      requires Valid() && h.inCache && h.refs == 2
      modifies this
      ensures Valid() && clients == old(clients) + multiset{old(made)} && made == old(made) + 1
      ensures old(made) in handles && handles[old(made)] == h
      ensures table == old(table)[h.key := old(made)]
      ensures var gone := At(old(table), h.key);
        && lru == old(LruWithout(gone)) && usage + Sum(old(handles), gone) == old(usage) + h.charge
        && deleted == old(deleted) + old(Unused(gone))
      ensures forall x :: x in handles && x != old(made) ==> x in old(handles) && handles[x].charge == old(handles)[x].charge
    {
      var e := made;
      assert h.key in table ==> Mapped(handles, table, h.key) && Counted(handles, clients, table[h.key]);
      NewKeeps(handles, table, lru, inUse, usage, clients, deleted, made, h);
      handles := handles[e := h];
      made := made + 1;
      clients := clients + multiset{e};
      inUse := inUse + [e];
      usage := usage + h.charge;
      var replaced := if h.key in table then Some(table[h.key]) else None;
      table := table[h.key := e];
      if replaced.Some? {
        assert Counted(handles, clients, replaced.value);
        FinishErase(replaced.value);
      }
    }

    /** The loop of Insert: drop the oldest unused entries while there is too much. */
    method Shrink(e: nat) returns (ghost dropped: seq<nat>)
      requires Valid() && e in clients && e in handles
      modifies this
      ensures Valid() && clients == old(clients) && made == old(made) && e in handles && handles[e] == old(handles[e])
      ensures usage <= capacity || lru == []
      ensures forall k :: k in table ==> k in old(table) && table[k] == old(table)[k]
      ensures forall k :: k in old(table) ==> (k in table <==> old(table)[k] !in dropped)
      ensures Shrunk(old(lru), lru, old(deleted), deleted, dropped) && NoMore(old(handles), dropped, usage, capacity)
      ensures e !in dropped && usage + Sum(old(handles), dropped) == old(usage)
      ensures forall x :: x in dropped ==> x in old(handles)
    {
      dropped := [];
      while usage > capacity && lru != []
        invariant Valid() && clients == old(clients) && made == old(made) && e in handles && handles[e] == old(handles[e])
        invariant forall k :: k in table ==> k in old(table) && table[k] == old(table)[k]
        invariant forall k :: k in old(table) ==> (k in table <==> old(table)[k] !in dropped)
        invariant e !in dropped && usage + Sum(old(handles), dropped) == old(usage)
        invariant forall x :: x in dropped ==> x in old(handles)
        invariant Shrunk(old(lru), lru, old(deleted), deleted, dropped) && NoMore(old(handles), dropped, usage, capacity)
        invariant forall x :: x in handles ==> x in old(handles) && handles[x] == old(handles)[x]
        decreases |lru|
      {
        OldestIsUnused(handles, table, lru, inUse, clients, lru[0]);
        ShrunkMore(old(lru), lru, old(deleted), deleted, dropped);
        SumAppend(old(handles), dropped, lru[0]);
        dropped := dropped + [lru[0]];
        EraseOldest();
      }
    }

    method Erase(key: Key)
      requires Valid()
      modifies this
      ensures Valid() && clients == old(clients) && table == old(table) - {key} && made == old(made)
      ensures key !in old(table) ==> handles == old(handles) && deleted == old(deleted) && lru == old(lru) && inUse == old(inUse)
      ensures key in old(table) ==> old(table)[key] in old(handles) && old(handles)[old(table)[key]].refs > 0
      ensures key in old(table) ==> handles == Erased(old(handles), old(table)[key])
      ensures key in old(table) ==>
        deleted == old(deleted) + if old(table)[key] in old(clients) then [] else [old(table)[key]]
    {
      if key in table {
        var x := table[key];
        TakenOut(handles, table, key);
        assert Counted(handles, clients, x);
        table := table - {key};
        FinishErase(x);
      }
    }

    method Prune()
      requires Valid()
      modifies this
      ensures Valid() && clients == old(clients) && made == old(made) && lru == []
      ensures deleted == old(deleted) + old(lru)
      ensures forall k :: k in table <==> k in old(table) && old(table)[k] !in old(lru)
    {
      ghost var n := 0;
      while lru != []
        invariant Valid() && clients == old(clients) && made == old(made)
        invariant n <= |old(lru)| && lru == old(lru)[n..] && deleted == old(deleted) + old(lru)[..n]
        invariant inUse == old(inUse)
        invariant forall k :: k in table <==> k in old(table) && old(table)[k] !in old(lru)[..n]
        invariant forall k :: k in table ==> table[k] == old(table)[k]
        decreases |lru|
      {
        OldestIsUnused(handles, table, lru, inUse, clients, lru[0]);
        assert old(lru)[..n + 1] == old(lru)[..n] + [lru[0]];
        EraseOldest();
        n := n + 1;
      }
      assert old(lru)[..n] == old(lru);
    }
  }
}
