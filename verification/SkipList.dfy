/**
 * The skip list (db/skiplist.h) under one writer and any number of readers. Every load and every store of
 * a link is a step of its own; steps are interleaved in any order, each seeing the latest stores.
 */
module SkipList {
  import opened DbFormat

  type Key = real
  const MAX_HEIGHT: nat := 12
  const HEAD: nat := 0

  datatype Kind = GreaterOrEqual | LessThan | Last

  /** A search: FindGreaterOrEqual, FindLessThan or FindLast, at node `x` of a level, until it has a result. */
  datatype Search = Search(kind: Kind, target: Key, x: nat, level: nat, result: Option<Option<nat>>)

  /** Insert: searching, then linking the new node level by level; `copied` once the node's own link is set. */
  datatype Writer =
    | Idle
    | Searching(key: Key, x: nat, level: nat, prev: seq<nat>)
    | Found(key: Key, prev: seq<nat>)
    | Linking(node: nat, height: nat, prev: seq<nat>, level: nat, copied: bool)

  /**
   * Node 0 is the head. `next[level][node]` is a node's link at a level. `lists` records history: the nodes
   * reached at each level, from the head.
   */
  datatype State = State(
    keys: seq<Key>,
    next: seq<map<nat, Option<nat>>>,
    maxHeight: nat,
    writer: Writer,
    readers: map<nat, Search>,
    lists: seq<seq<nat>>)

  function Initial(): State {
    State([0.0], seq(MAX_HEIGHT, _ => map[HEAD := None]), 1, Idle, map[], seq(MAX_HEIGHT, _ => [HEAD]))
  }

  function Next(s: State, level: nat, x: nat): Option<nat>
    requires level < |s.next|
  {
    if x in s.next[level] then s.next[level][x] else None
  }

  function WithLink(next: seq<map<nat, Option<nat>>>, level: nat, x: nat, link: Option<nat>): seq<map<nat, Option<nat>>>
    requires level < |next|
  {
    var links: map<nat, Option<nat>> := next[level][x := link];
    next[level := links]
  }

  function KeyOf(s: State, n: nat): Key {
    if n < |s.keys| then s.keys[n] else 0.0
  }

  /** KeyIsAfterNode; a null node is infinite. */
  predicate IsAfter(s: State, key: Key, n: Option<nat>) {
    n.Some? && KeyOf(s, n.value) < key
  }

  /** Whether a search goes on at the same level past `n`. */
  predicate Passes(s: State, kind: Kind, target: Key, n: Option<nat>) {
    if kind.Last? then n.Some? else IsAfter(s, target, n)
  }

  // Steps of a reader

  ghost predicate StartSearch(s: State, s2: State, r: nat, kind: Kind, target: Key) {
    s.maxHeight > 0 && s2 == s.(readers := s.readers[r := Search(kind, target, HEAD, s.maxHeight - 1, None)])
  }

  /** One load of a link and what the search makes of it. */
  function Advance(s: State, f: Search): Search
    requires f.level < |s.next|
  {
    var next := Next(s, f.level, f.x);
    if Passes(s, f.kind, f.target, next) then f.(x := next.value)
    else if f.level > 0 then f.(level := f.level - 1)
    else f.(result := Some(if f.kind.GreaterOrEqual? then next else Some(f.x)))
  }

  ghost predicate ReadLink(s: State, s2: State, r: nat) {
    && r in s.readers && s.readers[r].result.None? && s.readers[r].level < |s.next|
    && s2 == s.(readers := s.readers[r := Advance(s, s.readers[r])])
  }

  // Steps of the writer

  /** Insert is called with a key that is not in the list. */
  ghost predicate StartInsert(s: State, s2: State, key: Key) {
    && s.writer.Idle? && |s.lists| == MAX_HEIGHT && s.maxHeight > 0
    && (forall n :: n in s.lists[0] && n != HEAD ==> KeyOf(s, n) != key)
    && s2 == s.(writer := Searching(key, HEAD, s.maxHeight - 1, seq(MAX_HEIGHT, _ => HEAD)))
  }

  /** One turn of FindGreaterOrEqual, which notes where it leaves each level. */
  ghost predicate SearchStep(s: State, s2: State) {
    && s.writer.Searching? && s.writer.level < |s.next| && s.writer.level < |s.writer.prev|
    && var w := s.writer;
       var next := Next(s, w.level, w.x);
       var prev := w.prev[w.level := w.x];
       s2 == s.(writer :=
         if IsAfter(s, w.key, next) then w.(x := next.value)
         else if w.level > 0 then Searching(w.key, w.x, w.level - 1, prev)
         else Found(w.key, prev))
  }

  /** The new node, of any height, and the new height of the list. */
  ghost predicate MakeNode(s: State, s2: State, height: nat) {
    && s.writer.Found? && 1 <= height <= MAX_HEIGHT
    && s2 == s.(keys := s.keys + [s.writer.key],
                maxHeight := if height > s.maxHeight then height else s.maxHeight,
                writer := Linking(|s.keys|, height, s.writer.prev, 0, false))
  }

  /** The node's own link, not visible yet at this level. */
  ghost predicate CopyLink(s: State, s2: State) {
    && s.writer.Linking? && !s.writer.copied && s.writer.level < s.writer.height
    && s.writer.level < |s.next| && s.writer.level < |s.writer.prev|
    && var w := s.writer;
       s2 == s.(next := WithLink(s.next, w.level, w.node, Next(s, w.level, w.prev[w.level])), writer := w.(copied := true))
  }

  /** The store that makes the node visible at this level. */
  ghost predicate PublishLink(s: State, s2: State) {
    && s.writer.Linking? && s.writer.copied && s.writer.level < s.writer.height
    && s.writer.level < |s.next| && s.writer.level < |s.writer.prev| && s.writer.level < |s.lists|
    && var w := s.writer;
       var p := w.prev[w.level];
       s2 == s.(next := WithLink(s.next, w.level, p, Some(w.node)),
                lists := s.lists[w.level := Linked(s.lists[w.level], p, w.node)],
                writer := w.(level := w.level + 1, copied := false))
  }

  ghost predicate EndInsert(s: State, s2: State) {
    && s.writer.Linking? && s.writer.level == s.writer.height
    && s2 == s.(writer := Idle)
  }

  /** A list with `n` put right after `p`. */
  function Linked(list: seq<nat>, p: nat, n: nat): seq<nat> {
    if list == [] then [] else if list[0] == p then [p, n] + list[1..] else [list[0]] + Linked(list[1..], p, n)
  }

  ghost predicate Step(s: State, s2: State) {
    || (exists r, kind, target :: StartSearch(s, s2, r, kind, target)) || (exists r :: ReadLink(s, s2, r))
    || (exists key :: StartInsert(s, s2, key)) || SearchStep(s, s2) || (exists height :: MakeNode(s, s2, height))
    || CopyLink(s, s2) || PublishLink(s, s2) || EndInsert(s, s2)
  }

  // The invariant

  predicate Under(a: Key, b: Key) {
    a < b
  }

  /** The nodes of a level, strictly sorted, the head first. */
  ghost predicate SortedList(keys: seq<Key>, list: seq<nat>) {
    && list != [] && list[0] == HEAD
    && (forall i :: 0 <= i < |list| ==> list[i] < |keys|)
    && (forall i, j {:trigger Under(keys[list[i]], keys[list[j]])} :: 1 <= i < j < |list| ==> Under(keys[list[i]], keys[list[j]]))
    && (forall i :: 1 <= i < |list| ==> list[i] != HEAD)
  }

  /** The links of a level lead from each node of the list to the next. */
  ghost predicate LinksAre(next: map<nat, Option<nat>>, list: seq<nat>) {
    forall i {:trigger LinkIs(next, list, i)} :: 0 <= i < |list| ==> LinkIs(next, list, i)
  }

  ghost predicate LinkIs(next: map<nat, Option<nat>>, list: seq<nat>, i: nat)
    requires i < |list|
  {
    list[i] in next && next[list[i]] == if i + 1 < |list| then Some(list[i + 1]) else None
  }

  ghost predicate LevelOk(s: State, l: nat)
    requires l < |s.lists| && l < |s.next|
  {
    SortedList(s.keys, s.lists[l]) && LinksAre(s.next[l], s.lists[l])
  }

  /** A level holds all nodes of the level above. */
  ghost predicate Nested(s: State, l: nat) {
    l + 1 < |s.lists| && forall n :: n in s.lists[l + 1] ==> n in s.lists[l]
  }

  ghost predicate Levels(s: State) {
    && |s.lists| == |s.next| == MAX_HEIGHT && 1 <= s.maxHeight <= MAX_HEIGHT && s.keys != []
    && (forall l {:trigger LevelOk(s, l)} :: 0 <= l < MAX_HEIGHT ==> LevelOk(s, l))
    && (forall l {:trigger Nested(s, l)} :: 0 <= l < MAX_HEIGHT - 1 ==> Nested(s, l))
  }

  /** `x` is in a list, and before `key`. */
  ghost predicate Reached(s: State, l: nat, x: nat, key: Key) {
    l < |s.lists| && x in s.lists[l] && (x == HEAD || KeyOf(s, x) < key)
  }

  /** `p` is the last node of a level before `key`. */
  ghost predicate Stops(s: State, l: nat, p: nat, key: Key) {
    l < |s.next| && Reached(s, l, p, key) && !IsAfter(s, key, Next(s, l, p))
  }

  ghost predicate StopsFrom(s: State, prev: seq<nat>, key: Key, from: int) {
    && |prev| == MAX_HEIGHT
    && forall l {:trigger Stops(s, l, prev[l], key)} :: 0 <= l < MAX_HEIGHT && from <= l ==> Stops(s, l, prev[l], key)
  }

  ghost predicate NotIn(s: State, key: Key, list: seq<nat>) {
    forall n :: n in list && n != HEAD ==> KeyOf(s, n) != key
  }

  ghost predicate NotFrom(s: State, key: Key, from: nat) {
    forall l {:trigger NotIn(s, key, s.lists[l])} :: from <= l < |s.lists| ==> NotIn(s, key, s.lists[l])
  }

  ghost predicate WriterOk(s: State) {
    match s.writer
    case Idle => true
    case Searching(key, x, level, prev) =>
      level < s.maxHeight && Reached(s, level, x, key) && StopsFrom(s, prev, key, level + 1) && NotFrom(s, key, 0)
    case Found(key, prev) => StopsFrom(s, prev, key, 0) && NotFrom(s, key, 0)
    case Linking(node, height, prev, level, copied) =>
      && 0 < node < |s.keys| && level <= height <= s.maxHeight && 1 <= height
      && StopsFrom(s, prev, s.keys[node], level) && NotFrom(s, s.keys[node], level)
      && (forall l :: 0 <= l < level && l < |s.lists| ==> node in s.lists[l])
      && (copied ==> level < height && level < |s.next| && level < |prev|
                     && node in s.next[level] && s.next[level][node] == Next(s, level, prev[level]))
  }

  ghost predicate SearchOk(s: State, f: Search) {
    f.result.None? ==>
      f.level < |s.lists| && f.x in s.lists[f.level] && (f.kind.Last? || Reached(s, f.level, f.x, f.target))
  }

  ghost predicate Invariant(s: State) {
    && Levels(s) && WriterOk(s)
    && (forall l :: s.maxHeight <= l < MAX_HEIGHT ==> s.lists[l] == [HEAD])
    && (forall r :: r in s.readers ==> SearchOk(s, s.readers[r]))
  }

  // Searching

  /** The next node of a list node is the one after it in the list. */
  lemma NextInList(s: State, l: nat, x: nat) returns (i: nat)
    requires Levels(s) && l < MAX_HEIGHT && x in s.lists[l]
    ensures i < |s.lists[l]| && s.lists[l][i] == x
    ensures Next(s, l, x) == if i + 1 < |s.lists[l]| then Some(s.lists[l][i + 1]) else None
    ensures Next(s, l, x).Some? ==> Next(s, l, x).value in s.lists[l] && Next(s, l, x).value != HEAD
  {
    assert LevelOk(s, l);
    i :| 0 <= i < |s.lists[l]| && s.lists[l][i] == x;
    assert LinkIs(s.next[l], s.lists[l], i);
  }

  lemma Above(s: State, l: nat, x: nat)
    requires Levels(s) && 0 < l < MAX_HEIGHT && x in s.lists[l]
    ensures x in s.lists[l - 1]
  {
    assert Nested(s, l - 1);
  }

  /** What a search is to return, for the nodes in the lowest list. */
  ghost predicate Answers(s: State, kind: Kind, target: Key, r: Option<nat>)
    requires |s.lists| > 0
  {
    match kind
    case GreaterOrEqual =>
      if r.None? then forall m :: m in s.lists[0] && m != HEAD ==> KeyOf(s, m) < target
      else
        && r.value in s.lists[0] && r.value != HEAD && target <= KeyOf(s, r.value)
        && forall m :: m in s.lists[0] && m != HEAD && target <= KeyOf(s, m) ==> KeyOf(s, r.value) <= KeyOf(s, m)
    case LessThan =>
      && r.Some? && r.value in s.lists[0] && (r.value != HEAD ==> KeyOf(s, r.value) < target)
      && forall m :: m in s.lists[0] && m != HEAD && KeyOf(s, m) < target ==>
           r.value != HEAD && KeyOf(s, m) <= KeyOf(s, r.value)
    case Last =>
      && r.Some? && r.value in s.lists[0]
      && forall m :: m in s.lists[0] && m != HEAD ==> r.value != HEAD && KeyOf(s, m) <= KeyOf(s, r.value)
  }

  /** Nodes are in the order of their keys. */
  lemma ListOrder(s: State, i: nat, j: nat)
    requires Levels(s) && i < |s.lists[0]| && 0 < j < |s.lists[0]|
    ensures s.lists[0][j] != HEAD
    ensures i < j ==> s.lists[0][i] == HEAD || KeyOf(s, s.lists[0][i]) < KeyOf(s, s.lists[0][j])
    ensures i == j ==> KeyOf(s, s.lists[0][i]) == KeyOf(s, s.lists[0][j])
  {
    assert LevelOk(s, 0);
    var list := s.lists[0];
    if 0 < i < j { assert Under(s.keys[list[i]], s.keys[list[j]]); }
  }

  /** The last load of a search, at level 0, decides it rightly for the list at that moment. */
  lemma SearchAnswers(s: State, f: Search)
    requires Levels(s) && SearchOk(s, f) && f.result.None? && f.level < |s.next| && Advance(s, f).result.Some?
    ensures Answers(s, f.kind, f.target, Advance(s, f).result.value)
  {
    var list := s.lists[0];
    var i := NextInList(s, 0, f.x);
    if i > 0 { ListOrder(s, 0, i); }
    forall m: nat | m in list && m != HEAD
      ensures (i > 0 && KeyOf(s, m) <= KeyOf(s, list[i])) || (i + 1 < |list| && KeyOf(s, list[i + 1]) <= KeyOf(s, m))
    {
      var j :| 0 <= j < |list| && list[j] == m;
      assert LevelOk(s, 0);
      if j <= i {
        ListOrder(s, j, i);
      } else {
        ListOrder(s, i + 1, j);
      }
    }
  }

  // Every step keeps the invariant

  /** A step that touches no list and no link. */
  ghost predicate SameLists(s: State, s2: State) {
    s2.keys == s.keys && s2.next == s.next && s2.lists == s.lists && s2.maxHeight == s.maxHeight
  }

  lemma LevelsStay(s: State, s2: State)
    requires Levels(s) && SameLists(s, s2)
    ensures Levels(s2)
  {
    forall l | 0 <= l < MAX_HEIGHT ensures LevelOk(s2, l) { assert LevelOk(s, l); }
    forall l | 0 <= l < MAX_HEIGHT - 1 ensures Nested(s2, l) { assert Nested(s, l); }
  }

  lemma StopsStay(s: State, s2: State, prev: seq<nat>, key: Key, from: int)
    requires StopsFrom(s, prev, key, from) && SameLists(s, s2)
    ensures StopsFrom(s2, prev, key, from)
  {
    forall l | 0 <= l < MAX_HEIGHT && from <= l ensures Stops(s2, l, prev[l], key) { assert Stops(s, l, prev[l], key); }
  }

  lemma NotStays(s: State, s2: State, key: Key, from: nat)
    requires NotFrom(s, key, from) && SameLists(s, s2)
    ensures NotFrom(s2, key, from)
  {
    forall l | from <= l < |s2.lists| ensures NotIn(s2, key, s2.lists[l]) { assert NotIn(s, key, s.lists[l]); }
  }

  lemma WriterStays(s: State, s2: State)
    requires WriterOk(s) && SameLists(s, s2) && s2.writer == s.writer
    ensures WriterOk(s2)
  {
    match s.writer
    case Idle =>
    case Searching(key, x, level, prev) => StopsStay(s, s2, prev, key, level + 1); NotStays(s, s2, key, 0);
    case Found(key, prev) => StopsStay(s, s2, prev, key, 0); NotStays(s, s2, key, 0);
    case Linking(node, height, prev, level, copied) =>
      StopsStay(s, s2, prev, s.keys[node], level);
      NotStays(s, s2, s.keys[node], level);
  }

  lemma StartSearchKeeps(s: State, s2: State, r: nat, kind: Kind, target: Key)
    requires Invariant(s) && StartSearch(s, s2, r, kind, target)
    ensures Invariant(s2)
  {
    LevelsStay(s, s2);
    WriterStays(s, s2);
    assert LevelOk(s, s.maxHeight - 1);
  }

  lemma ReadLinkKeeps(s: State, s2: State, r: nat)
    requires Invariant(s) && ReadLink(s, s2, r)
    ensures Invariant(s2)
  {
    LevelsStay(s, s2);
    WriterStays(s, s2);
    var f := s.readers[r];
    var i := NextInList(s, f.level, f.x);
    if f.level > 0 { Above(s, f.level, f.x); }
  }

  lemma StartInsertKeeps(s: State, s2: State, key: Key)
    requires Invariant(s) && StartInsert(s, s2, key)
    ensures Invariant(s2)
  {
    LevelsStay(s, s2);
    forall l | 0 <= l < MAX_HEIGHT ensures NotIn(s2, key, s2.lists[l]) { NotAnywhere(s, key, l); }
    assert LevelOk(s, s.maxHeight - 1);
    forall l | s.maxHeight <= l < MAX_HEIGHT
      ensures Stops(s2, l, HEAD, key)
    {
      assert s.lists[l] == [HEAD] && HEAD in s.lists[l];
      var i := NextInList(s, l, HEAD);
    }
  }

  lemma {:induction false} NotAnywhere(s: State, key: Key, l: nat)
    requires Levels(s) && l < MAX_HEIGHT && forall n :: n in s.lists[0] && n != HEAD ==> KeyOf(s, n) != key
    ensures NotIn(s, key, s.lists[l])
  {
    if l > 0 {
      NotAnywhere(s, key, l - 1);
      assert Nested(s, l - 1);
    }
  }

  lemma SearchStepKeeps(s: State, s2: State)
    requires Invariant(s) && SearchStep(s, s2)
    ensures Invariant(s2)
  {
    LevelsStay(s, s2);
    var w := s.writer;
    var i := NextInList(s, w.level, w.x);
    if w.level > 0 { Above(s, w.level, w.x); }
    NotStays(s, s2, w.key, 0);
    StopsStay(s, s2, w.prev, w.key, w.level + 1);
    var prev := w.prev[w.level := w.x];
    if !IsAfter(s, w.key, Next(s, w.level, w.x)) {
      forall l | 0 <= l < MAX_HEIGHT && w.level <= l
        ensures Stops(s2, l, prev[l], w.key)
      {
        assert l > w.level ==> Stops(s2, l, w.prev[l], w.key);
      }
    }
  }

  lemma EndInsertKeeps(s: State, s2: State)
    requires Invariant(s) && EndInsert(s, s2)
    ensures Invariant(s2)
  {
    LevelsStay(s, s2);
  }

  lemma MakeNodeKeeps(s: State, s2: State, height: nat)
    requires Invariant(s) && MakeNode(s, s2, height)
    ensures Invariant(s2)
  {
    var w := s.writer;
    forall l | 0 <= l < MAX_HEIGHT
      ensures LevelOk(s2, l) && NotIn(s2, w.key, s2.lists[l]) && Stops(s2, l, w.prev[l], w.key)
    {
      assert LevelOk(s, l) && NotIn(s, w.key, s.lists[l]) && Stops(s, l, w.prev[l], w.key);
      var i := NextInList(s, l, w.prev[l]);
      SortedMore(s.keys, s.keys + [w.key], s.lists[l]);
    }
    forall l | 0 <= l < MAX_HEIGHT - 1 ensures Nested(s2, l) { assert Nested(s, l); }
    forall r | r in s2.readers
      ensures SearchOk(s2, s2.readers[r])
    {
      assert SearchOk(s, s.readers[r]);
      assert s.readers[r].level < MAX_HEIGHT ==> LevelOk(s, s.readers[r].level);
    }
  }

  lemma SortedMore(keys: seq<Key>, more: seq<Key>, list: seq<nat>)
    requires SortedList(keys, list) && keys <= more
    ensures SortedList(more, list)
  {
    forall i, j | 1 <= i < j < |list|
      ensures Under(more[list[i]], more[list[j]])
    {
      assert Under(keys[list[i]], keys[list[j]]);
    }
  }

  lemma CopyLinkKeeps(s: State, s2: State)
    requires Invariant(s) && CopyLink(s, s2)
    ensures Invariant(s2)
  {
    var w := s.writer;
    var key := s.keys[w.node];
    assert NotIn(s, key, s.lists[w.level]) && LevelOk(s, w.level);
    assert w.node !in s.lists[w.level];
    LinksUnaffected(s.next[w.level], s.lists[w.level], w.node, Next(s, w.level, w.prev[w.level]));
    forall l | 0 <= l < MAX_HEIGHT ensures LevelOk(s2, l) { assert LevelOk(s, l); }
    forall l | 0 <= l < MAX_HEIGHT - 1 ensures Nested(s2, l) { assert Nested(s, l); }
    forall l | w.level <= l < MAX_HEIGHT
      ensures Stops(s2, l, w.prev[l], key) && NotIn(s2, key, s2.lists[l])
    {
      assert Stops(s, l, w.prev[l], key) && NotIn(s, key, s.lists[l]);
    }
  }

  lemma LinksUnaffected(next: map<nat, Option<nat>>, list: seq<nat>, n: nat, link: Option<nat>)
    requires LinksAre(next, list) && n !in list
    ensures LinksAre(next[n := link], list)
  {
    var next2 := next[n := link];
    forall i | 0 <= i < |list|
      ensures LinkIs(next2, list, i)
    {
      assert list[i] in list && LinkIs(next, list, i);
    }
  }

  // Publishing a link

  lemma {:induction false} LinkedIs(list: seq<nat>, p: nat, n: nat, i: nat)
    requires i < |list| && list[i] == p && forall j :: 0 <= j < i ==> list[j] != p
    ensures Linked(list, p, n) == list[..i + 1] + [n] + list[i + 1..]
  {
    if i > 0 {
      LinkedIs(list[1..], p, n, i - 1);
      assert list[..i + 1] == [list[0]] + list[1..][..i];
    } else {
      assert list[..1] == [p];
    }
  }

  lemma PublishSorted(keys: seq<Key>, list: seq<nat>, n: nat, i: nat)
    requires SortedList(keys, list) && i < |list| && 0 < n < |keys|
    requires i > 0 ==> keys[list[i]] < keys[n]
    requires i + 1 < |list| ==> keys[n] < keys[list[i + 1]]
    ensures SortedList(keys, list[..i + 1] + [n] + list[i + 1..])
  {
    var list2 := list[..i + 1] + [n] + list[i + 1..];
    forall a, b | 1 <= a < b < |list2|
      ensures Under(keys[list2[a]], keys[list2[b]])
    {
      var a', b' := if a <= i then a else a - 1, if b <= i then b else b - 1;
      assert a != i + 1 && b != i + 1 ==> Under(keys[list[a']], keys[list[b']]);
      assert 0 < a < i ==> Under(keys[list[a]], keys[list[i]]);
      assert b > i + 2 ==> Under(keys[list[i + 1]], keys[list[b - 1]]);
    }
  }

  lemma PublishLinks(next: map<nat, Option<nat>>, list: seq<nat>, p: nat, n: nat, i: nat)
    requires LinksAre(next, list) && i < |list| && list[i] == p && n !in list
    requires forall a, b :: 0 <= a < b < |list| ==> list[a] != list[b]
    requires n in next && p in next && next[n] == next[p]
    ensures LinksAre(next[p := Some(n)], list[..i + 1] + [n] + list[i + 1..])
  {
    var list2, next2 := list[..i + 1] + [n] + list[i + 1..], next[p := Some(n)];
    forall k | 0 <= k < |list2|
      ensures LinkIs(next2, list2, k)
    {
      var o := if k <= i then k else k - 1;  // the place of list2[k] in list, or of the node before it
      assert list[o] in list && LinkIs(next, list, o);
      assert k < i || k > i + 1 ==> list2[k] == list[o] != p;
      assert k == i + 1 ==> list2[k] == n && list[o] == p;
      assert k + 1 < |list2| && k != i ==> list2[k + 1] == list[o + 1];
    }
  }

  lemma Distinct(keys: seq<Key>, list: seq<nat>)
    requires SortedList(keys, list)
    ensures forall a, b :: 0 <= a < b < |list| ==> list[a] != list[b]
  {
    forall a, b | 0 <= a < b < |list|
      ensures list[a] != list[b]
    {
      assert a > 0 ==> Under(keys[list[a]], keys[list[b]]);
    }
  }

  /** The level at hand after the store. */
  lemma PublishLevel(s: State, s2: State)
    requires Invariant(s) && PublishLink(s, s2)
    ensures LevelOk(s2, s.writer.level)
    ensures forall n :: n in s2.lists[s.writer.level] <==> n in s.lists[s.writer.level] || n == s.writer.node
  {
    var w := s.writer;
    var l, p, list := w.level, w.prev[w.level], s.lists[w.level];
    assert LevelOk(s, l) && Stops(s, l, p, s.keys[w.node]) && NotIn(s, s.keys[w.node], list);
    var i := NextInList(s, l, p);
    Distinct(s.keys, list);
    LinkedIs(list, p, w.node, i);
    if i + 1 < |list| { assert list[i + 1] in list; }
    PublishSorted(s.keys, list, w.node, i);
    assert LinkIs(s.next[l], list, i);
    PublishLinks(s.next[l], list, p, w.node, i);
    var list2 := list[..i + 1] + [w.node] + list[i + 1..];
    forall n
      ensures n in list2 <==> n in list || n == w.node
    {
      assert list == list[..i + 1] + list[i + 1..];
    }
  }

  lemma PublishLinkKeeps(s: State, s2: State)
    requires Invariant(s) && PublishLink(s, s2)
    ensures Invariant(s2)
  {
    var w := s.writer;
    PublishLevel(s, s2);
    forall l | 0 <= l < MAX_HEIGHT
      ensures LevelOk(s2, l)
    {
      if l != w.level { assert LevelOk(s, l); }
    }
    forall l | 0 <= l < MAX_HEIGHT - 1
      ensures Nested(s2, l)
    {
      assert Nested(s, l);
    }
    forall l | w.level + 1 <= l < MAX_HEIGHT
      ensures Stops(s2, l, w.prev[l], s.keys[w.node]) && NotIn(s2, s.keys[w.node], s2.lists[l])
    {
      assert Stops(s, l, w.prev[l], s.keys[w.node]) && NotIn(s, s.keys[w.node], s.lists[l]);
    }
    forall r | r in s2.readers
      ensures SearchOk(s2, s2.readers[r])
    {
      assert SearchOk(s, s.readers[r]);
    }
  }

  lemma StepKeeps(s: State, s2: State)
    requires Invariant(s) && Step(s, s2)
    ensures Invariant(s2)
  {
    if r: nat, kind, target :| StartSearch(s, s2, r, kind, target) {
      StartSearchKeeps(s, s2, r, kind, target);
    } else if r: nat :| ReadLink(s, s2, r) {
      ReadLinkKeeps(s, s2, r);
    } else if key :| StartInsert(s, s2, key) {
      StartInsertKeeps(s, s2, key);
    } else if SearchStep(s, s2) {
      SearchStepKeeps(s, s2);
    } else if height: nat :| MakeNode(s, s2, height) {
      MakeNodeKeeps(s, s2, height);
    } else if CopyLink(s, s2) {
      CopyLinkKeeps(s, s2);
    } else if PublishLink(s, s2) {
      PublishLinkKeeps(s, s2);
    } else {
      EndInsertKeeps(s, s2);
    }
  }

  ghost predicate IsRun(run: seq<State>) {
    run != [] && run[0] == Initial() && forall i :: 0 <= i < |run| - 1 ==> Step(run[i], run[i + 1])
  }

  lemma InitialOk()
    ensures Invariant(Initial())
  {
    var s := Initial();
    forall l | 0 <= l < MAX_HEIGHT ensures LevelOk(s, l) { assert LinkIs(s.next[l], s.lists[l], 0); }
    forall l | 0 <= l < MAX_HEIGHT - 1 ensures Nested(s, l) {}
  }

  lemma {:induction false} EveryRunKeepsInvariant(run: seq<State>)
    requires IsRun(run)
    ensures forall i :: 0 <= i < |run| ==> Invariant(run[i])
  {
    InitialOk();
    for i := 1 to |run|
      invariant forall j :: 0 <= j < i ==> Invariant(run[j])
    {
      assert Step(run[i - 1], run[i - 1 + 1]);
      StepKeeps(run[i - 1], run[i]);
    }
  }

  // What a run guarantees

  /** After every single load and store, each level is strictly sorted and holds all nodes of the level above. */
  lemma LevelsAreSorted(run: seq<State>, i: nat, l: nat)
    requires IsRun(run) && i < |run| && l < MAX_HEIGHT
    ensures l < |run[i].lists| && l < |run[i].next| && LevelOk(run[i], l)
    ensures l + 1 < MAX_HEIGHT ==> Nested(run[i], l)
  {
    EveryRunKeepsInvariant(run);
    assert Invariant(run[i]);
  }

  /** A search that ends returns what the lowest list calls for at the moment of its last load. */
  lemma SearchesAnswer(run: seq<State>, i: nat, r: nat)
    requires IsRun(run) && i + 1 < |run| && ReadLink(run[i], run[i + 1], r)
    requires run[i + 1].readers[r].result.Some?
    ensures |run[i].lists| > 0
    ensures Answers(run[i], run[i].readers[r].kind, run[i].readers[r].target, run[i + 1].readers[r].result.value)
  {
    EveryRunKeepsInvariant(run);
    assert Invariant(run[i]);
    SearchAnswers(run[i], run[i].readers[r]);
  }

  lemma NodesStayOnce(s: State, s2: State, n: nat)
    requires Invariant(s) && Step(s, s2) && n in s.lists[0]
    ensures |s2.lists| == MAX_HEIGHT && n in s2.lists[0] && KeyOf(s2, n) == KeyOf(s, n)
  {
    StepKeeps(s, s2);
    assert LevelOk(s, 0);
    if PublishLink(s, s2) {
      PublishLevel(s, s2);
    }
  }

  /** If the node is reachable in state `k`, it still is in the next. */
  ghost predicate StaysNext(run: seq<State>, k: int, n: nat) {
    0 <= k < |run| - 1 && (|run[k].lists| > 0 && n in run[k].lists[0] ==>
      |run[k + 1].lists| > 0 && n in run[k + 1].lists[0] && KeyOf(run[k + 1], n) == KeyOf(run[k], n))
  }

  lemma NodesStayNext(run: seq<State>, k: nat, n: nat)
    requires IsRun(run) && k + 1 < |run|
    ensures StaysNext(run, k, n)
  {
    EveryRunKeepsInvariant(run);
    assert Invariant(run[k]) && Step(run[k], run[k + 1]);
    if n in run[k].lists[0] { NodesStayOnce(run[k], run[k + 1], n); }
  }

  lemma {:induction false} StaysOn(run: seq<State>, i: nat, j: nat, n: nat)
    requires i <= j < |run| && |run[i].lists| > 0 && n in run[i].lists[0]
    requires forall k {:trigger StaysNext(run, k, n)} :: i <= k < j ==> StaysNext(run, k, n)
    ensures |run[j].lists| > 0 && n in run[j].lists[0] && KeyOf(run[j], n) == KeyOf(run[i], n)
  {
    if i < j {
      StaysOn(run, i, j - 1, n);
      assert StaysNext(run, j - 1, n);
    }
  }

  /** A node once reachable at the lowest level stays reachable, with its key. */
  lemma NodesStay(run: seq<State>, i: nat, j: nat, n: nat)
    requires IsRun(run) && i <= j < |run| && |run[i].lists| > 0 && n in run[i].lists[0]
    ensures |run[j].lists| > 0 && n in run[j].lists[0] && KeyOf(run[j], n) == KeyOf(run[i], n)
  {
    forall k | i <= k < j ensures StaysNext(run, k, n) { NodesStayNext(run, k, n); }
    StaysOn(run, i, j, n);
  }

  /** A node is in the lists below its height, and in no others. */
  ghost predicate IsUpTo(lists: seq<seq<nat>>, n: nat, height: nat) {
    forall l :: 0 <= l < |lists| ==> (n in lists[l] <==> l < height)
  }

  /** When an insertion ends, its node is in as many lists as it is high. */
  lemma InsertedIsThere(run: seq<State>, i: nat)
    requires IsRun(run) && i + 1 < |run| && EndInsert(run[i], run[i + 1])
    ensures |run[i + 1].lists| == MAX_HEIGHT && 1 <= run[i].writer.height
    ensures IsUpTo(run[i + 1].lists, run[i].writer.node, run[i].writer.height)
  {
    EveryRunKeepsInvariant(run);
    var s, w := run[i], run[i].writer;
    assert Invariant(s) && Invariant(run[i + 1]);
    forall l | w.height <= l < MAX_HEIGHT ensures w.node !in s.lists[l] { assert NotIn(s, s.keys[w.node], s.lists[l]); }
  }
}
