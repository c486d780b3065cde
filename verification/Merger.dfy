/** MergingIterator (table/merger.cc): a bidirectional cursor over the sorted union of its children. */
module Merger {
  import opened DbFormat

  ghost predicate NoCommonKey(a: seq<Entry>, b: seq<Entry>) {
    forall e, x :: e in a && x in b ==> e.key != x.key
  }

  ghost predicate Part(es: seq<Entry>, merged: seq<Entry>) {
    Sorted(es) && forall e :: e in es ==> e in merged
  }

  ghost predicate InSome(children: seq<seq<Entry>>, e: Entry) {
    exists i :: 0 <= i < |children| && e in children[i]
  }

  /** `merged` is the sorted union of the children, which share no key. */
  ghost predicate IsMerge(children: seq<seq<Entry>>, merged: seq<Entry>) {
    && Sorted(merged)
    && (forall i {:trigger Part(children[i], merged)} :: 0 <= i < |children| ==> Part(children[i], merged))
    && (forall i, j {:trigger NoCommonKey(children[i], children[j])} ::
          0 <= i < |children| && 0 <= j < |children| && i != j ==> NoCommonKey(children[i], children[j]))
    && (forall e {:trigger InSome(children, e)} :: e in merged ==> InSome(children, e))
  }

  /** The first `p` entries of `es` are those it has among the first `n` of `merged`. */
  ghost predicate SplitAt(es: seq<Entry>, p: nat, merged: seq<Entry>, n: nat)
    requires p <= |es| && n <= |merged|
  {
    && (forall j, m :: 0 <= j < p && n <= m < |merged| ==> es[j].key.Less(merged[m].key))
    && (forall j, m :: p <= j < |es| && 0 <= m < n ==> merged[m].key.Less(es[j].key))
  }

  ghost predicate Placed(children: seq<seq<Entry>>, position: seq<nat>) {
    |position| == |children| && forall i :: 0 <= i < |children| ==> position[i] <= |children[i]|
  }

  /** Entries of a child up to and including the one at `p`; none when `p` is past the end. */
  function Through(es: seq<Entry>, p: nat): (t: nat)
    requires p <= |es|
    ensures t <= |es|
  {
    if p < |es| then p + 1 else 0
  }

  /** A child at `p` stands at its first entry from position `n` of `merged` on. */
  ghost predicate AtOrAfter(es: seq<Entry>, p: nat, merged: seq<Entry>, n: nat) {
    p <= |es| && n <= |merged| && SplitAt(es, p, merged, n)
  }

  /** A child at `p` stands at its last entry before position `n` of `merged`. */
  ghost predicate Before(es: seq<Entry>, p: nat, merged: seq<Entry>, n: nat) {
    p <= |es| && n <= |merged| && SplitAt(es, Through(es, p), merged, n)
  }

  ghost predicate AllAtOrAfter(children: seq<seq<Entry>>, position: seq<nat>, merged: seq<Entry>, n: nat)
    requires Placed(children, position) && n <= |merged|
  {
    forall i :: 0 <= i < |children| ==> AtOrAfter(children[i], position[i], merged, n)
  }

  ghost predicate AllBefore(children: seq<seq<Entry>>, position: seq<nat>, merged: seq<Entry>, n: nat)
    requires Placed(children, position) && n <= |merged|
  {
    forall i :: 0 <= i < |children| ==> Before(children[i], position[i], merged, n)
  }

  /** The child `c` stands at merged[at]; there is none when `at` is past the end. */
  ghost predicate Pointed(children: seq<seq<Entry>>, position: seq<nat>, merged: seq<Entry>, c: Option<nat>, at: nat)
    requires Placed(children, position)
  {
    && at <= |merged|
    && (c.None? <==> at == |merged|)
    && (c.Some? ==>
          && c.value < |children|
          && position[c.value] < |children[c.value]|
          && children[c.value][position[c.value]] == merged[at])
  }

  /** Child `a` stands at a smaller key than child `b`; both must stand somewhere. */
  predicate Smaller(children: seq<seq<Entry>>, position: seq<nat>, a: nat, b: nat)
    requires |position| == |children| && a < |children| && b < |children|
    requires position[a] < |children[a]| && position[b] < |children[b]|
  {
    children[a][position[a]].key.Less(children[b][position[b]].key)
  }

  class MergingIterator {
    const children: seq<seq<Entry>>
    // Each child is a cursor over a sorted run: its state is a position, the length when invalid.
    var position: seq<nat>
    var current: Option<nat>
    var direction: Direction
    ghost const merged: seq<Entry>
    ghost var at: nat  // the position in `merged`, its length when invalid

    ghost predicate Consistent()
      reads this
    {
      && IsMerge(children, merged)
      && Placed(children, position)
      && Pointed(children, position, merged, current, at)
      && (current.Some? ==>
            if direction == Forward then AllAtOrAfter(children, position, merged, at)
            else AllBefore(children, position, merged, at + 1))
    }

    constructor (children: seq<seq<Entry>>, ghost merged: seq<Entry>)
      requires IsMerge(children, merged)
      ensures Consistent() && this.children == children && this.merged == merged && at == |merged|
    {
      this.children := children;
      this.merged := merged;
      position := seq(|children|, i requires 0 <= i < |children| => |children[i]|);
      current := None;
      direction := Forward;
      at := |merged|;
    }

    predicate Valid()
      reads this
    {
      current.Some?
    }

    function Current(): Entry
      requires Consistent() && Valid()
      reads this
      ensures Current() == merged[at]
    {
      children[current.value][position[current.value]]
    }

    method FindSmallest(ghost n: nat)
      requires IsMerge(children, merged) && Placed(children, position) && n <= |merged|
      requires AllAtOrAfter(children, position, merged, n)
      modifies this`current, this`at
      ensures at == n && Pointed(children, position, merged, current, at)
    {
      var smallest: Option<nat> := None;
      for i := 0 to |children|
        invariant smallest.None? ==> forall j :: 0 <= j < i ==> position[j] == |children[j]|
        invariant smallest.Some? ==> smallest.value < i && position[smallest.value] < |children[smallest.value]|
        invariant smallest.Some? ==> forall j :: 0 <= j < i && position[j] < |children[j]| ==>
          !Smaller(children, position, j, smallest.value)
      {
        if position[i] < |children[i]| {
          if smallest.None? {
            smallest := Some(i);
          } else if Smaller(children, position, i, smallest.value) {
            smallest := Some(i);
          }
        }
      }
      current, at := smallest, n;
      SmallestPointed(children, position, merged, n, smallest);
    }

    method FindLargest(ghost n: nat)
      requires IsMerge(children, merged) && Placed(children, position) && n <= |merged|
      requires AllBefore(children, position, merged, n)
      modifies this`current, this`at
      ensures at == (if n == 0 then |merged| else n - 1) && Pointed(children, position, merged, current, at)
    {
      var largest: Option<nat> := None;
      var i := |children|;
      while i > 0
        invariant 0 <= i <= |children|
        invariant largest.None? ==> forall j :: i <= j < |children| ==> position[j] == |children[j]|
        invariant largest.Some? ==> i <= largest.value < |children| && position[largest.value] < |children[largest.value]|
        invariant largest.Some? ==> forall j :: i <= j < |children| && position[j] < |children[j]| ==>
          !Smaller(children, position, largest.value, j)
      {
        i := i - 1;
        if position[i] < |children[i]| {
          if largest.None? {
            largest := Some(i);
          } else if Smaller(children, position, largest.value, i) {
            largest := Some(i);
          }
        }
      }
      current, at := largest, if n == 0 then |merged| else n - 1;
      LargestPointed(children, position, merged, n, largest);
    }

    method SeekToFirst()
      requires Consistent()
      modifies this
      ensures Consistent() && at == 0
    {
      position := seq(|children|, i requires 0 <= i < |children| => 0);
      FindSmallest(0);
      direction := Forward;
    }

    method SeekToLast()
      requires Consistent()
      modifies this
      ensures Consistent() && at == if merged == [] then 0 else |merged| - 1
    {
      position := seq(|children|, i requires 0 <= i < |children| => if |children[i]| > 0 then |children[i]| - 1 else 0);
      FindLargest(|merged|);
      direction := Reverse;
    }

    method Seek(target: InternalKey)
      requires Consistent()
      modifies this
      ensures Consistent() && at == SeekIndex(merged, target)
    {
      for i := 0 to |children|
        invariant IsMerge(children, merged) && Placed(children, position)
        invariant forall j :: 0 <= j < i ==> AtOrAfter(children[j], position[j], merged, SeekIndex(merged, target))
      {
        assert Part(children[i], merged);
        SeekSplits(children[i], merged, target);
        position := position[i := SeekIndex(children[i], target)];
      }
      FindSmallest(SeekIndex(merged, target));
      direction := Forward;
    }

    /** The part of Next that turns the children round: all but the current one move past its key. */
    method TurnForward(cur: nat)
      requires Consistent() && current == Some(cur)
      modifies this`position
      ensures Placed(children, position) && position[cur] == old(position[cur])
      ensures forall j :: 0 <= j < |children| && j != cur ==> AtOrAfter(children[j], position[j], merged, at + 1)
    {
      var key := Current().key;
      for i := 0 to |children|
        invariant Placed(children, position) && position[cur] == old(position[cur])
        invariant forall j :: 0 <= j < i && j != cur ==> AtOrAfter(children[j], position[j], merged, at + 1)
      {
        if i != cur {
          KeyOnlyIn(children, merged, cur, position[cur], i);
          SeekPastSplits(children[i], merged, at);
          var p := SeekIndex(children[i], key);
          if p < |children[i]| && children[i][p].key == key {
            p := p + 1;
          }
          position := position[i := p];
        }
      }
    }

    method Next()
      requires Consistent() && Valid()
      modifies this
      ensures Consistent() && at == old(at) + 1
    {
      ghost var n := at;
      var cur := current.value;
      if direction != Forward {
        TurnForward(cur);
        direction := Forward;
      } else {
        OthersMove(children, position, merged, n, cur);
      }
      assert Part(children[cur], merged);
      StepSplits(children[cur], position[cur], merged, n);
      position := position[cur := position[cur] + 1];
      FindSmallest(n + 1);
    }

    /** The part of Prev that turns the children round: all but the current one move before its key. */
    method TurnBack(cur: nat)
      requires Consistent() && current == Some(cur)
      modifies this`position
      ensures Placed(children, position) && position[cur] == old(position[cur])
      ensures forall j :: 0 <= j < |children| && j != cur ==> Before(children[j], position[j], merged, at)
    {
      var key := Current().key;
      SeekIndexAt(merged, at);
      for i := 0 to |children|
        invariant Placed(children, position) && position[cur] == old(position[cur])
        invariant forall j :: 0 <= j < i && j != cur ==> Before(children[j], position[j], merged, at)
      {
        if i != cur {
          assert Part(children[i], merged);
          SeekSplits(children[i], merged, key);
          var p := SeekIndex(children[i], key);
          if p < |children[i]| {
            p := if p == 0 then |children[i]| else p - 1;
          } else {
            p := if |children[i]| > 0 then |children[i]| - 1 else 0;
          }
          position := position[i := p];
        }
      }
    }

    method Prev()
      requires Consistent() && Valid()
      modifies this
      ensures Consistent() && at == if old(at) == 0 then |merged| else old(at) - 1
    {
      ghost var n := at;
      var cur := current.value;
      if direction != Reverse {
        TurnBack(cur);
        direction := Reverse;
      } else {
        OthersMoveBack(children, position, merged, n, cur);
      }
      assert Part(children[cur], merged);
      StepSplits(children[cur], position[cur], merged, n);
      position := position[cur := if position[cur] == 0 then |children[cur]| else position[cur] - 1];
      FindLargest(n);
    }
  }

  // The children against the union

  lemma SmallestPointed(children: seq<seq<Entry>>, position: seq<nat>, merged: seq<Entry>, n: nat, smallest: Option<nat>)
    requires IsMerge(children, merged) && Placed(children, position) && n <= |merged|
    requires AllAtOrAfter(children, position, merged, n)
    requires smallest.None? ==> forall j :: 0 <= j < |children| ==> position[j] == |children[j]|
    requires smallest.Some? ==> smallest.value < |children| && position[smallest.value] < |children[smallest.value]|
    requires smallest.Some? ==> forall j :: 0 <= j < |children| && position[j] < |children[j]| ==>
      !Smaller(children, position, j, smallest.value)
    ensures Pointed(children, position, merged, smallest, n)
  {
    if smallest.Some? {
      var s := smallest.value;
      assert Part(children[s], merged) && AtOrAfter(children[s], position[s], merged, n);
      NoneLeft(children[s], position[s], merged, n);
      SmallestIsNext(children[s], position[s], merged, n);
    }
    if n < |merged| {
      assert InSome(children, merged[n]);
      var i :| 0 <= i < |children| && merged[n] in children[i];
      assert Part(children[i], merged) && AtOrAfter(children[i], position[i], merged, n);
      SmallestIsNext(children[i], position[i], merged, n);
      var s := smallest.value;
      assert !Smaller(children, position, i, s);
      var m := IndexIn(merged, children[s][position[s]]);
    }
  }

  lemma LargestPointed(children: seq<seq<Entry>>, position: seq<nat>, merged: seq<Entry>, n: nat, largest: Option<nat>)
    requires IsMerge(children, merged) && Placed(children, position) && n <= |merged|
    requires AllBefore(children, position, merged, n)
    requires largest.None? ==> forall j :: 0 <= j < |children| ==> position[j] == |children[j]|
    requires largest.Some? ==> largest.value < |children| && position[largest.value] < |children[largest.value]|
    requires largest.Some? ==> forall j :: 0 <= j < |children| && position[j] < |children[j]| ==>
      !Smaller(children, position, largest.value, j)
    ensures Pointed(children, position, merged, largest, if n == 0 then |merged| else n - 1)
  {
    if largest.Some? {
      var l := largest.value;
      assert Part(children[l], merged) && Before(children[l], position[l], merged, n);
      NoneBefore(children[l], position[l] + 1, merged, n);
      LargestIsPrevious(children[l], position[l] + 1, merged, n);
    }
    if n > 0 {
      assert InSome(children, merged[n - 1]);
      var i :| 0 <= i < |children| && merged[n - 1] in children[i];
      assert Part(children[i], merged) && Before(children[i], position[i], merged, n);
      LargestIsPrevious(children[i], Through(children[i], position[i]), merged, n);
      var l := largest.value;
      assert !Smaller(children, position, l, i);
      var m := IndexIn(merged, children[l][position[l]]);
    }
  }

  lemma OthersMove(children: seq<seq<Entry>>, position: seq<nat>, merged: seq<Entry>, n: nat, cur: nat)
    requires IsMerge(children, merged) && Placed(children, position) && n < |merged|
    requires AllAtOrAfter(children, position, merged, n)
    requires cur < |children| && position[cur] < |children[cur]| && children[cur][position[cur]] == merged[n]
    ensures forall i :: 0 <= i < |children| && i != cur ==> AtOrAfter(children[i], position[i], merged, n + 1)
  {
    forall i | 0 <= i < |children| && i != cur
      ensures AtOrAfter(children[i], position[i], merged, n + 1)
    {
      KeyOnlyIn(children, merged, cur, position[cur], i);
      assert AtOrAfter(children[i], position[i], merged, n);
      SplitMoves(children[i], position[i], merged, n);
    }
  }

  lemma OthersMoveBack(children: seq<seq<Entry>>, position: seq<nat>, merged: seq<Entry>, n: nat, cur: nat)
    requires IsMerge(children, merged) && Placed(children, position) && n < |merged|
    requires AllBefore(children, position, merged, n + 1)
    requires cur < |children| && position[cur] < |children[cur]| && children[cur][position[cur]] == merged[n]
    ensures forall i :: 0 <= i < |children| && i != cur ==> Before(children[i], position[i], merged, n)
  {
    forall i | 0 <= i < |children| && i != cur
      ensures Before(children[i], position[i], merged, n)
    {
      KeyOnlyIn(children, merged, cur, position[cur], i);
      assert Before(children[i], position[i], merged, n + 1);
      SplitMovesBack(children[i], Through(children[i], position[i]), merged, n);
    }
  }

  // One child against the union

  /** Where an entry of `es` is in `merged`. */
  lemma IndexIn(merged: seq<Entry>, e: Entry) returns (m: nat)
    requires e in merged
    ensures m < |merged| && merged[m] == e
  {
    m :| m < |merged| && merged[m] == e;
  }

  /** A child's first entry from position `n` on is not before merged[n], and is merged[n] if the child has it. */
  lemma SmallestIsNext(es: seq<Entry>, p: nat, merged: seq<Entry>, n: nat)
    requires Part(es, merged) && Sorted(merged) && p <= |es| && n <= |merged| && SplitAt(es, p, merged, n)
    ensures n < |merged| && merged[n] in es ==> p < |es| && es[p] == merged[n]
    ensures n < |merged| && p < |es| ==> !es[p].key.Less(merged[n].key)
  {
    if p < |es| {
      var m := IndexIn(merged, es[p]);
      assert n <= m && (n == m || merged[n].key.Less(merged[m].key));
    }
    if n < |merged| && merged[n] in es {
      var j := IndexIn(es, merged[n]);
      assert p <= j && (p == j || es[p].key.Less(es[j].key));
    }
  }

  lemma NoneLeft(es: seq<Entry>, p: nat, merged: seq<Entry>, n: nat)
    requires p <= |es| && n <= |merged| && SplitAt(es, p, merged, n) && Part(es, merged)
    ensures p < |es| ==> n < |merged|
  {
    if p < |es| {
      var m := IndexIn(merged, es[p]);
    }
  }

  lemma LargestIsPrevious(es: seq<Entry>, p: nat, merged: seq<Entry>, n: nat)
    requires Part(es, merged) && Sorted(merged) && p <= |es| && n <= |merged| && SplitAt(es, p, merged, n)
    ensures n > 0 && merged[n - 1] in es ==> p > 0 && es[p - 1] == merged[n - 1]
    ensures n > 0 && p > 0 ==> !merged[n - 1].key.Less(es[p - 1].key)
  {
    if p > 0 {
      var m := IndexIn(merged, es[p - 1]);
      assert m < n && (m == n - 1 || merged[m].key.Less(merged[n - 1].key));
    }
    if n > 0 && merged[n - 1] in es {
      var j := IndexIn(es, merged[n - 1]);
      assert j < p && (j == p - 1 || es[j].key.Less(es[p - 1].key));
    }
  }

  lemma NoneBefore(es: seq<Entry>, p: nat, merged: seq<Entry>, n: nat)
    requires p <= |es| && n <= |merged| && SplitAt(es, p, merged, n) && Part(es, merged)
    ensures p > 0 ==> n > 0
  {
    if p > 0 {
      var m := IndexIn(merged, es[p - 1]);
    }
  }

  lemma {:induction false} SeekSplits(es: seq<Entry>, merged: seq<Entry>, target: InternalKey)
    requires Sorted(es) && Sorted(merged)
    ensures SplitAt(es, SeekIndex(es, target), merged, SeekIndex(merged, target))
  {
    var p, n := SeekIndex(es, target), SeekIndex(merged, target);
    forall j, m | 0 <= j < p && n <= m < |merged|
      ensures es[j].key.Less(merged[m].key)
    {
      assert n == m || merged[n].key.Less(merged[m].key);
    }
    forall j, m | p <= j < |es| && 0 <= m < n
      ensures merged[m].key.Less(es[j].key)
    {
      assert p == j || es[p].key.Less(es[j].key);
    }
  }

  lemma {:induction false} SeekIndexAt(merged: seq<Entry>, n: nat)
    requires Sorted(merged) && n < |merged|
    ensures SeekIndex(merged, merged[n].key) == n
  {
  }

  /** The entry at the current position is in no other child. */
  lemma KeyOnlyIn(children: seq<seq<Entry>>, merged: seq<Entry>, cur: nat, p: nat, i: nat)
    requires IsMerge(children, merged) && cur < |children| && i < |children| && i != cur && p < |children[cur]|
    ensures forall j :: 0 <= j < |children[i]| ==> children[i][j].key != children[cur][p].key
    ensures Part(children[i], merged)
  {
    assert NoCommonKey(children[cur], children[i]);
    var e := children[cur][p];
    assert e in children[cur];
    forall j | 0 <= j < |children[i]|
      ensures children[i][j].key != e.key
    {
      assert children[i][j] in children[i];
    }
  }

  /** Seeking to merged[n] in a child without it stops past it. */
  lemma {:induction false} SeekPastSplits(es: seq<Entry>, merged: seq<Entry>, n: nat)
    requires Part(es, merged) && Sorted(merged) && n < |merged|
    requires forall j :: 0 <= j < |es| ==> es[j].key != merged[n].key
    ensures SplitAt(es, SeekIndex(es, merged[n].key), merged, n + 1)
  {
    SeekSplits(es, merged, merged[n].key);
    SeekIndexAt(merged, n);
    SplitMoves(es, SeekIndex(es, merged[n].key), merged, n);
  }

  /** A child without merged[n] is split alike before and after it. */
  lemma SplitMoves(es: seq<Entry>, p: nat, merged: seq<Entry>, n: nat)
    requires Part(es, merged) && Sorted(merged) && p <= |es| && n < |merged| && SplitAt(es, p, merged, n)
    requires forall j :: 0 <= j < |es| ==> es[j].key != merged[n].key
    ensures SplitAt(es, p, merged, n + 1)
  {
    forall j | p <= j < |es|
      ensures merged[n].key.Less(es[j].key)
    {
      assert es[j] in es;
      var m := IndexIn(merged, es[j]);
      assert n <= m && m != n;
    }
  }

  lemma SplitMovesBack(es: seq<Entry>, p: nat, merged: seq<Entry>, n: nat)
    requires Part(es, merged) && Sorted(merged) && p <= |es| && n < |merged| && SplitAt(es, p, merged, n + 1)
    requires forall j :: 0 <= j < |es| ==> es[j].key != merged[n].key
    ensures SplitAt(es, p, merged, n)
  {
    forall j | 0 <= j < p
      ensures es[j].key.Less(merged[n].key)
    {
      assert es[j] in es;
      var m := IndexIn(merged, es[j]);
      assert m < n + 1 && m != n;
    }
  }

  /** The child that holds merged[n] splits before it and after it. */
  lemma StepSplits(es: seq<Entry>, p: nat, merged: seq<Entry>, n: nat)
    requires Sorted(es) && Sorted(merged) && p < |es| && n < |merged| && es[p] == merged[n]
    ensures SplitAt(es, p, merged, n) && SplitAt(es, p + 1, merged, n + 1)
  {
    forall j, m | 0 <= j < p + 1 && n <= m < |merged| && (j < p || n < m)
      ensures es[j].key.Less(merged[m].key)
    {
      assert j == p || es[j].key.Less(es[p].key);
      assert m == n || merged[n].key.Less(merged[m].key);
    }
    forall j, m | p <= j < |es| && 0 <= m < n + 1 && (m < n || p < j)
      ensures merged[m].key.Less(es[j].key)
    {
      assert j == p || es[p].key.Less(es[j].key);
      assert m == n || merged[m].key.Less(merged[n].key);
    }
  }
}
