/** TwoLevelIterator (table/two_level_iterator.cc): a cursor over the blocks that an index lists, one after the other. */
module TwoLevel {
  import opened DbFormat

  /** An index: one key and one handle per block; `read` gives the entries of a block. */
  datatype Index = Index(keys: seq<InternalKey>, handles: seq<nat>, read: nat -> seq<Entry>) {
    predicate Valid() {
      |keys| == |handles|
    }

    function Block(i: nat): seq<Entry>
      requires i < |handles|
    {
      read(handles[i])
    }

    /** The entries of the first `n` blocks. */
    ghost function UpTo(n: nat): seq<Entry>
      requires n <= |handles|
    {
      if n == 0 then [] else UpTo(n - 1) + Block(n - 1)
    }

    ghost function All(): seq<Entry> {
      UpTo(|handles|)
    }

    /** Each key is at or after its own block and before all later ones. */
    ghost predicate Separates()
      requires Valid()
    {
      && (forall i, e :: 0 <= i < |keys| && e in Block(i) ==> !keys[i].Less(e.key))
      && (forall i, j, e :: 0 <= i < j < |keys| && e in Block(j) ==> keys[i].Less(e.key))
    }
  }

  lemma {:induction false} UpToPrefix(x: Index, m: nat, n: nat)
    requires m <= n <= |x.handles|
    ensures x.UpTo(m) <= x.UpTo(n)
  {
    if m < n {
      UpToPrefix(x, m, n - 1);
    }
  }

  /** Where the entries of a block are among all. */
  lemma {:induction false} InBlock(x: Index, i: nat, p: nat)
    requires i < |x.handles| && p < |x.Block(i)|
    ensures |x.UpTo(i)| + p < |x.All()| && x.All()[|x.UpTo(i)| + p] == x.Block(i)[p]
  {
    UpToPrefix(x, i + 1, |x.handles|);
    assert x.UpTo(i + 1)[|x.UpTo(i)| + p] == x.Block(i)[p];
  }

  /** Position of the first key of the index at or after `target`; the number of keys when there is none. */
  function SeekKey(keys: seq<InternalKey>, target: InternalKey): (i: nat)
    ensures i <= |keys|
    ensures forall j :: 0 <= j < i ==> keys[j].Less(target)
    ensures i < |keys| ==> !keys[i].Less(target)
  {
    if keys == [] || !keys[0].Less(target) then 0 else 1 + SeekKey(keys[1..], target)
  }

  lemma {:induction false} SeekIndexIs(es: seq<Entry>, target: InternalKey, n: nat)
    requires n <= |es|
    requires forall j :: 0 <= j < n ==> es[j].key.Less(target)
    requires n < |es| ==> !es[n].key.Less(target)
    ensures SeekIndex(es, target) == n
  {
    if n > 0 {
      SeekIndexIs(es[1..], target, n - 1);
    }
  }

  lemma {:induction false} AllBefore(x: Index, target: InternalKey, n: nat)
    requires x.Valid() && n <= |x.handles| && x.Separates()
    requires forall j :: 0 <= j < n ==> x.keys[j].Less(target)
    ensures forall k :: 0 <= k < |x.UpTo(n)| ==> x.UpTo(n)[k].key.Less(target)
  {
    if n > 0 {
      AllBefore(x, target, n - 1);
      forall e | e in x.Block(n - 1)
        ensures e.key.Less(target)
      {
        assert !x.keys[n - 1].Less(e.key) && x.keys[n - 1].Less(target);
      }
    }
  }

  /** Seeking in the index and then in the block it names finds the place among all entries. */
  lemma {:induction false} SeekInBlock(x: Index, target: InternalKey, i: nat)
    requires x.Valid() && x.Separates() && i == SeekKey(x.keys, target)
    ensures i == |x.keys| ==> SeekIndex(x.All(), target) == |x.All()|
    ensures i < |x.keys| ==> SeekIndex(x.All(), target) == |x.UpTo(i)| + SeekIndex(x.Block(i), target)
  {
    AllBefore(x, target, i);
    if i == |x.keys| {
      SeekIndexIs(x.All(), target, |x.All()|);
    } else {
      var p := SeekIndex(x.Block(i), target);
      UpToPrefix(x, i + 1, |x.handles|);
      var n := |x.UpTo(i)| + p;
      forall j | 0 <= j < n
        ensures x.All()[j].key.Less(target)
      {
        if j < |x.UpTo(i)| {
          assert x.All()[j] == x.UpTo(i + 1)[j] == x.UpTo(i)[j];
        } else {
          InBlock(x, i, j - |x.UpTo(i)|);
        }
      }
      if n < |x.All()| {
        NotBefore(x, target, i, n);
      }
      SeekIndexIs(x.All(), target, n);
    }
  }

  lemma {:induction false} NotBefore(x: Index, target: InternalKey, i: nat, n: nat)
    requires x.Valid() && x.Separates() && i == SeekKey(x.keys, target) && i < |x.keys|
    requires n == |x.UpTo(i)| + SeekIndex(x.Block(i), target) && n < |x.All()|
    ensures !x.All()[n].key.Less(target)
  {
    var p := SeekIndex(x.Block(i), target);
    if p < |x.Block(i)| {
      InBlock(x, i, p);
    } else {
      var j, q := BlockOf(x, n, |x.handles|);
      LaterBlock(x, i, j, q, n);
      InBlock(x, j, q);
      var e := x.Block(j)[q];
      assert e in x.Block(j) && x.keys[i].Less(e.key);
    }
  }

  lemma {:induction false} LaterBlock(x: Index, i: nat, j: nat, q: nat, n: nat)
    requires i < |x.handles| && j < |x.handles| && q < |x.Block(j)|
    requires n == |x.UpTo(i)| + |x.Block(i)| == |x.UpTo(j)| + q
    ensures i < j
  {
    if j <= i { UpToPrefix(x, j + 1, i + 1); }
  }

  /** The number of entries up to and including the block the index is at. */
  ghost function Through(x: Index, i: nat): nat
    requires i <= |x.handles|
  {
    if i < |x.handles| then |x.UpTo(i)| + |x.Block(i)| else |x.All()|
  }

  /** Which block the n-th of all entries is in. */
  lemma {:induction false} BlockOf(x: Index, n: nat, m: nat) returns (j: nat, q: nat)
    requires m <= |x.handles| && n < |x.UpTo(m)|
    ensures j < m && q < |x.Block(j)| && n == |x.UpTo(j)| + q
  {
    if n >= |x.UpTo(m - 1)| {
      j, q := m - 1, n - |x.UpTo(m - 1)|;
    } else {
      j, q := BlockOf(x, n, m - 1);
    }
  }

  class TwoLevelIterator {
    const index: Index
    var indexPos: nat       // the index iterator; |handles| when it is not valid
    var hasData: bool
    var handle: nat         // of the block below
    var block: seq<Entry>   // what the data iterator runs over
    var dataPos: nat        // |block| when it is not valid
    ghost var at: nat       // the position among all entries; their number when not valid

    constructor (index: Index)
      requires index.Valid()
      ensures Consistent() && !Valid() && this.index == index
    {
      this.index := index;
      indexPos, hasData, handle, block, dataPos := |index.handles|, false, 0, [], 0;
      at := |index.All()|;
    }

    predicate Valid()
      reads this
    {
      hasData && dataPos < |block|
    }

    ghost predicate Placed()
      reads this
    {
      && index.Valid() && indexPos <= |index.handles|
      && (hasData ==> block == index.read(handle) && dataPos <= |block|)
      && (hasData && indexPos < |index.handles| ==> block == index.Block(indexPos))
    }

    ghost predicate Consistent()
      reads this
    {
      && Placed()
      && (if Valid() then indexPos < |index.handles| && at == |index.UpTo(indexPos)| + dataPos else at == |index.All()|)
    }

    function Current(): Entry
      requires Consistent() && Valid()
      reads this
      ensures at < |index.All()| && Current() == index.All()[at]
    {
      InBlock(index, indexPos, dataPos);
      block[dataPos]
    }

    method InitDataBlock()
      requires index.Valid() && indexPos <= |index.handles| && (hasData ==> block == index.read(handle) && dataPos <= |block|)
      modifies this
      ensures Placed() && indexPos == old(indexPos) && hasData == (indexPos < |index.handles|)
    {
      if indexPos == |index.handles| {
        hasData := false;
      } else if hasData && index.handles[indexPos] == handle {
        // the data iterator is already over this block
      } else {
        handle := index.handles[indexPos];
        block, dataPos, hasData := index.read(handle), |index.read(handle)|, true;
      }
    }

    /** SkipEmptyDataBlocksForward, where the entry looked for is the `t`-th of all. */
    method SkipEmptyDataBlocksForward(ghost t: nat)
      requires Placed()
      requires Valid() ==> indexPos < |index.handles| && t == |index.UpTo(indexPos)| + dataPos
      requires !Valid() ==> t == Through(index, indexPos)
      modifies this
      ensures Consistent() && at == t
    {
      while !Valid()
        invariant Placed()
        invariant Valid() ==> indexPos < |index.handles| && t == |index.UpTo(indexPos)| + dataPos
        invariant !Valid() ==> t == Through(index, indexPos)
        decreases |index.handles| - indexPos, if Valid() then 0 else 1
      {
        if indexPos == |index.handles| {
          hasData := false;
          at := t;
          return;
        }
        indexPos := indexPos + 1;
        assert t == |index.UpTo(indexPos)|;
        InitDataBlock();
        if hasData {
          dataPos := 0;
        }
      }
      at := t;
    }

    /** SkipEmptyDataBlocksBackward, where the entry looked for is the `t`-th of all; -1 for none. */
    method SkipEmptyDataBlocksBackward(ghost t: int)
      requires Placed()
      requires Valid() ==> indexPos < |index.handles| && t == |index.UpTo(indexPos)| + dataPos
      requires !Valid() ==> t == (if indexPos < |index.handles| then |index.UpTo(indexPos)| else 0) - 1
      modifies this
      ensures Consistent() && at == (if t < 0 then |index.All()| else t) && (Valid() <==> t >= 0)
    {
      while !Valid()
        invariant Placed()
        invariant Valid() ==> indexPos < |index.handles| && t == |index.UpTo(indexPos)| + dataPos
        invariant !Valid() ==> t == (if indexPos < |index.handles| then |index.UpTo(indexPos)| else 0) - 1
        decreases if indexPos < |index.handles| then indexPos + 1 else 0, if Valid() then 0 else 1
      {
        if indexPos == |index.handles| {
          hasData := false;
          at := |index.All()|;
          return;
        }
        indexPos := if indexPos == 0 then |index.handles| else indexPos - 1;
        InitDataBlock();
        if hasData {
          dataPos := if |block| == 0 then 0 else |block| - 1;
        }
      }
      at := t;
    }

    method Seek(target: InternalKey)
      requires Consistent() && index.Separates()
      modifies this
      ensures Consistent() && at == SeekIndex(index.All(), target) && (Valid() <==> at < |index.All()|)
    {
      indexPos := SeekKey(index.keys, target);
      SeekInBlock(index, target, indexPos);
      InitDataBlock();
      if hasData {
        dataPos := SeekIndex(block, target);
      }
      SkipEmptyDataBlocksForward(SeekIndex(index.All(), target));
      if Valid() { InBlock(index, indexPos, dataPos); }
    }

    method SeekToFirst()
      requires Consistent()
      modifies this
      ensures Consistent() && at == 0 && (Valid() <==> at < |index.All()|)
    {
      indexPos := 0;
      InitDataBlock();
      if hasData {
        dataPos := 0;
      }
      SkipEmptyDataBlocksForward(0);
      if Valid() { InBlock(index, indexPos, dataPos); }
    }

    method SeekToLast()
      requires Consistent()
      modifies this
      ensures Consistent() && (Valid() <==> index.All() != []) && at == (if index.All() == [] then 0 else |index.All()| - 1)
    {
      indexPos := if |index.handles| == 0 then 0 else |index.handles| - 1;
      InitDataBlock();
      if hasData {
        dataPos := if |block| == 0 then 0 else |block| - 1;
      }
      SkipEmptyDataBlocksBackward(|index.All()| - 1);
    }

    method Next()
      requires Consistent() && Valid()
      modifies this
      ensures Consistent() && at == old(at) + 1 && (Valid() <==> at < |index.All()|)
    {
      ghost var t := at + 1;
      dataPos := dataPos + 1;
      SkipEmptyDataBlocksForward(t);
      if Valid() { InBlock(index, indexPos, dataPos); }
    }

    method Prev()
      requires Consistent() && Valid()
      modifies this
      ensures Consistent() && at == (if old(at) == 0 then |index.All()| else old(at) - 1) && (Valid() <==> old(at) > 0)
    {
      ghost var t := at - 1;
      dataPos := if dataPos == 0 then |block| else dataPos - 1;
      SkipEmptyDataBlocksBackward(t);
    }
  }
}
