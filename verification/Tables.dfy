/**
 * Tables (table/table_builder.cc, table/table.cc, table/filter_block.cc): whatever entries a table is built
 * from, reading the one block that the index names finds the entry a lookup is for, though index keys are
 * shortened and a filter may say that the block need not be read.
 */
module Tables {
  import opened DbFormat
  import opened Checksums
  import opened Bloom
  import Order = KeyOrder

  type Text = Order.Text
  type TableKey = Order.Key
  datatype Item = Item(key: TableKey, value: seq<Byte>)

  /** A data block in the file. */
  datatype DataBlock = DataBlock(offset: nat, items: seq<Item>)

  // Filters, one for the keys of all blocks that start within the same 2 KB

  const FILTER_BASE: nat := 2048

  class FilterBlockBuilder {
    const policy: BloomFilterPolicy
    var keys: seq<Text>
    var filters: seq<Option<Filter>>  // None for a filter of no keys
    ghost var added: set<(nat, Text)>  // every key added, with the filter it belongs to

    constructor (policy: BloomFilterPolicy)
      requires 1 <= policy.k <= 30
      ensures Valid() && filters == [] && this.policy == policy
    {
      this.policy, keys, filters, added := policy, [], [], {};
    }

    ghost predicate Valid()
      reads this
    {
      1 <= policy.k <= 30 && forall a :: a in added ==> HoldsOrWaits(policy, filters, keys, a)
    }

    method GenerateFilter()
      requires Valid()
      modifies this
      ensures Valid() && |filters| == |old(filters)| + 1 && added == old(added) && keys == []
    {
      var f: Option<Filter> := None;
      if keys != [] {
        var made := policy.CreateFilter(keys);
        f := Some(made);
      }
      forall a | a in added
        ensures HoldsOrWaits(policy, filters + [f], [], a)
      {
        assert HoldsOrWaits(policy, filters, keys, a);
      }
      filters := filters + [f];
      keys := [];
    }

    method StartBlock(blockOffset: nat)
      requires Valid() && blockOffset / FILTER_BASE >= |filters|
      modifies this
      ensures Valid() && |filters| == blockOffset / FILTER_BASE && added == old(added)
    {
      var filterIndex := blockOffset / FILTER_BASE;
      while filterIndex > |filters|
        invariant Valid() && |filters| <= filterIndex && added == old(added)
        decreases filterIndex - |filters|
      {
        GenerateFilter();
      }
    }

    method AddKey(key: Text)
      requires Valid()
      modifies this
      ensures Valid() && filters == old(filters) && added == old(added) + {(|filters|, key)}
    {
      forall a | a in added
        ensures HoldsOrWaits(policy, filters, keys + [key], a)
      {
        assert HoldsOrWaits(policy, filters, keys, a);
      }
      keys := keys + [key];
      added := added + {(|filters|, key)};
    }

    method Finish() returns (result: seq<Option<Filter>>)
      requires Valid()
      modifies this
      ensures forall a :: a in old(added) ==> a.0 < |result| && FilterHolds(policy, result[a.0], a.1)
    {
      if keys != [] {
        GenerateFilter();
      }
      forall a | a in added
        ensures a.0 < |filters| && FilterHolds(policy, filters[a.0], a.1)
      {
        assert HoldsOrWaits(policy, filters, keys, a);
      }
      return filters;
    }
  }

  /** The key's filter holds it, or the key waits for its filter to be made. */
  ghost predicate HoldsOrWaits(policy: BloomFilterPolicy, filters: seq<Option<Filter>>, keys: seq<Text>, a: (nat, Text)) {
    (a.0 < |filters| && FilterHolds(policy, filters[a.0], a.1)) || (a.0 == |filters| && a.1 in keys)
  }

  ghost predicate FilterHolds(policy: BloomFilterPolicy, f: Option<Filter>, key: Text) {
    f.Some? && f.value.k == policy.k && |f.value.bits| > 0 && AllSet(f.value.bits, policy.hash(key), policy.k)
  }

  /** Only what the key's probes find lets it pass, or a filter of a later format. */
  ghost predicate Passes(policy: BloomFilterPolicy, f: Filter, key: Text) {
    |f.bits| > 0 && (f.k > 30 || AllSet(f.bits, policy.hash(key), f.k))
  }

  /** FilterBlockReader::KeyMayMatch; past the last filter the answer is yes. */
  method KeyMayMatch(policy: BloomFilterPolicy, filters: seq<Option<Filter>>, blockOffset: nat, key: Text) returns (may: bool)
    requires 1 <= policy.k <= 30
    ensures blockOffset / FILTER_BASE < |filters| && FilterHolds(policy, filters[blockOffset / FILTER_BASE], key) ==> may
    ensures blockOffset / FILTER_BASE < |filters| && filters[blockOffset / FILTER_BASE].None? ==> !may
    ensures blockOffset / FILTER_BASE < |filters| && filters[blockOffset / FILTER_BASE].Some? && may ==>
      Passes(policy, filters[blockOffset / FILTER_BASE].value, key)
    ensures blockOffset / FILTER_BASE >= |filters| ==> may
  {
    var index := blockOffset / FILTER_BASE;
    if index >= |filters| {
      return true;
    }
    if filters[index].None? {
      return false;
    }
    may := policy.KeyMayMatch(key, filters[index].value);
  }

  // Finished tables

  /** A table: data blocks, one index key for each, and the filters if there are any. */
  datatype Table = Table(blocks: seq<DataBlock>, index: seq<TableKey>, filters: Option<seq<Option<Filter>>>)

  ghost predicate SortedItems(items: seq<Item>) {
    forall i, j {:trigger items[i].key.Before(items[j].key)} :: 0 <= i < j < |items| ==> items[i].key.Before(items[j].key)
  }

  ghost predicate AllBefore(a: seq<Item>, b: seq<Item>) {
    forall e, x {:trigger e.key.Before(x.key)} :: e in a && x in b ==> e.key.Before(x.key)
  }

  /** The index key of block `i`: at or past its last key, before the next block in the way of a short separator. */
  ghost predicate IndexOk(blocks: seq<DataBlock>, index: seq<TableKey>, i: nat) {
    && i < |index| && i < |blocks| && blocks[i].items != []
    && Order.Separates(LastKey(blocks[i].items), index[i])
    && (i + 1 < |blocks| && blocks[i + 1].items != [] ==>
          Order.SeparatesFrom(index[i], LastKey(blocks[i].items), blocks[i + 1].items[0].key))
  }

  function LastKey(items: seq<Item>): TableKey
    requires items != []
  {
    items[|items| - 1].key
  }

  /** The last key of the last block. */
  function EndKey(blocks: seq<DataBlock>): TableKey {
    if blocks != [] && blocks[|blocks| - 1].items != [] then LastKey(blocks[|blocks| - 1].items) else Order.Key([], 0)
  }

  ghost predicate BlockOk(blocks: seq<DataBlock>, i: nat) {
    && i < |blocks| && blocks[i].items != [] && SortedItems(blocks[i].items)
    && forall j {:trigger AllBefore(blocks[i].items, blocks[j].items)} :: i < j < |blocks| ==>
         AllBefore(blocks[i].items, blocks[j].items)
  }

  ghost predicate FilterOk(policy: BloomFilterPolicy, filters: seq<Option<Filter>>, b: DataBlock) {
    forall e :: e in b.items ==>
      b.offset / FILTER_BASE < |filters| && FilterHolds(policy, filters[b.offset / FILTER_BASE], e.key.user)
  }

  ghost predicate TableOk(t: Table, policy: BloomFilterPolicy) {
    && |t.index| == |t.blocks|
    && (forall i {:trigger BlockOk(t.blocks, i)} :: 0 <= i < |t.blocks| ==> BlockOk(t.blocks, i))
    && (forall i {:trigger IndexOk(t.blocks, t.index, i)} :: 0 <= i < |t.blocks| ==> IndexOk(t.blocks, t.index, i))
    && (t.filters.Some? ==> forall b :: b in t.blocks ==> FilterOk(policy, t.filters.value, b))
  }

  ghost predicate Has(t: Table, e: Item) {
    exists b :: b in t.blocks && e in b.items
  }

  /** `e` is the first item at or after `k`. */
  ghost predicate IsFirstFrom(t: Table, k: TableKey, e: Item) {
    Has(t, e) && !e.key.Before(k) && forall x :: Has(t, x) && !x.key.Before(k) ==> x == e || e.key.Before(x.key)
  }

  // The builder

  class TableBuilder {
    const blockSize: nat
    const estimate: seq<Item> -> nat  // CurrentSizeEstimate of a block
    const stored: seq<Item> -> nat    // the bytes of a block in the file, with its trailer
    const policy: BloomFilterPolicy
    const filter: FilterBlockBuilder?
    var offset: nat
    var blocks: seq<DataBlock>
    var index: seq<TableKey>
    var dataBlock: seq<Item>
    var lastKey: TableKey
    var numEntries: nat
    var pendingIndexEntry: bool
    var closed: bool
    ghost var items: seq<Item>  // all that were added

    constructor (blockSize: nat, estimate: seq<Item> -> nat, stored: seq<Item> -> nat, policy: BloomFilterPolicy, filtered: bool)
      requires 1 <= policy.k <= 30
      ensures Valid() && !closed && items == [] && this.policy == policy
      ensures filter != null ==> fresh(filter)
    {
      this.blockSize, this.estimate, this.stored, this.policy := blockSize, estimate, stored, policy;
      offset, blocks, index, dataBlock, numEntries, pendingIndexEntry, closed, items := 0, [], [], [], 0, false, false, [];
      lastKey := Order.Key([], 0);
      var f: FilterBlockBuilder? := null;
      if filtered {
        f := new FilterBlockBuilder(policy);
        f.StartBlock(0);
      }
      filter := f;
    }

    ghost predicate Valid()
      reads this, filter
    {
      && Built(blocks, index, dataBlock, pendingIndexEntry)
      && AllUpTo(items, lastKey) && (items != [] <==> numEntries > 0)
      && AreItems(items, blocks, dataBlock)
      && (pendingIndexEntry ==> lastKey == EndKey(blocks))
      && (!pendingIndexEntry && blocks != [] ==> dataBlock != [])
      && (dataBlock != [] ==> lastKey == LastKey(dataBlock))
      && (filter != null ==> FilterReady(blocks, offset, dataBlock))
    }

    /** The filters hold the keys of the written blocks and of the open one. */
    ghost predicate FilterReady(blocks: seq<DataBlock>, offset: nat, dataBlock: seq<Item>)
      requires filter != null
      reads this, filter
    {
      && filter.Valid() && filter.policy == policy && |filter.filters| == offset / FILTER_BASE
      && Filtered(filter.added, blocks, DataBlock(offset, dataBlock))
    }

    method Add(key: TableKey, value: seq<Byte>)
      requires Valid() && !closed && (items != [] ==> lastKey.Before(key))
      modifies this, filter
      ensures Valid() && !closed && items == old(items) + [Item(key, value)] && lastKey == key
    {
      AddToBlock(Item(key, value));
      if estimate(dataBlock) >= blockSize {
        Flush();
      }
    }

    /** Add up to the check whether the block is full. */
    method AddToBlock(item: Item)
      requires Valid() && !closed && (items != [] ==> lastKey.Before(item.key))
      modifies this, filter
      ensures Valid() && !closed && items == old(items) + [item] && lastKey == item.key
    {
      UpToIsBefore(items, lastKey, item.key);
      IndexPending(item);
      AddToFilter(item);
      ItemsMore(items, blocks, dataBlock, item);
      lastKey := item.key;
      numEntries := numEntries + 1;
      dataBlock := dataBlock + [item];
      items := items + [item];
    }

    /** The item's user key goes to the filter of the open block. */
    method AddToFilter(item: Item)
      requires filter != null ==> FilterReady(blocks, offset, dataBlock)
      modifies filter
      ensures filter != null ==> FilterReady(blocks, offset, dataBlock + [item])
    {
      if filter != null {
        FilteredMore(filter.added, blocks, offset, dataBlock, item, |filter.filters|);
        filter.AddKey(item.key.user);
      }
    }

    /** The index entry of the block before, now that the next key is known. */
    method IndexPending(item: Item)
      requires Built(blocks, index, dataBlock, pendingIndexEntry) && AreItems(items, blocks, dataBlock)
      requires (pendingIndexEntry ==> lastKey == EndKey(blocks)) && (!pendingIndexEntry && blocks != [] ==> dataBlock != [])
      requires (items != [] ==> lastKey.Before(item.key)) && forall e :: e in items ==> e.key.Before(item.key)
      modifies this`index, this`pendingIndexEntry
      ensures !pendingIndexEntry && Built(blocks, index, dataBlock + [item], false)
    {
      if pendingIndexEntry {
        assert BlockOk(blocks, |blocks| - 1);
        SomeItem(blocks, items);
        var separator := Order.ShortestSeparator(lastKey, item.key);
        PendingOut(blocks, index, separator, item);
        index := index + [separator];
        pendingIndexEntry := false;
      } else {
        OneMore(blocks, index, dataBlock, item);
      }
    }

    method Flush()
      requires Valid() && !closed
      modifies this, filter
      ensures Valid() && !closed && items == old(items) && lastKey == old(lastKey)
      ensures dataBlock == [] && (pendingIndexEntry <==> blocks != [])
    {
      if dataBlock == [] {
        return;
      }
      var block := DataBlock(offset, dataBlock);
      Flushed(blocks, index, block);
      blocks := blocks + [block];
      offset := offset + stored(dataBlock);
      dataBlock := [];
      pendingIndexEntry := true;
      if filter != null {
        filter.StartBlock(offset);
      }
    }

    /** Finish: the table as it is in the file. */
    method Finish() returns (t: Table)
      requires Valid() && !closed
      modifies this, filter
      ensures TableOk(t, policy) && forall e :: Has(t, e) <==> e in old(items)
    {
      Flush();
      closed := true;
      var filters: Option<seq<Option<Filter>>> := None;
      ghost var added := {};
      if filter != null {
        added := filter.added;
        var fs := filter.Finish();
        filters := Some(fs);
      }
      if pendingIndexEntry {
        var successor := Order.ShortSuccessor(lastKey);
        LastOut(blocks, index, successor);
        index := index + [successor];
        pendingIndexEntry := false;
      }
      t := Table(blocks, index, filters);
      if filters.Some? {
        forall b | b in blocks ensures FilterOk(policy, filters.value, b) { assert InFilter(added, b); }
      }
    }
  }

  lemma SomeItem(blocks: seq<DataBlock>, items: seq<Item>)
    requires blocks != [] && BlockOk(blocks, |blocks| - 1)
    requires forall b, e :: b in blocks && e in b.items ==> e in items
    ensures items != []
  {
    var b := blocks[|blocks| - 1];
    var e := b.items[0];
    assert b in blocks && e in b.items && e in items;
  }

  lemma FilteredMore(added: set<(nat, Text)>, blocks: seq<DataBlock>, offset: nat, dataBlock: seq<Item>, item: Item, n: nat)
    requires Filtered(added, blocks, DataBlock(offset, dataBlock)) && n == offset / FILTER_BASE
    ensures Filtered(added + {(n, item.key.user)}, blocks, DataBlock(offset, dataBlock + [item]))
  {
    forall b | b in blocks ensures InFilter(added + {(n, item.key.user)}, b) { assert InFilter(added, b); }
  }

  lemma ItemsMore(items: seq<Item>, blocks: seq<DataBlock>, dataBlock: seq<Item>, item: Item)
    requires AreItems(items, blocks, dataBlock) && forall e :: e in items ==> e.key.Before(item.key)
    ensures AreItems(items + [item], blocks, dataBlock + [item]) && AllUpTo(items + [item], item.key)
  {
  }

  lemma UpToIsBefore(items: seq<Item>, last: TableKey, key: TableKey)
    requires AllUpTo(items, last) && (items != [] ==> last.Before(key))
    ensures forall e :: e in items ==> e.key.Before(key)
  {
    forall e | e in items
      ensures e.key.Before(key)
    {
      if e.key != last { Order.BeforeTransitive(e.key, last, key); }
    }
  }

  /** The pending index entry is made when the first key of the next block is known. */
  lemma PendingOut(blocks: seq<DataBlock>, index: seq<TableKey>, separator: TableKey, item: Item)
    requires Built(blocks, index, [], true)
    requires Order.Separates(EndKey(blocks), separator) && Order.SeparatesFrom(separator, EndKey(blocks), item.key)
    requires forall b, e :: b in blocks && e in b.items ==> e.key.Before(item.key)
    ensures Built(blocks, index + [separator], [item], false)
  {
    forall i | 0 <= i < |blocks|
      ensures IndexOk(blocks, index + [separator], i)
    {
      assert BlockOk(blocks, i);
      if i < |index| { assert IndexOk(blocks, index, i); }
    }
    forall b | b in blocks ensures AllBefore(b.items, [item]) {}
  }

  lemma OneMore(blocks: seq<DataBlock>, index: seq<TableKey>, dataBlock: seq<Item>, item: Item)
    requires Built(blocks, index, dataBlock, false) && (blocks != [] ==> dataBlock != [])
    requires forall e :: e in dataBlock ==> e.key.Before(item.key)
    requires forall b, e :: b in blocks && e in b.items ==> e.key.Before(item.key)
    ensures Built(blocks, index, dataBlock + [item], false)
  {
    var more := dataBlock + [item];
    forall i, j | 0 <= i < j < |more|
      ensures more[i].key.Before(more[j].key)
    {
      assert j < |dataBlock| ==> dataBlock[i].key.Before(dataBlock[j].key);
      assert dataBlock[i] in dataBlock;
    }
    forall b | b in blocks
      ensures AllBefore(b.items, more)
    {
      assert AllBefore(b.items, dataBlock);
    }
  }

  /** The open block is written; its index entry is pending. */
  lemma Flushed(blocks: seq<DataBlock>, index: seq<TableKey>, block: DataBlock)
    requires Built(blocks, index, block.items, false) && block.items != []
    ensures Built(blocks + [block], index, [], true)
  {
    var more := blocks + [block];
    forall i | 0 <= i < |more|
      ensures BlockOk(more, i)
    {
      if i < |blocks| {
        assert BlockOk(blocks, i) && blocks[i] in blocks;
        forall j | i < j < |more|
          ensures AllBefore(more[i].items, more[j].items)
        {
          assert j < |blocks| ==> AllBefore(blocks[i].items, blocks[j].items);
        }
      }
    }
    forall i | 0 <= i < |index|
      ensures IndexOk(more, index, i)
    {
      assert IndexOk(blocks, index, i) && BlockOk(blocks, i);
    }
  }

  lemma LastOut(blocks: seq<DataBlock>, index: seq<TableKey>, successor: TableKey)
    requires Built(blocks, index, [], true) && Order.Separates(EndKey(blocks), successor)
    ensures forall i :: 0 <= i < |blocks| ==> IndexOk(blocks, index + [successor], i)
  {
    forall i | 0 <= i < |blocks|
      ensures IndexOk(blocks, index + [successor], i)
    {
      assert BlockOk(blocks, i);
      if i < |index| { assert IndexOk(blocks, index, i); }
    }
  }

  /** The items added are those of the blocks and of the open block. */
  ghost predicate AreItems(items: seq<Item>, blocks: seq<DataBlock>, dataBlock: seq<Item>) {
    forall e :: e in items <==> e in dataBlock || exists b :: b in blocks && e in b.items
  }

  ghost predicate AllUpTo(items: seq<Item>, last: TableKey) {
    forall e :: e in items ==> e.key == last || e.key.Before(last)
  }

  /** Every key of every block went to the filter of its block's offset. */
  ghost predicate Filtered(added: set<(nat, Text)>, blocks: seq<DataBlock>, current: DataBlock) {
    (forall b :: b in blocks ==> InFilter(added, b)) && InFilter(added, current)
  }

  ghost predicate InFilter(added: set<(nat, Text)>, b: DataBlock) {
    forall e :: e in b.items ==> (b.offset / FILTER_BASE, e.key.user) in added
  }

  /** The blocks so far are in order, with the index keys of all but a pending one; then come the items of the open block. */
  ghost predicate Built(blocks: seq<DataBlock>, index: seq<TableKey>, dataBlock: seq<Item>, pending: bool) {
    && (pending ==> blocks != [] && dataBlock == [])
    && |index| == (if pending then |blocks| - 1 else |blocks|)
    && SortedItems(dataBlock)
    && (forall i {:trigger BlockOk(blocks, i)} :: 0 <= i < |blocks| ==> BlockOk(blocks, i))
    && (forall i {:trigger IndexOk(blocks, index, i)} :: 0 <= i < |index| ==> IndexOk(blocks, index, i))
    && (forall b :: b in blocks ==> AllBefore(b.items, dataBlock))
    && (!pending && blocks != [] && dataBlock != [] ==>
          Order.SeparatesFrom(index[|blocks| - 1], EndKey(blocks), dataBlock[0].key))
  }

  // Lookup

  /** Seek in the index block. */
  function SeekIndexKey(index: seq<TableKey>, k: TableKey): (i: nat)
    ensures i <= |index| && (forall j :: 0 <= j < i ==> index[j].Before(k)) && (i < |index| ==> !index[i].Before(k))
  {
    if index == [] || !index[0].Before(k) then 0 else 1 + SeekIndexKey(index[1..], k)
  }

  /** Seek in a data block. */
  function SeekItem(items: seq<Item>, k: TableKey): (p: nat)
    ensures p <= |items| && (forall j :: 0 <= j < p ==> items[j].key.Before(k)) && (p < |items| ==> !items[p].key.Before(k))
  {
    if items == [] || !items[0].key.Before(k) then 0 else 1 + SeekItem(items[1..], k)
  }

  /** Table::InternalGet: what is handed to the callback, if anything. */
  method InternalGet(t: Table, policy: BloomFilterPolicy, k: TableKey) returns (r: Option<Item>)
    requires 1 <= policy.k <= 30 && TableOk(t, policy)
    ensures r.Some? ==> IsFirstFrom(t, k, r.value)
    ensures r.None? ==> forall e :: IsFirstFrom(t, k, e) ==> e.key.user != k.user
  {
    var i := SeekIndexKey(t.index, k);
    forall e | Has(t, e) && !e.key.Before(k)
      ensures i < |t.blocks| && (e in t.blocks[i].items || (exists j :: i < j < |t.blocks| && e in t.blocks[j].items))
    {
      NotInEarlierBlock(t, policy, k, i, e);
    }
    if i == |t.index| {
      return None;
    }
    var b := t.blocks[i];
    assert b in t.blocks;
    if t.filters.Some? {
      var may := KeyMayMatch(policy, t.filters.value, b.offset, k.user);
      if !may {
        assert FilterOk(policy, t.filters.value, b);
        forall e | IsFirstFrom(t, k, e)
          ensures e.key.user != k.user
        {
          if e !in b.items { NextBlockDiffers(t, policy, k, i, e); }
        }
        return None;
      }
    }
    var p := SeekItem(b.items, k);
    if p < |b.items| {
      FirstInBlock(t, policy, k, i, p);
      return Some(b.items[p]);
    }
    forall e | IsFirstFrom(t, k, e)
      ensures e.key.user != k.user
    {
      NextBlockDiffers(t, policy, k, i, e);
    }
    return None;
  }

  /** A key that is not at or after `k` in the index has no item at or after `k` in its block. */
  lemma NotInEarlierBlock(t: Table, policy: BloomFilterPolicy, k: TableKey, i: nat, e: Item)
    requires TableOk(t, policy) && i <= |t.index| && (forall j :: 0 <= j < i ==> t.index[j].Before(k))
    requires Has(t, e) && !e.key.Before(k)
    ensures i < |t.blocks| && (e in t.blocks[i].items || (exists j :: i < j < |t.blocks| && e in t.blocks[j].items))
  {
    var b :| b in t.blocks && e in b.items;
    var j :| 0 <= j < |t.blocks| && t.blocks[j] == b;
    if j < i {
      assert BlockOk(t.blocks, j) && IndexOk(t.blocks, t.index, j);
      var last := LastKey(b.items);
      UpToLast(b.items, e);
      UpToSeparator(last, t.index[j], k);
      assert last.Before(k);
      if e.key != last { Order.BeforeTransitive(e.key, last, k); }
    }
  }

  lemma UpToLast(items: seq<Item>, e: Item)
    requires SortedItems(items) && e in items
    ensures e.key == LastKey(items) || e.key.Before(LastKey(items))
  {
    var p :| 0 <= p < |items| && items[p] == e;
    assert p < |items| - 1 ==> items[p].key.Before(items[|items| - 1].key);
  }

  lemma UpToSeparator(last: TableKey, sep: TableKey, k: TableKey)
    requires Order.Separates(last, sep) && sep.Before(k)
    ensures last.Before(k)
  {
    if sep != last { Order.BeforeTransitive(last, sep, k); }
  }

  /** When the first item from `k` on is not in the block that the index names, it has another user key. */
  lemma NextBlockDiffers(t: Table, policy: BloomFilterPolicy, k: TableKey, i: nat, e: Item)
    requires TableOk(t, policy) && IsFirstFrom(t, k, e)
    requires i < |t.index| && !t.index[i].Before(k) && (forall j :: 0 <= j < i ==> t.index[j].Before(k))
    requires e !in t.blocks[i].items
    ensures e.key.user != k.user
  {
    NotInEarlierBlock(t, policy, k, i, e);
    var j :| i < j < |t.blocks| && e in t.blocks[j].items;
    assert BlockOk(t.blocks, i) && IndexOk(t.blocks, t.index, i) && BlockOk(t.blocks, i + 1);
    var last, sep, first := LastKey(t.blocks[i].items), t.index[i], t.blocks[i + 1].items[0];
    LastIsBefore(t, k, i, j, e);
    assert sep != last;
    FirstUpTo(t, i, j, e);
    BeyondSeparator(k, sep, first.key, e.key);
  }

  lemma LastIsBefore(t: Table, k: TableKey, i: nat, j: nat, e: Item)
    requires i < j < |t.blocks| && BlockOk(t.blocks, i) && e in t.blocks[j].items && IsFirstFrom(t, k, e)
    ensures LastKey(t.blocks[i].items).Before(k)
  {
    var x := t.blocks[i].items[|t.blocks[i].items| - 1];
    assert x in t.blocks[i].items && t.blocks[i] in t.blocks;
    assert AllBefore(t.blocks[i].items, t.blocks[j].items) && x.key.Before(e.key);
    if !x.key.Before(k) {
      assert Has(t, x);
      Order.BeforeAsymmetric(x.key, e.key);
      SameIsNotBefore(x.key);
    }
  }

  lemma SameIsNotBefore(k: TableKey)
    ensures !k.Before(k)
  {
    Order.LessIrreflexive(k.user);
  }

  /** The first item of block i + 1 is not after an item of a later block. */
  lemma FirstUpTo(t: Table, i: nat, j: nat, e: Item)
    requires i < j < |t.blocks| && BlockOk(t.blocks, i + 1) && e in t.blocks[j].items
    ensures t.blocks[i + 1].items[0] == e || t.blocks[i + 1].items[0].key.Before(e.key)
  {
    var items := t.blocks[i + 1].items;
    if j == i + 1 {
      var p :| 0 <= p < |items| && items[p] == e;
      assert p > 0 ==> items[0].key.Before(items[p].key);
    } else {
      assert AllBefore(items, t.blocks[j].items) && items[0] in items;
    }
  }

  lemma BeyondSeparator(k: TableKey, sep: TableKey, first: TableKey, e: TableKey)
    requires !sep.Before(k) && Order.Less(sep.user, first.user)
    requires first == e || first.Before(e)
    ensures e.user != k.user
  {
    Order.BeforeTotal(sep, k);
    if Order.Less(k.user, sep.user) { Order.LessTransitive(k.user, sep.user, first.user); }
    if Order.Less(first.user, e.user) { Order.LessTransitive(k.user, first.user, e.user); }
    Order.LessIrreflexive(k.user);
  }

  /** The first item from `k` on in the block that the index names is the first in the table. */
  lemma FirstInBlock(t: Table, policy: BloomFilterPolicy, k: TableKey, i: nat, p: nat)
    requires TableOk(t, policy) && i < |t.blocks| && (forall j :: 0 <= j < i ==> t.index[j].Before(k))
    requires p < |t.blocks[i].items| && !t.blocks[i].items[p].key.Before(k)
    requires forall q :: 0 <= q < p ==> t.blocks[i].items[q].key.Before(k)
    ensures IsFirstFrom(t, k, t.blocks[i].items[p])
  {
    var items, e := t.blocks[i].items, t.blocks[i].items[p];
    assert e in items && t.blocks[i] in t.blocks;
    assert BlockOk(t.blocks, i);
    forall x | Has(t, x) && !x.key.Before(k)
      ensures x == e || e.key.Before(x.key)
    {
      NotInEarlierBlock(t, policy, k, i, x);
      if x in items {
        var q :| 0 <= q < |items| && items[q] == x;
        assert p < q ==> items[p].key.Before(items[q].key);
      } else {
        var j :| i < j < |t.blocks| && x in t.blocks[j].items;
        assert AllBefore(items, t.blocks[j].items);
      }
    }
  }
}
