/** TableBuilder (table/table_builder.cc). */
module TableBuilders {
  import opened DbFormat
  import opened Comparator
  import opened Coding
  import opened LogFormat
  import opened BlockFormat
  import opened BlockBuilders
  import opened Bloom
  import opened FilterBlocks
  import opened InternalKeys
  import opened TableLookup
  import opened TableFormat

  function LastKey(pairs: seq<Pair>): Bytes
    requires pairs != []
  {
    pairs[|pairs| - 1].key
  }

  /** The data blocks so far, the one being filled included. */
  ghost function WithTail(chunks: Chunks, tail: seq<Pair>): Chunks {
    if tail == [] then chunks else chunks + [tail]
  }

  ghost predicate ChunkOk(pairs: seq<Pair>) {
    pairs != [] && Keyed(pairs) && Ascending(KeyLess, pairs)
  }

  /** Chunks in order, the first of them already followed by separators. */
  ghost predicate Growing(all: Chunks, seps: seq<Bytes>) {
    && (forall c :: 0 <= c < |all| ==> ChunkOk(all[c]))
    && (forall c :: 0 <= c < |all| - 1 ==> KeyLess(LastKey(all[c]), all[c + 1][0].key))
    && |seps| + 1 == (if all == [] then 1 else |all|)
    && forall c :: 0 <= c < |seps| ==> Separates(LastKey(all[c]), seps[c], Some(all[c + 1][0].key))
  }

  /** A new largest key goes to the block being filled. */
  lemma GrowTail(chunks: Chunks, seps: seq<Bytes>, tail: seq<Pair>, p: Pair)
    requires Growing(WithTail(chunks, tail), seps) && tail != [] && KeyLess(LastKey(tail), p.key)
    ensures Growing(WithTail(chunks, tail + [p]), seps)
  {
    var all, more := chunks + [tail], chunks + [tail + [p]];
    KeyOrder();
    forall c | 0 <= c < |more| ensures ChunkOk(more[c]) {
      assert ChunkOk(all[c]);
      if c == |chunks| { assert forall i :: 0 <= i < |tail| - 1 ==> KeyLess(tail[i].key, LastKey(tail)); }
    }
    forall c | 0 <= c < |more| - 1
      ensures KeyLess(LastKey(more[c]), more[c + 1][0].key)
      ensures Separates(LastKey(more[c]), seps[c], Some(more[c + 1][0].key))
    {
      assert more[c] == all[c] && more[c + 1][0] == all[c + 1][0];
    }
  }

  /** The first key of a new block, with the separator that had to wait for it. */
  lemma GrowNew(chunks: Chunks, seps: seq<Bytes>, sep: Bytes, p: Pair)
    requires Growing(chunks, seps) && chunks != [] && KeyLess(LastKey(chunks[|chunks| - 1]), p.key)
    requires Separates(LastKey(chunks[|chunks| - 1]), sep, Some(p.key))
    ensures Growing(WithTail(chunks, [p]), seps + [sep])
  {
    hide Separates, BytesLess, TagOf;
  }

  lemma GrowFirst(p: Pair)
    requires |p.key| >= 8
    ensures Growing(WithTail([], [p]), [])
  {}

  /** With the last separator in place the table is complete. */
  lemma GrownUp(chunks: Chunks, seps: seq<Bytes>, sep: Bytes)
    requires Growing(chunks, seps) && chunks != [] && Separates(LastKey(chunks[|chunks| - 1]), sep, None)
    ensures Separated(chunks, seps + [sep])
  {
    forall c | 0 <= c < |chunks| ensures SeparatedAt(chunks, seps + [sep], c) { assert ChunkOk(chunks[c]); }
  }

  lemma AllPairsTail(chunks: Chunks, tail: seq<Pair>)
    ensures AllPairs(WithTail(chunks, tail)) == AllPairs(chunks) + tail
  {
    if tail != [] { assert (chunks + [tail])[..|chunks|] == chunks; }
  }

  lemma ChunksStay(step: CrcStep, file: Bytes, chunks: Chunks, handles: seq<Handle>, more: Bytes)
    requires ChunksStored(step, file, chunks, handles)
    ensures ChunksStored(step, file + more, chunks, handles)
  {
    hide StoredPairs;
    forall c | 0 <= c < |chunks| ensures StoredPairs(step, file + more, handles[c], chunks[c]) {
      StoredPairsStay(step, file, handles[c], chunks[c], more);
    }
  }

  lemma ChunksWithin(step: CrcStep, file: Bytes, chunks: Chunks, handles: seq<Handle>)
    requires ChunksStored(step, file, chunks, handles)
    ensures forall c :: 0 <= c < |handles| ==> handles[c].offset < |file|
  {
    forall c | 0 <= c < |handles| ensures handles[c].offset < |file| { PairsBefore(step, file, handles[c], chunks[c]); }
  }

  lemma PairsBefore(step: CrcStep, file: Bytes, h: Handle, pairs: seq<Pair>)
    requires StoredPairs(step, file, h, pairs)
    ensures h.offset < |file|
  {}

  /** Once its block has a handle the keys of the tail count among those added. */
  lemma TailAdded(chunks: Chunks, handles: seq<Handle>, tail: seq<Pair>, handle: Handle, added: seq<Added>)
    requires ChunksAdded(chunks, handles, added) && forall x :: x in tail ==> Added(handle.offset, x.key) in added
    ensures ChunksAdded(chunks + [tail], handles + [handle], added)
  {}

  lemma OneMoreIndexPair(seps: seq<Bytes>, handles: seq<Handle>, sep: Bytes)
    requires |seps| < |handles|
    ensures IndexPairs(seps + [sep], handles) == IndexPairs(seps, handles) + [Pair(sep, HandleBytes(handles[|seps|]))]
  {
    hide HandleBytes;
  }

  lemma NothingBuilt(step: CrcStep)
    ensures Growing([], []) && ChunksStored(step, [], [], []) && ChunksAdded([], [], [])
    ensures AllPairs([]) == [] && IndexPairs([], []) == []
  {}

  class TableBuilder {
    const step: CrcStep
    const blockSize: nat
    const dataBlock: BlockBuilder
    const indexBlock: BlockBuilder
    const filterBlock: FilterBlockBuilder?
    var file: Bytes
    var offset: nat
    var lastKey: Bytes
    var numEntries: nat
    var closed: bool
    var pendingIndexEntry: bool
    var pendingHandle: Handle
    ghost var chunks: Chunks
    ghost var seps: seq<Bytes>
    ghost var handles: seq<Handle>

    ghost function Parts(): set<object> {
      {this, dataBlock, indexBlock} + if filterBlock == null then {} else {filterBlock}
    }

    /** Everything added so far. */
    ghost function Contents(): seq<Pair>
      reads this, dataBlock
    {
      AllPairs(chunks) + dataBlock.pairs
    }

    /** The last block written still lacks its index entry. */
    ghost predicate Awaiting()
      reads this
    {
      && chunks != [] && |seps| + 1 == |chunks| == |handles| && pendingHandle == handles[|chunks| - 1]
      && pendingHandle.offset < DWORD && pendingHandle.size < DWORD
    }

    /** The blocks written and the index entries made for them. */
    ghost predicate Written()
      reads this, dataBlock, indexBlock
    {
      && offset == |file| && ChunksStored(step, file, chunks, handles)
      && |seps| <= |handles| && indexBlock.pairs == IndexPairs(seps, handles)
      && (pendingIndexEntry ==> dataBlock.pairs == [] && Awaiting())
      && (!pendingIndexEntry ==> |seps| == |chunks| && (dataBlock.pairs == [] ==> chunks == []))
    }

    ghost predicate Ordered()
      reads this, dataBlock
    {
      var all := WithTail(chunks, dataBlock.pairs);
      && Growing(all, seps) && (numEntries > 0 <==> all != []) && (all != [] ==> lastKey == LastKey(all[|all| - 1]))
      && |lastKey| < WORD
    }

    ghost predicate Filtered()
      reads this, dataBlock, filterBlock
    {
      filterBlock != null ==>
        && filterBlock.Valid() && filterBlock.at == offset
        && ChunksAdded(chunks, handles, filterBlock.added)
        && forall x :: x in dataBlock.pairs ==> Added(offset, x.key) in filterBlock.added
    }

    ghost predicate Blocks()
      reads this, dataBlock, indexBlock
    {
      dataBlock != indexBlock && dataBlock.Valid() && indexBlock.Valid() && dataBlock.interval >= 1 &&
        indexBlock.interval == 1
    }

    ghost predicate Valid()
      reads this, dataBlock, indexBlock, filterBlock
    {
      !closed && Blocks() && Written() && Ordered() && Filtered()
    }

    constructor (step: CrcStep, hash: Hash, interval: nat, blockSize: nat, bitsPerKey: Option<nat>)
      requires interval >= 1
      ensures Valid() && fresh(Parts()) && Contents() == [] && this.step == step && file == []
      ensures filterBlock != null <==> bitsPerKey.Some?
      ensures filterBlock != null ==> filterBlock.hash == hash
    {
      hide BlockBuilder.Valid, FilterBlockBuilder.Valid, Growing, ChunksStored, ChunksAdded, AllPairs, IndexPairs;
      this.step, this.blockSize := step, blockSize;
      var data := new BlockBuilder(interval);
      var index := new BlockBuilder(1);
      var filter: FilterBlockBuilder? := null;
      if bitsPerKey.Some? {
        filter := new FilterBlockBuilder(hash, bitsPerKey.value);
        filter.StartBlock(0);
      }
      dataBlock, indexBlock, filterBlock := data, index, filter;
      file, offset, lastKey, numEntries := [], 0, [], 0;
      closed, pendingIndexEntry, pendingHandle := false, false, Handle(0, 0);
      chunks, seps, handles := [], [], [];
      new;
      NothingBuilt(step);
    }

    method Add(key: Bytes, value: Bytes)
      requires Valid() && 8 <= |key| < WORD && |value| < WORD && (numEntries > 0 ==> KeyLess(lastKey, key))
      requires dataBlock.CurrentSizeEstimate() + |key| + |value| + 19 < WORD && |file| < DWORD
      modifies Parts()
      ensures Valid() && Contents() == old(Contents()) + [Pair(key, value)]
      ensures dataBlock.pairs == [] || dataBlock.CurrentSizeEstimate() < blockSize
    {
      hide Growing, StoredPairs, IndexPairs, AllPairs, BlockBuilder.Valid, FilterBlockBuilder.Valid,
        TableBuilder.Filtered, TableBuilder.ReadyFor, ChunksStored;
      PlaceSeparator(key, value);
      Append(key, value);
      if dataBlock.CurrentSizeEstimate() >= blockSize {
        Flush();
      }
    }

    /** Everything but the order is in place, and the next key keeps the order. */
    ghost predicate ReadyFor(p: Pair)
      reads this, dataBlock, indexBlock, filterBlock
    {
      && !closed && Blocks() && Filtered()
      && offset == |file| && ChunksStored(step, file, chunks, handles)
      && !pendingIndexEntry && |seps| == |chunks| == |handles| && indexBlock.pairs == IndexPairs(seps, handles)
      && Growing(WithTail(chunks, dataBlock.pairs + [p]), seps)
    }

    /** The pending index entry of the last block, now that the next key is known. */
    method PlaceSeparator(key: Bytes, ghost value: Bytes)
      requires Valid() && 8 <= |key| < WORD && (numEntries > 0 ==> KeyLess(lastKey, key))
      modifies this`lastKey, this`pendingIndexEntry, this`seps, indexBlock
      ensures ReadyFor(Pair(key, value))
    {
      hide TableBuilder.Valid, TableBuilder.ReadyFor;
      if pendingIndexEntry {
        PlacePending(key, value);
      } else {
        GrowsBy(Pair(key, value));
      }
    }

    method PlacePending(key: Bytes, ghost value: Bytes)
      requires Valid() && 8 <= |key| < WORD && (numEntries > 0 ==> KeyLess(lastKey, key)) && pendingIndexEntry
      modifies this`lastKey, this`pendingIndexEntry, this`seps, indexBlock
      ensures ReadyFor(Pair(key, value))
    {
      hide StoredPairs, BlockBuilder.Valid, FilterBlockBuilder.Valid, ChunksAdded, AllPairs;
      lastKey := FindShortestSeparator(lastKey, key);
      GrowNew(chunks, seps, lastKey, Pair(key, value));
      hide Growing;
      AddIndexEntry();
      assert dataBlock.pairs + [Pair(key, value)] == [Pair(key, value)];
    }

    lemma GrowsBy(p: Pair)
      requires Valid() && 8 <= |p.key| && (numEntries > 0 ==> KeyLess(lastKey, p.key)) && !pendingIndexEntry
      ensures ReadyFor(p)
    {
      hide StoredPairs, BlockBuilder.Valid, FilterBlockBuilder.Valid, ChunksAdded, AllPairs, Growing;
      if dataBlock.pairs != [] {
        GrowTail(chunks, seps, dataBlock.pairs, p);
      } else {
        GrowFirst(p);
        assert dataBlock.pairs + [p] == [p];
      }
    }

    /** The part of Add that stores the pair. */
    method Append(key: Bytes, value: Bytes)
      requires ReadyFor(Pair(key, value)) && 8 <= |key| < WORD && |value| < WORD
      modifies this`lastKey, this`numEntries, dataBlock, filterBlock
      ensures Valid() && dataBlock.pairs == old(dataBlock.pairs) + [Pair(key, value)]
      ensures dataBlock.CurrentSizeEstimate() <= old(dataBlock.CurrentSizeEstimate()) + |key| + |value| + 19
    {
      hide Growing, StoredPairs, IndexPairs, AllPairs, BlockBuilder.Valid, FilterBlockBuilder.Valid;
      if filterBlock != null {
        filterBlock.AddKey(key);
      }
      lastKey := key;
      numEntries := numEntries + 1;
      dataBlock.Add(key, value);
    }

    method Flush()
      requires Valid() && dataBlock.CurrentSizeEstimate() < WORD && |file| < DWORD
      modifies Parts()
      ensures Valid() && Contents() == old(Contents()) && dataBlock.pairs == []
      ensures lastKey == old(lastKey) && indexBlock.CurrentSizeEstimate() == old(indexBlock.CurrentSizeEstimate())
    {
      hide Growing, StoredPairs, IndexPairs, AllPairs, BlockBuilder.Valid, FilterBlockBuilder.Valid, ChunksAdded,
        TableBuilder.Written, TableBuilder.Ordered;
      dataBlock.EmptyIsEmpty();
      if dataBlock.Empty() {
        return;
      }
      ghost var before, places, tail := chunks, handles, dataBlock.pairs;
      FlushBlock();
      if filterBlock != null {
        TailAdded(before, places, tail, pendingHandle, filterBlock.added);
        filterBlock.StartBlock(offset);
      }
    }

    /** Flush but for the filter. */
    method FlushBlock()
      requires Blocks() && Written() && Ordered() && dataBlock.pairs != []
      requires dataBlock.CurrentSizeEstimate() < WORD && |file| < DWORD
      modifies this`file, this`offset, this`pendingHandle, this`pendingIndexEntry, this`chunks, this`handles, dataBlock
      ensures Blocks() && Written() && Ordered() && dataBlock.pairs == [] && Contents() == old(Contents())
      ensures chunks == old(chunks) + [old(dataBlock.pairs)] && handles == old(handles) + [pendingHandle]
      ensures pendingHandle.offset == old(offset) && offset > old(offset)
    {
      hide Growing, StoredPairs, IndexPairs, AllPairs, BlockBuilder.Valid;
      AllPairsTail(chunks, dataBlock.pairs);
      FlushData();
    }

    /** The part of Flush that writes the data block and remembers its handle. */
    method FlushData()
      requires dataBlock.Valid() && dataBlock.CurrentSizeEstimate() < WORD && |file| < DWORD
      requires offset == |file| && ChunksStored(step, file, chunks, handles)
      modifies this`file, this`offset, this`pendingHandle, this`pendingIndexEntry, this`chunks, this`handles, dataBlock
      ensures dataBlock.Valid() && dataBlock.pairs == [] && pendingIndexEntry && offset == |file| > old(offset)
      ensures chunks == old(chunks) + [old(dataBlock.pairs)] && handles == old(handles) + [pendingHandle]
      ensures pendingHandle.offset == old(offset) && pendingHandle.size < DWORD
      ensures ChunksStored(step, file, chunks, handles)
    {
      hide StoredPairs, BlockBuilder.Valid;
      ghost var tail := dataBlock.pairs;
      ChunksWithin(step, file, chunks, handles);
      pendingHandle := WriteBlock(dataBlock);
      pendingIndexEntry := true;
      chunks, handles := chunks + [tail], handles + [pendingHandle];
    }

    /** Write a block out and start it anew. */
    method WriteBlock(block: BlockBuilder) returns (handle: Handle)
      requires block.Valid() && block.CurrentSizeEstimate() < WORD && offset == |file|
      requires ChunksStored(step, file, chunks, handles)
      modifies this`file, this`offset, block
      ensures block.Valid() && block.pairs == [] && StoredPairs(step, file, handle, old(block.pairs))
      ensures handle == Handle(old(offset), old(block.CurrentSizeEstimate()))
      ensures old(file) <= file && offset == |file| > old(offset) && ChunksStored(step, file, chunks, handles)
    {
      ghost var pairs := block.pairs;
      var raw := block.Finish();
      handle := WriteRawBlock(raw);
      block.Reset();
    }

    method WriteRawBlock(contents: Bytes) returns (handle: Handle)
      requires offset == |file| && ChunksStored(step, file, chunks, handles)
      modifies this`file, this`offset
      ensures file == old(file) + contents + Trailer(step, contents) && offset == |file|
      ensures handle == Handle(old(offset), |contents|)
      ensures Stored(step, file, handle, contents) && ChunksStored(step, file, chunks, handles)
    {
      hide Extend, Mask, Fixed, StoredPairs;
      handle := Handle(offset, |contents|);
      StoredHere(step, file, contents);
      ChunksStay(step, file, chunks, handles, contents + Trailer(step, contents));
      assert file + contents + Trailer(step, contents) == file + (contents + Trailer(step, contents));
      var crc := Extend(step, 0, contents);
      ExtendConcat(step, 0, contents, [NO_COMPRESSION]);
      crc := Extend(step, crc, [NO_COMPRESSION]);
      var masked := EncodeFixed32(Mask(crc));
      file := file + contents;
      file := file + ([NO_COMPRESSION] + masked);
      offset := offset + |contents| + TRAILER_SIZE;
    }

    // ---- Finishing -------------------------------------------------------------------------------

    /** Finish: everything that was added is in the table, in blocks an index lookup can be trusted on. */
    method Finish(ghost hash: Hash) returns (ghost parts: Parts)
      requires Valid() && dataBlock.CurrentSizeEstimate() < WORD && |file| < DWORD
      requires indexBlock.CurrentSizeEstimate() + |lastKey| + 39 < WORD
      requires (filterBlock != null ==> filterBlock.hash == hash)
      modifies Parts()
      ensures closed && offset == |file|
      ensures |file| < DWORD ==> TableOk(step, hash, file, parts)
      ensures AllPairs(parts.chunks) == old(Contents())
    {
      hide Growing, Separated, StoredPairs, Stored, IndexPairs, AllPairs, Footer, HandleBytes, BlockBuilder.Valid,
        FilterBlockBuilder.Valid, TableOk, FilterOf, ChunksAdded;
      Flush();
      closed := true;
      assert AllPairs(chunks) + [] == AllPairs(chunks);
      var filterHandle: Handle; ghost var filter: Option<FilterPart>;
      filterHandle, filter := WriteFilter(hash);
      ghost var file1 := file;
      var meta := WriteMeta(filterHandle);
      ghost var file2 := file;
      var index := WriteIndex();
      parts := TableFormat.Parts(chunks, seps, handles, meta, index, filter);
      ghost var file3 := file;
      WriteFooter(meta, index);
      if |file| < DWORD {
        FinishedTable(step, hash, file1, file2, file3, file, filterHandle, parts);
      }
    }

    /** Write filter block. */
    method WriteFilter(ghost hash: Hash) returns (handle: Handle, ghost filter: Option<FilterPart>)
      requires offset == |file| && ChunksStored(step, file, chunks, handles) && Filtered()
      requires (filterBlock != null ==> filterBlock.hash == hash)
      modifies this`file, this`offset, filterBlock
      ensures old(file) <= file && offset == |file| && ChunksStored(step, file, chunks, handles)
      ensures (filter.Some? <==> filterBlock != null) && (filter.Some? ==> filter.value.handle == handle)
      ensures filter.Some? ==> FilterOf(step, hash, file, chunks, handles, filter.value)
    {
      hide StoredPairs, Stored, FiltersOk, FilterBlock;
      handle, filter := Handle(0, 0), None;
      if filterBlock != null {
        var contents := filterBlock.Finish();
        handle := WriteRawBlock(contents);
        filter := Some(FilterPart(handle, filterBlock.result, filterBlock.filterOffsets, filterBlock.added));
      }
    }

    /** Write metaindex block: where the filter block is, if there is one, in 64-bit numbers. */
    method WriteMeta(filterHandle: Handle) returns (handle: Handle)
      requires offset == |file| && ChunksStored(step, file, chunks, handles) && dataBlock.interval >= 1
      modifies this`file, this`offset
      ensures old(file) <= file && offset == |file| && ChunksStored(step, file, chunks, handles)
      ensures StoredPairs(step, file, handle,
          if filterBlock == null then [] else [Pair(FILTER_KEY, HandleBytes(InWords(filterHandle)))])
    {
      hide StoredPairs, BlockBuilder.Valid;
      var metaIndex := new BlockBuilder(dataBlock.interval);
      if filterBlock != null {
        var encoding := EncodeHandle(filterHandle);
        HandleSize(InWords(filterHandle));
        metaIndex.Add(FILTER_KEY, encoding);
        assert metaIndex.pairs == [Pair(FILTER_KEY, encoding)];
      }
      handle := WriteBlock(metaIndex);
    }

    /** Write index block. */
    method WriteIndex() returns (handle: Handle)
      requires Blocks() && Written() && Ordered() && dataBlock.pairs == []
      requires indexBlock.CurrentSizeEstimate() + |lastKey| + 39 < WORD
      modifies this`file, this`offset, this`lastKey, this`pendingIndexEntry, this`seps, indexBlock
      ensures old(file) <= file && offset == |file| && ChunksStored(step, file, chunks, handles)
      ensures Separated(chunks, seps) && |seps| <= |handles|
      ensures StoredPairs(step, file, handle, IndexPairs(seps, handles))
    {
      hide StoredPairs, BlockBuilder.Valid;
      if pendingIndexEntry {
        lastKey := FindShortSuccessor(lastKey);
        GrownUp(chunks, seps, lastKey);
        AddIndexEntry();
      }
      handle := WriteBlock(indexBlock);
    }

    /** Write footer. */
    method WriteFooter(meta: Handle, index: Handle)
      requires offset == |file| && ChunksStored(step, file, chunks, handles)
      modifies this`file, this`offset
      ensures old(file) <= file && offset == |file| && ChunksStored(step, file, chunks, handles)
      ensures |file| < DWORD && InFile(meta, file) && InFile(index, file) ==>
        (|HandleBytes(meta) + HandleBytes(index)| <= HANDLE_ROOM && file == old(file) + Footer(meta, index))
    {
      hide StoredPairs, Zeros, Fixed, HandleBytes;
      var a := EncodeHandle(meta);
      var b := EncodeHandle(index);
      var footer := a + b;
      HandleSize(InWords(meta));
      HandleSize(InWords(index));
      footer := footer + Zeros(HANDLE_ROOM - |footer|);
      footer := footer + Fixed(8, TABLE_MAGIC);
      ChunksStay(step, file, chunks, handles, footer);
      file := file + footer;
      offset := offset + |footer|;
    }

    /** The index entry of the last block, under the key that lastKey has been shortened to. */
    method AddIndexEntry()
      requires Blocks() && pendingIndexEntry && Awaiting() && indexBlock.pairs == IndexPairs(seps, handles)
      requires |lastKey| < WORD
      modifies this`pendingIndexEntry, this`seps, indexBlock
      ensures Blocks() && !pendingIndexEntry && seps == old(seps) + [lastKey]
      ensures indexBlock.pairs == IndexPairs(seps, handles)
      ensures indexBlock.CurrentSizeEstimate() <= old(indexBlock.CurrentSizeEstimate()) + |lastKey| + 39
    {
      hide StoredPairs, HandleBytes, BlockBuilder.Valid, IndexPairs;
      OneMoreIndexPair(seps, handles, lastKey);
      var encoding := EncodeHandle(pendingHandle);
      HandleSize(pendingHandle);
      indexBlock.Add(lastKey, encoding);
      pendingIndexEntry := false;
      seps := seps + [lastKey];
    }

  }

  /** A handle as it is stored, in 64-bit numbers. */
  function InWords(h: Handle): Handle { Handle(h.offset % DWORD, h.size % DWORD) }

  /** BlockHandle::EncodeTo. */
  method EncodeHandle(h: Handle) returns (r: Bytes)
    ensures r == HandleBytes(InWords(h))
  {
    var x := EncodeVarint64(h.offset % DWORD);
    var y := EncodeVarint64(h.size % DWORD);
    r := x + y;
  }

  /** The filter block covers these chunks. */
  ghost predicate FilterOf(step: CrcStep, hash: Hash, file: Bytes, chunks: Chunks, handles: seq<Handle>,
      f: FilterPart) {
    && Stored(step, file, f.handle, FilterBlock(f.result, f.offsets))
    && FiltersOk(hash, f.result, f.offsets, f.added)
    && (forall i :: 0 <= i < |f.added| ==> f.added[i].offset / FILTER_BASE < |f.offsets| && |f.added[i].key| >= 8)
    && ChunksAdded(chunks, handles, f.added)
  }

  lemma FinishedTable(step: CrcStep, hash: Hash, file1: Bytes, file2: Bytes, file3: Bytes, file: Bytes,
      filterHandle: Handle, p: Parts)
    requires Separated(p.chunks, p.seps) && ChunksStored(step, file, p.chunks, p.handles)
    requires file1 <= file2 <= file3 <= file && |file| < DWORD
    requires p.filter.Some? ==>
        p.filter.value.handle == filterHandle && FilterOf(step, hash, file1, p.chunks, p.handles, p.filter.value)
    requires StoredPairs(step, file2, p.meta,
        if p.filter.None? then [] else [Pair(FILTER_KEY, HandleBytes(InWords(filterHandle)))])
    requires |p.seps| <= |p.handles| && StoredPairs(step, file3, p.index, IndexPairs(p.seps, p.handles))
    requires InFile(p.meta, file) && InFile(p.index, file) ==>
        |HandleBytes(p.meta) + HandleBytes(p.index)| <= HANDLE_ROOM && file == file3 + Footer(p.meta, p.index)
    ensures TableOk(step, hash, file, p)
  {
    hide Separated, StoredPairs, Stored, HandleBytes, FiltersOk, FilterBlock, Footer, IndexPairs;
    if p.filter.Some? {
      var f := p.filter.value;
      StoredInFile(step, file1, f.handle, FilterBlock(f.result, f.offsets));
      StoredGrows(step, file1, file, f.handle, FilterBlock(f.result, f.offsets));
    }
    PairsGrow(step, file2, file, p.meta, MetaPairs(p.filter));
    PairsGrow(step, file3, file, p.index, IndexPairs(p.seps, p.handles));
    PairsInFile(step, file, p.meta, MetaPairs(p.filter));
    PairsInFile(step, file, p.index, IndexPairs(p.seps, p.handles));
  }

  ghost predicate InFile(h: Handle, file: Bytes) { h.offset <= |file| && h.size <= |file| }

  lemma StoredInFile(step: CrcStep, file: Bytes, h: Handle, contents: Bytes)
    requires Stored(step, file, h, contents)
    ensures InFile(h, file)
  {}

  lemma PairsInFile(step: CrcStep, file: Bytes, h: Handle, pairs: seq<Pair>)
    requires StoredPairs(step, file, h, pairs)
    ensures InFile(h, file)
  {}

  lemma StoredGrows(step: CrcStep, before: Bytes, after: Bytes, h: Handle, contents: Bytes)
    requires Stored(step, before, h, contents) && before <= after
    ensures Stored(step, after, h, contents)
  {
    StoredStays(step, before, h, contents, after[|before|..]);
    assert before + after[|before|..] == after;
  }

  lemma PairsGrow(step: CrcStep, before: Bytes, after: Bytes, h: Handle, pairs: seq<Pair>)
    requires StoredPairs(step, before, h, pairs) && before <= after
    ensures StoredPairs(step, after, h, pairs)
  {
    StoredPairsStay(step, before, h, pairs, after[|before|..]);
    assert before + after[|before|..] == after;
  }
}
