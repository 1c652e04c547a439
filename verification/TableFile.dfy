/** Where things are in a table file: blocks with trailers, handles to them, the footer (table/format.cc). */
module TableFormat {
  import opened DbFormat
  import opened Coding
  import opened LogFormat
  import opened BlockFormat
  import opened Bloom
  import opened FilterBlocks
  import opened TableLookup

  const TRAILER_SIZE: nat := 5
  const HANDLE_ROOM: nat := 40
  const FOOTER_SIZE: nat := 48
  const TABLE_MAGIC: nat := 0xdb47_7524_8b80_fb57
  const NO_COMPRESSION: byte := 0

  datatype Handle = Handle(offset: nat, size: nat)

  function HandleBytes(h: Handle): Bytes { Varint(h.offset) + Varint(h.size) }

  /** BlockHandle::DecodeFrom. */
  function HandleValue(b: Bytes): Option<(Handle, Bytes)> {
    match VarintValue(b, 10)
    case None => None
    case Some(x) => (
      match VarintValue(b[x.1..], 10)
      case None => None
      case Some(y) => Some((Handle(x.0 % DWORD, y.0 % DWORD), b[x.1..][y.1..])))
  }

  lemma HandleRoundTrip(h: Handle, rest: Bytes)
    requires h.offset < DWORD && h.size < DWORD
    ensures HandleValue(HandleBytes(h) + rest) == Some((h, rest))
  {
    hide Varint, VarintValue;
    Pow128Words();
    var b := HandleBytes(h) + rest;
    assert b == Varint(h.offset) + (Varint(h.size) + rest);
    VarintRoundTrip(h.offset, Varint(h.size) + rest, 10);
    VarintRoundTrip(h.size, rest, 10);
    assert b[|Varint(h.offset)|..] == Varint(h.size) + rest;
    assert (Varint(h.size) + rest)[|Varint(h.size)|..] == rest;
  }

  lemma HandleSize(h: Handle)
    requires h.offset < DWORD && h.size < DWORD
    ensures |HandleBytes(h)| <= 20
  {
    Pow128Words();
    VarintSize(h.offset, 10);
    VarintSize(h.size, 10);
  }

  method DecodeHandle(b: Bytes) returns (r: Option<(Handle, Bytes)>)
    ensures r == HandleValue(b)
  {
    hide VarintValue;
    var x := GetVarint64(b);
    if x.None? { return None; }
    var y := GetVarint64(x.value.1);
    if y.None? { return None; }
    return Some((Handle(x.value.0, y.value.0), y.value.1));
  }

  // ---- Blocks in a file --------------------------------------------------------------------------

  /** Compression type and masked checksum. */
  function Trailer(step: CrcStep, contents: Bytes): (r: Bytes)
    ensures |r| == TRAILER_SIZE
  {
    [NO_COMPRESSION] + Fixed(4, Mask(Extend(step, 0, contents + [NO_COMPRESSION])))
  }

  ghost predicate Stored(step: CrcStep, file: Bytes, h: Handle, contents: Bytes) {
    && h.offset + h.size + TRAILER_SIZE <= |file| && h.size == |contents|
    && file[h.offset..h.offset + h.size] == contents
    && file[h.offset + h.size..h.offset + h.size + TRAILER_SIZE] == Trailer(step, contents)
  }

  lemma StoredStays(step: CrcStep, file: Bytes, h: Handle, contents: Bytes, more: Bytes)
    requires Stored(step, file, h, contents)
    ensures Stored(step, file + more, h, contents)
  {
    hide Trailer;
    assert (file + more)[h.offset..h.offset + h.size] == file[h.offset..h.offset + h.size];
    assert (file + more)[h.offset + h.size..h.offset + h.size + TRAILER_SIZE] ==
        file[h.offset + h.size..h.offset + h.size + TRAILER_SIZE];
  }

  lemma StoredHere(step: CrcStep, file: Bytes, contents: Bytes)
    ensures Stored(step, file + contents + Trailer(step, contents), Handle(|file|, |contents|), contents)
  {
    hide Trailer;
    var all := file + contents + Trailer(step, contents);
    assert all[|file|..|file| + |contents|] == contents;
    assert all[|file| + |contents|..|file| + |contents| + TRAILER_SIZE] == Trailer(step, contents);
  }

  /** The handle lies within the file and its block claims to be uncompressed. */
  predicate Readable(file: Bytes, h: Handle) {
    h.offset + h.size + TRAILER_SIZE <= |file| && file[h.offset + h.size] == NO_COMPRESSION
  }

  /** ReadBlock; a compressed block is an error here.  With checksums a block is read exactly if it is
      stored undamaged; without, whatever is there is taken. */
  method ReadBlock(step: CrcStep, file: Bytes, h: Handle, verifyChecksums: bool) returns (r: Option<Bytes>)
    ensures forall contents :: Stored(step, file, h, contents) ==> r == Some(contents)
    ensures verifyChecksums && r.Some? ==> Stored(step, file, h, r.value)
    ensures !verifyChecksums ==>
        r == if Readable(file, h) then Some(file[h.offset..h.offset + h.size]) else None
  {
    hide Fixed, FixedValue, Extend, Mask, Unmask;
    if h.offset + h.size + TRAILER_SIZE > |file| { return None; }
    var n := h.size;
    var data := file[h.offset..h.offset + n + TRAILER_SIZE];
    forall contents | Stored(step, file, h, contents)
      ensures data[..n] == contents && data[n] == NO_COMPRESSION && data[n + 1..n + 5] == Trailer(step, contents)[1..]
    {
      assert data[..n] == file[h.offset..h.offset + h.size];
      assert data[n..] == file[h.offset + n..h.offset + n + TRAILER_SIZE];
      assert data[n..][1..] == data[n + 1..n + 5];
    }
    if verifyChecksums {
      var stored := DecodeFixed32(data[n + 1..]);
      assert data[n + 1..][..4] == data[n + 1..n + 5];
      var actual := Extend(step, 0, data[..n + 1]);
      forall contents | Stored(step, file, h, contents) ensures Unmask(stored) == actual {
        assert data[..n + 1] == contents + [NO_COMPRESSION];
        FixedWords(Mask(actual));
        UnmaskMask(actual);
        assert Trailer(step, contents)[1..] == Fixed(4, Mask(actual));
      }
      if Unmask(stored) != actual { return None; }
      assert data[n + 1..n + 5] == file[h.offset + n + 1..h.offset + n + TRAILER_SIZE];
      assert data[..n + 1] == file[h.offset..h.offset + n + 1];
      if data[n] == NO_COMPRESSION { Undamaged(step, file, h, stored); }
    }
    assert data[n] == file[h.offset + n] && data[..n] == file[h.offset..h.offset + n];
    if data[n] != NO_COMPRESSION { return None; }
    return Some(data[..n]);
  }

  /** Whatever has the right type and checksum is a stored block. */
  lemma Undamaged(step: CrcStep, file: Bytes, h: Handle, stored: Word)
    requires Readable(file, h) && stored == FixedValue(file[h.offset + h.size + 1..h.offset + h.size + TRAILER_SIZE])
    requires Unmask(stored) == Extend(step, 0, file[h.offset..h.offset + h.size + 1])
    ensures Stored(step, file, h, file[h.offset..h.offset + h.size])
  {
    hide Fixed, FixedValue, Extend, Mask, Unmask;
    var end := h.offset + h.size;
    var contents, crc := file[h.offset..end], file[end + 1..end + TRAILER_SIZE];
    assert file[h.offset..end + 1] == contents + [NO_COMPRESSION];
    FixedBytes(crc);
    MaskUnmask(stored);
    assert file[end..end + TRAILER_SIZE] == [NO_COMPRESSION] + crc;
  }

  /** A block of these pairs is in the file. */
  ghost predicate StoredPairs(step: CrcStep, file: Bytes, h: Handle, pairs: seq<Pair>) {
    exists contents, restarts, count, lay :: Stored(step, file, h, contents) &&
      BlockOk(contents, restarts, count, pairs, lay)
  }

  lemma StoredPairsStay(step: CrcStep, file: Bytes, h: Handle, pairs: seq<Pair>, more: Bytes)
    requires StoredPairs(step, file, h, pairs)
    ensures StoredPairs(step, file + more, h, pairs)
  {
    hide Stored, BlockOk;
    var contents, restarts, count, lay :| Stored(step, file, h, contents) &&
        BlockOk(contents, restarts, count, pairs, lay);
    StoredStays(step, file, h, contents, more);
  }

  /** The footer: the handles of the metaindex and index blocks, padding, the magic number. */
  function Footer(meta: Handle, index: Handle): (r: Bytes)
    requires |HandleBytes(meta) + HandleBytes(index)| <= HANDLE_ROOM
    ensures |r| == FOOTER_SIZE
  {
    var handles := HandleBytes(meta) + HandleBytes(index);
    handles + Zeros(HANDLE_ROOM - |handles|) + Fixed(8, TABLE_MAGIC)
  }

  // ---- A whole table -----------------------------------------------------------------------------

  /** "filter.leveldb.BuiltinBloomFilter2", the metaindex key of the filter block. */
  const FILTER_KEY: Bytes :=
    [102, 105, 108, 116, 101, 114, 46, 108, 101, 118, 101, 108, 100, 98, 46, 66, 117, 105, 108, 116, 105, 110,
     66, 108, 111, 111, 109, 70, 105, 108, 116, 101, 114, 50]

  datatype FilterPart = FilterPart(handle: Handle, result: Bytes, offsets: seq<nat>, added: seq<Added>)

  /** The parts of a table: data blocks, their separators and handles, and the other blocks. */
  datatype Parts = Parts(chunks: Chunks, seps: seq<Bytes>, handles: seq<Handle>, meta: Handle, index: Handle,
    filter: Option<FilterPart>)

  function IndexPairs(seps: seq<Bytes>, handles: seq<Handle>): (r: seq<Pair>)
    requires |seps| <= |handles|
    ensures |r| == |seps| && forall c :: 0 <= c < |seps| ==> r[c] == Pair(seps[c], HandleBytes(handles[c]))
  {
    seq(|seps|, c requires 0 <= c < |seps| => Pair(seps[c], HandleBytes(handles[c])))
  }

  /** The data blocks are in the file, one after the other. */
  ghost predicate ChunksStored(step: CrcStep, file: Bytes, chunks: Chunks, handles: seq<Handle>) {
    && |handles| == |chunks|
    && (forall c :: 0 <= c < |chunks| ==> StoredPairs(step, file, handles[c], chunks[c]))
    && (forall c, d :: 0 <= c < d < |handles| ==> handles[c].offset < handles[d].offset)
  }

  /** All keys of the data blocks have been added to the filter under their block's offset. */
  ghost predicate ChunksAdded(chunks: Chunks, handles: seq<Handle>, added: seq<Added>) {
    |handles| == |chunks| && forall c, x :: 0 <= c < |chunks| && x in chunks[c] ==>
      Added(handles[c].offset, x.key) in added
  }

  ghost predicate FilterPartOk(step: CrcStep, hash: Hash, file: Bytes, p: Parts)
    requires p.filter.Some?
  {
    var f := p.filter.value;
    && Stored(step, file, f.handle, FilterBlock(f.result, f.offsets))
    && FiltersOk(hash, f.result, f.offsets, f.added)
    && (forall i :: 0 <= i < |f.added| ==> f.added[i].offset / FILTER_BASE < |f.offsets| && |f.added[i].key| >= 8)
    && ChunksAdded(p.chunks, p.handles, f.added)
  }

  ghost predicate TableOk(step: CrcStep, hash: Hash, file: Bytes, p: Parts) {
    && Separated(p.chunks, p.seps)
    && ChunksStored(step, file, p.chunks, p.handles)
    && StoredPairs(step, file, p.index, IndexPairs(p.seps, p.handles))
    && StoredPairs(step, file, p.meta, MetaPairs(p.filter))
    && (p.filter.Some? ==> FilterPartOk(step, hash, file, p))
    && FOOTER_SIZE <= |file| < DWORD && |HandleBytes(p.meta) + HandleBytes(p.index)| <= HANDLE_ROOM
    && file[|file| - FOOTER_SIZE..] == Footer(p.meta, p.index)
  }

  function MetaPairs(filter: Option<FilterPart>): seq<Pair> {
    if filter.Some? then [Pair(FILTER_KEY, HandleBytes(filter.value.handle))] else []
  }
}

/** Table::Open and Table::InternalGet (table/table.cc). */
module TableReader {
  import opened DbFormat
  import opened Comparator
  import opened Coding
  import opened LogFormat
  import opened BlockFormat
  import opened BlockIters
  import opened Bloom
  import opened FilterBlocks
  import opened InternalKeys
  import opened TableLookup
  import opened TableFormat

  lemma KeyLessTransitive()
    ensures Transitive(KeyLess)
  {
    KeyOrder();
  }

  lemma IndexAscends(p: Parts)
    requires Separated(p.chunks, p.seps) && |p.handles| == |p.chunks|
    ensures Ascending(KeyLess, IndexPairs(p.seps, p.handles))
  {
    forall i, j | 0 <= i < j < |p.seps| ensures KeyLess(p.seps[i], p.seps[j]) {
      SeparatorsAscend(p.chunks, p.seps, i, j);
    }
  }

  /** The filter never hides a chunk that has k's user key. */
  lemma FilterIsRight(step: CrcStep, hash: Hash, file: Bytes, p: Parts, c: nat, k: Bytes)
    requires TableOk(step, hash, file, p) && p.filter.Some? && |p.filter.value.result| < WORD && c < |p.chunks|
    requires |k| >= 8
    requires !MayMatch(hash, FilterBlock(p.filter.value.result, p.filter.value.offsets), p.handles[c].offset, k)
    ensures forall i :: 0 <= i < |p.chunks[c]| ==>
        |p.chunks[c][i].key| >= 8 && UserPart(p.chunks[c][i].key) != UserPart(k)
  {
    hide FiltersOk, FilterBlock, StoredPairs, Stored, SeparatedAt;
    var f := p.filter.value;
    forall i | 0 <= i < |p.chunks[c]| ensures |p.chunks[c][i].key| >= 8 && UserPart(p.chunks[c][i].key) != UserPart(k) {
      var x := p.chunks[c][i];
      assert x in p.chunks[c];
      assert Added(p.handles[c].offset, x.key) in f.added;
      var n :| 0 <= n < |f.added| && f.added[n] == Added(p.handles[c].offset, x.key);
      NoFalseNegatives(hash, f.result, f.offsets, f.added, n);
      SameUserKey(hash, FilterBlock(f.result, f.offsets), p.handles[c].offset, x.key, k);
    }
  }

  lemma SameUserKey(hash: Hash, contents: Bytes, offset: nat, a: Bytes, b: Bytes)
    requires |a| >= 8 && |b| >= 8
    ensures UserPart(a) == UserPart(b) ==>
        (MayMatch(hash, contents, offset, a) <==> MayMatch(hash, contents, offset, b))
  {}

  /** What follows the handles in a footer. */
  function FooterRest(meta: Handle, index: Handle): Bytes
    requires |HandleBytes(meta) + HandleBytes(index)| <= HANDLE_ROOM
  {
    Zeros(HANDLE_ROOM - |HandleBytes(meta) + HandleBytes(index)|) + Fixed(8, TABLE_MAGIC)
  }

  /** Footer::DecodeFrom. */
  method DecodeFooter(footer: Bytes, ghost meta: Handle, ghost index: Handle) returns (r: Option<(Handle, Handle)>)
    requires |HandleBytes(meta) + HandleBytes(index)| <= HANDLE_ROOM && meta.offset < DWORD && meta.size < DWORD
    requires index.offset < DWORD && index.size < DWORD && |footer| == FOOTER_SIZE
    ensures footer == Footer(meta, index) ==> r == Some((meta, index))
  {
    hide Fixed, FixedValue, Zeros, HandleBytes, HandleValue;
    var magic := DecodeFixed64(footer[40..]);
    if footer == Footer(meta, index) {
      FooterParts(meta, index);
      HandleRoundTrip(meta, HandleBytes(index) + FooterRest(meta, index));
      HandleRoundTrip(index, FooterRest(meta, index));
      assert footer[40..][..8] == Fixed(8, TABLE_MAGIC);
      FixedWords(TABLE_MAGIC);
    }
    if magic != TABLE_MAGIC { return None; }
    var x := DecodeHandle(footer);
    if x.None? { return None; }
    var y := DecodeHandle(x.value.1);
    if y.None? { return None; }
    return Some((x.value.0, y.value.0));
  }

  lemma FooterParts(meta: Handle, index: Handle)
    requires |HandleBytes(meta) + HandleBytes(index)| <= HANDLE_ROOM
    ensures Footer(meta, index) == HandleBytes(meta) + (HandleBytes(index) + FooterRest(meta, index))
  {
    hide HandleBytes, Fixed, Zeros;
  }

  /** The contents of a stored block of these pairs. */
  lemma StoredContents(step: CrcStep, file: Bytes, h: Handle, pairs: seq<Pair>)
    returns (contents: Bytes, restarts: nat, count: nat, lay: Layout)
    requires StoredPairs(step, file, h, pairs) && |file| < DWORD
    ensures Stored(step, file, h, contents) && BlockOk(contents, restarts, count, pairs, lay)
    ensures h.offset < DWORD && h.size < DWORD
  {
    contents, restarts, count, lay :| Stored(step, file, h, contents) && BlockOk(contents, restarts, count, pairs, lay);
  }

  lemma StoredWithin(step: CrcStep, file: Bytes, h: Handle, contents: Bytes)
    requires Stored(step, file, h, contents) && |file| < DWORD
    ensures h.offset < DWORD && h.size < DWORD
  {}

  ghost predicate ReadsFilter(filter: FilterBlockReader, hash: Hash, p: Parts) {
    && p.filter.Some? && filter.Valid() && filter.hash == hash
    && filter.contents == FilterBlock(p.filter.value.result, p.filter.value.offsets)
  }

  /** BytewiseComparator on metaindex keys. */
  lemma BytewiseOrder()
    ensures Transitive(BytesLess)
  {
    forall a, b, c | BytesLess(a, b) && BytesLess(b, c) ensures BytesLess(a, c) {
      RankOrder(a, b);
      RankOrder(b, c);
      RankOrder(a, c);
    }
  }

  class Table {
    const step: CrcStep
    const hash: Hash
    const file: Bytes
    const indexBlock: Bytes
    const filter: FilterBlockReader?
    ghost const parts: Parts

    ghost predicate Valid() {
      && TableOk(step, hash, file, parts)
      && (exists restarts, count,
        lay :: BlockOk(indexBlock, restarts, count, IndexPairs(parts.seps, parts.handles), lay))
      && (filter != null ==> ReadsFilter(filter, hash, parts))
    }

    constructor (step: CrcStep, hash: Hash, file: Bytes, indexBlock: Bytes, filter: FilterBlockReader?,
      ghost parts: Parts)
      requires TableOk(step, hash, file, parts)
      requires exists restarts, count,
          lay :: BlockOk(indexBlock, restarts, count, IndexPairs(parts.seps, parts.handles), lay)
      requires filter != null ==> ReadsFilter(filter, hash, parts)
      ensures Valid() && this.parts == parts && this.file == file
    {
      this.step, this.hash, this.file, this.indexBlock, this.filter, this.parts := step, hash, file, indexBlock,
        filter, parts;
    }

    /** Table::Open of a file that a builder finished; `filtered` is whether a filter policy is configured. */
    static method Open(step: CrcStep, hash: Hash, file: Bytes, paranoid: bool, filtered: bool,
        ghost parts: Parts) returns (t: Table)
      requires TableOk(step, hash, file, parts)
      ensures fresh(t) && t.Valid() && t.parts == parts && t.file == file
    {
      hide Stored, StoredPairs, SeparatedAt, FilterPartOk, BlockOk, FilterBlock, Footer;
      ghost var held, restarts', count', lay' := StoredContents(step, file, parts.meta, MetaPairs(parts.filter));
      ghost var contents, restarts, count,
          lay := StoredContents(step, file, parts.index, IndexPairs(parts.seps, parts.handles));
      var footer := DecodeFooter(file[|file| - FOOTER_SIZE..], parts.meta, parts.index);
      var indexBlock := ReadBlock(step, file, footer.value.1, paranoid);
      var filter: FilterBlockReader? := null;
      if filtered {
        filter := ReadMeta(step, hash, file, footer.value.0, paranoid, parts);
      }
      t := new Table(step, hash, file, indexBlock.value, filter, parts);
    }

    /** Table::ReadMeta: find the filter block, if there is one. */
    static method ReadMeta(step: CrcStep, hash: Hash, file: Bytes, meta: Handle, paranoid: bool,
        ghost parts: Parts) returns (filter: FilterBlockReader?)
      requires TableOk(step, hash, file, parts) && meta == parts.meta
      ensures filter != null ==> fresh(filter) && ReadsFilter(filter, hash, parts)
    {
      hide Stored, StoredPairs, Separated, ChunksStored, BlockOk, FilterBlock, FiltersOk, ChunksAdded;
      ghost var held, restarts, count, lay := StoredContents(step, file, parts.meta, MetaPairs(parts.filter));
      var contents := ReadBlock(step, file, meta, paranoid);
      BytewiseOrder();
      var iter := NewIterator(BytesLess, contents.value, restarts, count, MetaPairs(parts.filter), lay);
      iter.Seek(FILTER_KEY);
      iter.ValidIsPos();
      if iter.Valid() {
        var p := iter.Current();
        if p.key == FILTER_KEY {
          var f := parts.filter.value;
          assert f.handle.offset < DWORD &&
              f.handle.size < DWORD by { assert Stored(step, file, f.handle,
                FilterBlock(f.result, f.offsets)); StoredWithin(step, file, f.handle,
                  FilterBlock(f.result, f.offsets)); }
          HandleRoundTrip(f.handle, []);
          assert p.value + [] == p.value;
          var h := DecodeHandle(p.value);
          var block := ReadBlock(step, file, h.value.0, paranoid);
          filter := new FilterBlockReader(hash, block.value);
          return;
        }
      }
      return null;
    }

    /** Table::InternalGet: the pair handed to the callback, if any. */
    method InternalGet(k: Bytes, verifyChecksums: bool) returns (r: Option<Pair>)
      requires Valid() && |k| >= 8 && (parts.filter.Some? ==> |parts.filter.value.result| < WORD)
      ensures Exact(AllPairs(parts.chunks), k, r)
    {
      hide Stored, BlockOk, FilterBlock, FilterPartOk, Footer, SeparatedAt, Ascending, KeyLess, BlockIter.Fixed,
        BlockIter.StandsAt;
      KeyLessTransitive();
      IndexAscends(parts);
      ghost var index := IndexPairs(parts.seps, parts.handles);
      ghost var restarts, count, lay :| BlockOk(indexBlock, restarts, count, index, lay);
      var iiter := NewIterator(KeyLess, indexBlock, restarts, count, index, lay);
      iiter.Seek(k);
      iiter.ValidIsPos();
      ghost var c := iiter.pos;
      assert forall d :: 0 <= d < c ==> KeyLess(index[d].key, k);
      if !iiter.Valid() {
        PastTheEnd(parts.chunks, parts.seps, k);
        return None;
      }
      var entry := iiter.Current();
      HandleSmall(c);
      HandleRoundTrip(parts.handles[c], []);
      assert entry.value + [] == entry.value;
      var handle := DecodeHandle(entry.value);
      if filter != null {
        var may := filter.KeyMayMatch(handle.value.0.offset, k);
        if !may {
          FilterIsRight(step, hash, file, parts, c, k);
          SkipIsExact(parts.chunks, parts.seps, k, c);
          return None;
        }
      }
      ghost var p;
      r, p := BlockGet(handle.value.0, c, k, verifyChecksums);
      ChunkDecides(parts.chunks, parts.seps, k, c, p);
    }

    lemma HandleSmall(c: nat)
      requires Valid() && c < |parts.chunks|
      ensures c < |parts.handles| && parts.handles[c].offset < DWORD && parts.handles[c].size < DWORD
    {
      assert StoredPairs(step, file, parts.handles[c], parts.chunks[c]);
      var contents, restarts, count, lay := StoredContents(step, file, parts.handles[c], parts.chunks[c]);
    }

    /** The data block that the index leads to: its first pair not before k. */
    method BlockGet(handle: Handle, ghost c: nat, k: Bytes, verifyChecksums: bool) returns (r: Option<Pair>,
        ghost p: nat)
      requires Valid() && |k| >= 8 && c < |parts.chunks| && handle == parts.handles[c]
      ensures p <= |parts.chunks[c]| && r == if p < |parts.chunks[c]| then Some(parts.chunks[c][p]) else None
      ensures forall i :: 0 <= i < p ==> KeyLess(parts.chunks[c][i].key, k)
      ensures forall i :: p <= i < |parts.chunks[c]| ==> !KeyLess(parts.chunks[c][i].key, k)
    {
      hide Stored, BlockOk, FilterBlock, FilterPartOk, Footer, SeparatedAt, KeyLess, BlockIter.Fixed,
        BlockIter.StandsAt;
      KeyLessTransitive();
      assert StoredPairs(step, file, parts.handles[c], parts.chunks[c]);
      ghost var contents, restarts, count, lay := StoredContents(step, file, parts.handles[c], parts.chunks[c]);
      var block := ReadBlock(step, file, handle, verifyChecksums);
      var iter := NewIterator(KeyLess, block.value, restarts, count, parts.chunks[c], lay);
      iter.Seek(k);
      iter.ValidIsPos();
      p := iter.pos;
      if !iter.Valid() { return None, p; }
      var found := iter.Current();
      return Some(found), p;
    }
  }
}
