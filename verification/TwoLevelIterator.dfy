/** A table's iterator: blocks opened as the index iterator reaches them (table/two_level_iterator.cc). */
module TwoLevelIterators {
  import opened DbFormat
  import opened Coding
  import opened BlockFormat
  import opened BlockIters
  import opened InternalKeys
  import opened TableLookup
  import opened TableFormat
  import opened TableReader

  // ---- Places in the concatenation ---------------------------------------------------------------

  /** The number of pairs before chunk c. */
  ghost function Offset(chunks: Chunks, c: nat): nat
    requires c <= |chunks|
  {
    if c == 0 then 0 else Offset(chunks, c - 1) + |chunks[c - 1]|
  }

  lemma OffsetStep(chunks: Chunks, c: nat)
    requires c < |chunks|
    ensures Offset(chunks, c + 1) == Offset(chunks, c) + |chunks[c]|
  {}

  lemma {:induction false} OffsetIs(chunks: Chunks, c: nat)
    requires c <= |chunks|
    ensures |AllPairs(chunks[..c])| == Offset(chunks, c)
  {
    if c > 0 {
      OffsetIs(chunks, c - 1);
      assert chunks[..c][..c - 1] == chunks[..c - 1];
    }
  }

  /** Pair p of chunk c in the concatenation. */
  lemma {:induction false} PairAt(chunks: Chunks, c: nat, p: nat, n: nat)
    requires c < n <= |chunks| && p < |chunks[c]|
    ensures Offset(chunks, c) + p < |AllPairs(chunks[..n])|
    ensures AllPairs(chunks[..n])[Offset(chunks, c) + p] == chunks[c][p]
    decreases n
  {
    OffsetIs(chunks, n - 1);
    assert chunks[..n][..n - 1] == chunks[..n - 1];
    if c < n - 1 { PairAt(chunks, c, p, n - 1); }
  }

  lemma PairAtAll(chunks: Chunks, c: nat, p: nat)
    requires c < |chunks| && p < |chunks[c]|
    ensures Offset(chunks, c) + p < |AllPairs(chunks)| && AllPairs(chunks)[Offset(chunks, c) + p] == chunks[c][p]
  {
    PairAt(chunks, c, p, |chunks|);
    assert chunks[..|chunks|] == chunks;
  }

  lemma AllCount(chunks: Chunks)
    ensures |AllPairs(chunks)| == Offset(chunks, |chunks|)
  {
    OffsetIs(chunks, |chunks|);
    assert chunks[..|chunks|] == chunks;
  }

  /** Every place is in some chunk. */
  lemma {:induction false} Locate(chunks: Chunks, i: nat, n: nat) returns (c: nat, p: nat)
    requires n <= |chunks| && i < Offset(chunks, n)
    ensures c < n && p < |chunks[c]| && i == Offset(chunks, c) + p
  {
    if i < Offset(chunks, n - 1) {
      c, p := Locate(chunks, i, n - 1);
    } else {
      c, p := n - 1, i - Offset(chunks, n - 1);
    }
  }

  lemma {:induction false} OffsetsAscend(chunks: Chunks, c: nat, d: nat)
    requires c <= d <= |chunks|
    ensures Offset(chunks, c) <= Offset(chunks, d)
  {
    if c < d { OffsetsAscend(chunks, c, d - 1); }
  }

  /** Where the iterators of both levels stand: the index at entry c, the data iterator, if any, at
      pair p of chunk c. */
  ghost function Place(chunks: Chunks, c: nat, data: Option<nat>): nat
    requires c <= |chunks|
  {
    match data
    case None => |AllPairs(chunks)|
    case Some(p) => Offset(chunks, c) + p
  }

  /** The end of a chunk is the start of the next one, or the end of the table. */
  lemma NextPlace(chunks: Chunks, c: nat)
    requires c < |chunks|
    ensures Place(chunks, c, Some(|chunks[c]|)) == Place(chunks, c + 1, if c + 1 < |chunks| then Some(0) else None)
  {
    AllCount(chunks);
  }

  /** Block handles are told apart by their bytes. */
  lemma HandleBytesDiffer(a: Handle, b: Handle)
    requires a.offset < DWORD && a.size < DWORD && b.offset < DWORD && b.size < DWORD
    ensures HandleBytes(a) == HandleBytes(b) ==> a == b
  {
    HandleRoundTrip(a, []);
    HandleRoundTrip(b, []);
  }

  /** Splitting every place of the table at a target. */
  ghost predicate SplitsAt(chunks: Chunks, target: Bytes, pos: nat) {
    && pos <= |AllPairs(chunks)|
    && (forall i :: 0 <= i < pos ==> KeyLess(AllPairs(chunks)[i].key, target))
    && (forall i :: pos <= i < |AllPairs(chunks)| ==> !KeyLess(AllPairs(chunks)[i].key, target))
  }

  /** The index seek followed by the data seek splits the whole table. */
  lemma SeekSplits(p: Parts, target: Bytes, c: nat, q: nat)
    requires Separated(p.chunks, p.seps) && |target| >= 8 && c < |p.chunks| && q <= |p.chunks[c]|
    requires (forall d :: 0 <= d < c ==> KeyLess(p.seps[d], target)) && !KeyLess(p.seps[c], target)
    requires forall i :: 0 <= i < q ==> KeyLess(p.chunks[c][i].key, target)
    requires forall i :: q <= i < |p.chunks[c]| ==> !KeyLess(p.chunks[c][i].key, target)
    ensures SplitsAt(p.chunks, target, Offset(p.chunks, c) + q)
  {
    hide Separated, AllPairs, KeyLess, Offset, SeparatedAt;
    var chunks := p.chunks;
    AllCount(chunks);
    OffsetStep(chunks, c);
    OffsetsAscend(chunks, c + 1, |chunks|);
    forall i | 0 <= i < |AllPairs(chunks)| ensures KeyLess(AllPairs(chunks)[i].key, target) <==>
        i < Offset(chunks, c) + q {
      var d, j := Locate(chunks, i, |chunks|);
      PairAtAll(chunks, d, j);
      OffsetStep(chunks, d);
      var x := chunks[d][j];
      assert x in chunks[d];
      if d < c {
        EarlierChunks(chunks, p.seps, target, d, x);
        OffsetsAscend(chunks, d + 1, c);
      } else if d > c {
        LaterChunks(chunks, p.seps, target, c, d, x);
        OffsetsAscend(chunks, c + 1, d);
      }
    }
  }

  lemma SeekPastEnd(p: Parts, target: Bytes)
    requires Separated(p.chunks, p.seps) && |target| >= 8 && forall d :: 0 <= d < |p.seps| ==>
        KeyLess(p.seps[d], target)
    ensures SplitsAt(p.chunks, target, |AllPairs(p.chunks)|)
  {
    hide SeparatedAt, AllPairs, KeyLess, Ascending;
    AllCount(p.chunks);
    forall i | 0 <= i < |AllPairs(p.chunks)| ensures KeyLess(AllPairs(p.chunks)[i].key, target) {
      var d, j := Locate(p.chunks, i, |p.chunks|);
      PairAtAll(p.chunks, d, j);
      assert p.chunks[d][j] in p.chunks[d];
      EarlierChunks(p.chunks, p.seps, target, d, p.chunks[d][j]);
    }
  }

  class TwoLevelIterator {
    const table: Table
    const indexIter: BlockIter
    var dataIter: BlockIter?
    var dataBlockHandle: Bytes

    ghost function Chunks(): seq<seq<Pair>> { table.parts.chunks }

    ghost predicate IndexOk()
      reads this, indexIter
    {
      && table.Valid() && indexIter.Ok() && indexIter.less == KeyLess
      && indexIter.pairs == IndexPairs(table.parts.seps, table.parts.handles)
    }

    /** The data iterator, if there is one, is over the block its handle names. */
    ghost predicate DataOk()
      reads this, dataIter
    {
      dataIter != null ==>
        && dataIter != indexIter && dataIter.Ok() && dataIter.less == KeyLess
        && exists c :: DataOf(c)
    }

    ghost predicate DataOf(c: nat)
      reads this, dataIter
    {
      && dataIter != null && c < |Chunks()| == |table.parts.handles|
      && dataIter.pairs == Chunks()[c] && dataBlockHandle == HandleBytes(table.parts.handles[c])
    }

    /** Between the two levels: the data iterator is over the index iterator's block. */
    ghost predicate Paired()
      reads this, indexIter, dataIter
    {
      && IndexOk() && DataOk() && indexIter.pos <= |Chunks()|
      && (dataIter != null ==> indexIter.pos < |Chunks()| && DataOf(indexIter.pos))
    }

    /** Where the iterator is in the concatenation of the blocks. */
    ghost function Pos(): nat
      requires Paired()
      reads this, indexIter, dataIter
    {
      Place(Chunks(), indexIter.pos, if dataIter == null then None else Some(dataIter.pos))
    }

    ghost predicate Ok()
      reads this, indexIter, dataIter
    {
      Paired() && (dataIter != null ==> dataIter.pos < |dataIter.pairs|)
    }

    constructor (table: Table)
      requires table.Valid()
      ensures Ok() && this.table == table && fresh(indexIter) && dataIter == null
      ensures Pos() == |AllPairs(table.parts.chunks)|
    {
      this.table := table;
      KeyLessTransitive();
      IndexAscends(table.parts);
      ghost var restarts, count,
          lay :| BlockOk(table.indexBlock, restarts, count, IndexPairs(table.parts.seps, table.parts.handles), lay);
      var iter := NewIterator(KeyLess, table.indexBlock, restarts, count,
          IndexPairs(table.parts.seps, table.parts.handles), lay);
      indexIter := iter;
      dataIter, dataBlockHandle := null, [];
    }

    method Valid() returns (r: bool)
      requires Ok()
      ensures r <==> Pos() < |AllPairs(Chunks())|
    {
      hide BlockIter.Fixed, BlockIter.StandsAt, AllPairs, Offset, Stored, StoredPairs, BlockOk, TableOk;
      if dataIter != null {
        PairAtAll(Chunks(), indexIter.pos, dataIter.pos);
        dataIter.ValidIsPos();
        r := dataIter.Valid();
      } else {
        r := false;
      }
    }

    method Current() returns (p: Pair)
      requires Ok() && Pos() < |AllPairs(Chunks())|
      ensures p == AllPairs(Chunks())[Pos()]
    {
      hide BlockIter.Fixed, BlockIter.StandsAt, AllPairs, Offset, Stored, StoredPairs, BlockOk, TableOk;
      PairAtAll(Chunks(), indexIter.pos, dataIter.pos);
      dataIter.ValidIsPos();
      p := dataIter.Current();
    }

    /** InitDataBlock: open the block the index iterator points to, unless it is open already. */
    method InitDataBlock()
      requires IndexOk() && DataOk()
      modifies this
      ensures Paired() && (dataIter == null <==> indexIter.pos == |Chunks()|)
      ensures dataIter == old(dataIter) || dataIter == null || fresh(dataIter)
      ensures unchanged(indexIter)
    {
      hide BlockIter.Fixed, BlockIter.StandsAt, Stored, StoredPairs, BlockOk, Ascending;
      indexIter.ValidIsPos();
      if !indexIter.Valid() {
        dataIter := null;
      } else {
        var entry := indexIter.Current();
        ghost var c := indexIter.pos;
        assert entry.value == HandleBytes(table.parts.handles[c]);
        if dataIter != null && entry.value == dataBlockHandle {
          SameBlock(c);
        } else {
          dataIter := OpenBlock(entry.value, c);
          dataBlockHandle := entry.value;
          assert DataOf(c);
        }
      }
    }

    /** Equal handles name the same block. */
    lemma SameBlock(c: nat)
      requires IndexOk() && DataOk() && dataIter != null && c < |Chunks()|
      requires dataBlockHandle == HandleBytes(table.parts.handles[c])
      ensures DataOf(c)
    {
      hide BlockIter.Fixed, BlockIter.Ok, Stored, StoredPairs, BlockOk;
      var d: nat :| DataOf(d);
      var p := table.parts;
      assert StoredPairs(table.step, table.file, p.handles[c], p.chunks[c]) &&
          StoredPairs(table.step, table.file, p.handles[d], p.chunks[d]);
      var contents, restarts, count, lay := StoredContents(table.step, table.file, p.handles[c], p.chunks[c]);
      var contents', restarts', count', lay' := StoredContents(table.step, table.file, p.handles[d], p.chunks[d]);
      HandleBytesDiffer(p.handles[c], p.handles[d]);
    }

    /** BlockReader. */
    method OpenBlock(indexValue: Bytes, ghost c: nat) returns (iter: BlockIter)
      requires table.Valid() && c < |Chunks()| && indexValue == HandleBytes(table.parts.handles[c])
      ensures fresh(iter) && iter.Ok() && iter.less == KeyLess && iter.pairs == Chunks()[c]
    {
      hide Stored, StoredPairs, BlockOk, SeparatedAt;
      var p := table.parts;
      assert StoredPairs(table.step, table.file, p.handles[c], p.chunks[c]);
      ghost var contents, restarts, count, lay := StoredContents(table.step, table.file, p.handles[c], p.chunks[c]);
      HandleRoundTrip(p.handles[c], []);
      assert indexValue + [] == indexValue;
      var h := DecodeHandle(indexValue);
      var block := ReadBlock(table.step, table.file, h.value.0, false);
      KeyLessTransitive();
      iter := NewIterator(KeyLess, block.value, restarts, count, p.chunks[c], lay);
    }

    /** SkipEmptyDataBlocksForward: from the end of a block to the first pair of the next one. */
    method SkipForward()
      requires Paired() && (dataIter == null ==> indexIter.pos == |Chunks()|)
      modifies this, indexIter, dataIter
      ensures Ok() && Pos() == old(Pos())
      ensures dataIter == old(dataIter) || dataIter == null || fresh(dataIter)
    {
      hide BlockIter.Fixed, BlockIter.StandsAt, AllPairs, Offset, Stored, StoredPairs, BlockOk, TableOk;
      IndexSize();
      while true
        invariant Paired() && Pos() == old(Pos()) && (dataIter == null ==> indexIter.pos == |Chunks()|)
        invariant dataIter == old(dataIter) || dataIter == null || fresh(dataIter)
        decreases |Chunks()| - indexIter.pos, dataIter != null
      {
        var valid := false;
        if dataIter != null {
          dataIter.ValidIsPos();
          valid := dataIter.Valid();
        }
        if valid { return; }
        indexIter.ValidIsPos();
        if !indexIter.Valid() {
          dataIter := null;
          return;
        }
        NextPlace(Chunks(), indexIter.pos);
        NextBlock();
      }
    }

    /** Move to next block. */
    method NextBlock()
      requires IndexOk() && DataOk() && indexIter.pos < |Chunks()|
      modifies this, indexIter, dataIter
      ensures Paired() && indexIter.pos == old(indexIter.pos) + 1 && (dataIter == null <==> indexIter.pos == |Chunks()|)
      ensures dataIter != null ==> dataIter.pos == 0
      ensures dataIter == old(dataIter) || dataIter == null || fresh(dataIter)
    {
      hide BlockIter.Fixed, BlockIter.StandsAt, Stored, StoredPairs, BlockOk, TableOk;
      IndexSize();
      indexIter.ValidIsPos();
      indexIter.Next();
      InitDataBlock();
      if dataIter != null { dataIter.SeekToFirst(); }
      assert dataIter != null ==> DataOf(indexIter.pos);
    }

    /** Move to the block before. */
    method PreviousBlock()
      requires IndexOk() && DataOk() && indexIter.pos < |Chunks()|
      modifies this, indexIter, dataIter
      ensures Paired() && indexIter.pos == (if old(indexIter.pos) == 0 then |Chunks()| else old(indexIter.pos) - 1)
      ensures dataIter == null <==> indexIter.pos == |Chunks()|
      ensures dataIter != null ==> dataIter.pos == if |dataIter.pairs| == 0 then 0 else |dataIter.pairs| - 1
      ensures dataIter == old(dataIter) || dataIter == null || fresh(dataIter)
    {
      hide BlockIter.Fixed, BlockIter.StandsAt, Stored, StoredPairs, BlockOk, TableOk;
      IndexSize();
      indexIter.ValidIsPos();
      indexIter.Prev();
      InitDataBlock();
      if dataIter != null { dataIter.SeekToLast(); }
      assert dataIter != null ==> DataOf(indexIter.pos);
    }

    /** Where a backward skip ends up: here, or just before this block. */
    ghost function BackwardPos(): nat
      requires Paired()
      reads this, indexIter, dataIter
    {
      if dataIter != null && dataIter.pos == |dataIter.pairs| then LastBefore(Chunks(), indexIter.pos) else Pos()
    }

    /** SkipEmptyDataBlocksBackward: to the last pair of the closest block before this one that has any. */
    method SkipBackward()
      requires Paired() && (dataIter == null ==> indexIter.pos == |Chunks()|)
      modifies this, indexIter, dataIter
      ensures Ok() && Pos() == old(BackwardPos())
      ensures dataIter == old(dataIter) || dataIter == null || fresh(dataIter)
    {
      hide BlockIter.Fixed, BlockIter.StandsAt, AllPairs, Offset, LastBefore, Stored, StoredPairs, BlockOk, TableOk;
      IndexSize();
      while true
        invariant Paired() && BackwardPos() == old(BackwardPos()) && (dataIter == null ==> indexIter.pos == |Chunks()|)
        invariant dataIter == old(dataIter) || dataIter == null || fresh(dataIter)
        decreases dataIter != null, indexIter.pos
      {
        var valid := false;
        if dataIter != null {
          dataIter.ValidIsPos();
          valid := dataIter.Valid();
        }
        if valid { return; }
        indexIter.ValidIsPos();
        if !indexIter.Valid() {
          dataIter := null;
          return;
        }
        PreviousPlace(Chunks(), indexIter.pos);
        PreviousBlock();
      }
    }

    lemma IndexSize()
      requires IndexOk()
      ensures |indexIter.pairs| == |Chunks()| == |table.parts.handles|
      ensures forall c :: 0 <= c < |Chunks()| ==> Chunks()[c] != []
    {}

    /** The index seek finds the first separator at or after the target. */
    method SeekIndex(target: Bytes)
      requires IndexOk()
      modifies indexIter
      ensures IndexOk() && indexIter.pos <= |Chunks()| == |table.parts.seps|
      ensures Separated(table.parts.chunks, table.parts.seps)
      ensures forall d :: 0 <= d < indexIter.pos ==> KeyLess(table.parts.seps[d], target)
      ensures indexIter.pos < |Chunks()| ==> !KeyLess(table.parts.seps[indexIter.pos], target)
    {
      hide BlockIter.Fixed, BlockIter.StandsAt, TableOk, KeyLess, Separated;
      TableIsSeparated();
      indexIter.Seek(target);
      ghost var c := indexIter.pos;
      forall d | 0 <= d < c ensures KeyLess(table.parts.seps[d],
          target) { assert KeyLess(indexIter.pairs[d].key, target); }
    }

    lemma TableIsSeparated()
      requires IndexOk()
      ensures Separated(table.parts.chunks, table.parts.seps) && |table.parts.seps| == |Chunks()|
      ensures forall c :: 0 <= c < |indexIter.pairs| ==> indexIter.pairs[c].key == table.parts.seps[c]
    {}

    // ---- The iterator's interface ----------------------------------------------------------------

    method Seek(target: Bytes)
      requires Ok() && |target| >= 8
      modifies this, indexIter, dataIter
      ensures Ok() && SplitsAt(Chunks(), target, Pos())
      ensures dataIter == old(dataIter) || dataIter == null || fresh(dataIter)
    {
      hide BlockIter.Fixed, BlockIter.StandsAt, AllPairs, Offset, Stored, StoredPairs, BlockOk, TableOk, Separated,
        SplitsAt, KeyLess;
      IndexSize();
      SeekIndex(target);
      InitDataBlock();
      SeekData(target);
      SkipForward();
    }

    /** The data seek, in the block the index seek found. */
    method SeekData(target: Bytes)
      requires Paired() && |target| >= 8 && (dataIter == null ==> indexIter.pos == |Chunks()|)
      requires Separated(table.parts.chunks, table.parts.seps) && |table.parts.seps| == |Chunks()|
      requires forall d :: 0 <= d < indexIter.pos ==> KeyLess(table.parts.seps[d], target)
      requires indexIter.pos < |Chunks()| ==> !KeyLess(table.parts.seps[indexIter.pos], target)
      modifies dataIter
      ensures Paired() && SplitsAt(Chunks(), target, Pos())
    {
      hide BlockIter.Fixed, BlockIter.StandsAt, AllPairs, Offset, Stored, StoredPairs, BlockOk, TableOk, Separated,
        SplitsAt, KeyLess;
      if dataIter != null {
        dataIter.Seek(target);
        SeekSplits(table.parts, target, indexIter.pos, dataIter.pos);
      } else {
        SeekPastEnd(table.parts, target);
      }
      assert dataIter != null ==> DataOf(indexIter.pos);
    }

    method SeekToFirst()
      requires Ok()
      modifies this, indexIter, dataIter
      ensures Ok() && Pos() == 0
      ensures dataIter == old(dataIter) || dataIter == null || fresh(dataIter)
    {
      hide BlockIter.Fixed, BlockIter.StandsAt, Stored, StoredPairs, BlockOk, TableOk;
      IndexSize();
      indexIter.SeekToFirst();
      InitDataBlock();
      if dataIter != null { dataIter.SeekToFirst(); }
      assert dataIter != null ==> DataOf(indexIter.pos);
      AllCount(Chunks());
      SkipForward();
    }

    method SeekToLast()
      requires Ok()
      modifies this, indexIter, dataIter
      ensures Ok() && Pos() == LastPlace(Chunks())
      ensures dataIter == old(dataIter) || dataIter == null || fresh(dataIter)
    {
      hide BlockIter.Fixed, BlockIter.StandsAt, AllPairs, Offset, LastBefore, Stored, StoredPairs, BlockOk, TableOk;
      IndexSize();
      indexIter.SeekToLast();
      InitDataBlock();
      if dataIter != null { dataIter.SeekToLast(); }
      assert dataIter != null ==> DataOf(indexIter.pos);
      EndPlace(Chunks());
      SkipBackward();
    }

    method Next()
      requires Ok() && Pos() < |AllPairs(Chunks())|
      modifies this, indexIter, dataIter
      ensures Ok() && Pos() == old(Pos()) + 1
      ensures dataIter == old(dataIter) || dataIter == null || fresh(dataIter)
    {
      hide BlockIter.Fixed, BlockIter.StandsAt, AllPairs, Offset, Stored, StoredPairs, BlockOk, TableOk;
      dataIter.ValidIsPos();
      dataIter.Next();
      assert dataIter != null ==> DataOf(indexIter.pos);
      SkipForward();
    }

    method Prev()
      requires Ok() && Pos() < |AllPairs(Chunks())|
      modifies this, indexIter, dataIter
      ensures Ok() && Pos() == if old(Pos()) == 0 then |AllPairs(Chunks())| else old(Pos()) - 1
      ensures dataIter == old(dataIter) || dataIter == null || fresh(dataIter)
    {
      hide BlockIter.Fixed, BlockIter.StandsAt, AllPairs, Offset, Stored, StoredPairs, BlockOk, TableOk;
      dataIter.ValidIsPos();
      dataIter.Prev();
      assert dataIter != null ==> DataOf(indexIter.pos);
      SkipBackward();
    }
  }

  /** The place just before chunk c. */
  ghost function LastBefore(chunks: Chunks, c: nat): nat
    requires c <= |chunks|
  {
    if Offset(chunks, c) == 0 then |AllPairs(chunks)| else Offset(chunks, c) - 1
  }

  /** The last place of all. */
  ghost function LastPlace(chunks: Chunks): nat {
    if AllPairs(chunks) == [] then 0 else |AllPairs(chunks)| - 1
  }

  lemma PreviousPlace(chunks: Chunks, c: nat)
    requires c < |chunks|
    ensures c == 0 ==> LastBefore(chunks, c) == |AllPairs(chunks)|
    ensures c > 0 && chunks[c - 1] == [] ==> LastBefore(chunks, c) == LastBefore(chunks, c - 1)
    ensures c > 0 && chunks[c - 1] != [] ==> LastBefore(chunks, c) == Offset(chunks, c - 1) + |chunks[c - 1]| - 1
  {}

  lemma EndPlace(chunks: Chunks)
    ensures chunks == [] ==> LastPlace(chunks) == |AllPairs(chunks)|
    ensures chunks != [] && chunks[|chunks| - 1] != [] ==>
        LastPlace(chunks) == Offset(chunks, |chunks| - 1) + |chunks[|chunks| - 1]| - 1
  {
    AllCount(chunks);
  }
}
