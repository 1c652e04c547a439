/** The file formats byte by byte, on small examples: what another implementation would have to write. */
module Layouts {
  import opened DbFormat
  import opened Coding
  import LogFormat
  import WriteBatches
  import VersionEdits
  import TableFormat
  import Bloom
  import FilterBlocks
  import BlockFormat
  import MemTables

  /** Low bytes come first. */
  lemma FourBytes(a: byte, b: byte, c: byte, d: byte)
    ensures Fixed(4, a + 0x100 * b + 0x1_0000 * c + 0x100_0000 * d) == [a, b, c, d]
  {
    var v := a + 0x100 * b + 0x1_0000 * c + 0x100_0000 * d;
    assert v % 256 == a && v / 256 == b + 0x100 * c + 0x1_0000 * d;
    assert Fixed(4, v) == [a] + Fixed(3, b + 0x100 * c + 0x1_0000 * d);
    assert Fixed(3, b + 0x100 * c + 0x1_0000 * d) == [b] + Fixed(2, c + 0x100 * d);
    assert Fixed(2, c + 0x100 * d) == [c] + Fixed(1, d);
    assert Fixed(1, d) == [d];
  }

  lemma {:induction false} FixedSplit(n: nat, low: nat, high: nat)
    requires low < Pow256(n)
    ensures Fixed(n + 4, low + Pow256(n) * high) == Fixed(n, low) + Fixed(4, high)
  {
    if n > 0 {
      var rest := Pow256(n - 1) * high;
      assert Pow256(n) * high == 256 * rest;
      assert (low + 256 * rest) % 256 == low % 256 && (low + 256 * rest) / 256 == low / 256 + rest;
      FixedSplit(n - 1, low / 256, high);
    } else {
      assert Fixed(0, low) + Fixed(4, high) == Fixed(4, high);
    }
  }

  lemma EightBytes(low: nat, high: nat)
    requires low < WORD
    ensures Fixed(8, low + WORD * high) == Fixed(4, low) + Fixed(4, high)
  {
    assert Pow256(2) == 0x1_0000;
    assert Pow256(4) == WORD;
    FixedSplit(4, low, high);
  }

  /** Seven bits to a byte, low bits first. */
  lemma VarintBytes()
    ensures Varint(127) == [0x7f] && Varint(300) == [0xac, 0x02]
  {
    assert Varint(300) == [300 % 128 + 128] + Varint(300 / 128);
  }

  /** A checksum is rotated right by 15 bits before a constant is added. */
  lemma MaskedWords()
    ensures LogFormat.Mask(0) == 0xa282_ead8 && LogFormat.Mask(1) == 0xa284_ead8
    ensures LogFormat.Mask(0x8000) == 0xa282_ead9
  {}

  /** A record whose checksum before masking is 1: masked checksum, length, type, payload. */
  lemma RecordBytes()
    ensures LogFormat.Physical((crc, b) => 1, LogFormat.FULL_TYPE, [7]) == [0xd8, 0xea, 0x84, 0xa2, 1, 0, 1, 7]
  {
    FourBytes(0xd8, 0xea, 0x84, 0xa2);
    var step: LogFormat.CrcStep := (crc, b) => 1;
    assert [1] + [7] == [1, 7];
    assert LogFormat.Extend(step, 0, [1, 7]) == LogFormat.Extend(step, 1, [7]) == LogFormat.Extend(step, 1, []);
  }

  /** A record that does not fit in what is left of a block of 32768 bytes is cut in two. */
  lemma CutAtBlockEnd(step: LogFormat.CrcStep)
    ensures LogFormat.Emit(step, 32761, [7], true) ==
        LogFormat.Physical(step, 2, []) + LogFormat.Physical(step, 4, [7])
  {
    hide LogFormat.Physical;
    var first, last := LogFormat.Piece(step, 32761, [7], true), LogFormat.Piece(step, 32768, [7], false);
    assert [7][..0] == [] && [7][..1] == [7] && [7][0..] == [7];
    assert LogFormat.Chunk(32761, 1) == 0 && LogFormat.Chunk(32768, 1) == 1;
    assert first == LogFormat.Physical(step, 2, []);
    assert last == LogFormat.Physical(step, 4, [7]);
    assert LogFormat.Emit(step, 32768, [7], false) == last;
  }

  /** Where not even a header fits, the rest of the block is zeros. */
  lemma ZerosAtBlockEnd(step: LogFormat.CrcStep)
    ensures LogFormat.Emit(step, 32762, [7], true) == [0, 0, 0, 0, 0, 0] + LogFormat.Physical(step, 1, [7])
  {
    hide LogFormat.Physical;
    assert LogFormat.Chunk(32762, 1) == 1 && [7][..1] == [7];
    assert Zeros(6) == [0] + Zeros(5) == [0, 0] + Zeros(4) == [0, 0, 0] + Zeros(3) == [0, 0, 0, 0] + Zeros(2);
    assert Zeros(6) == [0, 0, 0, 0, 0, 0];
  }

  /** The tags of an update. */
  lemma UpdateBytes()
    ensures WriteBatches.Bytewise(WriteBatches.Put([7], [8, 9])) == [1, 1, 7, 2, 8, 9]
    ensures WriteBatches.Bytewise(WriteBatches.Delete([7])) == [0, 1, 7]
  {}

  /** The tags of a version edit. */
  lemma EditBytes()
    ensures VersionEdits.Record(VersionEdits.Edit(Some([97]), Some(3), Some(4), Some(5), Some(6), [], [], [])) ==
        [1, 1, 97, 2, 3, 9, 4, 3, 5, 4, 6]
  {
    hide VersionEdits.PointerBytes, VersionEdits.DeletionBytes, VersionEdits.AdditionBytes;
    assert VersionEdits.Name(Some([97])) == [1, 1, 97];
    hide VersionEdits.Name, Prefixed;
    assert VersionEdits.Number(2, Some(3)) == [2, 3] && VersionEdits.Number(9, Some(4)) == [9, 4];
    assert VersionEdits.Number(3, Some(5)) == [3, 5] && VersionEdits.Number(4, Some(6)) == [4, 6];
    hide VersionEdits.Number;
    assert [1, 1, 97] + ([2, 3] + ([9, 4] + ([3, 5] + [4, 6]))) == [1, 1, 97, 2, 3, 9, 4, 3, 5, 4, 6];
    assert [4, 6] + ([] + ([] + [])) == [4, 6];
  }

  lemma ListBytes()
    ensures VersionEdits.PointerBytes((2, [97])) == [5, 2, 1, 97]
    ensures VersionEdits.DeletionBytes((1, 8)) == [6, 1, 8]
    ensures VersionEdits.AdditionBytes((2, VersionEdits.FileMetaData(8, 100, [98], [99]))) ==
        [7, 2, 8, 100, 1, 98, 1, 99]
  {}

  /** A block entry: bytes shared with the key before, bytes not shared, length of the value. */
  lemma EntryBytes()
    ensures BlockFormat.EntryBytes(1, [98], [7, 8]) == [1, 1, 2, 98, 7, 8]
  {}

  /** The last eight bytes of a table. */
  lemma MagicBytes(meta: TableFormat.Handle, index: TableFormat.Handle)
    requires |TableFormat.HandleBytes(meta) + TableFormat.HandleBytes(index)| <= 40
    ensures TableFormat.Footer(meta, index)[40..] == [0x57, 0xfb, 0x80, 0x8b] + [0x24, 0x75, 0x47, 0xdb]
  {
    hide TableFormat.HandleBytes, Fixed;
    FourBytes(0x57, 0xfb, 0x80, 0x8b);
    FourBytes(0x24, 0x75, 0x47, 0xdb);
    EightBytes(0x8b80_fb57, 0xdb47_7524);
  }

  /** The five bytes behind a block whose checksum before masking is 1. */
  lemma TrailerBytes()
    ensures TableFormat.Trailer((crc, b) => 1, []) == [0, 0xd8, 0xea, 0x84, 0xa2]
  {
    FourBytes(0xd8, 0xea, 0x84, 0xa2);
    var step: LogFormat.CrcStep := (crc, b) => 1;
    assert [] + [0] == [0];
    assert LogFormat.Extend(step, 0, [0]) == LogFormat.Extend(step, 1, []);
  }

  /** An internal key ends in eight bytes, the type first and then the sequence number. */
  lemma InternalKeyBytes()
    ensures MemTables.InternalKey([97], 0x0203, Value) == [97] + ([1, 3, 2, 0] + [0, 0, 0, 0])
    ensures MemTables.InternalKey([97], 0x0203, Deletion) == [97] + ([0, 3, 2, 0] + [0, 0, 0, 0])
  {
    hide Fixed;
    FourBytes(1, 3, 2, 0);
    FourBytes(0, 3, 2, 0);
    FourBytes(0, 0, 0, 0);
    EightBytes(0x0002_0301, 0);
    EightBytes(0x0002_0300, 0);
  }

  /** A filter block: the filters, where each starts, where that list starts, and the base of 2048 as a power. */
  lemma FilterBlockBytes()
    ensures FilterBlocks.FilterBlock([1, 2, 3], [0, 2]) ==
        [1, 2, 3] + ([0, 0, 0, 0] + [2, 0, 0, 0]) + [3, 0, 0, 0] + [11]
  {
    FourBytes(0, 0, 0, 0);
    FourBytes(2, 0, 0, 0);
    FourBytes(3, 0, 0, 0);
    hide Fixed;
    assert [0, 2][..1] == [0] && [0][..0] == [];
    var none: seq<nat> := [];
    assert BlockFormat.Words(none) == [];
    assert BlockFormat.Words([0]) == [0, 0, 0, 0];
  }

  /** The probes of a key in a Bloom filter are its hash plus multiples of the hash rotated right by 17 bits. */
  lemma {:induction false} ProbesOf(h: Word, delta: Word, j: nat)
    ensures Bloom.ProbeAt(h, delta, j) == (h + j * delta) % WORD
  {
    if j > 0 {
      ProbesOf(h, delta, j - 1);
      var before := h + (j - 1) * delta;
      assert h + j * delta == before + delta;
      WrapsOnce(before, delta);
    }
  }

  lemma WrapsOnce(a: nat, b: nat)
    ensures (a % WORD + b) % WORD == (a + b) % WORD
  {
    assert a == WORD * (a / WORD) + a % WORD;
  }

  lemma BloomNumbers()
    ensures Bloom.Delta(1) == 0x8000 && Bloom.Delta(0x2_0000) == 1
    ensures Bloom.ProbeCount(1) == 1 && Bloom.ProbeCount(10) == 6 && Bloom.ProbeCount(100) == 30
    ensures Bloom.FilterSize(1) == 8 && Bloom.FilterSize(100) == 13
  {}
}
