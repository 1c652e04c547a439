/** Bloom filters (util/bloom.cc). */
module Bloom {
  import opened DbFormat
  import opened Coding
  import opened Bits

  /** The seeded hash of a key; which one does not matter. */
  type Hash = Bytes -> Word

  // ---- Bit arrays --------------------------------------------------------------------------------

  function OrBit(b: byte, j: nat): byte
    requires j < 8
  {
    WithBitFits(b, j, 8);
    assert Pow2(4) == 16 && Pow2(8) == 256;
    WithBit(b, j)
  }

  /** Bit p of a bit array in bytes. */
  predicate Set(field: Bytes, p: nat)
    requires p < 8 * |field|
  {
    Bit(field[p / 8], p % 8)
  }

  function WithSet(field: Bytes, p: nat): (r: Bytes)
    requires p < 8 * |field|
    ensures |r| == |field|
  {
    field[p / 8 := OrBit(field[p / 8], p % 8)]
  }

  lemma WithSetSets(field: Bytes, p: nat, q: nat)
    requires p < 8 * |field| && q < 8 * |field|
    ensures Set(WithSet(field, p), q) <==> q == p || Set(field, q)
  {
    WithBitSets(field[p / 8], p % 8, q % 8);
  }

  // ---- Probes ------------------------------------------------------------------------------------

  /** Rotate right by 17 bits. */
  function Delta(h: Word): Word {
    h / 0x2_0000 + h % 0x2_0000 * 0x8000
  }

  /** The j-th value of the double-hashing sequence, in 32 bits. */
  function ProbeAt(h: Word, delta: Word, j: nat): Word {
    if j == 0 then h else (ProbeAt(h, delta, j - 1) + delta) % WORD
  }

  /** The bit that a probe stands for. */
  function BitPos(h: Word, len: nat): (p: nat)
    requires len > 0
    ensures p < 8 * len
  {
    h % (8 * len)
  }

  /** All of the first k probes of h are set. */
  ghost predicate Probed(field: Bytes, h: Word, k: nat) {
    field != [] && forall j :: 0 <= j < k ==> Set(field, BitPos(ProbeAt(h, Delta(h), j), |field|))
  }

  /** KeyMayMatch as a predicate: k is the last byte of the filter. */
  ghost predicate Matches(hash: Hash, filter: Bytes, key: Bytes) {
    && |filter| >= 2
    && (filter[|filter| - 1] > 30 || Probed(filter[..|filter| - 1], hash(key), filter[|filter| - 1]))
  }

  // ---- Code --------------------------------------------------------------------------------------

  /** The number of probes: 0.69 per bit, between 1 and 30. */
  function ProbeCount(bitsPerKey: nat): (k: byte)
    ensures 1 <= k <= 30
  {
    var k := bitsPerKey * 69 / 100;
    if k < 1 then 1 else if k > 30 then 30 else k
  }

  /** Bytes of a filter with at least so many bits, 64 at the least. */
  function FilterSize(bits: nat): nat { ((if bits < 64 then 64 else bits) + 7) / 8 }

  /** p is one of the first k probes of h. */
  ghost predicate IsProbe(h: Word, k: nat, len: nat, p: nat)
    requires len > 0
  {
    exists j: nat :: j < k && BitPos(ProbeAt(h, Delta(h), j), len) == p
  }

  /** No bit is set but for the keys. */
  ghost predicate OnlyProbes(hash: Hash, field: Bytes, keys: seq<Bytes>, k: nat) {
    forall p :: 0 <= p < 8 * |field| && Set(field, p) ==> SomeProbe(hash, keys, k, |field|, p)
  }

  ghost predicate SomeProbe(hash: Hash, keys: seq<Bytes>, k: nat, len: nat, p: nat) {
    exists n: nat :: KeyProbe(hash, keys, n, k, len, p)
  }

  /** p is a probe of key n. */
  ghost predicate KeyProbe(hash: Hash, keys: seq<Bytes>, n: nat, k: nat, len: nat, p: nat) {
    n < |keys| && len > 0 && IsProbe(hash(keys[n]), k, len, p)
  }

  lemma NoProbes(hash: Hash, field: Bytes, k: nat)
    requires forall i :: 0 <= i < |field| ==> field[i] == 0
    ensures OnlyProbes(hash, field, [], k)
  {
    forall p | 0 <= p < 8 * |field| ensures !Set(field, p) { NoBit(p % 8); }
  }

  lemma MoreProbes(hash: Hash, before: Bytes, field: Bytes, keys: seq<Bytes>, i: nat, k: nat)
    requires i < |keys| && |field| == |before| && OnlyProbes(hash, before, keys[..i], k)
    requires forall p :: 0 <= p < 8 * |field| && Set(field, p) ==>
        Set(before, p) || IsProbe(hash(keys[i]), k, |field|, p)
    ensures OnlyProbes(hash, field, keys[..i + 1], k)
  {
    hide Set, IsProbe;
    forall p | 0 <= p < 8 * |field| && Set(field, p) ensures SomeProbe(hash, keys[..i + 1], k, |field|, p) {
      if Set(before, p) {
        var n: nat :| KeyProbe(hash, keys[..i], n, k, |field|, p);
        assert keys[..i + 1][n] == keys[..i][n];
        assert KeyProbe(hash, keys[..i + 1], n, k, |field|, p);
      } else {
        assert keys[..i + 1][i] == keys[i];
        assert KeyProbe(hash, keys[..i + 1], i, k, |field|, p);
      }
    }
  }

  /** CreateFilter: the filter it appends matches every key it was made from. */
  method CreateFilter(hash: Hash, bitsPerKey: nat, keys: seq<Bytes>, dst: Bytes) returns (r: Bytes, ghost filter: Bytes)
    ensures r == dst + filter
    ensures forall key :: key in keys ==> Matches(hash, filter, key)
    ensures |filter| == FilterSize(|keys| * bitsPerKey) + 1 && filter[|filter| - 1] == ProbeCount(bitsPerKey)
    ensures OnlyProbes(hash, filter[..|filter| - 1], keys, ProbeCount(bitsPerKey))
  {
    var k := ProbeCount(bitsPerKey);
    var bits := |keys| * bitsPerKey;
    if bits < 64 { bits := 64; }
    var bytes := (bits + 7) / 8;
    var field: Bytes := seq(bytes, _ => 0);
    NoProbes(hash, field, k);
    for i := 0 to |keys|
      invariant |field| == bytes && forall n :: 0 <= n < i ==> Probed(field, hash(keys[n]), k)
      invariant OnlyProbes(hash, field, keys[..i], k)
    {
      ghost var before := field;
      field := SetProbes(field, hash(keys[i]), k);
      forall n | 0 <= n < i ensures Probed(field, hash(keys[n]), k) { StillProbed(before, field, hash(keys[n]), k); }
      MoreProbes(hash, before, field, keys, i, k);
    }
    filter := field + [k];
    r := dst + field + [k];
    assert filter[..|filter| - 1] == field && keys[..|keys|] == keys;
  }

  ghost predicate Covers(field: Bytes, before: Bytes) {
    |field| == |before| && forall p :: 0 <= p < 8 * |before| && Set(before, p) ==> Set(field, p)
  }

  lemma StillProbed(before: Bytes, field: Bytes, h: Word, k: nat)
    requires Probed(before, h, k) && Covers(field, before)
    ensures Probed(field, h, k)
  {}

  /** The inner loop of CreateFilter. */
  method SetProbes(field: Bytes, hash: Word, k: nat) returns (r: Bytes)
    requires field != []
    ensures Probed(r, hash, k) && Covers(r, field)
    ensures forall p :: 0 <= p < 8 * |r| && Set(r, p) ==> Set(field, p) || IsProbe(hash, k, |r|, p)
  {
    hide Set, WithSet, IsProbe, BitPos;
    r := field;
    var h := hash;
    var delta := Delta(h);
    var j: nat := 0;
    NoneProbed(field, hash, k);
    while j < k
      invariant j <= k && h == ProbeAt(hash, delta, j) && ProbedSoFar(field, r, hash, k, j)
    {
      ProbeOne(field, r, hash, k, j);
      r := WithSet(r, BitPos(h, |field|));
      h := (h + delta) % WORD;
      j := j + 1;
    }
  }

  /** The first j probes of h are in r, and nothing else that was not in field. */
  ghost predicate ProbedSoFar(field: Bytes, r: Bytes, h: Word, k: nat, j: nat) {
    && field != [] && Probed(r, h, j) && Covers(r, field)
    && |r| == |field| && forall p :: 0 <= p < 8 * |r| && Set(r, p) ==> Set(field, p) || IsProbe(h, k, |field|, p)
  }

  lemma NoneProbed(field: Bytes, h: Word, k: nat)
    requires field != []
    ensures ProbedSoFar(field, field, h, k, 0)
  {}

  lemma ProbeOne(field: Bytes, before: Bytes, h: Word, k: nat, j: nat)
    requires ProbedSoFar(field, before, h, k, j) && j < k
    ensures ProbedSoFar(field, WithSet(before, BitPos(ProbeAt(h, Delta(h), j), |field|)), h, k, j + 1)
  {
    hide Set, WithSet, Delta, BitPos;
    var bitpos := BitPos(ProbeAt(h, Delta(h), j), |field|);
    var r := WithSet(before, bitpos);
    assert IsProbe(h, k, |field|, bitpos);
    forall p | 0 <= p < 8 * |field| ensures Set(r, p) <==>
        p == bitpos || Set(before, p) { WithSetSets(before, bitpos, p); }
  }

  method KeyMayMatch(hash: Hash, key: Bytes, filter: Bytes) returns (r: bool)
    ensures r <==> Matches(hash, filter, key)
  {
    var len := |filter|;
    if len < 2 { return false; }
    var field := filter[..len - 1];
    var k: nat := filter[len - 1];
    if k > 30 { return true; }
    var h := hash(key);
    var delta := Delta(h);
    var j: nat := 0;
    while j < k
      invariant j <= k && h == ProbeAt(hash(key), delta, j) && Probed(field, hash(key), j)
    {
      if !Set(field, BitPos(h, |field|)) { return false; }
      h := (h + delta) % WORD;
      j := j + 1;
    }
    return true;
  }
}

/** One filter for every two kilobytes of data (table/filter_block.cc). */
module FilterBlocks {
  import opened DbFormat
  import opened Coding
  import opened BlockFormat
  import opened Bloom

  const FILTER_BASE_LG: byte := 11
  const FILTER_BASE: nat := 2048

  /** InternalFilterPolicy: filters are over user keys, internal keys without their last 8 bytes. */
  function UserPart(key: Bytes): Bytes
    requires |key| >= 8
  {
    key[..|key| - 8]
  }

  /** A key added while the data block at `offset` was being built. */
  datatype Added = Added(offset: nat, key: Bytes)

  /** The filter of some index matches all the user keys that belong to it. */
  ghost predicate FilterOk(hash: Hash, filter: Bytes, added: seq<Added>, index: nat) {
    forall i :: 0 <= i < |added| && added[i].offset / FILTER_BASE == index && |added[i].key| >= 8
      ==> Matches(hash, filter, UserPart(added[i].key))
  }

  /** The filters laid out so far. */
  ghost predicate FiltersOk(hash: Hash, result: Bytes, offsets: seq<nat>, added: seq<Added>) {
    && (forall i :: 0 <= i < |offsets| ==>
      LimitOf(result, offsets, i) <= |result| && offsets[i] <= LimitOf(result, offsets, i))
    && (forall i :: 0 <= i < |offsets| ==> FilterOk(hash, result[offsets[i]..LimitOf(result, offsets, i)], added, i))
  }

  /** Where filter i ends: at the next one, or at the end of the filters. */
  function LimitOf(result: Bytes, offsets: seq<nat>, i: nat): nat
    requires i < |offsets|
  {
    if i + 1 < |offsets| then offsets[i + 1] else |result|
  }

  function FilterBlock(result: Bytes, offsets: seq<nat>): Bytes {
    result + Words(offsets) + Fixed(4, |result|) + [FILTER_BASE_LG]
  }

  function EndOf(keys: Bytes, start: seq<nat>, i: nat): nat
    requires i < |start|
  {
    if i + 1 < |start| then start[i + 1] else |keys|
  }

  /** Key i, from where it starts to where the next one does. */
  ghost predicate KeyOk(keys: Bytes, start: seq<nat>, i: nat, key: Bytes)
    requires i < |start|
  {
    |key| >= 8 && start[i] <= EndOf(keys, start, i) <= |keys| && keys[start[i]..EndOf(keys, start, i)] == key
  }

  ghost predicate PendingOk(keys: Bytes, start: seq<nat>, pending: seq<Bytes>) {
    |start| == |pending| && forall i :: 0 <= i < |start| ==> KeyOk(keys, start, i, pending[i])
  }

  lemma PendingMore(keys: Bytes, start: seq<nat>, pending: seq<Bytes>, key: Bytes)
    requires PendingOk(keys, start, pending) && |key| >= 8
    ensures PendingOk(keys + key, start + [|keys|], pending + [key])
  {
    var keys', start', pending' := keys + key, start + [|keys|], pending + [key];
    forall i | 0 <= i < |start'| ensures KeyOk(keys', start', i, pending'[i]) {
      if i < |start| {
        assert KeyOk(keys, start, i, pending[i]);
        assert EndOf(keys', start', i) == EndOf(keys, start, i);
        assert keys'[start[i]..EndOf(keys, start, i)] == keys[start[i]..EndOf(keys, start, i)];
      } else {
        assert keys'[|keys|..|keys'|] == key;
      }
    }
  }

  class FilterBlockBuilder {
    const hash: Hash
    const bitsPerKey: nat
    /** The pending keys, flattened, and where each starts. */
    var keys: Bytes
    var start: seq<nat>
    var result: Bytes
    var filterOffsets: seq<nat>
    ghost var pending: seq<Bytes>
    ghost var at: nat
    ghost var added: seq<Added>

    ghost predicate Valid()
      reads this
    {
      && at / FILTER_BASE == |filterOffsets|
      && FiltersOk(hash, result, filterOffsets, added)
      && Pending()
      && (forall i :: 0 <= i < |added| ==> added[i].offset <= at && |added[i].key| >= 8)
      && (forall i :: 0 <= i < |added| && added[i].offset / FILTER_BASE == |filterOffsets| ==> added[i].key in pending)
    }

    /** The flattened keys are the pending ones. */
    ghost predicate Pending()
      reads this
    {
      PendingOk(keys, start, pending)
    }

    constructor (hash: Hash, bitsPerKey: nat)
      ensures Valid() && added == [] && at == 0 && this.hash == hash
    {
      this.hash, this.bitsPerKey := hash, bitsPerKey;
      keys, start, result, filterOffsets := [], [], [], [];
      pending, at, added := [], 0, [];
    }

    method StartBlock(blockOffset: nat)
      requires Valid() && blockOffset >= at
      modifies this
      ensures Valid() && at == blockOffset && added == old(added)
    {
      var filterIndex := blockOffset / FILTER_BASE;
      while filterIndex > |filterOffsets|
        invariant FiltersOk(hash, result, filterOffsets, added) && Pending() && added == old(added) && at == old(at)
        invariant |filterOffsets| <= filterIndex
        invariant forall i :: 0 <= i < |added| ==> added[i].offset <= at && |added[i].key| >= 8
        invariant forall i :: 0 <= i < |added| && added[i].offset / FILTER_BASE == |filterOffsets| ==>
            added[i].key in pending
        invariant at / FILTER_BASE <= |filterOffsets|
      {
        GenerateFilter();
      }
      at := blockOffset;
    }

    method AddKey(key: Bytes)
      requires Valid() && |key| >= 8
      modifies this
      ensures Valid() && at == old(at) && added == old(added) + [Added(at, key)]
    {
      hide PendingOk, FiltersOk;
      PendingMore(keys, start, pending, key);
      start := start + [|keys|];
      keys := keys + key;
      pending := pending + [key];
      ghost var before := added;
      added := added + [Added(at, key)];
      MoreAdded(hash, result, filterOffsets, before, Added(at, key));
    }

    method GenerateFilter()
      requires FiltersOk(hash, result, filterOffsets, added) && Pending()
      requires forall i :: 0 <= i < |added| && added[i].offset / FILTER_BASE == |filterOffsets| ==>
          added[i].key in pending
      modifies this`keys, this`start, this`result, this`filterOffsets, this`pending
      ensures FiltersOk(hash, result, filterOffsets, added) && Pending() && pending == []
      ensures |filterOffsets| == old(|filterOffsets|) + 1
    {
      hide FilterOk, FiltersOk, Matches;
      var numKeys := |start|;
      ghost var index := |filterOffsets|;
      if numKeys == 0 {
        PendingCovered([], [], index);
        OneMoreFilter(hash, result, filterOffsets, added, []);
        filterOffsets := filterOffsets + [|result|];
        assert result + [] == result;
        return;
      }
      start := start + [|keys|];
      assert start[..numKeys] == old(start);
      var tmpKeys := UserKeys(keys, start, pending);
      var more: Bytes; ghost var filter: Bytes;
      more, filter := CreateFilter(hash, bitsPerKey, tmpKeys, result);
      PendingCovered(filter, tmpKeys, index);
      OneMoreFilter(hash, result, filterOffsets, added, filter);
      filterOffsets := filterOffsets + [|result|];
      result := more;
      keys, start, pending := [], [], [];
    }

    /** The pending keys, cut out of the flattened structure, less what the policy leaves out. */
    static method UserKeys(keys: Bytes, start: seq<nat>, ghost pending: seq<Bytes>) returns (tmpKeys: seq<Bytes>)
      requires |start| == |pending| + 1 && start[|pending|] == |keys| && PendingOk(keys, start[..|pending|], pending)
      ensures |tmpKeys| == |pending| && forall n :: 0 <= n < |pending| ==>
          |pending[n]| >= 8 && tmpKeys[n] == UserPart(pending[n])
    {
      tmpKeys := [];
      for i := 0 to |start| - 1
        invariant |tmpKeys| == i && forall n :: 0 <= n < i ==> |pending[n]| >= 8 && tmpKeys[n] == UserPart(pending[n])
      {
        assert KeyOk(keys, start[..|pending|], i, pending[i]);
        tmpKeys := tmpKeys + [UserPart(keys[start[i]..start[i + 1]])];
      }
    }

    lemma PendingCovered(filter: Bytes, tmpKeys: seq<Bytes>, index: nat)
      requires |tmpKeys| == |pending| && forall n :: 0 <= n < |pending| ==>
          |pending[n]| >= 8 && tmpKeys[n] == UserPart(pending[n])
      requires forall key :: key in tmpKeys ==> Matches(hash, filter, key)
      requires forall i :: 0 <= i < |added| && added[i].offset / FILTER_BASE == index ==> added[i].key in pending
      ensures FilterOk(hash, filter, added, index)
    {
      hide Matches;
      forall i | 0 <= i < |added| && added[i].offset / FILTER_BASE == index && |added[i].key| >= 8
        ensures Matches(hash, filter, UserPart(added[i].key))
      {
        var n :| 0 <= n < |pending| && pending[n] == added[i].key;
        assert tmpKeys[n] in tmpKeys;
      }
    }

    method Finish() returns (block: Bytes)
      requires Valid()
      modifies this
      ensures FiltersOk(hash, result, filterOffsets, added) && added == old(added)
      ensures forall i :: 0 <= i < |added| ==> added[i].offset / FILTER_BASE < |filterOffsets| && |added[i].key| >= 8
      ensures block == FilterBlock(result, filterOffsets)
    {
      if start != [] { GenerateFilter(); }
      block := AppendArray(result, filterOffsets);
    }

    static method AppendArray(result: Bytes, offsets: seq<nat>) returns (block: Bytes)
      ensures block == FilterBlock(result, offsets)
    {
      hide Words, Fixed;
      block := result;
      assert Words([]) == [] && result + [] == result;
      for i := 0 to |offsets|
        invariant block == result + Words(offsets[..i])
      {
        WordsGrow(offsets, i);
        var w := EncodeFixed32(offsets[i]);
        block := block + w;
      }
      assert offsets[..|offsets|] == offsets;
      var w := EncodeFixed32(|result|);
      block := block + w + [FILTER_BASE_LG];
    }
  }

  lemma MoreAdded(hash: Hash, result: Bytes, offsets: seq<nat>, added: seq<Added>, a: Added)
    requires FiltersOk(hash, result, offsets, added) && a.offset / FILTER_BASE == |offsets|
    ensures FiltersOk(hash, result, offsets, added + [a])
  {
    forall i | 0 <= i < |offsets| ensures FilterOk(hash, result[offsets[i]..LimitOf(result, offsets, i)], added + [a],
        i) {
      assert FilterOk(hash, result[offsets[i]..LimitOf(result, offsets, i)], added, i);
    }
  }

  lemma OneMoreFilter(hash: Hash, result: Bytes, offsets: seq<nat>, added: seq<Added>, filter: Bytes)
    requires FiltersOk(hash, result, offsets, added) && FilterOk(hash, filter, added, |offsets|)
    ensures FiltersOk(hash, result + filter, offsets + [|result|], added)
  {
    var more, ends := result + filter, offsets + [|result|];
    forall i | 0 <= i < |ends|
      ensures ends[i] <= LimitOf(more, ends, i) <= |more|
      ensures FilterOk(hash, more[ends[i]..LimitOf(more, ends, i)], added, i)
    {
      if i < |offsets| {
        assert LimitOf(more, ends, i) == LimitOf(result, offsets, i);
        assert more[ends[i]..LimitOf(more, ends, i)] == result[offsets[i]..LimitOf(result, offsets, i)];
      } else {
        assert more[|result|..|more|] == filter;
      }
    }
  }

  // ---- Reading -----------------------------------------------------------------------------------

  /** Where the array of filter offsets starts, how many there are, and the log of the span of a filter. */
  datatype Index = Index(at: nat, num: nat, lg: byte)

  function Open(contents: Bytes): (r: Index)
    ensures r.num > 0 ==> r.at + 4 * r.num + 5 <= |contents|
  {
    var n := |contents|;
    if n < 5 then Index(0, 0, 0)
    else
      var last := FixedValue(contents[n - 5..n - 1]);
      if last > n - 5 then Index(0, 0, contents[n - 1]) else Index(last, (n - 5 - last) / 4, contents[n - 1])
  }

  function WordOf(contents: Bytes, at: nat): nat
    requires at + 4 <= |contents|
  {
    FixedValue(contents[at..at + 4])
  }

  /** x >> n. */
  function ShiftRight(x: nat, n: nat): nat {
    if n == 0 then x else ShiftRight(x / 2, n - 1)
  }

  /** The filter for a data block at this offset. */
  function IndexOf(o: Index, blockOffset: nat): nat { ShiftRight(blockOffset, o.lg) }

  /** FilterBlockReader::KeyMayMatch. */
  ghost predicate MayMatch(hash: Hash, contents: Bytes, blockOffset: nat, key: Bytes)
    requires |key| >= 8
  {
    var o := Open(contents);
    var index := IndexOf(o, blockOffset);
    index < o.num ==>
      (var from, limit := WordOf(contents, o.at + 4 * index), WordOf(contents, o.at + 4 * index + 4);
       if from <= limit <= o.at then Matches(hash, contents[from..limit], UserPart(key)) else from != limit)
  }

  class FilterBlockReader {
    const hash: Hash
    const contents: Bytes
    const header: Index

    ghost predicate Valid() {
      header == Open(contents)
    }

    constructor (hash: Hash, contents: Bytes)
      ensures Valid() && this.hash == hash && this.contents == contents
    {
      this.hash, this.contents := hash, contents;
      var o, n := Index(0, 0, 0), |contents|;
      if n >= 5 {
        var lastWord := DecodeFixed32(contents[n - 5..]);
        assert contents[n - 5..][..4] == contents[n - 5..n - 1];
        o := if lastWord > n - 5 then
          Index(0, 0, contents[n - 1]) else Index(lastWord, (n - 5 - lastWord) / 4, contents[n - 1]);
      }
      header := o;
    }

    method ReadWord(at: nat) returns (w: nat)
      requires at + 4 <= |contents|
      ensures w == WordOf(contents, at)
    {
      assert contents[at..][..4] == contents[at..at + 4];
      w := DecodeFixed32(contents[at..]);
    }

    method KeyMayMatch(blockOffset: nat, key: Bytes) returns (r: bool)
      requires Valid() && |key| >= 8
      ensures r <==> MayMatch(hash, contents, blockOffset, key)
    {
      hide FixedValue, Matches, IndexOf, Open;
      var index := IndexOf(header, blockOffset);
      if index < header.num {
        var at := header.at + index * 4;
        var from := ReadWord(at);
        var limit := ReadWord(at + 4);
        if from <= limit && limit <= header.at {
          r := Bloom.KeyMayMatch(hash, UserPart(key), contents[from..limit]);
          return;
        } else if from == limit {
          return false;
        }
      }
      return true;
    }
  }

  lemma ShiftByFour(x: nat, n: nat)
    ensures ShiftRight(x, n + 4) == ShiftRight(x / 16, n)
  {
    assert ShiftRight(x, n + 4) == ShiftRight(x / 4, n + 2);
    assert x / 4 / 4 == x / 16;
  }

  lemma BaseSpan(x: nat)
    ensures ShiftRight(x, FILTER_BASE_LG) == x / FILTER_BASE
  {
    ShiftByFour(x, 7);
    ShiftByFour(x / 16, 3);
    assert x / 16 / 16 == x / 256;
    var y := x / 256;
    assert ShiftRight(y, 3) == ShiftRight(y / 2, 2);
    assert ShiftRight(y / 2, 2) == y / 2 / 2 / 2;
  }

  lemma OpenBuilt(result: Bytes, offsets: seq<nat>)
    requires |result| < WORD
    ensures Open(FilterBlock(result, offsets)) == Index(|result|, |offsets|, FILTER_BASE_LG)
  {
    hide Words, Fixed, FixedValue;
    var c := FilterBlock(result, offsets);
    assert c[|c| - 5..|c| - 1] == Fixed(4, |result|);
    FixedWords(|result|);
  }

  /** The reader finds the ends of filter i where the builder put them. */
  lemma FilterEnds(hash: Hash, result: Bytes, offsets: seq<nat>, added: seq<Added>, i: nat)
    requires |result| < WORD && FiltersOk(hash, result, offsets, added) && i < |offsets|
    ensures var c := FilterBlock(result, offsets);
            WordOf(c, |result| + 4 * i) == offsets[i] && WordOf(c, |result| + 4 * i + 4) == LimitOf(result, offsets, i)
  {
    hide Words, Fixed, FixedValue, FilterOk;
    var c := FilterBlock(result, offsets);
    assert offsets[i] <= LimitOf(result, offsets, i) <= |result|;
    WordAt(offsets, i);
    assert c[|result| + 4 * i..|result| + 4 * i + 4] == Words(offsets)[4 * i..4 * i + 4];
    FixedWords(offsets[i]);
    FixedWords(LimitOf(result, offsets, i));
    if i + 1 < |offsets| {
      WordAt(offsets, i + 1);
      assert c[|result| + 4 * i + 4..|result| + 4 * i + 8] == Words(offsets)[4 * (i + 1)..4 * (i + 1) + 4];
    } else {
      assert c[|result| + 4 * i + 4..|result| + 4 * i + 8] == Fixed(4, |result|);
    }
  }

  /** No false negatives: a key is found under the offset of the data block it was added to. */
  lemma NoFalseNegatives(hash: Hash, result: Bytes, offsets: seq<nat>, added: seq<Added>, i: nat)
    requires |result| < WORD && FiltersOk(hash, result, offsets, added)
    requires i < |added| && |added[i].key| >= 8 && added[i].offset / FILTER_BASE < |offsets|
    ensures MayMatch(hash, FilterBlock(result, offsets), added[i].offset, added[i].key)
  {
    hide Words, Fixed, FixedValue, Matches;
    var c := FilterBlock(result, offsets);
    var index := added[i].offset / FILTER_BASE;
    OpenBuilt(result, offsets);
    BaseSpan(added[i].offset);
    FilterEnds(hash, result, offsets, added, index);
    var from, limit := offsets[index], LimitOf(result, offsets, index);
    assert FilterOk(hash, result[from..limit], added, index);
    assert c[from..limit] == result[from..limit];
  }
}
