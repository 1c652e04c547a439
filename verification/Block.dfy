/** The bytes of a block: prefix-compressed entries, then the restart array (table/block_builder.cc). */
module BlockFormat {
  import opened DbFormat
  import opened Coding

  datatype Pair = Pair(key: Bytes, value: Bytes)

  /** The comparator: less(a, b) is Compare(a, b) < 0. */
  type Order = (Bytes, Bytes) -> bool

  ghost predicate Transitive(less: Order) {
    forall a, b, c :: less(a, b) && less(b, c) ==> less(a, c)
  }

  ghost predicate Ascending(less: Order, pairs: seq<Pair>) {
    forall i, j :: 0 <= i < j < |pairs| ==> less(pairs[i].key, pairs[j].key)
  }

  /** One entry: shared, non-shared and value lengths, the rest of the key, the value. */
  function EntryBytes(shared: nat, suffix: Bytes, value: Bytes): Bytes {
    Varint(shared) + Varint(|suffix|) + Varint(|value|) + suffix + value
  }

  /** Where things are: offs[i] is the offset of entry i (the last one is the end of the entries),
      shares[i] how much of its key it takes from the one before, heads[r] the entry at restart r. */
  datatype Layout = Layout(offs: seq<nat>, shares: seq<nat>, heads: seq<nat>)

  ghost predicate EntryOk(data: Bytes, pairs: seq<Pair>, lay: Layout, i: nat)
    requires i < |pairs| && |lay.offs| == |pairs| + 1 && |lay.shares| == |pairs|
  {
    var k, n := pairs[i].key, lay.shares[i];
    && lay.offs[i] < lay.offs[i + 1] <= |data|
    && n <= |k| < WORD && |pairs[i].value| < WORD
    && (n > 0 ==> i > 0 && n <= |pairs[i - 1].key| && pairs[i - 1].key[..n] == k[..n])
    && data[lay.offs[i]..lay.offs[i + 1]] == EntryBytes(n, k[n..], pairs[i].value)
  }

  ghost predicate Entries(data: Bytes, pairs: seq<Pair>, lay: Layout) {
    && |lay.offs| == |pairs| + 1 && |lay.shares| == |pairs|
    && lay.offs[0] == 0 && lay.offs[|pairs|] == |data|
    && forall i :: 0 <= i < |pairs| ==> EntryOk(data, pairs, lay, i)
  }

  ghost predicate Heads(pairs: seq<Pair>, lay: Layout)
    requires |lay.shares| == |pairs|
  {
    && |lay.heads| > 0 && lay.heads[0] == 0
    && (forall r, q :: 0 <= r < q < |lay.heads| ==> lay.heads[r] < lay.heads[q] < |pairs|)
    && forall r :: 0 <= r < |lay.heads| && lay.heads[r] < |pairs| ==> lay.shares[lay.heads[r]] == 0
  }

  ghost predicate Laid(data: Bytes, pairs: seq<Pair>, lay: Layout) {
    Entries(data, pairs, lay) && Heads(pairs, lay)
  }

  lemma {:induction false} OffsAscend(data: Bytes, pairs: seq<Pair>, lay: Layout, i: nat, j: nat)
    requires Entries(data, pairs, lay) && i <= j <= |pairs|
    ensures lay.offs[i] <= lay.offs[j] && (i < j ==> lay.offs[i] < lay.offs[j])
    decreases j
  {
    if i < j {
      OffsAscend(data, pairs, lay, i, j - 1);
      assert EntryOk(data, pairs, lay, j - 1);
    }
  }

  /** The restart array and its length. */
  function Words(ns: seq<nat>): (r: Bytes)
    ensures |r| == 4 * |ns|
  {
    if ns == [] then [] else Words(ns[..|ns| - 1]) + Fixed(4, ns[|ns| - 1])
  }

  lemma WordsGrow(ns: seq<nat>, i: nat)
    requires i < |ns|
    ensures Words(ns[..i + 1]) == Words(ns[..i]) + Fixed(4, ns[i])
  {
    assert ns[..i + 1][..i] == ns[..i];
  }

  lemma {:induction false} WordAt(ns: seq<nat>, i: nat)
    requires i < |ns|
    ensures Words(ns)[4 * i..4 * i + 4] == Fixed(4, ns[i])
  {
    hide Fixed;
    var last := |ns| - 1;
    if i < last {
      WordAt(ns[..last], i);
      assert Words(ns)[4 * i..4 * i + 4] == Words(ns[..last])[4 * i..4 * i + 4];
    }
  }

  /** A finished block. */
  function Finished(entries: Bytes, restarts: seq<nat>): Bytes {
    entries + Words(restarts) + Fixed(4, |restarts|)
  }

  /** A finished block: entries up to `restarts`, then the restart array of `count` words. */
  ghost predicate BlockOk(data: Bytes, restarts: nat, count: nat, pairs: seq<Pair>, lay: Layout) {
    && restarts + 4 * count + 4 == |data| < WORD
    && Laid(data[..restarts], pairs, lay) && count == |lay.heads| && FixedValue(data[restarts + 4 * count..]) == count
    && forall r :: 0 <= r < count ==> RestartOk(data, restarts, pairs, lay, r)
  }

  ghost predicate RestartOk(data: Bytes, restarts: nat, pairs: seq<Pair>, lay: Layout, r: nat)
    requires r < |lay.heads| && restarts + 4 * r + 4 <= |data| && Laid(data[..restarts], pairs, lay)
  {
    FixedValue(data[restarts + 4 * r..restarts + 4 * r + 4]) == lay.offs[lay.heads[r]]
  }

  lemma FinishedOk(entries: Bytes, restarts: seq<nat>, pairs: seq<Pair>, lay: Layout)
    requires Laid(entries, pairs, lay) && |entries| + 4 * |restarts| + 4 < WORD
    requires |restarts| == |lay.heads| && forall r :: 0 <= r < |restarts| ==> restarts[r] == lay.offs[lay.heads[r]]
    ensures BlockOk(Finished(entries, restarts), |entries|, |restarts|, pairs, lay)
  {
    hide Words, Fixed, FixedValue, EntryOk;
    var data := Finished(entries, restarts);
    assert data[..|entries|] == entries;
    FixedWords(|restarts|);
    assert data[|entries| + 4 * |restarts|..] == Fixed(4, |restarts|);
    forall r | 0 <= r < |restarts| ensures RestartOk(data, |entries|, pairs, lay, r) {
      WordAt(restarts, r);
      assert data[|entries| + 4 * r..|entries| + 4 * r + 4] == Words(restarts)[4 * r..4 * r + 4];
      OffsAscend(entries, pairs, lay, lay.heads[r], |pairs|);
      FixedWords(restarts[r]);
    }
  }

  /** Adding an entry at the end. */
  function Extended(pairs: seq<Pair>, lay: Layout, data: Bytes, shared: nat, restart: bool): Layout {
    Layout(lay.offs + [|data|], lay.shares + [shared], if restart then lay.heads + [|pairs|] else lay.heads)
  }

  lemma EntriesExtend(data: Bytes, pairs: seq<Pair>, lay: Layout, p: Pair, shared: nat, restart: bool)
    requires Entries(data, pairs, lay) && |p.key| < WORD && |p.value| < WORD && shared <= |p.key|
    requires shared > 0 ==>
        pairs != [] && shared <= |pairs[|pairs| - 1].key| && pairs[|pairs| - 1].key[..shared] == p.key[..shared]
    ensures var more := data + EntryBytes(shared, p.key[shared..], p.value);
            Entries(more, pairs + [p], Extended(pairs, lay, more, shared, restart))
  {
    var e := EntryBytes(shared, p.key[shared..], p.value);
    var more, all := data + e, pairs + [p];
    var lay' := Extended(pairs, lay, more, shared, restart);
    forall i | 0 <= i < |all| ensures EntryOk(more, all, lay', i) {
      if i < |pairs| {
        assert EntryOk(data, pairs, lay, i);
        assert more[lay.offs[i]..lay.offs[i + 1]] == data[lay.offs[i]..lay.offs[i + 1]];
      } else {
        assert more[|data|..|more|] == e;
      }
    }
  }
}

/** BlockBuilder. */
module BlockBuilders {
  import opened DbFormat
  import opened Coding
  import opened BlockFormat

  ghost predicate Building(interval: nat, buffer: Bytes, restarts: seq<nat>, counter: nat, lastKey: Bytes,
      pairs: seq<Pair>, lay: Layout) {
    && Laid(buffer, pairs, lay)
    && |restarts| == |lay.heads| && (forall r :: 0 <= r < |restarts| ==> restarts[r] == lay.offs[lay.heads[r]])
    && lastKey == (if pairs == [] then [] else pairs[|pairs| - 1].key)
    && counter == |pairs| - lay.heads[|lay.heads| - 1] <= interval
    && (forall r :: 0 <= r < |lay.heads| - 1 ==> lay.heads[r + 1] == lay.heads[r] + interval)
  }

  lemma AddKeeps(interval: nat, buffer: Bytes, restarts: seq<nat>, counter: nat, lastKey: Bytes, pairs: seq<Pair>,
      lay: Layout, p: Pair, shared: nat)
    requires Building(interval, buffer, restarts, counter, lastKey, pairs, lay) && interval >= 1
    requires |p.key| < WORD && |p.value| < WORD && shared <= |p.key| && shared <= |lastKey|
    requires lastKey[..shared] == p.key[..shared]
    requires counter == interval || counter == 0 ==> shared == 0
    ensures var restart := counter == interval;
            var more := buffer + EntryBytes(shared, p.key[shared..], p.value);
            Building(interval, more, if restart then restarts + [|buffer|] else restarts,
              if restart then 1 else counter + 1,
                     p.key, pairs + [p], Extended(pairs, lay, more, shared, restart))
  {
    hide EntryBytes, EntryOk;
    EntriesExtend(buffer, pairs, lay, p, shared, counter == interval);
  }

  class BlockBuilder {
    const interval: nat
    var buffer: Bytes
    var restarts: seq<nat>
    var counter: nat
    var lastKey: Bytes
    var finished: bool
    ghost var pairs: seq<Pair>
    ghost var lay: Layout

    /** The buffer holds the pairs added so far; a restart point stands at every interval-th entry. */
    ghost predicate Valid()
      reads this
    {
      !finished && Building(interval, buffer, restarts, counter, lastKey, pairs, lay)
    }

    constructor (interval: nat)
      requires interval >= 1
      ensures Valid() && pairs == [] && this.interval == interval && CurrentSizeEstimate() == 8
    {
      this.interval := interval;
      buffer, restarts, counter, lastKey, finished := [], [0], 0, [], false;
      pairs, lay := [], Layout([0], [], [0]);
    }

    method Reset()
      modifies this
      ensures Valid() && pairs == []
    {
      buffer, restarts, counter, lastKey, finished := [], [0], 0, [], false;
      pairs, lay := [], Layout([0], [], [0]);
    }

    predicate Empty()
      reads this
    {
      buffer == []
    }

    lemma EmptyIsEmpty()
      requires Valid()
      ensures Empty() <==> pairs == []
    {
      OffsAscend(buffer, pairs, lay, 0, |pairs|);
    }

    function CurrentSizeEstimate(): (r: nat)
      reads this
    {
      |buffer| + |restarts| * 4 + 4
    }

    method Finish() returns (block: Bytes)
      requires Valid() && CurrentSizeEstimate() < WORD
      modifies this
      ensures |block| == old(CurrentSizeEstimate()) && BlockOk(block, old(|buffer|), old(|restarts|), pairs, lay)
      ensures pairs == old(pairs) && finished
    {
      hide Words, Fixed;
      ghost var entries := buffer;
      FinishedOk(buffer, restarts, pairs, lay);
      assert Words([]) == [] && buffer + [] == buffer;
      for i := 0 to |restarts|
        invariant restarts == old(restarts) && pairs == old(pairs) && lay == old(lay)
        invariant buffer == entries + Words(restarts[..i])
      {
        WordsGrow(restarts, i);
        var w := EncodeFixed32(restarts[i]);
        assert entries + Words(restarts[..i]) + w == entries + (Words(restarts[..i]) + w);
        buffer := buffer + w;
      }
      assert restarts[..|restarts|] == restarts;
      var n := EncodeFixed32(|restarts|);
      buffer := buffer + n;
      finished := true;
      block := buffer;
    }

    method Add(key: Bytes, value: Bytes)
      requires Valid() && interval >= 1 && |key| < WORD && |value| < WORD
      modifies this
      ensures Valid() && pairs == old(pairs) + [Pair(key, value)]
      ensures CurrentSizeEstimate() <= old(CurrentSizeEstimate()) + |key| + |value| + 19
    {
      hide Building, EntryBytes;
      ghost var p := Pair(key, value);
      NoKeyYet();
      var shared := 0;
      ghost var restart := counter == interval;
      if counter < interval {
        shared := SharedPrefix(key);
      } else {
        restarts := restarts + [|buffer|];
        counter := 0;
      }
      AddKeeps(interval, buffer, old(restarts), old(counter), lastKey, pairs, lay, p, shared);
      AppendEntry(shared, key, value);
      lastKey := lastKey[..shared];
      lastKey := lastKey + key[shared..];
      assert lastKey == key by { assert key == key[..shared] + key[shared..]; }
      counter := counter + 1;
      lay := Extended(pairs, lay, buffer, shared, restart);
      pairs := pairs + [p];
    }

    lemma NoKeyYet()
      requires Valid()
      ensures counter <= interval && (counter == 0 ==> lastKey == [])
    {}

    method SharedPrefix(key: Bytes) returns (shared: nat)
      ensures shared <= |lastKey| && shared <= |key| && lastKey[..shared] == key[..shared]
      ensures shared < |lastKey| && shared < |key| ==> lastKey[shared] != key[shared]
    {
      var minLength := if |lastKey| < |key| then |lastKey| else |key|;
      shared := 0;
      while shared < minLength && lastKey[shared] == key[shared]
        invariant shared <= minLength && lastKey[..shared] == key[..shared]
      {
        shared := shared + 1;
      }
    }

    method AppendEntry(shared: nat, key: Bytes, value: Bytes)
      requires shared <= |key| < WORD && |value| < WORD
      modifies this`buffer
      ensures buffer == old(buffer) + EntryBytes(shared, key[shared..], value)
      ensures |buffer| <= old(|buffer|) + |key| + |value| + 15
    {
      hide Varint;
      var nonShared := |key| - shared;
      var a := EncodeVarint32(shared);
      var b := EncodeVarint32(nonShared);
      var c := EncodeVarint32(|value|);
      Pow128Words();
      VarintSize(shared, 5);
      VarintSize(nonShared, 5);
      VarintSize(|value|, 5);
      buffer := buffer + (a + b + c);
      buffer := buffer + key[shared..];
      buffer := buffer + value;
      assert old(buffer) + (a + b + c) + key[shared..] + value == old(buffer) + (a + b + c + key[shared..] + value);
    }
  }
}

/** Block::Iter over a block that BlockBuilder finished (table/block.cc). */
module BlockIters {
  import opened DbFormat
  import opened Coding
  import opened BlockFormat

  datatype Decoded = Decoded(shared: nat, nonShared: nat, valueLength: nat, keyAt: nat)

  /** The entry header at offset p of data, which must not run past limit. */
  function Header(data: Bytes, p: nat, limit: nat): (r: Option<Decoded>)
    requires limit <= |data|
  {
    if limit < p + 3 then None
    else match VarintValue(data[p..limit], 5)
      case None => None
      case Some(a) => (
        match VarintValue(data[p + a.1..limit], 5)
        case None => None
        case Some(b) => (
          match VarintValue(data[p + a.1 + b.1..limit], 5)
          case None => None
          case Some(c) => Fitting(Decoded(a.0 % WORD, b.0 % WORD, c.0 % WORD, p + a.1 + b.1 + c.1), limit)))
  }

  /** The bounds check, in 32 bits. */
  function Fitting(d: Decoded, limit: nat): Option<Decoded> {
    if limit - d.keyAt < (d.nonShared + d.valueLength) % WORD then None else Some(d)
  }

  method DecodeEntry(data: Bytes, start: nat, limit: nat) returns (r: Option<Decoded>)
    requires limit <= |data|
    ensures r == Header(data, start, limit)
  {
    hide VarintValue, Fitting;
    if limit < start + 3 { return None; }
    var p := start;
    var shared: nat, nonShared: nat, valueLength: nat := data[p], data[p + 1], data[p + 2];
    if shared < 128 && nonShared < 128 && valueLength < 128 {
      OneByte(data[p..limit]);
      OneByte(data[p + 1..limit]);
      OneByte(data[p + 2..limit]);
      p := p + 3;
    } else {
      Pow128Words();
      var a := GetVarintPtr(data[p..limit], 5, WORD);
      if a.None? { return None; }
      shared, p := a.value.0, p + a.value.1;
      var b := GetVarintPtr(data[p..limit], 5, WORD);
      if b.None? { return None; }
      nonShared, p := b.value.0, p + b.value.1;
      var c := GetVarintPtr(data[p..limit], 5, WORD);
      if c.None? { return None; }
      valueLength, p := c.value.0, p + c.value.1;
    }
    r := Fits(Decoded(shared, nonShared, valueLength, p), limit);
  }

  method Fits(d: Decoded, limit: nat) returns (r: Option<Decoded>)
    ensures r == Fitting(d, limit)
  {
    if limit - d.keyAt < (d.nonShared + d.valueLength) % WORD { return None; }
    return Some(d);
  }

  lemma OneByte(b: Bytes)
    requires b != [] && b[0] < 128
    ensures VarintValue(b, 5) == Some((b[0], 1))
  {}

  /** What the builder wrote for an entry is what the header says. */
  lemma HeaderOfEntry(data: Bytes, p: nat, limit: nat, shared: nat, suffix: Bytes, value: Bytes)
    requires p <= limit <= |data| < WORD && shared < WORD && p + |EntryBytes(shared, suffix, value)| <= limit
    requires data[p..p + |EntryBytes(shared, suffix, value)|] == EntryBytes(shared, suffix, value)
    ensures var q := p + |EntryBytes(shared, suffix, value)| - |suffix| - |value|;
            && Header(data, p, limit) == Some(Decoded(shared, |suffix|, |value|, q)) && p < q
            && data[q..q + |suffix|] == suffix && data[q + |suffix|..q + |suffix| + |value|] == value
  {
    hide Varint, VarintValue, Header;
    var e := EntryBytes(shared, suffix, value);
    var a, b, c := Varint(shared), Varint(|suffix|), Varint(|value|);
    var tail := data[p + |e|..limit];
    var rest := suffix + (value + tail);
    EntryAndTail(data, p, limit, a, b, c, suffix, value);
    Peel(data, p, limit, a, b + (c + rest));
    Peel(data, p + |a|, limit, b, c + rest);
    Peel(data, p + |a| + |b|, limit, c, rest);
    Pow128Words();
    VarintRoundTrip(shared, b + (c + rest), 5);
    VarintRoundTrip(|suffix|, c + rest, 5);
    VarintRoundTrip(|value|, rest, 5);
    var q := p + |a| + |b| + |c|;
    Peel(data, q, limit, suffix, value + tail);
    Peel(data, q + |suffix|, limit, value, tail);
    HeaderFrom(data, p, limit, shared, |suffix|, |value|, |a|, |b|, |c|);
  }

  lemma EntryAndTail(data: Bytes, p: nat, limit: nat, a: Bytes, b: Bytes, c: Bytes, d: Bytes, e: Bytes)
    requires p + |a| + |b| + |c| + |d| + |e| <= limit <= |data|
    requires data[p..p + |a + b + c + d + e|] == a + b + c + d + e
    ensures data[p..limit] == a + (b + (c + (d + (e + data[p + |a + b + c + d + e|..limit]))))
  {
    var all, tail := a + b + c + d + e, data[p + |a + b + c + d + e|..limit];
    assert data[p..limit] == data[p..p + |all|] + tail;
    assert a + b + c + d + e + tail == a + (b + (c + (d + (e + tail))));
  }

  lemma HeaderFrom(data: Bytes, p: nat, limit: nat, x: nat, y: nat, z: nat, a: nat, b: nat, c: nat)
    requires limit <= |data| < WORD && x < WORD && a > 0 && b > 0 && c > 0 && p + a + b + c + y + z <= limit
    requires VarintValue(data[p..limit], 5) == Some((x, a)) && VarintValue(data[p + a..limit], 5) == Some((y, b))
    requires VarintValue(data[p + a + b..limit], 5) == Some((z, c))
    ensures Header(data, p, limit) == Some(Decoded(x, y, z, p + a + b + c))
  {
    hide VarintValue, Fitting;
    FitsWithin(x, y, z, p + a + b + c, limit);
  }

  lemma FitsWithin(x: nat, y: nat, z: nat, keyAt: nat, limit: nat)
    requires limit < WORD && x < WORD && keyAt + y + z <= limit
    ensures Fitting(Decoded(x % WORD, y % WORD, z % WORD, keyAt), limit) == Some(Decoded(x, y, z, keyAt))
  {}

  lemma Peel(data: Bytes, p: nat, limit: nat, front: Bytes, rest: Bytes)
    requires p <= limit <= |data| && data[p..limit] == front + rest
    ensures p + |front| <= limit && data[p..p + |front|] == front && data[p + |front|..limit] == rest
  {
    var all := data[p..limit];
    assert data[p..p + |front|] == all[..|front|] && data[p + |front|..limit] == all[|front|..];
  }

  /** Entry i is read as the builder laid it out. */
  lemma EntryReads(data: Bytes, limit: nat, pairs: seq<Pair>, lay: Layout, i: nat)
    requires limit <= |data| < WORD && Laid(data[..limit], pairs, lay) && i < |pairs|
    ensures var h := Header(data, lay.offs[i], limit);
            && h.Some? && h.value.shared == lay.shares[i] && lay.shares[i] <= |pairs[i].key|
            && h.value.keyAt + h.value.nonShared + h.value.valueLength == lay.offs[i + 1] <= limit &&
              lay.offs[i] < h.value.keyAt
            && data[h.value.keyAt..h.value.keyAt + h.value.nonShared] == pairs[i].key[lay.shares[i]..]
            && data[h.value.keyAt + h.value.nonShared..lay.offs[i + 1]] == pairs[i].value
  {
    hide Header, EntryBytes;
    assert EntryOk(data[..limit], pairs, lay, i);
    var from, to := lay.offs[i], lay.offs[i + 1];
    assert data[..limit][from..to] == data[from..to];
    HeaderOfEntry(data, from, limit, lay.shares[i], pairs[i].key[lay.shares[i]..], pairs[i].value);
  }

  /** Block::Iter: a cursor over the pairs that were added, for any sequence of calls. */
  class BlockIter {
    const less: Order
    const data: Bytes
    const restarts: nat
    const numRestarts: nat
    var current: nat
    var restartIndex: nat
    var key: Bytes
    /** The value slice: where it starts in data and how long it is. */
    var valueAt: nat
    var valueLength: nat
    ghost const pairs: seq<Pair>
    ghost const lay: Layout
    ghost var pos: nat

    ghost predicate Fixed() {
      BlockOk(data, restarts, numRestarts, pairs, lay) && Transitive(less) && Ascending(less, pairs)
    }

    ghost predicate Ok()
      reads this
    {
      && Fixed() && pos <= |pairs|
      && (pos == |pairs| ==> current == restarts && restartIndex == numRestarts)
      && (pos < |pairs| ==> StandsAt(pos))
    }

    /** The fields hold entry i. */
    ghost predicate StandsAt(i: nat)
      requires Fixed() && i < |pairs|
      reads this
    {
      && current == lay.offs[i] && key == pairs[i].key
      && valueAt + valueLength == lay.offs[i + 1] <= restarts && data[valueAt..valueAt + valueLength] == pairs[i].value
      && restartIndex < numRestarts && lay.heads[restartIndex] <= i
    }

    /** ParseNextKey will read entry i next. */
    ghost predicate Before(i: nat)
      requires Fixed()
      reads this
    {
      && i <= |pairs| && valueAt + valueLength == lay.offs[i]
      && (i < |pairs| ==>
        lay.shares[i] <= |key| && lay.shares[i] <= |pairs[i].key| &&
          key[..lay.shares[i]] == pairs[i].key[..lay.shares[i]])
      && restartIndex < numRestarts && lay.heads[restartIndex] <= i
    }

    constructor (less: Order, data: Bytes, restarts: nat, numRestarts: nat, ghost pairs: seq<Pair>, ghost lay: Layout)
      requires BlockOk(data, restarts, numRestarts, pairs, lay) && Transitive(less) && Ascending(less, pairs)
      ensures Ok() && pos == |pairs| && this.pairs == pairs && this.less == less
    {
      this.less, this.data, this.restarts, this.numRestarts := less, data, restarts, numRestarts;
      this.pairs, this.lay := pairs, lay;
      current, restartIndex, key, valueAt, valueLength := restarts, numRestarts, [], 0, 0;
      pos := |pairs|;
    }

    predicate Valid()
      reads this
    {
      current < restarts
    }

    lemma ValidIsPos()
      requires Ok()
      ensures Valid() <==> pos < |pairs|
    {
      if pos < |pairs| { OffsAscend(data[..restarts], pairs, lay, pos, |pairs|); }
    }

    method Current() returns (p: Pair)
      requires Ok() && Valid()
      ensures pos < |pairs| && p == pairs[pos]
    {
      ValidIsPos();
      p := Pair(key, data[valueAt..valueAt + valueLength]);
    }

    method GetRestartPoint(r: nat) returns (offset: nat)
      requires Fixed() && r < numRestarts
      ensures offset == lay.offs[lay.heads[r]]
    {
      hide Laid, FixedValue;
      assert RestartOk(data, restarts, pairs, lay, r);
      assert data[restarts + 4 * r..][..4] == data[restarts + 4 * r..restarts + 4 * r + 4];
      offset := DecodeFixed32(data[restarts + 4 * r..]);
    }

    method SeekToRestartPoint(r: nat)
      requires Fixed() && r < numRestarts
      modifies this
      ensures Before(lay.heads[r]) && restartIndex == r
    {
      key := [];
      restartIndex := r;
      var offset := GetRestartPoint(r);
      valueAt, valueLength := offset, 0;
    }

    method ParseNextKey(ghost i: nat) returns (more: bool)
      requires Fixed() && Before(i)
      modifies this
      ensures Ok() && pos == i && (more <==> i < |pairs|)
    {
      hide Header;
      OffsAscend(data[..restarts], pairs, lay, i, |pairs|);
      pos := i;
      current := valueAt + valueLength;
      if current >= restarts {
        current := restarts;
        restartIndex := numRestarts;
        return false;
      }
      var d := DecodeEntry(data, current, restarts);
      EntryReads(data, restarts, pairs, lay, i);
      key := key[..d.value.shared];
      key := key + data[d.value.keyAt..d.value.keyAt + d.value.nonShared];
      assert key == pairs[i].key by { assert pairs[i].key == pairs[i].key[..lay.shares[i]] +
          pairs[i].key[lay.shares[i]..]; }
      valueAt, valueLength := d.value.keyAt + d.value.nonShared, d.value.valueLength;
      CatchUp(i);
      return true;
    }

    /** The end of ParseNextKey: the restart index follows. */
    method CatchUp(ghost i: nat)
      requires Fixed() && i < |pairs| && StandsAt(i)
      modifies this`restartIndex
      ensures StandsAt(i)
    {
      while restartIndex + 1 < numRestarts
        invariant StandsAt(i)
        decreases numRestarts - restartIndex
      {
        var next := GetRestartPoint(restartIndex + 1);
        if next >= current { break; }
        if lay.heads[restartIndex + 1] > i { OffsAscend(data[..restarts], pairs, lay, i, lay.heads[restartIndex + 1]); }
        restartIndex := restartIndex + 1;
      }
    }

    /** Having read entry i, ParseNextKey is ready for the next. */
    lemma Ready(i: nat)
      requires Fixed() && i < |pairs| && StandsAt(i)
      ensures Before(i + 1)
    {
      if i + 1 < |pairs| { assert EntryOk(data[..restarts], pairs, lay, i + 1); }
    }

    method SeekToFirst()
      requires Ok()
      modifies this
      ensures Ok() && pos == 0
    {
      SeekToRestartPoint(0);
      var more := ParseNextKey(0);
    }

    method SeekToLast()
      requires Ok()
      modifies this
      ensures Ok() && pos == if |pairs| == 0 then 0 else |pairs| - 1
    {
      SeekToRestartPoint(numRestarts - 1);
      ghost var i := lay.heads[numRestarts - 1];
      var more := ParseNextKey(i);
      while more && valueAt + valueLength < restarts
        invariant Ok() && pos == i && (more <==> i < |pairs|)
        invariant i < |pairs| || |pairs| == 0
        decreases |pairs| - i
      {
        Ready(i);
        ReadsOn(i);
        i := i + 1;
        more := ParseNextKey(i);
      }
      if more { ReadsOn(i); }
    }

    /** The entry after i starts before the end exactly if there is one. */
    lemma ReadsOn(i: nat)
      requires Fixed() && i < |pairs|
      ensures lay.offs[i + 1] < restarts <==> i + 1 < |pairs|
    {
      OffsAscend(data[..restarts], pairs, lay, i + 1, |pairs|);
    }

    method Next()
      requires Ok() && Valid()
      modifies this
      ensures Ok() && pos == old(pos) + 1
    {
      ValidIsPos();
      Ready(pos);
      var more := ParseNextKey(pos + 1);
    }

    method Prev()
      requires Ok() && Valid()
      modifies this
      ensures Ok() && pos == if old(pos) == 0 then |pairs| else old(pos) - 1
    {
      hide EntryOk, FixedValue, EntryBytes, BlockFormat.Ascending, Transitive;
      ValidIsPos();
      ghost var p := pos;
      var original := current;
      var point := GetRestartPoint(restartIndex);
      while point >= original
        invariant Fixed() && pos == p && restartIndex < numRestarts && point == lay.offs[lay.heads[restartIndex]]
        invariant original == lay.offs[p]
        invariant p < |pairs|
        decreases restartIndex
      {
        if restartIndex == 0 {
          OffsAscend(data[..restarts], pairs, lay, 0, p);
          current := restarts;
          restartIndex := numRestarts;
          pos := |pairs|;
          return;
        }
        restartIndex := restartIndex - 1;
        point := GetRestartPoint(restartIndex);
      }
      HeadBefore(lay.heads[restartIndex], p);
      SeekToRestartPoint(restartIndex);
      ghost var i := lay.heads[restartIndex];
      var more := ParseNextKey(i);
      while more && valueAt + valueLength < original
        invariant Ok() && pos == i < p && more
        decreases p - i
      {
        OffsAscend(data[..restarts], pairs, lay, i + 1, p);
        Ready(i);
        i := i + 1;
        more := ParseNextKey(i);
      }
      if i + 1 < p { OffsAscend(data[..restarts], pairs, lay, i + 1, p); }
    }

    lemma HeadBefore(h: nat, p: nat)
      requires Fixed() && h <= |pairs| && p <= |pairs| && lay.offs[h] < lay.offs[p]
      ensures h < p
    {
      if p <= h { OffsAscend(data[..restarts], pairs, lay, p, h); }
    }

    /** The binary search of Seek: the last restart point that may come before the target. */
    method FindRestart(target: Bytes) returns (left: nat)
      requires Fixed()
      ensures left < numRestarts && (left > 0 ==> StartsBefore(left, target))
      ensures forall r :: left < r < numRestarts ==> !StartsBefore(r, target)
      ensures forall j :: 0 <= j < lay.heads[left] && j < |pairs| ==> less(pairs[j].key, target)
    {
      hide Header, EntryOk, FixedValue;
      var right := numRestarts - 1;
      left := 0;
      while left < right
        invariant left <= right < numRestarts
        invariant left > 0 ==> StartsBefore(left, target)
        invariant forall r :: right < r < numRestarts ==> !StartsBefore(r, target)
      {
        var mid := (left + right + 1) / 2;
        var offset := GetRestartPoint(mid);
        var d := DecodeEntry(data, offset, restarts);
        EntryReads(data, restarts, pairs, lay, lay.heads[mid]);
        var midKey := data[d.value.keyAt..d.value.keyAt + d.value.nonShared];
        assert midKey == pairs[lay.heads[mid]].key;
        if less(midKey, target) {
          left := mid;
        } else {
          assert !StartsBefore(mid, target);
          forall r | mid <= r < numRestarts ensures !StartsBefore(r, target) { NorAnyLater(mid, r, target); }
          right := mid - 1;
        }
      }
    }

    /** The first key from restart point r on is before the target. */
    ghost predicate StartsBefore(r: nat, target: Bytes)
      requires Fixed() && r < numRestarts
    {
      lay.heads[r] < |pairs| && less(pairs[lay.heads[r]].key, target)
    }

    lemma NorAnyLater(mid: nat, r: nat, target: Bytes)
      requires Fixed() && 0 < mid <= r < numRestarts && !StartsBefore(mid, target)
      ensures !StartsBefore(r, target)
    {
      if mid < r && lay.heads[r] < |pairs| {
        assert less(pairs[lay.heads[mid]].key, pairs[lay.heads[r]].key);
      }
    }

    method Seek(target: Bytes)
      requires Ok()
      modifies this
      ensures Ok()
      ensures forall i :: 0 <= i < pos ==> less(pairs[i].key, target)
      ensures forall i :: pos <= i < |pairs| ==> !less(pairs[i].key, target)
    {
      hide Header, EntryOk;
      var left := FindRestart(target);
      ghost var i := lay.heads[left];
      SeekToRestartPoint(left);
      while true
        invariant Fixed() && Before(i)
        invariant forall j :: 0 <= j < i ==> less(pairs[j].key, target)
        decreases |pairs| - i
      {
        var more := ParseNextKey(i);
        if !more || !less(key, target) {
          return;
        }
        Ready(i);
        i := i + 1;
      }
    }
  }

  /** Block and Block::NewIterator: the restart array is found from the end of the block. */
  method NewIterator(less: Order, data: Bytes, ghost restarts: nat, ghost count: nat, ghost pairs: seq<Pair>,
      ghost lay: Layout)
    returns (iter: BlockIter)
    requires BlockOk(data, restarts, count, pairs, lay) && Transitive(less) && Ascending(less, pairs)
    ensures fresh(iter) && iter.Ok() && iter.pos == |pairs| && iter.pairs == pairs && iter.less == less
  {
    assert data[|data| - 4..][..4] == data[restarts + 4 * count..];
    var numRestarts := DecodeFixed32(data[|data| - 4..]);
    var offset := |data| - (1 + numRestarts) * 4;
    iter := new BlockIter(less, data, offset, numRestarts, pairs, lay);
  }
}
