/** The decoder, reading from a stream (nanopb: pb_decode.c, pb_common.c). */
module PbDecoder {
  import opened DbFormat
  import opened Coding
  import opened Bits
  import opened PbModel
  import opened PbCodec

  /** A reader that should take a value off the input, what it returned, and what it left. */
  predicate Taken<T(==)>(spec: Option<(T, Bytes)>, r: Option<T>, rest: Bytes) {
    (r.Some? <==> spec.Some?) && (r.Some? ==> spec.value == (r.value, rest))
  }

  /** pb_istream_t over a buffer. */
  class IStream {
    const buf: Bytes
    var state: nat
    var bytesLeft: nat

    ghost predicate Valid()
      reads this
    {
      state + bytesLeft <= |buf|
    }

    ghost function Rest(): Bytes
      requires Valid()
      reads this
    {
      buf[state..state + bytesLeft]
    }

    constructor (buf: Bytes, state: nat, bytesLeft: nat)
      requires state + bytesLeft <= |buf|
      ensures Valid() && Rest() == buf[state..state + bytesLeft]
      ensures this.buf == buf && this.state == state && this.bytesLeft == bytesLeft
    {
      this.buf, this.state, this.bytesLeft := buf, state, bytesLeft;
    }

    /** Reading moves the state but not the end. */
    twostate predicate Moved()
      reads this
    {
      Valid() && state + bytesLeft == old(state + bytesLeft)
    }

    /** pb_readbyte. */
    method ReadByte() returns (r: Option<byte>)
      requires Valid()
      modifies this
      ensures Moved() && Taken(if old(Rest()) == [] then None else Some((old(Rest())[0], old(Rest())[1..])), r, Rest())
    {
      if bytesLeft == 0 { return None; }
      r := Some(buf[state]);
      state, bytesLeft := state + 1, bytesLeft - 1;
    }

    /** pb_read. */
    method Read(count: nat) returns (r: Option<Bytes>)
      requires Valid()
      modifies this
      ensures Moved() && Taken(Take(old(Rest()), count), r, Rest())
    {
      if bytesLeft < count { return None; }
      r := Some(buf[state..state + count]);
      state, bytesLeft := state + count, bytesLeft - count;
      assert old(Rest())[..count] == r.value && old(Rest())[count..] == Rest();
    }

    /** pb_decode_varint32. */
    method DecodeVarint32() returns (r: Option<nat>)
      requires Valid()
      modifies this
      ensures Moved() && Taken(Varint32(old(Rest())), r, Rest())
    {
      var b := ReadByte();
      if b.None? { return None; }
      var c: nat := b.value;
      if c < 128 { return Some(c); }
      var bitpos, result: nat := 7, c - 128;
      ghost var all := Varint32(old(Rest()));
      while c >= 128
        invariant Moved()
        invariant c >= 128 ==> MoreVarint32(Rest(), bitpos, result) == all
        invariant c < 128 ==> all == if bitpos == 35 && c / 16 % 8 != 0 then None else Some((result, Rest()))
        decreases if c >= 128 then 1 + bytesLeft else 0
      {
        b := ReadByte();
        if b.None? { return None; }
        c := b.value;
        if bitpos >= 32 {
          var signExtension := if bitpos < 63 then 0xff else 0x01;
          if c % 128 != 0 && (result / 0x8000_0000 % 2 == 0 || c != signExtension) { return None; }
        } else {
          result := (result + c % 128 * Pow128(bitpos / 7)) % WORD;
        }
        bitpos := bitpos + 7;
      }
      if bitpos == 35 && c / 16 % 8 != 0 { return None; }
      return Some(result);
    }

    /** pb_decode_varint. */
    method DecodeVarint() returns (r: Option<nat>)
      requires Valid()
      modifies this
      ensures Moved() && Taken(Varint64(old(Rest())), r, Rest())
    {
      hide Pow128, VarintValue, Shifted;
      var i: nat, scale: nat, result: nat := 0, 1, 0;
      ghost var input, whole: nat := Rest(), 0;
      NoDigits(input);
      while true
        invariant Moved() && i <= 10 && i <= |input| && Rest() == input[i..]
        invariant result == whole % DWORD
        invariant VarintValue(input, 10) == Shifted(whole, scale, i, VarintValue(input[i..], 10 - i))
        decreases bytesLeft
      {
        DigitNext(input, whole, scale, i);
        if i >= 10 { return None; }
        var b := ReadByte();
        if b.None? { return None; }
        var c: nat := b.value;
        var digit := AtScale(if c < 128 then c else c - 128, scale);
        WrappedSum(whole, digit);
        result := (result + digit) % DWORD;
        if c < 128 { return Some(result); }
        whole, scale, i := whole + digit, scale * 128, i + 1;
      }
    }

    /** pb_skip_varint. */
    method SkipVarint() returns (ok: bool)
      requires Valid()
      modifies this
      ensures Moved() && Taken(Paired(PbCodec.SkipVarint(old(Rest()))), if ok then Some(()) else None, Rest())
    {
      ghost var all := PbCodec.SkipVarint(Rest());
      var c: nat := 128;
      while c >= 128
        invariant Moved()
        invariant all == if c >= 128 then PbCodec.SkipVarint(Rest()) else Some(Rest())
        decreases if c >= 128 then 1 + bytesLeft else 0
      {
        var b := ReadByte();
        if b.None? { return false; }
        c := b.value;
      }
      return true;
    }

    /** pb_skip_field, with pb_skip_string. */
    method SkipField(wireType: nat) returns (ok: bool)
      requires Valid()
      modifies this
      ensures Moved() && Taken(Paired(Skip(wireType, old(Rest()))), if ok then Some(()) else None, Rest())
    {
      hide Varint32;
      if wireType == 0 {
        ok := SkipVarint();
      } else if wireType == 1 {
        var r := Read(8);
        ok := r.Some?;
      } else if wireType == 2 {
        var length := DecodeVarint32();
        if length.None? { return false; }
        var r := Read(length.value);
        ok := r.Some?;
      } else if wireType == 5 {
        var r := Read(4);
        ok := r.Some?;
      } else {
        ok := false;
      }
    }

    /** pb_make_string_substream: this stream loses the bytes at once and moves past them when the
        substream is closed. */
    method MakeStringSubstream() returns (sub: IStream?)
      requires Valid()
      modifies this
      ensures sub == null ==> Substream(old(Rest())).None? && Moved()
      ensures sub != null ==> fresh(sub) && sub.Valid() && Valid()
      ensures sub != null ==>
          sub.buf == buf && sub.state == state && sub.state + sub.bytesLeft + bytesLeft == old(state + bytesLeft)
      ensures sub != null ==>
          Substream(old(Rest())) == Some((sub.Rest(), buf[sub.state + sub.bytesLeft..old(state + bytesLeft)]))
    {
      hide Varint32;
      var size := DecodeVarint32();
      if size.None? || bytesLeft < size.value { return null; }
      sub := new IStream(buf, state, size.value);
      assert Rest()[..size.value] == sub.Rest() &&
          Rest()[size.value..] == buf[state + size.value..old(state + bytesLeft)];
      bytesLeft := bytesLeft - size.value;
    }

    /** pb_close_string_substream. */
    method CloseStringSubstream(sub: IStream) returns (ok: bool)
      requires Valid() && sub != this && sub.Valid() && sub.buf == buf && sub.state + sub.bytesLeft + bytesLeft <= |buf|
      modifies this, sub
      ensures ok && Valid() && state == old(sub.state + sub.bytesLeft) && bytesLeft == old(bytesLeft)
    {
      if sub.bytesLeft > 0 {
        var r := sub.Read(sub.bytesLeft);
        if r.None? { return false; }
      }
      state := sub.state;
      return true;
    }
  }

  /** A reader that returns nothing but the rest. */
  function Paired(r: Option<Bytes>): Option<((), Bytes)> {
    match r case None => None case Some(b) => Some(((), b))
  }

  lemma NoDigits(input: Bytes)
    ensures input[0..] == input && VarintValue(input, 10) == Shifted(0, 1, 0, VarintValue(input[0..], 10))
  {
    assert input[0..] == input;
  }

  /** One turn of the loop of pb_decode_varint: out of room, out of input, the last byte, or one more. */
  lemma DigitNext(input: Bytes, whole: nat, scale: nat, i: nat)
    requires i <= 10 && i <= |input|
    requires VarintValue(input, 10) == Shifted(whole, scale, i, VarintValue(input[i..], 10 - i))
    ensures i == 10 || i == |input| ==> VarintValue(input, 10) == None
    ensures i < 10 && i < |input| && input[i] < 128 ==>
        VarintValue(input, 10) == Some((whole + input[i] * scale, i + 1))
    ensures i < 10 && i < |input| && input[i] >= 128 ==>
              VarintValue(input, 10) ==
                Shifted(whole + (input[i] - 128) * scale, scale * 128, i + 1, VarintValue(input[i + 1..], 10 - (i + 1)))
  {
    if i < 10 && i < |input| {
      assert input[i..][1..] == input[i + 1..];
      if input[i] >= 128 { ShiftStep(whole, scale, i, input[i], VarintValue(input[i + 1..], 10 - (i + 1))); }
    }
  }

  method AtScale(c: nat, scale: nat) returns (r: nat)
    ensures r == c * scale
  {
    r := c * scale;
  }

  lemma WrappedSum(a: nat, b: nat)
    ensures (a % DWORD + b) % DWORD == (a + b) % DWORD
  {}

  // ---- Required fields ---------------------------------------------------------------------------

  /** The low n bits, n at most 32: allbits >> (32 - n). */
  function Ones(n: nat): nat { Pow2(n) - 1 }

  lemma {:induction false} OnesHave(n: nat, i: nat)
    requires i < n
    ensures Bit(Ones(n), i)
  {
    assert Ones(n) == 2 * Ones(n - 1) + 1;
    if i > 0 { OnesHave(n - 1, i - 1); }
  }

  ghost predicate AllBits(x: nat, n: nat) {
    forall i: nat :: i < n ==> Bit(x, i)
  }

  lemma {:induction false} OnlyOnes(x: nat, n: nat)
    requires x < Pow2(n) && AllBits(x, n)
    ensures x == Ones(n)
  {
    if n > 0 {
      assert Bit(x, 0);
      forall i: nat | i < n - 1 ensures Bit(x / 2, i) { assert Bit(x, i + 1); }
      OnlyOnes(x / 2, n - 1);
    }
  }

  lemma OnesExact(x: nat, n: nat)
    requires x < Pow2(n)
    ensures x == Ones(n) <==> AllBits(x, n)
  {
    if x == Ones(n) {
      forall i: nat | i < n ensures Bit(x, i) { OnesHave(n, i); }
      assert AllBits(x, n);
    }
    if AllBits(x, n) { OnlyOnes(x, n); }
  }

  /** The bits of word w that number required fields, out of so many. */
  function Width(count: nat, w: nat): nat {
    if count <= 32 * w then 0 else if count >= 32 * w + 32 then 32 else count - 32 * w
  }

  /** fields_seen holds this set of required fields, each below the number of them. */
  ghost predicate Marks(words: seq<nat>, count: nat, seen: set<nat>) {
    && |words| == 2
    && (forall w :: 0 <= w < 2 ==> words[w] < Pow2(Width(count, w)))
    && forall n :: 0 <= n < 64 ==> (Bit(words[n / 32], n % 32) <==> n in seen)
  }

  lemma NothingMarked(count: nat)
    ensures Marks([0, 0], count, {})
  {
    forall n | 0 <= n < 64 ensures !Bit([0, 0][n / 32], n % 32) { NoBit(n % 32); }
  }

  lemma MarkOne(words: seq<nat>, count: nat, seen: set<nat>, n: nat)
    requires Marks(words, count, seen) && n < count && n < 64
    ensures Marks(words[n / 32 := WithBit(words[n / 32], n % 32)], count, seen + {n})
  {
    hide Bit, WithBit, Pow2;
    WithBitFits(words[n / 32], n % 32, Width(count, n / 32));
    forall k | 0 <= k < 64
      ensures Bit(words[n / 32 := WithBit(words[n / 32], n % 32)][k / 32], k % 32) <==> k in seen + {n}
    {
      WithBitSets(words[n / 32], n % 32, k % 32);
    }
  }

  /** A word has all its bits exactly when all its fields were seen. */
  lemma WordExact(words: seq<nat>, count: nat, seen: set<nat>, w: nat)
    requires Marks(words, count, seen) && w < 2
    ensures words[w] == Ones(Width(count, w)) <==> forall n :: 32 * w <= n < 32 * w + Width(count, w) ==> n in seen
  {
    hide Ones, Pow2;
    var width := Width(count, w);
    OnesExact(words[w], width);
    if AllBits(words[w], width) {
      forall n | 32 * w <= n < 32 * w + width ensures n in seen { assert Bit(words[w], n - 32 * w); }
    }
    if forall n :: 32 * w <= n < 32 * w + width ==> n in seen {
      forall i: nat | i < width ensures Bit(words[w], i) {
        var n := 32 * w + i;
        assert n in seen && n / 32 == w && n % 32 == i;
      }
      assert AllBits(words[w], width);
    }
  }

  /** The check for missing required fields: whole words first, then the bits that remain. */
  method AllRequired(fieldsSeen: array<nat>, reqFieldCount: nat, ghost seen: set<nat>) returns (ok: bool)
    requires Marks(fieldsSeen[..], reqFieldCount, seen)
    ensures ok <==> forall n :: 0 <= n < reqFieldCount && n < MAX_REQUIRED_FIELDS ==> n in seen
  {
    hide Bit, Pow2, Ones;
    var count := if reqFieldCount > MAX_REQUIRED_FIELDS then MAX_REQUIRED_FIELDS else reqFieldCount;
    assert forall w :: 0 <= w < 2 ==> Width(count, w) == Width(reqFieldCount, w);
    var i := 0;
    while i < count / 32
      invariant i <= count / 32
      invariant forall n :: 0 <= n < 32 * i ==> n in seen
    {
      WordExact(fieldsSeen[..], reqFieldCount, seen, i);
      if fieldsSeen[i] != Ones(32) { return false; }
      i := i + 1;
    }
    if count % 32 != 0 {
      WordExact(fieldsSeen[..], reqFieldCount, seen, count / 32);
      if fieldsSeen[count / 32] != Ones(count % 32) { return false; }
    }
    return true;
  }

  // ---- The field iterator ------------------------------------------------------------------------

  /** pb_field_iter_t: the position also says which slot, so the addresses are left out. */
  class FieldIter {
    const fields: seq<Field>
    var pos: nat
    var requiredFieldIndex: nat

    ghost predicate Valid()
      reads this
    {
      (if fields == [] then pos == 0 else pos < |fields|) && requiredFieldIndex == RequiredBefore(fields, pos)
    }

    /** pb_field_iter_begin. */
    constructor (fields: seq<Field>)
      ensures Valid() && pos == 0 && this.fields == fields
    {
      this.fields, pos, requiredFieldIndex := fields, 0, 0;
    }

    /** pb_field_iter_next: past the last field it is back at the first. */
    method Next() returns (more: bool)
      requires Valid()
      modifies this
      ensures Valid() && (more <==> old(pos) + 1 < |fields|)
      ensures pos == if more then old(pos) + 1 else 0
    {
      if fields == [] { return false; }
      var prev := fields[pos];
      pos := pos + 1;
      if pos == |fields| {
        pos, requiredFieldIndex := 0, 0;
        return false;
      }
      if prev.htype.Required? { requiredFieldIndex := requiredFieldIndex + 1; }
      return true;
    }

    /** The tag at the position; the terminator's is zero. */
    function TagHere(): nat
      requires Valid()
      reads this
    {
      if fields == [] then 0 else fields[pos].tag
    }

    /** pb_field_iter_find: once around from wherever it stands. */
    method FindTag(tag: nat) returns (found: bool)
      requires Valid()
      modifies this
      ensures Valid()
      ensures found ==> TagHere() == tag
      ensures !found ==> pos == old(pos) && TagHere() != tag && forall j :: 0 <= j < |fields| ==> fields[j].tag != tag
    {
      hide RequiredBefore;
      var start := pos;
      ghost var wrapped := false;
      var going := true;
      while going
        invariant Valid()
        invariant going ==> (if wrapped then pos < start else start <= pos) && (fields == [] ==> pos == start)
        invariant !going ==> pos == start && TagHere() != tag && wrapped
        invariant forall j :: 0 <= j < |fields| && (if wrapped then start <= j || j < pos else start <= j < pos) ==>
            fields[j].tag != tag
        decreases going, if wrapped then 0 else 1, |fields| - pos
      {
        if TagHere() == tag { return true; }
        var more := Next();
        if !more { wrapped := true; }
        going := pos != start;
      }
      return false;
    }

    /** The steps to the end that count the required fields, with the last one. */
    method CountRequired() returns (count: nat)
      requires Valid()
      modifies this
      ensures Valid() && count == RequiredBefore(fields, |fields|)
    {
      var more, lastRequired := true, true;
      count := 0;
      while more
        invariant Valid()
        invariant !more ==> pos == 0 && if fields == [] then count == 0 else
            count == RequiredBefore(fields, |fields| - 1) && lastRequired == fields[|fields| - 1].htype.Required?
        decreases more, |fields| - pos
      {
        count := requiredFieldIndex;
        lastRequired := fields == [] || fields[pos].htype.Required?;
        more := Next();
      }
      if lastRequired && fields != [] { count := count + 1; }
    }
  }

  // ---- The recursive decoders --------------------------------------------------------------------

  /** The field decoders, by type.  `prior` is what the destination holds, a message if this is one that
      has been set to its defaults before. */
  method DecodeOne(s: IStream, lt: LType, prior: Value) returns (r: Option<Value>)
    requires s.Valid() && (lt.Submessage? ==> WellFormed(lt.fields))
    modifies s
    ensures s.Moved() && Taken(DecodeValue(lt, old(s.Rest()), prior), r, s.Rest())
    decreases s.bytesLeft, 0
  {
    hide DecodeValue;
    if lt.Submessage? {
      r := DecodeSubmessage(s, lt.fields, prior);
    } else if WireType(lt) == 2 {
      r := DecodeRaw(s, lt, prior);
    } else {
      r := DecodeNumber(s, lt, prior);
    }
  }

  /** The decoders of numbers. */
  method DecodeNumber(s: IStream, lt: LType, ghost prior: Value) returns (r: Option<Value>)
    requires s.Valid() && WireType(lt) != 2
    modifies s
    ensures s.Moved() && Taken(DecodeValue(lt, old(s.Rest()), prior), r, s.Rest())
    decreases s.bytesLeft, 0, 0
  {
    hide Varint32, Varint64, DecodeFields, FixedValue;
    r := None;
    match lt
    case Bool =>
      var v := s.DecodeVarint32();
      if v.Some? { r := Some(Num(if v.value != 0 then 1 else 0)); }
    case Int(size) =>
      var v := s.DecodeVarint();
      if v.Some? {
        var n := if size == 8 then Signed(v.value, DWORD) else Signed(v.value % WORD, WORD);
        if InRange(size, n) { r := Some(Num(n)); }
      }
    case UInt(size) =>
      var v := s.DecodeVarint();
      if v.Some? && IntSize(size) && v.value < Span(size) { r := Some(Num(v.value)); }
    case SInt(size) =>
      var v := s.DecodeVarint();
      if v.Some? && InRange(size, UnZigZag(v.value)) { r := Some(Num(UnZigZag(v.value))); }
    case Fixed32 =>
      var b := s.Read(4);
      if b.Some? { r := Some(Num(FixedValue(b.value))); }
    case Fixed64 =>
      var b := s.Read(8);
      if b.Some? { r := Some(Num(FixedValue(b.value))); }
    case _ =>
  }

  /** The decoders of bytes and strings. */
  method DecodeRaw(s: IStream, lt: LType, ghost prior: Value) returns (r: Option<Value>)
    requires s.Valid() && WireType(lt) == 2 && !lt.Submessage?
    modifies s
    ensures s.Moved() && Taken(DecodeValue(lt, old(s.Rest()), prior), r, s.Rest())
    decreases s.bytesLeft, 0, 0
  {
    hide Varint32, DecodeFields;
    r := None;
    var n := s.DecodeVarint32();
    if n.None? { return None; }
    match lt
    case BytesField(size) =>
      if n.value > SIZE_MAX || n.value > size { return None; }
      var b := s.Read(n.value);
      if b.Some? { r := Some(Raw(b.value)); }
    case StringField(size) =>
      if n.value + 1 > size { return None; }
      var b := s.Read(n.value);
      if b.Some? { r := Some(Raw(CString(b.value))); }
    case FixedBytes(size) =>
      if n.value > SIZE_MAX { return None; }
      if n.value == 0 { return Some(Raw(Zeros(size))); }
      if n.value != size { return None; }
      var b := s.Read(size);
      if b.Some? { r := Some(Raw(b.value)); }
    case _ =>
  }

  /** pb_dec_submessage. */
  method DecodeSubmessage(s: IStream, fields: seq<Field>, prior: Value) returns (r: Option<Value>)
    requires s.Valid() && WellFormed(fields)
    modifies s
    ensures s.Moved() && Taken(DecodeValue(Submessage(fields), old(s.Rest()), prior), r, s.Rest())
    decreases s.bytesLeft, 0, 0
  {
    hide DecodeFields;
    var sub := s.MakeStringSubstream();
    if sub == null { return None; }
    var m;
    if prior.Msg? && |prior.msg.slots| == |fields| {
      m := DecodeNoinit(sub, fields, prior.msg);
    } else {
      m := PbDecode(sub, fields);
    }
    var closed := s.CloseStringSubstream(sub);
    if !closed || m.None? { return None; }
    return Some(Msg(m.value));
  }

  /** The loop over a packed array. */
  method DecodeItems(sub: IStream, lt: LType, had: seq<Value>, max: nat) returns (r: Option<seq<Value>>)
    requires sub.Valid() && (lt.Submessage? ==> WellFormed(lt.fields))
    modifies sub
    ensures sub.Moved() && r == DecodePacked(lt, old(sub.Rest()), had, max)
    decreases sub.bytesLeft, 1
  {
    hide DecodeValue;
    var items := had;
    while sub.bytesLeft > 0 && |items| < max
      invariant sub.Moved() && sub.bytesLeft <= old(sub.bytesLeft)
      invariant DecodePacked(lt, sub.Rest(), items, max) == DecodePacked(lt, old(sub.Rest()), had, max)
      decreases sub.bytesLeft
    {
      var v := DecodeOne(sub, lt, Num(0));
      if v.None? { return None; }
      items := items + [v.value];
    }
    if sub.bytesLeft != 0 { return None; }
    return Some(items);
  }

  /** decode_static_field for field i of the message. */
  method DecodeStaticField(s: IStream, fields: seq<Field>, i: nat, wireType: nat,
      m: Message) returns (r: Option<Message>)
    requires s.Valid() && WellFormed(fields) && i < |fields| == |m.slots|
    modifies s
    ensures s.Moved() && Taken(DecodeField(fields, i, wireType, old(s.Rest()), m), r, s.Rest())
    decreases s.bytesLeft, 2
  {
    SubWellFormed(fields, i);
    hide DecodeValue, DecodePacked, WellFormed;
    var f := fields[i];
    match m.slots[i]
    case Single(prior) =>
      var v := DecodeOne(s, f.ltype, prior);
      return if v.Some? then Some(m.(slots := m.slots[i := Single(v.value)])) else None;
    case Maybe(_, prior) =>
      var v := DecodeOne(s, f.ltype, prior);
      return if v.Some? then Some(m.(slots := m.slots[i := Maybe(true, v.value)])) else None;
    case Many(items) =>
      if !f.htype.Repeated? { return None; }
      if wireType == 2 && Packable(f.ltype) {
        var sub := s.MakeStringSubstream();
        if sub == null { return None; }
        var more := DecodeItems(sub, f.ltype, items, f.htype.max);
        var closed := s.CloseStringSubstream(sub);
        if !closed || more.None? { return None; }
        return Some(m.(slots := m.slots[i := Many(more.value)]));
      }
      if |items| >= f.htype.max { return None; }
      var v := DecodeOne(s, f.ltype, Num(0));
      return if v.Some? then Some(m.(slots := m.slots[i := Many(items + [v.value])])) else None;
    case InUnion =>
      if !f.htype.Oneof? || f.htype.group >= |m.unions| { return None; }
      var g := f.htype.group;
      var v := DecodeOne(s, f.ltype, if m.unions[g].0 == f.tag then m.unions[g].1 else Num(0));
      return if v.Some? then Some(m.(unions := m.unions[g := (f.tag, v.value)])) else None;
  }

  lemma SubWellFormed(fields: seq<Field>, i: nat)
    requires WellFormed(fields) && i < |fields|
    ensures fields[i].ltype.Submessage? ==> WellFormed(fields[i].ltype.fields)
  {
    assert FieldOk(fields, i);
  }

  /** fields_seen[index >> 5] |= 1 << (index & 31). */
  method MarkField(fieldsSeen: array<nat>, index: nat, ghost count: nat, ghost seen: set<nat>)
    requires Marks(fieldsSeen[..], count, seen) && index < count && index < MAX_REQUIRED_FIELDS
    modifies fieldsSeen
    ensures Marks(fieldsSeen[..], count, seen + {index})
  {
    hide Bit, WithBit, Pow2;
    MarkOne(fieldsSeen[..], count, seen, index);
    ghost var words := fieldsSeen[..];
    fieldsSeen[index / 32] := WithBit(fieldsSeen[index / 32], index % 32);
    assert fieldsSeen[..] == words[index / 32 := WithBit(words[index / 32], index % 32)];
  }

  /** What is left of decoding before one more field is read. */
  lemma NextField(fields: seq<Field>, input: Bytes, m: Message, seen: set<nat>)
    requires |m.slots| == |fields|
    ensures input == [] ==>
        DecodeFields(fields, input, m, seen) == if AllSeen(fields, seen) then Some((m, [])) else None
    ensures input != [] && Varint32(input).None? ==> DecodeFields(fields, input, m, seen) == None
    ensures input != [] && Varint32(input).Some? ==>
        DecodeFields(fields, input, m, seen) == AfterTag(fields, m, seen, Varint32(input).value)
  {}

  /** pb_decode_noinit: the loop over the input, whatever order the fields come in. */
  method DecodeNoinit(s: IStream, fields: seq<Field>, m0: Message) returns (r: Option<Message>)
    requires s.Valid() && WellFormed(fields) && |m0.slots| == |fields|
    modifies s
    ensures s.Moved() && Taken(DecodeFields(fields, old(s.Rest()), m0, {}), r, s.Rest())
    decreases s.bytesLeft, 3
  {
    hide Varint32, DecodeField, Skip, WellFormed, Find, RequiredBefore, Marks, DecodeFields;
    var iter := new FieldIter(fields);
    var fieldsSeen := new nat[2](_ => 0);
    ghost var count, seen: set<nat> := RequiredBefore(fields, |fields|), {};
    NothingMarked(count);
    assert fieldsSeen[..] == [0, 0];
    var m := m0;
    while s.bytesLeft > 0
      invariant s.Moved() && s.bytesLeft <= old(s.bytesLeft)
      invariant iter.Valid() && iter.fields == fields && fresh(iter) && fieldsSeen.Length == 2
      invariant Marks(fieldsSeen[..], count, seen)
      invariant |m.slots| == |fields|
      invariant DecodeFields(fields, s.Rest(), m, seen) == DecodeFields(fields, old(s.Rest()), m0, {})
      decreases s.bytesLeft
    {
      NextField(fields, s.Rest(), m, seen);
      var t := s.DecodeVarint32();
      if t.None? { return None; }
      if t.value == 0 { break; }
      var tag, wireType := t.value / 8, t.value % 8;
      var found := iter.FindTag(tag);
      if !found {
        var skipped := s.SkipField(wireType);
        if !skipped { return None; }
      } else if fields == [] {
        var terminator := s.DecodeVarint32();
        if terminator.None? { return None; }
      } else {
        FindIs(fields, iter.pos);
        if fields[iter.pos].htype.Required? && iter.requiredFieldIndex < MAX_REQUIRED_FIELDS {
          RequiredOrder(fields, iter.pos, |fields|);
          MarkField(fieldsSeen, iter.requiredFieldIndex, count, seen);
        }
        seen := Seen(fields, iter.pos, seen);
        var decoded := DecodeStaticField(s, fields, iter.pos, wireType, m);
        if decoded.None? { return None; }
        m := decoded.value;
      }
    }
    NextField(fields, s.Rest(), m, seen);
    assert DecodeFields(fields, old(s.Rest()), m0, {}) == if AllSeen(fields, seen) then Some((m, s.Rest())) else None;
    var reqFieldCount := iter.CountRequired();
    var ok := AllRequired(fieldsSeen, reqFieldCount, seen);
    return if ok then Some(m) else None;
  }

  /** pb_decode. */
  method PbDecode(s: IStream, fields: seq<Field>) returns (r: Option<Message>)
    requires s.Valid() && WellFormed(fields)
    modifies s
    ensures s.Moved() && Taken(Decode(fields, old(s.Rest())), r, s.Rest())
    decreases s.bytesLeft, 4
  {
    r := DecodeNoinit(s, fields, Default(fields));
  }
}
