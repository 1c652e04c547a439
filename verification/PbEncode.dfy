/** The encoder, writing to a stream that may only count (nanopb: pb_encode.c). */
module PbEncoder {
  import opened DbFormat
  import opened Coding
  import opened PbModel
  import opened PbCodec

  /** From n bytes to more, by these bytes; it fails if there are none to write or they do not fit. */
  predicate Grown(sizing: bool, maxSize: nat, n: nat, o: Bytes, more: nat, out: Bytes, b: Option<Bytes>, ok: bool) {
    && (ok <==> b.Some? && (sizing || n + |b.value| <= maxSize))
    && (ok ==> more == n + |b.value|)
    && (ok && !sizing ==> out == o + b.value)
  }

  /** What was written, and then one of two things left to write. */
  lemma GrownMore(sizing: bool, maxSize: nat, n: nat, o: Bytes, n1: nat, o1: Bytes, n2: nat, o2: Bytes,
                  a: Bytes, b: Option<Bytes>, c: Option<Bytes>, ok: bool)
    requires Grown(sizing, maxSize, n, o, n1, o1, Some(a), true) && Grown(sizing, maxSize, n1, o1, n2, o2, b, ok)
    ensures ok ==> b.Some? && Grown(sizing, maxSize, n, o, n2, o2, Some(a + b.value), true)
    ensures ok ==> Append(Some(a), Append(b, c)) == Append(Some(a + b.value), c)
    ensures !ok ==> Grown(sizing, maxSize, n, o, n2, o2, Append(Some(a), Append(b, c)), false)
  {
    if ok {
      assert o + (a + b.value) == (o + a) + b.value;
      if c.Some? { assert a + (b.value + c.value) == (a + b.value) + c.value; }
    }
  }

  /** pb_ostream_t: without a callback it only counts. */
  class OStream {
    const sizing: bool
    const maxSize: nat
    var bytesWritten: nat
    var out: Bytes

    ghost predicate Valid()
      reads this
    {
      if sizing then out == [] else |out| == bytesWritten <= maxSize
    }

    constructor (sizing: bool, maxSize: nat)
      ensures Valid() && bytesWritten == 0 && out == [] && this.sizing == sizing && this.maxSize == maxSize
    {
      this.sizing, this.maxSize, bytesWritten, out := sizing, maxSize, 0, [];
    }

    /** The stream now holds these bytes on top of what it held before. */
    twostate predicate Wrote(new b: Option<Bytes>, ok: bool)
      reads this
    {
      && Valid()
      && Grown(sizing, maxSize, old(bytesWritten), old(out), bytesWritten, out, b, ok)
    }

    /** pb_write. */
    method Write(buf: Bytes) returns (ok: bool)
      requires Valid()
      modifies this
      ensures Wrote(Some(buf), ok)
    {
      if |buf| > 0 && !sizing {
        if bytesWritten + |buf| > maxSize { return false; }
        out := out + buf;
      }
      bytesWritten := bytesWritten + |buf|;
      return true;
    }

    /** pb_write of no particular bytes, when just sizing. */
    method Count(n: nat)
      requires Valid() && sizing
      modifies this
      ensures Valid() && bytesWritten == old(bytesWritten) + n
    {
      bytesWritten := bytesWritten + n;
    }

    /** pb_encode_varint. */
    method EncodeVarint(value: nat) returns (ok: bool)
      requires Valid()
      modifies this
      ensures Wrote(Some(Varint(value)), ok)
    {
      if value <= 0x7f {
        ok := Write([value]);
        return;
      }
      var buffer := VarintBuffer(value);
      ok := Write(buffer);
    }

    method EncodeTag(wireType: nat, fieldNumber: nat) returns (ok: bool)
      requires Valid()
      modifies this
      ensures Wrote(Some(Tag(fieldNumber, wireType)), ok)
    {
      ok := EncodeVarint(fieldNumber * 8 + wireType);
    }

    /** pb_encode_string. */
    method EncodeString(b: Bytes) returns (ok: bool)
      requires Valid()
      modifies this
      ensures Wrote(Some(Delimited(b)), ok)
    {
      ok := EncodeVarint(|b|);
      if ok { ok := Write(b); }
    }
  }

  /** The loop of pb_encode_varint: all bytes get the top bit, and the last one loses it. */
  method VarintBuffer(value: nat) returns (buffer: Bytes)
    requires value > 0x7f
    ensures buffer == Varint(value)
  {
    buffer := [];
    var v: nat := value;
    while v > 0
      invariant v > 0 ==> buffer + Varint(v) == Varint(value)
      invariant v == 0 ==>
          buffer != [] && buffer[|buffer| - 1] >= 128 &&
            buffer[..|buffer| - 1] + [buffer[|buffer| - 1] - 128] == Varint(value)
    {
      ghost var before := buffer;
      buffer := buffer + [v % 128 + 128];
      assert buffer[..|buffer| - 1] == before;
      Regroup(before, [v % 128 + 128], Varint(v / 128));
      v := v / 128;
    }
    buffer := buffer[..|buffer| - 1] + [buffer[|buffer| - 1] - 128];
  }

  lemma Regroup(a: Bytes, b: Bytes, c: Bytes)
    ensures a + (b + c) == (a + b) + c
  {}

  // ---- The recursive encoders --------------------------------------------------------------------

  /** The field encoders, by type. */
  method EncodeOne(s: OStream, lt: LType, v: Value) returns (ok: bool)
    requires s.Valid()
    modifies s
    ensures s.Wrote(EncodeValue(lt, v), ok)
    decreases v, 0
  {
    ok := false;
    match lt
    case Bool => if v.Num? { ok := s.EncodeVarint(if v.n != 0 then 1 else 0); }
    case Int(size) => if v.Num? && InRange(size, v.n) { ok := s.EncodeVarint(Unsigned64(v.n)); }
    case UInt(size) => if v.Num? && IntSize(size) && 0 <= v.n < Span(size) { ok := s.EncodeVarint(v.n); }
    case SInt(size) => if v.Num? && InRange(size, v.n) { ok := s.EncodeVarint(ZigZag(v.n)); }
    case Fixed32 => if v.Num? && 0 <= v.n < WORD { ok := s.Write(Fixed(4, v.n)); }
    case Fixed64 => if v.Num? && 0 <= v.n < DWORD { ok := s.Write(Fixed(8, v.n)); }
    case BytesField(size) => if v.Raw? && |v.bytes| <= size { ok := s.EncodeString(v.bytes); }
    case StringField(size) => if v.Raw? && |v.bytes| <= size { ok := s.EncodeString(v.bytes); }
    case FixedBytes(size) => if v.Raw? && |v.bytes| == size { ok := s.EncodeString(v.bytes); }
    case Submessage(fields) => if v.Msg? { ok := EncodeSubmessage(s, fields, v.msg); }
  }

  /** pb_encode_submessage: a sizing pass, the length, and a pass that may write just that much. */
  method EncodeSubmessage(s: OStream, fields: seq<Field>, m: Message) returns (ok: bool)
    requires s.Valid()
    modifies s
    ensures s.Wrote(match EncodeFields(fields, m, 0) case None => None case Some(b) => Some(Delimited(b)), ok)
    decreases m, 4
  {
    hide Varint, EncodeFields;
    var substream := new OStream(true, 0);
    ok := PbEncode(substream, fields, m);
    if !ok { return false; }
    var size := substream.bytesWritten;
    ok := s.EncodeVarint(size);
    if !ok { return false; }
    if s.sizing {
      s.Count(size);
      return true;
    }
    if s.bytesWritten + size > s.maxSize { return false; }
    substream := new OStream(false, size);
    var status := PbEncode(substream, fields, m);
    s.bytesWritten := s.bytesWritten + substream.bytesWritten;
    s.out := s.out + substream.out;
    return substream.bytesWritten == size && status;
  }

  /** pb_encode: the loop over the fields. */
  method PbEncode(s: OStream, fields: seq<Field>, m: Message) returns (ok: bool)
    requires s.Valid()
    modifies s
    ensures s.Wrote(EncodeFields(fields, m, 0), ok)
    decreases m, 2
  {
    hide EncodeField, EncodeFields, Append, Grown;
    var i := 0;
    ghost var written: Bytes := [];
    NothingYet(s.sizing, s.maxSize, s.bytesWritten, s.out, EncodeFields(fields, m, 0));
    while i < |fields|
      invariant i <= |fields|
      invariant s.Wrote(Some(written), true)
      invariant Append(Some(written), EncodeFields(fields, m, i)) == EncodeFields(fields, m, 0)
    {
      FieldsFrom(fields, m, i);
      if i >= |m.slots| {
        NoneToWrite(s.sizing, s.maxSize, old(s.bytesWritten), old(s.out), s.bytesWritten, s.out, Some(written));
        return false;
      }
      ghost var one, rest := EncodeField(fields[i], m, i), EncodeFields(fields, m, i + 1);
      ghost var n, o := s.bytesWritten, s.out;
      ok := EncodeBasicField(s, fields[i], m, i);
      GrownMore(s.sizing, s.maxSize, old(s.bytesWritten), old(s.out), n, o, s.bytesWritten, s.out, written, one, rest,
        ok);
      if !ok { return false; }
      written := written + one.value;
      i := i + 1;
    }
    FieldsFrom(fields, m, |fields|);
    AllWritten(written);
    return true;
  }

  lemma NothingYet(sizing: bool, maxSize: nat, n: nat, o: Bytes, b: Option<Bytes>)
    requires sizing || n <= maxSize
    ensures Grown(sizing, maxSize, n, o, n, o, Some([]), true)
    ensures Append(Some([]), b) == b
  {
    assert o + [] == o;
    if b.Some? { assert [] + b.value == b.value; }
  }

  lemma AllWritten(b: Bytes)
    ensures Append(Some(b), Some([])) == Some(b)
  {
    assert b + [] == b;
  }

  lemma NoneToWrite(sizing: bool, maxSize: nat, n: nat, o: Bytes, more: nat, out: Bytes, a: Option<Bytes>)
    ensures Grown(sizing, maxSize, n, o, more, out, Append(a, None), false)
  {}

  lemma FieldsFrom(fields: seq<Field>, m: Message, i: nat)
    requires i <= |fields|
    ensures i == |fields| ==> EncodeFields(fields, m, i) == Some([])
    ensures i < |fields| && i >= |m.slots| ==> EncodeFields(fields, m, i) == None
    ensures i < |fields| && i < |m.slots| ==>
        EncodeFields(fields, m, i) == Append(EncodeField(fields[i], m, i), EncodeFields(fields, m, i + 1))
  {}

  /** encode_basic_field. */
  method EncodeBasicField(s: OStream, f: Field, m: Message, i: nat) returns (ok: bool)
    requires s.Valid() && i < |m.slots|
    modifies s
    ensures s.Wrote(EncodeField(f, m, i), ok)
    decreases m, 1
  {
    match m.slots[i]
    case Single(v) =>
      var implicitHas := f.htype.Required? || (f.htype.Optional? && !ZeroValue(f.ltype, v));
      if implicitHas { ok := EncodeTagged(s, f, v); } else { ok := true; }
    case Maybe(has, v) =>
      if has { ok := EncodeTagged(s, f, v); } else { ok := true; }
    case Many(items) =>
      if f.htype.Repeated? { ok := EncodeRepeated(s, f, items); } else { ok := false; }
    case InUnion =>
      if f.htype.Oneof? && f.htype.group < |m.unions| && m.unions[f.htype.group].0 == f.tag {
        ok := EncodeTagged(s, f, m.unions[f.htype.group].1);
      } else {
        ok := true;
      }
  }

  method EncodeTagged(s: OStream, f: Field, v: Value) returns (ok: bool)
    requires s.Valid()
    modifies s
    ensures s.Wrote(Tagged(f, v), ok)
    decreases v, 1
  {
    hide EncodeValue, Varint;
    ok := s.EncodeTag(WireType(f.ltype), f.tag);
    if ok { ok := EncodeOne(s, f.ltype, v); }
  }

  /** encode_array. */
  method EncodeRepeated(s: OStream, f: Field, items: seq<Value>) returns (ok: bool)
    requires s.Valid() && f.htype.Repeated?
    modifies s
    ensures s.Wrote(EncodeArray(f, items), ok)
    decreases items, 1
  {
    hide EncodeItems, Varint;
    if items == [] { return true; }
    if |items| > f.htype.max { return false; }
    if Packable(f.ltype) {
      ok := s.EncodeTag(2, f.tag);
      var size := 0;
      var sizestream := new OStream(true, 0);
      var sized := EncodeAll(sizestream, f, items, false);
      if !ok || !sized { return false; }
      size := sizestream.bytesWritten;
      ok := s.EncodeVarint(size);
      if !ok { return false; }
      if s.sizing {
        s.Count(size);
        return true;
      }
      ok := EncodeAll(s, f, items, false);
    } else {
      ok := EncodeAll(s, f, items, true);
    }
  }

  /** The loops over the items. */
  method EncodeAll(s: OStream, f: Field, items: seq<Value>, tagged: bool) returns (ok: bool)
    requires s.Valid()
    modifies s
    ensures s.Wrote(EncodeItems(f.ltype, if tagged then Tag(f.tag, WireType(f.ltype)) else [], items), ok)
    decreases items, 0
  {
    hide EncodeValue, EncodeItems, Varint, Append, Grown;
    ghost var tag := if tagged then Tag(f.tag, WireType(f.ltype)) else [];
    var i := 0;
    ghost var written: Bytes := [];
    assert items[0..] == items;
    NothingYet(s.sizing, s.maxSize, s.bytesWritten, s.out, EncodeItems(f.ltype, tag, items));
    while i < |items|
      invariant i <= |items|
      invariant s.Wrote(Some(written), true)
      invariant Append(Some(written), EncodeItems(f.ltype, tag, items[i..])) == EncodeItems(f.ltype, tag, items)
    {
      ItemsFrom(f.ltype, tag, items, i);
      ghost var one, rest := Append(Some(tag), EncodeValue(f.ltype, items[i])),
          EncodeItems(f.ltype, tag, items[i + 1..]);
      ghost var n, o := s.bytesWritten, s.out;
      ok := EncodeItem(s, f, items[i], tagged);
      GrownMore(s.sizing, s.maxSize, old(s.bytesWritten), old(s.out), n, o, s.bytesWritten, s.out, written, one, rest,
        ok);
      if !ok { return false; }
      written := written + one.value;
      i := i + 1;
    }
    ItemsFrom(f.ltype, tag, items, |items|);
    AllWritten(written);
    return true;
  }

  lemma ItemsFrom(lt: LType, tag: Bytes, items: seq<Value>, i: nat)
    requires i <= |items|
    ensures i == |items| ==> EncodeItems(lt, tag, items[i..]) == Some([])
    ensures i < |items| ==>
        EncodeItems(lt, tag, items[i..]) ==
          Append(Append(Some(tag), EncodeValue(lt, items[i])), EncodeItems(lt, tag, items[i + 1..]))
  {
    if i < |items| { assert items[i..][1..] == items[i + 1..]; }
  }

  /** One turn of either loop. */
  method EncodeItem(s: OStream, f: Field, v: Value, tagged: bool) returns (ok: bool)
    requires s.Valid()
    modifies s
    ensures s.Wrote(Append(Some(if tagged then Tag(f.tag, WireType(f.ltype)) else []), EncodeValue(f.ltype, v)), ok)
    decreases v, 1
  {
    hide EncodeValue, Varint;
    ok := true;
    if tagged { ok := s.EncodeTag(WireType(f.ltype), f.tag); }
    if ok { ok := EncodeOne(s, f.ltype, v); }
  }

  /** pb_get_encoded_size. */
  method GetEncodedSize(fields: seq<Field>, m: Message) returns (size: Option<nat>)
    ensures size == match Encode(fields, m) case None => None case Some(b) => Some(|b|)
  {
    var stream := new OStream(true, 0);
    var ok := PbEncode(stream, fields, m);
    return if ok then Some(stream.bytesWritten) else None;
  }
}
