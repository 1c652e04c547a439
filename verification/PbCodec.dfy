/** The wire format: what encoding a message gives and what decoding bytes gives, as functions
    (nanopb: pb_encode.c, pb_decode.c). */
module PbCodec {
  import opened DbFormat
  import opened Coding
  import opened PbModel

  // ---- Encoding ----------------------------------------------------------------------------------

  function ZigZag(n: int): nat {
    if n < 0 then -2 * n - 1 else 2 * n
  }

  function UnZigZag(v: nat): int {
    if v % 2 == 1 then -(v / 2) - 1 else v / 2
  }

  /** A signed number in 64-bit two's complement. */
  function Unsigned64(n: int): nat
    requires 0 <= n + DWORD && n < DWORD
  {
    if n < 0 then n + DWORD else n
  }

  function Signed(v: nat, span: nat): int {
    if v < span / 2 then v else v - span
  }

  function WireType(lt: LType): nat {
    match lt
    case Bool => 0 case Int(_) => 0 case UInt(_) => 0 case SInt(_) => 0
    case Fixed64 => 1
    case Fixed32 => 5
    case _ => 2
  }

  function Tag(tag: nat, wireType: nat): Bytes { Varint(tag * 8 + wireType) }

  function Delimited(b: Bytes): Bytes { Varint(|b|) + b }

  function Append(a: Option<Bytes>, b: Option<Bytes>): Option<Bytes> {
    if a.Some? && b.Some? then Some(a.value + b.value) else None
  }

  /** The bytes of one value; None if the struct breaks a limit that the encoder checks. */
  function EncodeValue(lt: LType, v: Value): Option<Bytes>
    decreases v, 0
  {
    match lt
    case Bool => if v.Num? then Some(Varint(if v.n != 0 then 1 else 0)) else None
    case Int(size) => if v.Num? && InRange(size, v.n) then Some(Varint(Unsigned64(v.n))) else None
    case UInt(size) => if v.Num? && IntSize(size) && 0 <= v.n < Span(size) then Some(Varint(v.n)) else None
    case SInt(size) => if v.Num? && InRange(size, v.n) then Some(Varint(ZigZag(v.n))) else None
    case Fixed32 => if v.Num? && 0 <= v.n < WORD then Some(Fixed(4, v.n)) else None
    case Fixed64 => if v.Num? && 0 <= v.n < DWORD then Some(Fixed(8, v.n)) else None
    case BytesField(size) => if v.Raw? && |v.bytes| <= size then Some(Delimited(v.bytes)) else None
    case StringField(size) => if v.Raw? && |v.bytes| <= size then Some(Delimited(v.bytes)) else None
    case FixedBytes(size) => if v.Raw? && |v.bytes| == size then Some(Delimited(v.bytes)) else None
    case Submessage(fields) =>
      if !v.Msg? then None
      else match EncodeFields(fields, v.msg, 0) case None => None case Some(b) => Some(Delimited(b))
  }

  /** Values one after the other, each after a tag if there is one. */
  function EncodeItems(lt: LType, tag: Bytes, items: seq<Value>): Option<Bytes>
    decreases items, 0
  {
    if items == [] then Some([])
    else Append(Append(Some(tag), EncodeValue(lt, items[0])), EncodeItems(lt, tag, items[1..]))
  }

  /** encode_array: packed if the type allows it. */
  function EncodeArray(f: Field, items: seq<Value>): Option<Bytes>
    requires f.htype.Repeated?
    decreases items, 1
  {
    if items == [] then Some([])
    else if |items| > f.htype.max then None
    else if Packable(f.ltype) then
      match EncodeItems(f.ltype, [], items) case None => None case Some(b) => Some(Tag(f.tag, 2) + Delimited(b))
    else EncodeItems(f.ltype, Tag(f.tag, WireType(f.ltype)), items)
  }

  function Tagged(f: Field, v: Value): Option<Bytes>
    decreases v, 1
  {
    Append(Some(Tag(f.tag, WireType(f.ltype))), EncodeValue(f.ltype, v))
  }

  /** encode_basic_field. */
  function EncodeField(f: Field, m: Message, i: nat): Option<Bytes>
    requires i < |m.slots|
    decreases m, 0
  {
    match m.slots[i]
    case Single(v) =>
      if f.htype.Required? || (f.htype.Optional? && !ZeroValue(f.ltype, v)) then Tagged(f, v) else Some([])
    case Maybe(has, v) => if has then Tagged(f, v) else Some([])
    case Many(items) => if f.htype.Repeated? then EncodeArray(f, items) else None
    case InUnion =>
      if f.htype.Oneof? && f.htype.group < |m.unions| &&
          m.unions[f.htype.group].0 == f.tag then Tagged(f, m.unions[f.htype.group].1) else Some([])
  }

  /** pb_encode from field i on. */
  function EncodeFields(fields: seq<Field>, m: Message, i: nat): Option<Bytes>
    requires i <= |fields|
    decreases m, 1, |fields| - i
  {
    if i == |fields| then Some([])
    else if i >= |m.slots| then None
    else Append(EncodeField(fields[i], m, i), EncodeFields(fields, m, i + 1))
  }

  function Encode(fields: seq<Field>, m: Message): Option<Bytes> { EncodeFields(fields, m, 0) }

  // ---- Decoding ----------------------------------------------------------------------------------

  /** The loop of pb_decode_varint32 after the first byte. */
  function MoreVarint32(input: Bytes, bitpos: nat, result: nat): (r: Option<(nat, Bytes)>)
    ensures r.Some? ==> |r.value.1| < |input|
    decreases |input|
  {
    if input == [] then None
    else
      var b: nat := input[0];
      var signExtension := if bitpos < 63 then 0xff else 0x01;
      if bitpos >= 32 && b % 128 != 0 && (result / 0x8000_0000 % 2 == 0 || b != signExtension) then None
      else
        var now := if bitpos >= 32 then result else (result + b % 128 * Pow128(bitpos / 7)) % WORD;
        if b >= 128 then MoreVarint32(input[1..], bitpos + 7, now)
        else if bitpos + 7 == 35 && b / 16 % 8 != 0 then None
        else Some((now, input[1..]))
  }

  /** pb_decode_varint32. */
  function Varint32(input: Bytes): (r: Option<(nat, Bytes)>)
    ensures r.Some? ==> |r.value.1| < |input|
  {
    if input == [] then None
    else if input[0] < 128 then Some((input[0], input[1..]))
    else MoreVarint32(input[1..], 7, input[0] - 128)
  }

  /** pb_decode_varint. */
  function Varint64(input: Bytes): (r: Option<(nat, Bytes)>)
    ensures r.Some? ==> |r.value.1| < |input| && r.value.0 < DWORD
  {
    match VarintValue(input, 10) case None => None case Some(p) => Some((p.0 % DWORD, input[p.1..]))
  }

  /** pb_read. */
  function Take(input: Bytes, n: nat): (r: Option<(Bytes, Bytes)>)
    ensures r.Some? ==> r.value.0 + r.value.1 == input && |r.value.0| == n
  {
    if |input| < n then None else Some((input[..n], input[n..]))
  }

  /** A length and that many bytes: pb_make_string_substream and the like. */
  function Substream(input: Bytes): (r: Option<(Bytes, Bytes)>)
    ensures r.Some? ==> |r.value.0| < |input| && |r.value.1| < |input|
  {
    match Varint32(input) case None => None case Some(p) => Take(p.1, p.0)
  }

  /** The string in an array of characters. */
  function CString(b: Bytes): (r: Bytes)
    ensures 0 !in b ==> r == b
  {
    if b == [] || b[0] == 0 then [] else [b[0]] + CString(b[1..])
  }

  /** pb_skip_varint. */
  function SkipVarint(input: Bytes): (r: Option<Bytes>)
    ensures r.Some? ==> |r.value| < |input|
  {
    if input == [] then None else if input[0] >= 128 then SkipVarint(input[1..]) else Some(input[1..])
  }

  /** pb_skip_field. */
  function Skip(wireType: nat, input: Bytes): (r: Option<Bytes>)
    ensures r.Some? ==> |r.value| <= |input|
  {
    if wireType == 0 then SkipVarint(input)
    else if wireType == 1 then (match Take(input, 8) case None => None case Some(p) => Some(p.1))
    else if wireType == 2 then (match Substream(input) case None => None case Some(p) => Some(p.1))
    else if wireType == 5 then (match Take(input, 4) case None => None case Some(p) => Some(p.1))
    else None
  }

  /** The field with this tag; |fields| if there is none. */
  function Find(fields: seq<Field>, tag: nat): (i: nat)
    ensures i <= |fields| && (i < |fields| ==> fields[i].tag == tag)
    ensures (i == |fields| ==> forall j :: 0 <= j < |fields| ==> fields[j].tag != tag)
  {
    if fields == [] then 0
    else if fields[0].tag == tag then 0
    else
      var j := Find(fields[1..], tag);
      assert forall n :: 1 <= n < |fields| ==> fields[n] == fields[1..][n - 1];
      j + 1
  }

  /** With distinct tags there is only one field to find. */
  lemma FindIs(fields: seq<Field>, i: nat)
    requires WellFormed(fields) && i < |fields|
    ensures Find(fields, fields[i].tag) == i
  {
    var k := Find(fields, fields[i].tag);
    assert k < |fields|;
    assert k == i;
  }

  /** The decoders of one value; the old value matters only where a submessage is merged into. */
  function DecodeValue(lt: LType, input: Bytes, prior: Value): (r: Option<(Value, Bytes)>)
    ensures r.Some? ==> |r.value.1| < |input|
    decreases |input|, 0
  {
    match lt
    case Bool => (match Varint32(input) case None => None case Some(p) => Some((Num(if p.0 != 0 then 1 else 0), p.1)))
    case Int(size) => (
      match Varint64(input)
      case None => None
      case Some(p) =>
        (var n := if size == 8 then Signed(p.0, DWORD) else Signed(p.0 % WORD, WORD);
         if InRange(size, n) then Some((Num(n), p.1)) else None))
    case UInt(size) => (
      match Varint64(input) case None => None case Some(p) => if IntSize(size) &&
          p.0 < Span(size) then Some((Num(p.0), p.1)) else None)
    case SInt(size) => (
      match Varint64(input) case None => None case Some(p) => if InRange(size, UnZigZag(p.0)) then
          Some((Num(UnZigZag(p.0)), p.1)) else None)
    case Fixed32 => (match Take(input, 4) case None => None case Some(p) => Some((Num(FixedValue(p.0)), p.1)))
    case Fixed64 => (match Take(input, 8) case None => None case Some(p) => Some((Num(FixedValue(p.0)), p.1)))
    case BytesField(size) => (
      match Varint32(input)
      case None => None
      case Some(n) => if n.0 > SIZE_MAX ||
          n.0 > size then None else (match Take(n.1, n.0) case None => None case Some(p) => Some((Raw(p.0), p.1))))
    case StringField(size) => (
      match Varint32(input)
      case None => None
      case Some(n) => if n.0 + 1 > size then
          None else (match Take(n.1, n.0) case None => None case Some(p) => Some((Raw(CString(p.0)), p.1))))
    case FixedBytes(size) => (
      match Varint32(input)
      case None => None
      case Some(n) =>
        if n.0 > SIZE_MAX then None
        else if n.0 == 0 then Some((Raw(Zeros(size)), n.1))
        else if n.0 != size then None
        else (match Take(n.1, n.0) case None => None case Some(p) => Some((Raw(p.0), p.1))))
    case Submessage(fields) => (
      match Substream(input)
      case None => None
      case Some(p) => (
        match DecodeFields(fields, p.0, if prior.Msg? &&
            |prior.msg.slots| == |fields| then prior.msg else Default(fields), {})
        case None => None
        case Some(m) => Some((Msg(m.0), p.1))))
  }

  /** The loop over a packed array. */
  function DecodePacked(lt: LType, input: Bytes, items: seq<Value>, max: nat): Option<seq<Value>>
    decreases |input|, 1
  {
    if input == [] then Some(items)
    else if |items| >= max then None
    else match DecodeValue(lt, input, Num(0)) case None => None case Some(p) => DecodePacked(lt, p.1, items + [p.0],
        max)
  }

  /** decode_static_field for field i. */
  function DecodeField(fields: seq<Field>, i: nat, wireType: nat, input: Bytes,
      m: Message): (r: Option<(Message, Bytes)>)
    requires i < |fields| == |m.slots|
    ensures r.Some? ==> |r.value.1| < |input| && |r.value.0.slots| == |m.slots|
    decreases |input|, 2
  {
    var f := fields[i];
    match m.slots[i]
    case Single(v) => (
      match DecodeValue(f.ltype, input,
          v) case None => None case Some(p) => Some((m.(slots := m.slots[i := Single(p.0)]), p.1)))
    case Maybe(_, v) => (
      match DecodeValue(f.ltype, input,
          v) case None => None case Some(p) => Some((m.(slots := m.slots[i := Maybe(true, p.0)]), p.1)))
    case Many(items) =>
      if !f.htype.Repeated? then None
      else if wireType == 2 && Packable(f.ltype) then (
        match Substream(input)
        case None => None
        case Some(p) => (
          match DecodePacked(f.ltype, p.0, items,
              f.htype.max) case None => None case Some(more) => Some((m.(slots := m.slots[i := Many(more)]), p.1))))
      else if |items| >= f.htype.max then None
      else (match DecodeValue(f.ltype, input,
          Num(0)) case None => None case Some(p) => Some((m.(slots := m.slots[i := Many(items + [p.0])]), p.1)))
    case InUnion =>
      if !f.htype.Oneof? || f.htype.group >= |m.unions| then None
      else
        var g := f.htype.group;
        match DecodeValue(f.ltype, input, if m.unions[g].0 == f.tag then m.unions[g].1 else Num(0))
        case None => None
        case Some(p) => Some((m.(unions := m.unions[g := (f.tag, p.0)]), p.1))
  }

  /** Required fields come numbered; only the first 64 are checked. */
  const MAX_REQUIRED_FIELDS: nat := 64

  function RequiredBefore(fields: seq<Field>, i: nat): nat
    requires i <= |fields|
  {
    if i == 0 then 0 else RequiredBefore(fields, i - 1) + if fields[i - 1].htype.Required? then 1 else 0
  }

  lemma {:induction false} RequiredOrder(fields: seq<Field>, i: nat, j: nat)
    requires i < j <= |fields|
    ensures RequiredBefore(fields, i) + (if fields[i].htype.Required? then 1 else 0) <= RequiredBefore(fields, j)
  {
    if i + 1 < j { RequiredOrder(fields, i, j - 1); }
  }

  predicate AllSeen(fields: seq<Field>, seen: set<nat>) {
    forall n :: 0 <= n < RequiredBefore(fields, |fields|) && n < MAX_REQUIRED_FIELDS ==> n in seen
  }

  function Seen(fields: seq<Field>, i: nat, seen: set<nat>): set<nat>
    requires i < |fields|
  {
    if fields[i].htype.Required? &&
        RequiredBefore(fields, i) < MAX_REQUIRED_FIELDS then seen + {RequiredBefore(fields, i)} else seen
  }

  /** pb_decode_noinit: fields in any order until the input ends or a zero tag; the message and what is
      left of the input. A descriptor without fields starts at its terminator, which reads as a
      required bool with tag 0. */
  function DecodeFields(fields: seq<Field>, input: Bytes, m: Message, seen: set<nat>): (r: Option<(Message, Bytes)>)
    requires |m.slots| == |fields|
    ensures r.Some? ==> |r.value.0.slots| == |fields|
    decreases |input|, 3
  {
    if input == [] then (if AllSeen(fields, seen) then Some((m, [])) else None)
    else match Varint32(input)
      case None => None
      case Some(t) => AfterTag(fields, m, seen, t)
  }

  /** The loop of pb_decode_noinit once it has read a tag. */
  function AfterTag(fields: seq<Field>, m: Message, seen: set<nat>, t: (nat, Bytes)): (r: Option<(Message, Bytes)>)
    requires |m.slots| == |fields|
    ensures r.Some? ==> |r.value.0.slots| == |fields|
    decreases |t.1|, 4
  {
    if t.0 == 0 then (if AllSeen(fields, seen) then Some((m, t.1)) else None)
    else
      var i := Find(fields, t.0 / 8);
      if i < |fields| then
        match DecodeField(fields, i, t.0 % 8, t.1, m)
        case None => None
        case Some(p) => DecodeFields(fields, p.1, p.0, Seen(fields, i, seen))
      else if fields == [] && t.0 / 8 == 0 then
        match Varint32(t.1) case None => None case Some(p) => DecodeFields(fields, p.1, m, seen)
      else
        match Skip(t.0 % 8, t.1) case None => None case Some(rest) => DecodeFields(fields, rest, m, seen)
  }

  /** pb_decode. */
  function Decode(fields: seq<Field>, input: Bytes): Option<(Message, Bytes)> {
    DecodeFields(fields, input, Default(fields), {})
  }
}
