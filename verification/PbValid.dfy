/** Whatever bytes it is given, the decoder fails or leaves a valid message: every number in its range,
    every string and array within its storage, every oneof tag that of one of its members. */
module PbValidity {
  import opened DbFormat
  import opened Coding
  import opened PbModel
  import opened PbCodec
  import opened PbRoundTrip

  /** What a descriptor guarantees of a type. */
  ghost predicate Sized(lt: LType) {
    match lt
    case BytesField(size) => size <= SIZE_MAX
    case StringField(size) => size <= SIZE_MAX
    case FixedBytes(size) => size <= SIZE_MAX
    case Submessage(fields) => WellFormed(fields)
    case _ => true
  }

  lemma FieldSized(fields: seq<Field>, i: nat)
    requires WellFormed(fields) && i < |fields|
    ensures Sized(fields[i].ltype) && 0 < fields[i].tag
  {
    assert FieldOk(fields, i);
  }

  lemma {:induction false} DefaultFits(fields: seq<Field>)
    requires WellFormed(fields)
    ensures FitsMessage(fields, Default(fields))
    decreases Depth(fields), 1
  {
    forall i | 0 <= i < |fields| ensures FitsSlot(fields[i], DefaultSlot(fields, i)) {
      assert FieldOk(fields, i);
      DepthAt(fields, i);
      if fields[i].ltype.Submessage? { DefaultFits(fields[i].ltype.fields); }
    }
  }

  lemma {:induction false} StringEnds(b: Bytes)
    ensures 0 !in CString(b) && |CString(b)| <= |b|
    decreases |b|
  {
    if b != [] { StringEnds(b[1..]); }
  }

  /** A value is decoded within the range of its type. */
  lemma {:induction false} ValueFits(lt: LType, input: Bytes, prior: Value)
    requires Sized(lt) && (lt.Submessage? ==> prior.Num? || Fits(lt, prior))
    ensures DecodeValue(lt, input, prior).Some? ==> Fits(lt, DecodeValue(lt, input, prior).value.0)
    decreases |input|, 1
  {
    if lt.Submessage? {
      SubmessageFits(lt.fields, input, prior);
    } else {
      PlainFits(lt, input, prior);
    }
  }

  lemma PlainFits(lt: LType, input: Bytes, prior: Value)
    requires Sized(lt) && !lt.Submessage?
    ensures DecodeValue(lt, input, prior).Some? ==> Fits(lt, DecodeValue(lt, input, prior).value.0)
  {
    hide Varint32, Varint64, FixedValue, CString, Zeros;
    match lt
    case Fixed32 => if |input| >= 4 { WordsFit(input[..4]); }
    case Fixed64 => if |input| >= 8 { WordsFit(input[..8]); }
    case StringField(_) =>
      var n := Varint32(input);
      if n.Some? && n.value.0 <= |n.value.1| { StringEnds(n.value.1[..n.value.0]); }
    case _ =>
  }

  lemma {:induction false} SubmessageFits(fields: seq<Field>, input: Bytes, prior: Value)
    requires WellFormed(fields) && (prior.Num? || Fits(Submessage(fields), prior))
    ensures var r := DecodeValue(Submessage(fields), input, prior);
            r.Some? ==> Fits(Submessage(fields), r.value.0)
    decreases |input|, 0
  {
    hide WellFormed, FitsMessage, Default, DecodeFields, Substream;
    var p := Substream(input);
    if p.Some? {
      DefaultFits(fields);
      FieldsFit(fields, p.value.0, if prior.Msg? && |prior.msg.slots| == |fields| then prior.msg else Default(fields),
        {});
    }
  }

  lemma {:induction false} PackedFits(lt: LType, input: Bytes, items: seq<Value>, max: nat)
    requires Packable(lt) && |items| <= max && forall j :: 0 <= j < |items| ==> Fits(lt, items[j])
    ensures var r := DecodePacked(lt, input, items, max);
            r.Some? ==> |r.value| <= max && forall j :: 0 <= j < |r.value| ==> Fits(lt, r.value[j])
    decreases |input|
  {
    hide DecodeValue, Fits;
    if input != [] && |items| < max {
      PlainFits(lt, input, Num(0));
      var p := DecodeValue(lt, input, Num(0));
      if p.Some? { PackedFits(lt, p.value.1, items + [p.value.0], max); }
    }
  }

  lemma SlotFits(fields: seq<Field>, m: Message, i: nat, s: Slot)
    requires FitsMessage(fields, m) && i < |fields| && FitsSlot(fields[i], s)
    ensures FitsMessage(fields, m.(slots := m.slots[i := s]))
  {
    hide Fits, FitsSlot;
  }

  lemma MemberSet(fields: seq<Field>, m: Message, i: nat, v: Value)
    requires FitsMessage(fields, m) && i < |fields| && fields[i].htype.Oneof? && fields[i].htype.group < |m.unions|
    requires Fits(fields[i].ltype, v)
    ensures FitsMessage(fields, m.(unions := m.unions[fields[i].htype.group := (fields[i].tag, v)]))
  {
    hide Fits, FitsSlot;
    assert Selects(fields[i], fields[i].htype.group, (fields[i].tag, v));
  }

  /** A field of any input leaves the message valid. */
  lemma {:induction false} FieldFits(fields: seq<Field>, i: nat, wireType: nat, input: Bytes, m: Message)
    requires WellFormed(fields) && FitsMessage(fields, m) && i < |fields|
    ensures var r := DecodeField(fields, i, wireType, input, m);
            r.Some? ==> FitsMessage(fields, r.value.0)
    decreases |input|, 2
  {
    var f := fields[i];
    FieldSized(fields, i);
    assert FitsSlot(f, m.slots[i]);
    hide WellFormed, FitsMessage, DecodeValue, DecodePacked, Substream, Fits;
    match m.slots[i]
    case Single(v) =>
      ValueFits(f.ltype, input, v);
      var p := DecodeValue(f.ltype, input, v);
      if p.Some? { SlotFits(fields, m, i, Single(p.value.0)); }
    case Maybe(_, v) =>
      ValueFits(f.ltype, input, v);
      var p := DecodeValue(f.ltype, input, v);
      if p.Some? { SlotFits(fields, m, i, Maybe(true, p.value.0)); }
    case Many(items) =>
      if wireType == 2 && Packable(f.ltype) {
        ManyFits(fields, i, input, m, items);
      } else {
        ValueFits(f.ltype, input, Num(0));
        var p := DecodeValue(f.ltype, input, Num(0));
        if p.Some? && |items| < f.htype.max { SlotFits(fields, m, i, Many(items + [p.value.0])); }
      }
    case InUnion =>
      MemberFits(fields, m, i);
      var u := m.unions[f.htype.group];
      var prior := if u.0 == f.tag then u.1 else Num(0);
      ValueFits(f.ltype, input, prior);
      var p := DecodeValue(f.ltype, input, prior);
      if p.Some? { MemberSet(fields, m, i, p.value.0); }
  }

  lemma ManyFits(fields: seq<Field>, i: nat, input: Bytes, m: Message, items: seq<Value>)
    requires FitsMessage(fields, m) && i < |fields| && fields[i].htype.Repeated? && Packable(fields[i].ltype)
    requires m.slots[i] == Many(items) && FitsSlot(fields[i], m.slots[i])
    ensures var r := DecodeField(fields, i, 2, input, m);
            r.Some? ==> FitsMessage(fields, r.value.0)
  {
    var f, p := fields[i], Substream(input);
    hide FitsMessage, DecodePacked, Substream, Fits;
    if p.Some? {
      PackedFits(f.ltype, p.value.0, items, f.htype.max);
      var more := DecodePacked(f.ltype, p.value.0, items, f.htype.max);
      if more.Some? { SlotFits(fields, m, i, Many(more.value)); }
    }
  }

  lemma {:induction false} FieldsFit(fields: seq<Field>, input: Bytes, m: Message, seen: set<nat>)
    requires WellFormed(fields) && FitsMessage(fields, m)
    ensures var r := DecodeFields(fields, input, m, seen);
            r.Some? ==> FitsMessage(fields, r.value.0)
    decreases |input|, 3
  {
    assert |m.slots| == |fields|;
    hide WellFormed, FitsMessage, DecodeField, Varint32, Skip, Find, Seen, AllSeen;
    if input != [] && Varint32(input).Some? {
      var t := Varint32(input).value;
      var i := Find(fields, t.0 / 8);
      if t.0 != 0 {
        if i < |fields| {
          FieldFits(fields, i, t.0 % 8, t.1, m);
          var p := DecodeField(fields, i, t.0 % 8, t.1, m);
          if p.Some? { FieldsFit(fields, p.value.1, p.value.0, Seen(fields, i, seen)); }
        } else {
          var rest := if fields == [] && t.0 / 8 == 0 then Passed(t.1) else Skip(t.0 % 8, t.1);
          if rest.Some? { FieldsFit(fields, rest.value, m, seen); }
        }
      }
    }
  }

  /** The input behind the terminator's value. */
  function Passed(input: Bytes): (r: Option<Bytes>)
    ensures r.Some? ==> |r.value| < |input|
  {
    match Varint32(input) case None => None case Some(p) => Some(p.1)
  }

  /** No input makes the decoder leave a message that is not valid. */
  lemma DecodesToValid(fields: seq<Field>, input: Bytes)
    requires WellFormed(fields)
    ensures Decode(fields, input).Some? ==> FitsMessage(fields, Decode(fields, input).value.0)
  {
    hide WellFormed, FitsMessage, DecodeFields, Default;
    DefaultFits(fields);
    FieldsFit(fields, input, Default(fields), {});
  }

  /** So what was decoded can be sent on: it encodes, and whoever decodes that has the same message, less
      what its flags say is absent. */
  lemma DecodedIsSentOn(fields: seq<Field>, input: Bytes)
    requires WellFormed(fields) && Decode(fields, input).Some?
    ensures var m := Decode(fields, input).value.0;
            && FitsMessage(fields, m) && Encode(fields, m).Some?
            && (|Encode(fields, m).value| < LENGTH_LIMIT ==>
                Decode(fields, Encode(fields, m).value) == Some((Normal(fields, m), [])))
  {
    hide WellFormed, FitsMessage, Decode, Normal, Encode;
    DecodesToValid(fields, input);
    RoundTrip(fields, Decode(fields, input).value.0);
  }
}
