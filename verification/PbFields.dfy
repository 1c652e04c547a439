/** What a reader makes of encoded fields in any order, with fields left out and fields it does not know. */
module PbFields {
  import opened DbFormat
  import opened Coding
  import opened PbModel
  import opened PbCodec
  import opened PbRoundTrip

  // ---- Skipping ----------------------------------------------------------------------------------

  lemma {:induction false} VarintSkipped(v: nat, rest: Bytes)
    ensures SkipVarint(Varint(v) + rest) == Some(rest)
  {
    var b := Varint(v) + rest;
    if v < 128 {
      assert b[1..] == rest;
    } else {
      assert b[1..] == Varint(v / 128) + rest;
      VarintSkipped(v / 128, rest);
    }
  }

  /** The wire type in a tag says how long the value is. */
  lemma ValueSkipped(lt: LType, v: Value, rest: Bytes)
    requires EncodeValue(lt, v).Some? && |EncodeValue(lt, v).value| < LENGTH_LIMIT
    ensures Skip(WireType(lt), EncodeValue(lt, v).value + rest) == Some(rest)
  {
    hide Varint, Varint32, Fixed, SkipVarint, Substream, Delimited, EncodeFields;
    match lt
    case Bool => VarintSkipped(if v.n != 0 then 1 else 0, rest);
    case Int(_) => VarintSkipped(Unsigned64(v.n), rest);
    case UInt(_) => VarintSkipped(v.n, rest);
    case SInt(_) => VarintSkipped(ZigZag(v.n), rest);
    case Fixed32 => FixedWords(v.n); TakeRoundTrip(Fixed(4, v.n), rest);
    case Fixed64 => FixedWords(v.n); TakeRoundTrip(Fixed(8, v.n), rest);
    case Submessage(fields) =>
      var b := EncodeFields(fields, v.msg, 0).value;
      DelimitedSize(b);
      SubstreamRoundTrip(b, rest);
    case _ => DelimitedSize(v.bytes); SubstreamRoundTrip(v.bytes, rest);
  }

  /** A tag that no field has makes the decoder skip. */
  lemma UnknownTag(known: seq<Field>, tag: nat, wireType: nat, rest: Bytes, a: Message, seen: set<nat>)
    requires 0 < tag <= SIZE_MAX && wireType < 8 && |a.slots| == |known|
    requires forall i :: 0 <= i < |known| ==> known[i].tag != tag
    ensures DecodeFields(known, Tag(tag, wireType) + rest, a, seen) ==
              match Skip(wireType, rest) case None => None case Some(left) => DecodeFields(known, left, a, seen)
  {
    hide Varint, Varint32, DecodeField, Find, Seen, Skip;
    var t := tag * 8 + wireType;
    Varint32RoundTrip(t, rest);
    assert t / 8 == tag && t % 8 == wireType;
    assert Tag(tag, wireType) + rest != [] by { TagSize(tag, wireType); }
  }

  lemma TaggedSkipped(known: seq<Field>, f: Field, v: Value, e: Bytes, tail: Bytes, a: Message, seen: set<nat>)
    requires 0 < f.tag <= SIZE_MAX && (forall i :: 0 <= i < |known| ==> known[i].tag != f.tag)
    requires |a.slots| == |known| && Tagged(f, v) == Some(e) && |e| < LENGTH_LIMIT
    ensures DecodeFields(known, e + tail, a, seen) == DecodeFields(known, tail, a, seen)
  {
    hide DecodeFields, EncodeValue, Skip, Tag;
    var b := EncodeValue(f.ltype, v).value;
    assert e + tail == Tag(f.tag, WireType(f.ltype)) + (b + tail);
    UnknownTag(known, f.tag, WireType(f.ltype), b + tail, a, seen);
    ValueSkipped(f.ltype, v, tail);
  }

  lemma {:induction false} ItemsSkipped(known: seq<Field>, f: Field, items: seq<Value>, e: Bytes, tail: Bytes,
      a: Message, seen: set<nat>)
    requires 0 < f.tag <= SIZE_MAX && (forall i :: 0 <= i < |known| ==> known[i].tag != f.tag)
    requires |a.slots| == |known| && EncodeItems(f.ltype, Tag(f.tag, WireType(f.ltype)), items) == Some(e)
    requires |e| < LENGTH_LIMIT
    ensures DecodeFields(known, e + tail, a, seen) == DecodeFields(known, tail, a, seen)
    decreases |items|
  {
    hide DecodeFields, EncodeValue, Tag;
    if items == [] {
      assert e + tail == tail;
    } else {
      var b := Tagged(f, items[0]).value;
      var rest := EncodeItems(f.ltype, Tag(f.tag, WireType(f.ltype)), items[1..]).value;
      assert e + tail == b + (rest + tail);
      TaggedSkipped(known, f, items[0], b, rest + tail, a, seen);
      ItemsSkipped(known, f, items[1..], rest, tail, a, seen);
    }
  }

  lemma PackedSkipped(known: seq<Field>, f: Field, items: seq<Value>, e: Bytes, tail: Bytes, a: Message, seen: set<nat>)
    requires 0 < f.tag <= SIZE_MAX && (forall i :: 0 <= i < |known| ==> known[i].tag != f.tag)
    requires |a.slots| == |known| && f.htype.Repeated? && items != [] && Packable(f.ltype)
    requires EncodeArray(f, items) == Some(e) && |e| < LENGTH_LIMIT
    ensures DecodeFields(known, e + tail, a, seen) == DecodeFields(known, tail, a, seen)
  {
    hide DecodeFields, EncodeItems, Tag, Delimited, Substream;
    var b := EncodeItems(f.ltype, [], items).value;
    DelimitedSize(b);
    SubstreamRoundTrip(b, tail);
    assert e + tail == Tag(f.tag, 2) + (Delimited(b) + tail);
    UnknownTag(known, f.tag, 2, Delimited(b) + tail, a, seen);
  }

  /** A field whose tag the reader does not know is passed over, whatever its type. */
  lemma FieldSkipped(known: seq<Field>, f: Field, m: Message, i: nat, e: Bytes, tail: Bytes, a: Message,
      seen: set<nat>)
    requires 0 < f.tag <= SIZE_MAX && (forall j :: 0 <= j < |known| ==> known[j].tag != f.tag)
    requires |a.slots| == |known| && i < |m.slots| && EncodeField(f, m, i) == Some(e) && |e| < LENGTH_LIMIT
    ensures DecodeFields(known, e + tail, a, seen) == DecodeFields(known, tail, a, seen)
  {
    hide DecodeFields, Tagged, EncodeItems;
    if e == [] {
      assert e + tail == tail;
    } else {
      match m.slots[i]
      case Single(v) => TaggedSkipped(known, f, v, e, tail, a, seen);
      case Maybe(_, v) => TaggedSkipped(known, f, v, e, tail, a, seen);
      case InUnion => TaggedSkipped(known, f, m.unions[f.htype.group].1, e, tail, a, seen);
      case Many(items) =>
        if Packable(f.ltype) {
          PackedSkipped(known, f, items, e, tail, a, seen);
        } else {
          ItemsSkipped(known, f, items, e, tail, a, seen);
        }
    }
  }

  // ---- A reader that knows some of the fields ----------------------------------------------------

  ghost predicate Among(known: seq<Field>, fields: seq<Field>) {
    forall f :: f in known ==> f in fields
  }

  ghost predicate Holds(known: seq<Field>, g: nat, u: (nat, Value)) {
    u.0 == 0 || exists i :: 0 <= i < |known| && Selects(known[i], g, u)
  }

  /** The part of a message that is in the known fields. */
  ghost function Kept(fields: seq<Field>, m: Message, known: seq<Field>): (r: Message)
    requires FitsMessage(fields, m) && Among(known, fields)
    ensures |r.slots| == |known| && |r.unions| == Groups(known)
  {
    Message(seq(|known|, i requires 0 <= i < |known| => Place(fields, m, known[i])),
            seq(Groups(known), g requires 0 <= g < Groups(known) =>
              if g < |m.unions| && Holds(known, g, m.unions[g]) then m.unions[g] else (0, Num(0))))
  }

  ghost function Place(fields: seq<Field>, m: Message, f: Field): Slot
    requires f in fields && |m.slots| == |fields|
  {
    m.slots[Find(fields, f.tag)]
  }

  lemma KeptFits(fields: seq<Field>, m: Message, known: seq<Field>)
    requires WellFormed(fields) && FitsMessage(fields, m) && WellFormed(known) && Among(known, fields)
    ensures FitsMessage(known, Kept(fields, m, known))
  {
    hide Fits;
    var r := Kept(fields, m, known);
    forall i | 0 <= i < |known| ensures FitsSlot(known[i], r.slots[i]) {
      var j := FieldAt(fields, known[i]);
      assert FitsSlot(fields[j], m.slots[j]);
    }
  }

  lemma FieldAt(fields: seq<Field>, f: Field) returns (j: nat)
    requires WellFormed(fields) && f in fields
    ensures j < |fields| && fields[j] == f && Find(fields, f.tag) == j && 0 < f.tag <= SIZE_MAX
  {
    j :| 0 <= j < |fields| && fields[j] == f;
    FindIs(fields, j);
    assert FieldOk(fields, j);
  }

  /** A known field is encoded in the whole message as in the part. */
  lemma KeptEncodes(fields: seq<Field>, m: Message, known: seq<Field>, j: nat, i: nat)
    requires WellFormed(fields) && FitsMessage(fields, m) && WellFormed(known) && Among(known, fields)
    requires j < |fields| && i < |known| && fields[j] == known[i]
    ensures EncodeField(known[i], Kept(fields, m, known), i) == EncodeField(fields[j], m, j)
  {
    hide Fits, Tagged, EncodeArray;
    var f, r := known[i], Kept(fields, m, known);
    FindIs(fields, j);
    assert r.slots[i] == m.slots[j];
    if f.htype.Oneof? {
      assert FieldOk(known, i);
      MemberFits(fields, m, j);
      GroupAt(known, i);
    }
  }

  // ---- Any order ---------------------------------------------------------------------------------

  /** Each index names a field, no two the same one. */
  ghost predicate Once(fields: seq<Field>, order: seq<nat>) {
    && (forall k :: 0 <= k < |order| ==> order[k] < |fields|)
    && forall j, k :: 0 <= j < k < |order| ==> order[j] != order[k]
  }

  /** The encodings of these fields one after the other. */
  ghost function Sent(fields: seq<Field>, m: Message, order: seq<nat>): Option<Bytes>
    requires |m.slots| == |fields| && Once(fields, order)
  {
    if order == [] then Some([]) else Append(EncodeField(fields[order[0]], m, order[0]), Sent(fields, m, order[1..]))
  }

  /** The known fields that are among those sent. */
  ghost function Arrived(known: seq<Field>, fields: seq<Field>, order: seq<nat>): set<nat>
    requires Once(fields, order)
  {
    set i | 0 <= i < |known| && Comes(known[i], fields, order)
  }

  ghost predicate Comes(f: Field, fields: seq<Field>, order: seq<nat>)
    requires Once(fields, order)
  {
    exists k :: 0 <= k < |order| && fields[order[k]] == f
  }

  lemma {:induction false} SentEncodes(fields: seq<Field>, m: Message, order: seq<nat>)
    requires WellFormed(fields) && FitsMessage(fields, m) && Once(fields, order)
    ensures Sent(fields, m, order).Some?
    decreases |order|
  {
    hide WellFormed, EncodeField, FitsSlot;
    if order != [] {
      EncodesField(fields, m, order[0]);
      SentEncodes(fields, m, order[1..]);
    }
  }

  /** Which fields come, one by one. */
  lemma ComesNext(fields: seq<Field>, order: seq<nat>, f: Field)
    requires Once(fields, order) && order != []
    ensures Once(fields, order[1..])
    ensures Comes(f, fields, order) <==> fields[order[0]] == f || Comes(f, fields, order[1..])
  {
    assert Comes(f, fields, order[1..]) ==> Comes(f, fields, order) by {
      if k :| 0 <= k < |order[1..]| && fields[order[1..][k]] == f { assert fields[order[k + 1]] == f; }
    }
    if k :| 0 <= k < |order| && fields[order[k]] == f {
      if k > 0 { assert fields[order[1..][k - 1]] == f; }
    }
  }

  lemma ComesOnce(fields: seq<Field>, order: seq<nat>)
    requires WellFormed(fields) && Once(fields, order) && order != []
    ensures Once(fields, order[1..]) && !Comes(fields[order[0]], fields, order[1..])
  {
    hide FieldOk;
    forall k | 0 <= k < |order[1..]| ensures fields[order[1..][k]].tag != fields[order[0]].tag {
      assert order[1..][k] == order[k + 1] && order[k + 1] != order[0];
    }
  }

  /** The first field sent is the known one i. */
  lemma ArrivedKnown(known: seq<Field>, fields: seq<Field>, order: seq<nat>, i: nat)
    requires WellFormed(known) && Once(fields, order) && order != [] && i < |known| && fields[order[0]] == known[i]
    ensures Once(fields, order[1..]) && Arrived(known, fields, order) == {i} + Arrived(known, fields, order[1..])
  {
    hide Comes, FieldOk;
    forall k | 0 <= k < |known| ensures k in Arrived(known, fields, order) <==>
        k == i || k in Arrived(known, fields, order[1..]) {
      ComesNext(fields, order, known[k]);
      assert known[k] == known[i] ==> known[k].tag == known[i].tag;
    }
    ComesNext(fields, order, known[i]);
  }

  /** The first field sent is not known. */
  lemma ArrivedUnknown(known: seq<Field>, fields: seq<Field>, order: seq<nat>)
    requires Once(fields, order) && order != [] && fields[order[0]] !in known
    ensures Once(fields, order[1..]) && Arrived(known, fields, order) == Arrived(known, fields, order[1..])
  {
    hide Comes;
    forall k | 0 <= k < |known| ensures k in Arrived(known, fields, order) <==>
        k in Arrived(known, fields, order[1..]) {
      ComesNext(fields, order, known[k]);
    }
    ComesNext(fields, order, fields[order[0]]);
  }

  /** A field that is not known has a tag that is not known. */
  lemma UnknownIsNew(fields: seq<Field>, known: seq<Field>, j: nat)
    requires WellFormed(fields) && Among(known, fields) && j < |fields| && fields[j] !in known
    ensures 0 < fields[j].tag <= SIZE_MAX && forall i :: 0 <= i < |known| ==> known[i].tag != fields[j].tag
  {
    assert FieldOk(fields, j);
    forall i | 0 <= i < |known| ensures known[i].tag != fields[j].tag {
      var k := FieldAt(fields, known[i]);
      assert k != j;
    }
  }

  /** What is left to decode of some fields, in any order, when others are done. */
  lemma {:induction false} OrderDecodes(fields: seq<Field>, m: Message, known: seq<Field>, r: Message,
      order: seq<nat>, done: set<nat>, seen: set<nat>)
    requires WellFormed(fields) && FitsMessage(fields, m) && WellFormed(known) && Among(known, fields)
    requires r == Kept(fields, m, known) && FitsMessage(known, r)
    requires Once(fields, order) && Length(Sent(fields, m, order)) < LENGTH_LIMIT
    requires Marked(known, done, seen)
    requires forall i :: i in done && i < |known| ==> !Comes(known[i], fields, order)
    ensures Sent(fields, m, order).Some?
    ensures var all := done + Arrived(known, fields, order);
            DecodeFields(known, Sent(fields, m, order).value, Mixed(known, r, done), seen) ==
              if NoneMissing(known, all) then Some((Mixed(known, r, all), [])) else None
    decreases |order|
  {
    assert |m.slots| == |fields|;
    hide WellFormed, FitsMessage, Among, Kept, Marked, Mixed, NoneMissing, EncodeField, Comes, AllSeen;
    SentEncodes(fields, m, order);
    if order == [] {
      CheckIsExact(known, done, seen);
      NothingComes(known, fields, order);
      assert done + Arrived(known, fields, order) == done;
    } else {
      var j, rest := order[0], order[1..];
      SentEncodes(fields, m, rest);
      EncodesField(fields, m, j);
      var e, tail := EncodeField(fields[j], m, j).value, Sent(fields, m, rest).value;
      assert Sent(fields, m, order).value == e + tail;
      hide DecodeFields;
      forall i | i in done && i < |known| ensures !Comes(known[i], fields, rest) {
        ComesNext(fields, order, known[i]);
      }
      if i :| 0 <= i < |known| && known[i] == fields[j] {
        ComesNext(fields, order, known[i]);
        KeptEncodes(fields, m, known, j, i);
        FieldRoundTrip(known, r, done, i, seen, e, tail);
        MarkedNext(known, done, seen, i);
        ComesOnce(fields, order);
        ArrivedKnown(known, fields, order, i);
        OrderDecodes(fields, m, known, r, rest, done + {i}, Seen(known, i, seen));
        assert (done + {i}) + Arrived(known, fields, rest) == done + Arrived(known, fields, order);
      } else {
        UnknownIsNew(fields, known, j);
        FieldSkipped(known, fields[j], m, j, e, tail, Mixed(known, r, done), seen);
        ArrivedUnknown(known, fields, order);
        OrderDecodes(fields, m, known, r, rest, done, seen);
      }
    }
  }

  lemma NothingComes(known: seq<Field>, fields: seq<Field>, order: seq<nat>)
    requires order == []
    ensures Arrived(known, fields, order) == {}
  {}

  /** What a reader makes of fields sent in any order.  It fails if and only if one of its first 64 required
      fields is not among them; otherwise it has what came of the fields it knows, and its defaults. */
  lemma AnyOrder(fields: seq<Field>, m: Message, known: seq<Field>, order: seq<nat>)
    requires WellFormed(fields) && FitsMessage(fields, m) && WellFormed(known) && Among(known, fields)
    requires Once(fields, order)
    ensures Sent(fields, m, order).Some? && FitsMessage(known, Kept(fields, m, known))
    ensures |Sent(fields, m, order).value| < LENGTH_LIMIT ==>
        Decode(known, Sent(fields, m, order).value) ==
          if NoneMissing(known, Arrived(known, fields, order))
          then Some((Mixed(known, Kept(fields, m, known), Arrived(known, fields, order)), [])) else None
  {
    assert |m.slots| == |fields|;
    hide WellFormed, FitsMessage, Among, Kept, Mixed, NoneMissing, Arrived, DecodeFields, Default;
    SentEncodes(fields, m, order);
    KeptFits(fields, m, known);
    if |Sent(fields, m, order).value| < LENGTH_LIMIT {
      var r := Kept(fields, m, known);
      MixedEnds(known, r);
      OrderDecodes(fields, m, known, r, order, {}, {});
      assert {} + Arrived(known, fields, order) == Arrived(known, fields, order);
    }
  }

  lemma KeptAll(fields: seq<Field>, m: Message)
    requires WellFormed(fields) && FitsMessage(fields, m)
    ensures Among(fields, fields) && Kept(fields, m, fields) == m
  {
    hide Fits, FitsSlot, FieldOk;
    var r := Kept(fields, m, fields);
    forall i | 0 <= i < |fields| ensures r.slots[i] == m.slots[i] { FindIs(fields, i); }
    assert r.slots == m.slots;
    assert r.unions == m.unions;
  }

  lemma ArrivedSelf(fields: seq<Field>, order: seq<nat>, i: nat)
    requires WellFormed(fields) && Once(fields, order) && i < |fields|
    ensures i in Arrived(fields, fields, order) <==> i in order
  {
    hide FieldOk;
    if i in order {
      var k :| 0 <= k < |order| && order[k] == i;
      assert fields[order[k]] == fields[i];
    }
    forall k | 0 <= k < |order| && fields[order[k]] == fields[i] ensures order[k] == i {
      assert fields[order[k]].tag == fields[i].tag;
    }
  }

  /** Without one of the first 64 required fields a message is refused, whatever else is sent. */
  lemma MissingRequired(fields: seq<Field>, m: Message, order: seq<nat>, i: nat)
    requires WellFormed(fields) && FitsMessage(fields, m) && Once(fields, order)
    requires i < |fields| && i !in order
    requires fields[i].htype.Required? && |RequiredOnes(fields, i)| < 64
    ensures Sent(fields, m, order).Some?
    ensures |Sent(fields, m, order).value| < LENGTH_LIMIT ==> Decode(fields, Sent(fields, m, order).value) == None
  {
    hide WellFormed, FitsMessage, Among, Kept, Mixed, Arrived, Decode;
    KeptAll(fields, m);
    AnyOrder(fields, m, fields, order);
    ArrivedSelf(fields, order, i);
    assert Checked(fields, i);
  }

  /** With every field sent, their order does not matter. */
  lemma OrderIsFree(fields: seq<Field>, m: Message, order: seq<nat>)
    requires WellFormed(fields) && FitsMessage(fields, m) && Once(fields, order)
    requires forall i :: 0 <= i < |fields| ==> i in order
    ensures Sent(fields, m, order).Some?
    ensures |Sent(fields, m, order).value| < LENGTH_LIMIT ==>
        Decode(fields, Sent(fields, m, order).value) == Some((Normal(fields, m), []))
  {
    hide WellFormed, FitsMessage, Among, Kept, Mixed, Arrived, Decode, Normal;
    KeptAll(fields, m);
    AnyOrder(fields, m, fields, order);
    forall i | 0 <= i < |fields| ensures i in Arrived(fields, fields, order) { ArrivedSelf(fields, order, i); }
    AllMixed(fields, m, Arrived(fields, fields, order));
  }

  lemma AllMixed(fields: seq<Field>, m: Message, done: set<nat>)
    requires WellFormed(fields) && FitsMessage(fields, m) && forall i :: 0 <= i < |fields| ==> i in done
    ensures NoneMissing(fields, done) && Mixed(fields, m, done) == Normal(fields, m)
  {
    hide Fits, FitsSlot, FieldOk, NormalSlot, NormalUnion;
    MixedEnds(fields, m);
    var a, b := Mixed(fields, m, done), Mixed(fields, m, First(|fields|));
    forall g | 0 <= g < |m.unions| && m.unions[g].0 != 0 ensures MemberIn(fields, m.unions[g], done) {
      var i :| 0 <= i < |fields| && Selects(fields[i], g, m.unions[g]);
      FindIs(fields, i);
    }
    assert a.slots == b.slots;
    assert a.unions == b.unions;
  }

  function Upto(i: nat, n: nat): seq<nat>
    requires i <= n
  {
    seq(n - i, k requires 0 <= k < n - i => i + k)
  }

  lemma {:induction false} EncodeIsSent(fields: seq<Field>, m: Message, i: nat)
    requires |m.slots| == |fields| && i <= |fields|
    ensures Once(fields, Upto(i, |fields|)) && EncodeFields(fields, m, i) == Sent(fields, m, Upto(i, |fields|))
    decreases |fields| - i
  {
    if i < |fields| {
      EncodeIsSent(fields, m, i + 1);
      assert Upto(i, |fields|)[1..] == Upto(i + 1, |fields|);
    }
  }

  /** A reader that lacks some of the fields passes over them and gets the rest of the message. */
  lemma UnknownSkipped(fields: seq<Field>, m: Message, known: seq<Field>)
    requires WellFormed(fields) && FitsMessage(fields, m) && WellFormed(known) && Among(known, fields)
    ensures Encode(fields, m).Some? && FitsMessage(known, Kept(fields, m, known))
    ensures |Encode(fields, m).value| < LENGTH_LIMIT ==>
        Decode(known, Encode(fields, m).value) == Some((Normal(known, Kept(fields, m, known)), []))
  {
    assert |m.slots| == |fields|;
    hide WellFormed, FitsMessage, Kept, Mixed, Decode, Normal, Sent, EncodeFields;
    var order := Upto(0, |fields|);
    EncodeIsSent(fields, m, 0);
    AnyOrder(fields, m, known, order);
    forall i | 0 <= i < |known| ensures i in Arrived(known, fields, order) {
      var j := FieldAt(fields, known[i]);
      assert fields[order[j]] == known[i];
    }
    AllMixed(known, Kept(fields, m, known), Arrived(known, fields, order));
  }

  // ---- Bytes -------------------------------------------------------------------------------------

  /** The wire types, as the numbers that the other end of the wire goes by. */
  lemma WireNumbers(f: Field, v: Value)
    requires Tagged(f, v).Some?
    ensures f.ltype.Bool? || f.ltype.Int? || f.ltype.UInt? || f.ltype.SInt? ==>
        Tagged(f, v).value == Varint(8 * f.tag) + EncodeValue(f.ltype, v).value
    ensures f.ltype.Fixed64? ==> Tagged(f, v).value == Varint(8 * f.tag + 1) + EncodeValue(f.ltype, v).value
    ensures f.ltype.Fixed32? ==> Tagged(f, v).value == Varint(8 * f.tag + 5) + EncodeValue(f.ltype, v).value
    ensures f.ltype.BytesField? || f.ltype.StringField? || f.ltype.FixedBytes? || f.ltype.Submessage? ==>
        Tagged(f, v).value == Varint(8 * f.tag + 2) + EncodeValue(f.ltype, v).value
  {
    assert 8 * f.tag == f.tag * 8;
  }

  /** Numbers of all kinds are packed: one tag, one length, then the items. */
  lemma PackedBytes(f: Field, items: seq<Value>)
    requires f.htype.Repeated? && EncodeArray(f, items).Some? && items != []
    requires f.ltype.Bool? || f.ltype.Int? || f.ltype.UInt? || f.ltype.SInt? || f.ltype.Fixed32? || f.ltype.Fixed64?
    ensures EncodeItems(f.ltype, [], items).Some?
    ensures var b := EncodeItems(f.ltype, [], items).value;
            EncodeArray(f, items).value == Varint(8 * f.tag + 2) + (Varint(|b|) + b)
  {
    assert 8 * f.tag == f.tag * 8;
  }

  /** A field is absent from a message: never if it is required; without a flag, when it is zero; an array
      when it is empty; a member when it is not the selected one. */
  ghost predicate Absent(f: Field, m: Message, i: nat)
    requires i < |m.slots|
  {
    match (f.htype, m.slots[i])
    case (Optional(_), Single(v)) =>
      if Packable(f.ltype) then v == Num(0)
      else if f.ltype.BytesField? || f.ltype.StringField? then v == Raw([])
      else ZeroValue(f.ltype, v)
    case (Optional(_), Maybe(has, _)) => !has
    case (Repeated(_), Many(items)) => items == []
    case (Oneof(g), InUnion) => g < |m.unions| && m.unions[g].0 != f.tag
    case _ => false
  }

  /** Nothing is sent of a field if and only if it is absent. */
  lemma SilentIfAbsent(fields: seq<Field>, m: Message, i: nat)
    requires WellFormed(fields) && FitsMessage(fields, m) && i < |fields|
    ensures EncodeField(fields[i], m, i).Some?
    ensures EncodeField(fields[i], m, i).value == [] <==> Absent(fields[i], m, i)
  {
    var f, s := fields[i], m.slots[i];
    assert FitsSlot(f, s);
    EncodesField(fields, m, i);
    if f.htype.Oneof? { MemberFits(fields, m, i); }
    hide WellFormed, FitsMessage, EncodeValue, Fits, Tag;
    TagSize(f.tag, WireType(f.ltype));
    if s.Many? && s.items != [] { ArraySent(f, s.items); }
  }

  lemma ArraySent(f: Field, items: seq<Value>)
    requires f.htype.Repeated? && EncodeArray(f, items).Some? && items != []
    ensures EncodeArray(f, items).value != []
  {
    hide Tag, EncodeValue;
    TagSize(f.tag, WireType(f.ltype));
    TagSize(f.tag, 2);
    if !Packable(f.ltype) {
      var tag := Tag(f.tag, WireType(f.ltype));
      assert EncodeItems(f.ltype, tag, items).value ==
          (tag + EncodeValue(f.ltype, items[0]).value) + EncodeItems(f.ltype, tag, items[1..]).value;
    }
  }

  function Alone(lt: LType): seq<Field> { [Field(1, lt, Required, Num(0))] }

  function Just(v: Value): Message { Message([Single(v)], []) }

  /** Some messages with one field: the byte of its tag and those of its value. */
  lemma SomeBytes()
    ensures Encode(Alone(Bool), Just(Num(1))) == Some([0x08] + [1])
    ensures Encode(Alone(UInt(4)), Just(Num(150))) == Some([0x08] + [0x96, 0x01])
    ensures Encode(Alone(Int(4)), Just(Num(-1))) ==
        Some([0x08] + [0xff, 0xff, 0xff, 0xff, 0xff, 0xff, 0xff, 0xff, 0xff, 0x01])
    ensures Encode(Alone(SInt(4)), Just(Num(-2))) == Some([0x08] + [3])
    ensures Encode(Alone(StringField(8)), Just(Raw([0x68, 0x69]))) == Some([0x0a] + [2, 0x68, 0x69])
  {
    hide Encode, EncodeFields, EncodeField;
    OneField(Bool, Num(1), [1]);
    assert Varint(150) == [150 % 128 + 128] + Varint(150 / 128);
    assert Varint(150) == [0x96, 0x01];
    OneField(UInt(4), Num(150), [0x96, 0x01]);
    MinusOne();
    OneField(Int(4), Num(-1), [0xff, 0xff, 0xff, 0xff, 0xff, 0xff, 0xff, 0xff, 0xff, 0x01]);
    OneField(SInt(4), Num(-2), [3]);
    assert Delimited([0x68, 0x69]) == [2, 0x68, 0x69];
    OneField(StringField(8), Raw([0x68, 0x69]), [2, 0x68, 0x69]);
  }

  lemma MinusOne()
    ensures Varint(0xffff_ffff_ffff_ffff) == [0xff, 0xff, 0xff, 0xff, 0xff, 0xff, 0xff, 0xff, 0xff, 0x01]
  {
    assert Varint(0xff) == [0xff] + Varint(1);
    assert Varint(0x7fff) == [0xff] + Varint(0xff);
    assert Varint(0x3f_ffff) == [0xff] + Varint(0x7fff);
    assert Varint(0x1fff_ffff) == [0xff] + Varint(0x3f_ffff);
    assert Varint(0xf_ffff_ffff) == [0xff] + Varint(0x1fff_ffff);
    assert Varint(0x7ff_ffff_ffff) == [0xff] + Varint(0xf_ffff_ffff);
    assert Varint(0x3_ffff_ffff_ffff) == [0xff] + Varint(0x7ff_ffff_ffff);
    assert Varint(0x1ff_ffff_ffff_ffff) == [0xff] + Varint(0x3_ffff_ffff_ffff);
    assert Varint(0xffff_ffff_ffff_ffff) == [0xff] + Varint(0x1ff_ffff_ffff_ffff);
  }

  lemma FixedSent()
    ensures Encode(Alone(Fixed64), Just(Num(7))) == Some([0x09] + [7, 0, 0, 0, 0, 0, 0, 0])
    ensures Encode(Alone(Fixed32), Just(Num(7))) == Some([0x0d] + [7, 0, 0, 0])
  {
    hide Encode, EncodeFields, EncodeField;
    SmallFixed(8, 7);
    assert Fixed(8, 7) == [7, 0, 0, 0, 0, 0, 0, 0];
    OneField(Fixed64, Num(7), [7, 0, 0, 0, 0, 0, 0, 0]);
    SmallFixed(4, 7);
    assert Fixed(4, 7) == [7, 0, 0, 0];
    OneField(Fixed32, Num(7), [7, 0, 0, 0]);
  }

  lemma OneField(lt: LType, v: Value, b: Bytes)
    requires EncodeValue(lt, v) == Some(b)
    ensures Encode(Alone(lt), Just(v)) == Some([8 + WireType(lt)] + b)
  {
    hide EncodeValue;
    var fields, m := Alone(lt), Just(v);
    assert EncodeFields(fields, m, 1) == Some([]);
    assert EncodeField(fields[0], m, 0) == Tagged(fields[0], v);
    assert Tagged(fields[0], v) == Some([8 + WireType(lt)] + b);
    assert ([8 + WireType(lt)] + b) + [] == [8 + WireType(lt)] + b;
  }

  lemma {:induction false} SmallFixed(n: nat, v: nat)
    requires n > 0 && v < 256
    ensures Fixed(n, v) == [v] + Zeros(n - 1)
  {
    if n > 1 { SmallFixed(n - 1, 0); }
  }
}
