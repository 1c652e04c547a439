/** Decoding what was encoded gives back the message. */
module PbRoundTrip {
  import opened DbFormat
  import opened Coding
  import opened PbModel
  import opened PbCodec

  // ---- Numbers -----------------------------------------------------------------------------------

  /** One more byte. */
  lemma MoreUnfold(input: Bytes, k: nat, result: nat, more: nat)
    requires 1 <= k <= 4 && input != [] && more == input[0] % 128 * Pow128(k) && result + more < WORD
    ensures MoreVarint32(input, 7 * k, result) ==
        if input[0] >= 128 then MoreVarint32(input[1..], 7 * (k + 1), result + more)
        else if k == 4 && input[0] / 16 % 8 != 0 then None else Some((result + more, input[1..]))
  {
    hide Pow128;
    assert 7 * k / 7 == k && 7 * k < 32;
  }

  lemma MoreByte(w: nat, rest: Bytes, k: nat, result: nat)
    requires 1 <= k <= 4 && result + w % 128 * Pow128(k) < WORD
    ensures MoreVarint32(Varint(w) + rest, 7 * k, result) ==
        if w >= 128 then MoreVarint32(Varint(w / 128) + rest, 7 * (k + 1), result + w % 128 * Pow128(k))
        else if k == 4 && w / 16 % 8 != 0 then None else Some((result + w % 128 * Pow128(k), rest))
  {
    hide Pow128, MoreVarint32;
    var b := Varint(w) + rest;
    MoreUnfold(b, k, result, w % 128 * Pow128(k));
    assert b[1..] == if w >= 128 then Varint(w / 128) + rest else rest;
  }

  lemma {:induction false} MoreRoundTrip(w: nat, rest: Bytes, k: nat, result: nat)
    requires 1 <= k <= 4 && result < Pow128(k) && result + w * Pow128(k) < WORD
    ensures MoreVarint32(Varint(w) + rest, 7 * k, result) == Some((result + w * Pow128(k), rest))
    decreases 4 - k
  {
    hide Pow128, MoreVarint32, Varint;
    if w < 128 {
      LastByte(w, k, result);
      assert w % 128 == w;
      MoreByte(w, rest, k, result);
    } else {
      FitsMore(w, k, result);
      MoreByte(w, rest, k, result);
      MoreRoundTrip(w / 128, rest, k + 1, result + w % 128 * Pow128(k));
    }
  }

  lemma LastByte(w: nat, k: nat, result: nat)
    requires 1 <= k <= 4 && w < 128 && result + w * Pow128(k) < WORD
    ensures k == 4 ==> w / 16 % 8 == 0
  {
    Pow128Words();
  }

  lemma FitsMore(w: nat, k: nat, result: nat)
    requires 1 <= k <= 4 && w >= 128 && result < Pow128(k) && result + w * Pow128(k) < WORD
    ensures k < 4 && Pow128(k + 1) == 128 * Pow128(k)
    ensures result + w % 128 * Pow128(k) < Pow128(k + 1)
    ensures (result + w % 128 * Pow128(k)) + w / 128 * Pow128(k + 1) == result + w * Pow128(k)
    ensures result + w % 128 * Pow128(k) < WORD
  {
    assert Pow128(1) == 0x80;
    assert Pow128(2) == 0x4000;
    assert Pow128(3) == 0x20_0000;
    Pow128Words();
    if k == 1 {} else if k == 2 {} else if k == 3 {}
  }

  lemma Varint32RoundTrip(v: nat, rest: Bytes)
    requires v < WORD
    ensures Varint32(Varint(v) + rest) == Some((v, rest))
  {
    var b := Varint(v) + rest;
    if v < 128 {
      assert b[1..] == rest;
    } else {
      assert b[1..] == Varint(v / 128) + rest;
      assert Pow128(1) == 128;
      MoreRoundTrip(v / 128, rest, 1, v % 128);
    }
  }

  lemma Varint64RoundTrip(v: nat, rest: Bytes)
    requires v < DWORD
    ensures Varint64(Varint(v) + rest) == Some((v, rest))
  {
    Pow128Words();
    VarintRoundTrip(v, rest, 10);
    assert (Varint(v) + rest)[|Varint(v)|..] == rest;
  }

  lemma ZigZagRoundTrip(n: int)
    ensures UnZigZag(ZigZag(n)) == n
  {}

  lemma ZigZagFits(size: nat, n: int)
    requires InRange(size, n)
    ensures ZigZag(n) < DWORD
  {}

  /** Narrow signed numbers are sent in 64 bits and read back through 32. */
  lemma IntRoundTrip(size: nat, n: int)
    requires InRange(size, n)
    ensures 0 <= n + DWORD && n < DWORD && Unsigned64(n) < DWORD
    ensures (if size == 8 then Signed(Unsigned64(n), DWORD) else Signed(Unsigned64(n) % WORD, WORD)) == n
  {}

  lemma TakeRoundTrip(b: Bytes, rest: Bytes)
    ensures Take(b + rest, |b|) == Some((b, rest))
  {}

  lemma SubstreamRoundTrip(b: Bytes, rest: Bytes)
    requires |b| < WORD
    ensures Substream(Delimited(b) + rest) == Some((b, rest))
  {
    hide Varint, Varint32;
    assert Delimited(b) + rest == Varint(|b|) + (b + rest);
    Varint32RoundTrip(|b|, b + rest);
    TakeRoundTrip(b, rest);
  }

  // ---- Values ------------------------------------------------------------------------------------

  /** Values of all types but submessages. */
  lemma PlainRoundTrip(lt: LType, v: Value, rest: Bytes, prior: Value)
    requires Fits(lt, v) && !lt.Submessage?
    ensures EncodeValue(lt, v).Some? && EncodeValue(lt, v).value != []
    ensures DecodeValue(lt, EncodeValue(lt, v).value + rest, prior) == Some((v, rest))
  {
    hide Varint, Varint32, Varint64, Fixed, FixedValue, Delimited, Substream;
    match lt
    case Bool => Varint32RoundTrip(if v.n != 0 then 1 else 0, rest);
    case Int(size) => IntRoundTrip(size, v.n); Varint64RoundTrip(Unsigned64(v.n), rest);
    case UInt(size) => Varint64RoundTrip(v.n, rest);
    case SInt(size) => ZigZagFits(size, v.n); ZigZagRoundTrip(v.n); Varint64RoundTrip(ZigZag(v.n), rest);
    case Fixed32 => FixedWords(v.n); TakeRoundTrip(Fixed(4, v.n), rest);
    case Fixed64 => FixedWords(v.n); TakeRoundTrip(Fixed(8, v.n), rest);
    case BytesField(_) => LengthRoundTrip(v.bytes, rest);
    case StringField(_) => LengthRoundTrip(v.bytes, rest);
    case FixedBytes(_) => LengthRoundTrip(v.bytes, rest); NoZeroes(v.bytes);
  }

  lemma NoZeroes(b: Bytes)
    ensures |b| == 0 ==> Zeros(0) == b
  {}

  lemma LengthRoundTrip(b: Bytes, rest: Bytes)
    requires |b| < WORD
    ensures Varint32(Delimited(b) + rest) == Some((|b|, b + rest)) && Take(b + rest, |b|) == Some((b, rest))
    ensures Delimited(b) != []
  {
    assert Delimited(b) + rest == Varint(|b|) + (b + rest);
    Varint32RoundTrip(|b|, b + rest);
    TakeRoundTrip(b, rest);
  }

  // ---- Encoding succeeds -------------------------------------------------------------------------

  /** Every valid message is encoded. */
  lemma {:induction false} EncodesFields(fields: seq<Field>, m: Message, i: nat)
    requires WellFormed(fields) && FitsMessage(fields, m) && i <= |fields|
    ensures EncodeFields(fields, m, i).Some?
    decreases m, 1, |fields| - i
  {
    if i < |fields| {
      EncodesField(fields, m, i);
      EncodesFields(fields, m, i + 1);
    }
  }

  lemma {:induction false} EncodesField(fields: seq<Field>, m: Message, i: nat)
    requires WellFormed(fields) && FitsMessage(fields, m) && i < |fields|
    ensures EncodeField(fields[i], m, i).Some?
    decreases m, 0
  {
    assert FieldOk(fields, i) && FitsSlot(fields[i], m.slots[i]);
    var f := fields[i];
    match m.slots[i]
    case Single(v) => EncodesValue(f.ltype, v);
    case Maybe(has, v) => EncodesValue(f.ltype, v);
    case Many(items) =>
      EncodesItems(f.ltype, [], items);
      EncodesItems(f.ltype, Tag(f.tag, WireType(f.ltype)), items);
    case InUnion =>
      if f.htype.group < |m.unions| && m.unions[f.htype.group].0 == f.tag {
        MemberFits(fields, m, i);
        EncodesValue(f.ltype, m.unions[f.htype.group].1);
      }
  }

  lemma {:induction false} EncodesItems(lt: LType, tag: Bytes, items: seq<Value>)
    requires (lt.Submessage? ==> WellFormed(lt.fields)) && forall j :: 0 <= j < |items| ==> Fits(lt, items[j])
    ensures EncodeItems(lt, tag, items).Some?
    decreases items, 0
  {
    if items != [] {
      EncodesValue(lt, items[0]);
      EncodesItems(lt, tag, items[1..]);
    }
  }

  lemma {:induction false} EncodesValue(lt: LType, v: Value)
    requires (lt.Submessage? ==> WellFormed(lt.fields)) && Fits(lt, v)
    ensures EncodeValue(lt, v).Some?
    decreases v, 0
  {
    if lt.Submessage? { EncodesFields(lt.fields, v.msg, 0); } else { PlainRoundTrip(lt, v, [], v); }
  }

  /** A member that is selected fits its field. */
  lemma MemberFits(fields: seq<Field>, m: Message, i: nat)
    requires WellFormed(fields) && FitsMessage(fields, m) && i < |fields| && fields[i].htype.Oneof?
    ensures fields[i].htype.group < |m.unions|
    ensures m.unions[fields[i].htype.group].0 == fields[i].tag ==>
        Selects(fields[i], fields[i].htype.group, m.unions[fields[i].htype.group])
  {
    hide Fits;
    GroupAt(fields, i);
    assert FieldOk(fields, i);
    var g := fields[i].htype.group;
    if m.unions[g].0 == fields[i].tag {
      var k :| 0 <= k < |fields| && Selects(fields[k], g, m.unions[g]);
      assert fields[k].tag == fields[i].tag;
      assert k == i;
    }
  }

  /** The length of what is encoded from field i on. */
  ghost function Length(b: Option<Bytes>): nat { if b.Some? then |b.value| else 0 }

  // ---- Zero values are the default ones ----------------------------------------------------------

  lemma {:induction false} ZeroIsDefault(fields: seq<Field>, m: Message)
    requires WellFormed(fields) && FitsMessage(fields, m) && forall i :: 0 <= i < |fields| ==>
        ZeroField(fields[i], m, i)
    ensures Normal(fields, m) == Default(fields)
    decreases m, 1
  {
    forall i | 0 <= i < |fields| ensures NormalSlot(fields, i, m.slots[i]) == DefaultSlot(fields, i) {
      assert FieldOk(fields, i) && FitsSlot(fields[i], m.slots[i]) && ZeroField(fields[i], m, i);
      if m.slots[i].Single? { ZeroValueIsDefault(fields, i, m.slots[i].value); }
    }
    forall i, g | 0 <= i < |fields| && 0 <= g < |m.unions| &&
        Selects(fields[i], g, m.unions[g]) ensures m.unions[g].0 == 0 {
      assert ZeroField(fields[i], m, i) && FitsSlot(fields[i], m.slots[i]);
    }
  }

  lemma {:induction false} ZeroValueIsDefault(fields: seq<Field>, i: nat, v: Value)
    requires WellFormed(fields) && i < |fields| && fields[i].htype == Optional(false) && Fits(fields[i].ltype, v)
    requires ZeroValue(fields[i].ltype, v)
    ensures NormalValue(fields[i].ltype, v) == DefaultValue(fields, i)
    decreases v, 0
  {
    assert FieldOk(fields, i);
    if fields[i].ltype.Submessage? { ZeroIsDefault(fields[i].ltype.fields, v.msg); }
  }

  // ---- Messages ----------------------------------------------------------------------------------

  /** The oneof member is one of these fields. */
  predicate MemberIn(fields: seq<Field>, u: (nat, Value), done: set<nat>) {
    u.0 != 0 && Find(fields, u.0) in done
  }

  /** The message when just these fields have been decoded. */
  ghost function Mixed(fields: seq<Field>, m: Message, done: set<nat>): (r: Message)
    requires FitsMessage(fields, m)
    ensures |r.slots| == |fields| && |r.unions| == |m.unions|
  {
    Message(seq(|fields|,
      j requires 0 <= j < |fields| => if j in done then NormalSlot(fields, j, m.slots[j]) else DefaultSlot(fields, j)),
            seq(|m.unions|, g requires 0 <= g < |m.unions| => if MemberIn(fields, m.unions[g], done) then
              NormalUnion(fields, g, m.unions[g]) else (0, Num(0))))
  }

  /** The fields before i. */
  ghost function First(i: nat): (r: set<nat>)
    ensures forall j: nat :: j in r <==> j < i
  {
    if i == 0 then {} else First(i - 1) + {i - 1}
  }

  lemma MixedEnds(fields: seq<Field>, m: Message)
    requires WellFormed(fields) && FitsMessage(fields, m)
    ensures Mixed(fields, m, {}) == Default(fields) && Mixed(fields, m, First(|fields|)) == Normal(fields, m)
  {
    hide Fits;
    assert Mixed(fields, m, {}).unions == Default(fields).unions;
    assert Mixed(fields, m, {}).slots == Default(fields).slots;
    forall g | 0 <= g < |m.unions| && m.unions[g].0 != 0 ensures MemberIn(fields, m.unions[g], First(|fields|)) {
      var i :| 0 <= i < |fields| && Selects(fields[i], g, m.unions[g]);
      FindIs(fields, i);
    }
    assert Mixed(fields, m, First(|fields|)).unions == Normal(fields, m).unions;
    assert Mixed(fields, m, First(|fields|)).slots == Normal(fields, m).slots;
  }

  /** Decoding field i changes just its slot, or its union. */
  lemma MixedStep(fields: seq<Field>, m: Message, done: set<nat>, i: nat)
    requires WellFormed(fields) && FitsMessage(fields, m) && i < |fields| && i !in done
    ensures var f, a, b := fields[i], Mixed(fields, m, done), Mixed(fields, m, done + {i});
            && FitsSlot(f, m.slots[i]) && a.slots[i] == DefaultSlot(fields, i)
            && b.slots == a.slots[i := NormalSlot(fields, i, m.slots[i])]
            && (if f.htype.Oneof? && f.htype.group < |m.unions| && m.unions[f.htype.group].0 == f.tag
                then Fits(f.ltype, m.unions[f.htype.group].1) && a.unions[f.htype.group] == (0, Num(0))
                     && b.unions == a.unions[f.htype.group := (f.tag, NormalValue(f.ltype, m.unions[f.htype.group].1))]
                else b.unions == a.unions)
  {
    hide Fits, WellFormed, Find;
    var f, a, b := fields[i], Mixed(fields, m, done), Mixed(fields, m, done + {i});
    assert FitsSlot(f, m.slots[i]);
    UnionsStep(fields, m, done, i);
    assert b.slots == a.slots[i := NormalSlot(fields, i, m.slots[i])];
  }

  lemma UnionsStep(fields: seq<Field>, m: Message, done: set<nat>, i: nat)
    requires WellFormed(fields) && FitsMessage(fields, m) && i < |fields| && i !in done
    ensures var f, a, b := fields[i], Mixed(fields, m, done).unions, Mixed(fields, m, done + {i}).unions;
            if f.htype.Oneof? && f.htype.group < |m.unions| && m.unions[f.htype.group].0 == f.tag
            then Fits(f.ltype, m.unions[f.htype.group].1) && a[f.htype.group] == (0, Num(0))
                 && b == a[f.htype.group := (f.tag, NormalValue(f.ltype, m.unions[f.htype.group].1))]
            else b == a
  {
    hide Fits, Find, NormalSlot, DefaultSlot, FitsSlot;
    var f := fields[i];
    assert FieldOk(fields, i);
    hide WellFormed, FieldOk;
    if f.htype.Oneof? { MemberFits(fields, m, i); }
    forall g | 0 <= g < |m.unions| && m.unions[g].0 != 0 ensures Find(fields, m.unions[g].0) == i <==>
        (f.htype == Oneof(g) && m.unions[g].0 == f.tag) {
      WhichMember(fields, i, g, m.unions[g]);
    }
    if f.htype.Oneof? && m.unions[f.htype.group].0 == f.tag {
      TheMember(fields, i, f.htype.group, m.unions[f.htype.group]);
    }
  }

  lemma WhichMember(fields: seq<Field>, i: nat, g: nat, u: (nat, Value))
    requires WellFormed(fields) && i < |fields| && exists k :: 0 <= k < |fields| && Selects(fields[k], g, u)
    ensures Find(fields, u.0) == i <==> fields[i].htype == Oneof(g) && u.0 == fields[i].tag
  {
    hide Fits;
    var k :| 0 <= k < |fields| && Selects(fields[k], g, u);
    FindIs(fields, k);
    FindIs(fields, i);
  }

  lemma TheMember(fields: seq<Field>, i: nat, g: nat, u: (nat, Value))
    requires WellFormed(fields) && i < |fields| && Selects(fields[i], g, u) && u.0 != 0
    ensures NormalUnion(fields, g, u) == (u.0, NormalValue(fields[i].ltype, u.1))
  {
    hide Fits;
    forall k | 0 <= k < |fields| && Selects(fields[k], g, u) ensures k == i { assert fields[k].tag == fields[i].tag; }
  }

  // ---- Required fields ---------------------------------------------------------------------------

  ghost function RequiredOnes(fields: seq<Field>, i: nat): set<nat>
    requires i <= |fields|
  {
    set j | 0 <= j < i && fields[j].htype.Required?
  }

  /** A required field whose absence is noticed: one of the first 64. */
  ghost predicate Checked(fields: seq<Field>, i: nat)
    requires i < |fields|
  {
    fields[i].htype.Required? && |RequiredOnes(fields, i)| < 64
  }

  ghost predicate NoneMissing(fields: seq<Field>, done: set<nat>) {
    forall i :: 0 <= i < |fields| && Checked(fields, i) ==> i in done
  }

  lemma {:induction false} RequiredCount(fields: seq<Field>, i: nat)
    requires i <= |fields|
    ensures RequiredBefore(fields, i) == |RequiredOnes(fields, i)|
  {
    if i > 0 {
      RequiredCount(fields, i - 1);
      assert RequiredOnes(fields, i) ==
          if fields[i - 1].htype.Required? then RequiredOnes(fields, i - 1) + {i - 1} else RequiredOnes(fields, i - 1);
    }
  }

  /** Every number is that of a required field. */
  lemma {:induction false} NumberIsOf(fields: seq<Field>, k: nat, n: nat) returns (i: nat)
    requires k <= |fields| && n < RequiredBefore(fields, k)
    ensures i < k && fields[i].htype.Required? && RequiredBefore(fields, i) == n
  {
    if n < RequiredBefore(fields, k - 1) {
      i := NumberIsOf(fields, k - 1, n);
    } else {
      i := k - 1;
    }
  }

  /** The numbers seen are those of the checked fields that are done. */
  ghost predicate Marked(fields: seq<Field>, done: set<nat>, seen: set<nat>) {
    forall i :: 0 <= i < |fields| && fields[i].htype.Required? && RequiredBefore(fields, i) < MAX_REQUIRED_FIELDS ==>
        (RequiredBefore(fields, i) in seen <==> i in done)
  }

  lemma MarkedNext(fields: seq<Field>, done: set<nat>, seen: set<nat>, i: nat)
    requires i < |fields| && Marked(fields, done, seen)
    ensures Marked(fields, done + {i}, Seen(fields, i, seen))
    ensures !fields[i].htype.Required? ==> Seen(fields, i, seen) == seen
  {
    hide RequiredBefore;
    forall j | 0 <= j < |fields| && fields[j].htype.Required? && fields[i].htype.Required? && j != i
      ensures RequiredBefore(fields, j) != RequiredBefore(fields, i) {
      if j < i { RequiredOrder(fields, j, i); } else { RequiredOrder(fields, i, j); }
    }
  }

  /** The decoder's check at the end. */
  lemma CheckIsExact(fields: seq<Field>, done: set<nat>, seen: set<nat>)
    requires Marked(fields, done, seen)
    ensures AllSeen(fields, seen) <==> NoneMissing(fields, done)
  {
    hide RequiredBefore, RequiredOnes;
    forall i | 0 <= i < |fields| && fields[i].htype.Required?
      ensures Checked(fields, i) <==> RequiredBefore(fields, i) < MAX_REQUIRED_FIELDS
      ensures RequiredBefore(fields, i) < RequiredBefore(fields, |fields|) {
      RequiredCount(fields, i);
      RequiredOrder(fields, i, |fields|);
    }
    forall n | 0 <= n < RequiredBefore(fields, |fields|) && n < MAX_REQUIRED_FIELDS && NoneMissing(fields, done)
      ensures n in seen {
      var i := NumberIsOf(fields, |fields|, n);
    }
  }

  /** A tag leads the decoder to its field. */
  lemma TagRoundTrip(fields: seq<Field>, i: nat, wireType: nat, rest: Bytes, m: Message, seen: set<nat>)
    requires WellFormed(fields) && i < |fields| == |m.slots| && wireType < 8
    ensures var input := Tag(fields[i].tag, wireType) + rest;
            DecodeFields(fields, input, m, seen) ==
              match DecodeField(fields, i, wireType, rest, m) case None => None case Some(p) => DecodeFields(fields,
                  p.1, p.0, Seen(fields, i, seen))
  {
    hide Varint, Varint32, DecodeField, Find, Seen;
    assert FieldOk(fields, i);
    var t := fields[i].tag * 8 + wireType;
    Varint32RoundTrip(t, rest);
    FindIs(fields, i);
    assert t / 8 == fields[i].tag && t % 8 == wireType;
    assert Tag(fields[i].tag, wireType) + rest != [] by { assert |Varint(t)| >= 1; }
  }

  /** How many bytes a value or the fields from i on take. */
  ghost function ValueSize(lt: LType, v: Value): nat { Length(EncodeValue(lt, v)) }

  ghost function FieldsSize(fields: seq<Field>, m: Message, i: nat): nat
    requires i <= |fields|
  {
    Length(EncodeFields(fields, m, i))
  }

  /** Any valid value, whatever follows it. */
  lemma {:induction false} ValueRoundTrip(lt: LType, v: Value, rest: Bytes, prior: Value)
    requires (lt.Submessage? ==> WellFormed(lt.fields)) && Fits(lt, v) && ValueSize(lt, v) < LENGTH_LIMIT
    requires lt.Submessage? ==> prior == Msg(Default(lt.fields)) || prior.Num?
    ensures EncodeValue(lt, v).Some? && EncodeValue(lt, v).value != []
    ensures DecodeValue(lt, EncodeValue(lt, v).value + rest, prior) == Some((NormalValue(lt, v), rest))
    decreases ValueSize(lt, v), 0, 0
  {
    EncodesValue(lt, v);
    if lt.Submessage? {
      hide Varint, Varint32, WellFormed;
      var b := EncodeFields(lt.fields, v.msg, 0).value;
      assert |Delimited(b)| > |b|;
      FieldsRoundTrip(lt.fields, v.msg, 0, {});
      MixedEndsAt(lt.fields, v.msg);
      SubstreamRoundTrip(b, rest);
    } else {
      PlainRoundTrip(lt, v, rest, prior);
    }
  }

  lemma MixedEndsAt(fields: seq<Field>, m: Message)
    requires WellFormed(fields) && FitsMessage(fields, m)
    ensures Mixed(fields, m, First(0)) == Default(fields)
  {
    MixedEnds(fields, m);
    assert First(0) == {};
  }

  /** The fields from i on, decoded into a message that has those before i. */
  lemma {:induction false} FieldsRoundTrip(fields: seq<Field>, m: Message, i: nat, seen: set<nat>)
    requires WellFormed(fields) && FitsMessage(fields, m) && i <= |fields| && Marked(fields, First(i), seen)
    requires FieldsSize(fields, m, i) < LENGTH_LIMIT
    ensures EncodeFields(fields, m, i).Some?
    ensures DecodeFields(fields, EncodeFields(fields, m, i).value, Mixed(fields, m, First(i)), seen) ==
        Some((Normal(fields, m), []))
    decreases FieldsSize(fields, m, i), 1, |fields| - i
  {
    hide WellFormed, Marked, Mixed, AllSeen;
    EncodesFields(fields, m, i);
    if i == |fields| {
      MixedEnds(fields, m);
      CheckIsExact(fields, First(i), seen);
    } else {
      EncodesFields(fields, m, i + 1);
      EncodesField(fields, m, i);
      var e, tail := EncodeField(fields[i], m, i).value, EncodeFields(fields, m, i + 1).value;
      assert EncodeFields(fields, m, i).value == e + tail;
      FieldRoundTrip(fields, m, First(i), i, seen, e, tail);
      MarkedNext(fields, First(i), seen, i);
      assert First(i) + {i} == First(i + 1);
      FieldsRoundTrip(fields, m, i + 1, Seen(fields, i, seen));
    }
  }

  /** Field i alone: the decoder comes to stand behind it with the field in place. */
  lemma {:induction false} FieldRoundTrip(fields: seq<Field>, m: Message, done: set<nat>, i: nat, seen: set<nat>,
      e: Bytes, tail: Bytes)
    requires WellFormed(fields) && FitsMessage(fields, m) && i < |fields| && i !in done
    requires EncodeField(fields[i], m, i) == Some(e) && |e| + |tail| < LENGTH_LIMIT
    ensures DecodeFields(fields, e + tail, Mixed(fields, m, done), seen) ==
        DecodeFields(fields, tail, Mixed(fields, m, done + {i}), Seen(fields, i, seen))
    decreases |e| + |tail|, 1, 0
  {
    var f, a := fields[i], Mixed(fields, m, done);
    assert FieldOk(fields, i);
    MixedStep(fields, m, done, i);
    SeenSame(fields, i, seen);
    match m.slots[i]
    case Single(v) =>
      if f.htype.Required? || !ZeroValue(f.ltype, v) {
        OneValue(fields, m, done, i, seen, v, e, tail);
      } else {
        ZeroValueIsDefault(fields, i, v);
        Nothing(fields, m, done, i, e, tail);
      }
    case Maybe(has, v) =>
      if has {
        OneValue(fields, m, done, i, seen, v, e, tail);
      } else {
        Nothing(fields, m, done, i, e, tail);
      }
    case Many(items) =>
      if items == [] {
        assert NormalSlot(fields, i, m.slots[i]) == Many([]);
        Nothing(fields, m, done, i, e, tail);
      } else if Packable(f.ltype) {
        OneArray(fields, m, done, i, seen, items, e, tail);
      } else {
        EncodesItems(f.ltype, Tag(f.tag, WireType(f.ltype)), items);
        assert items[0..] == items && NormalItems(f.ltype, items[..0]) == [];
        assert a.slots[i := Many([])] == a.slots;
        EachItem(fields, m, done, i, seen, items, 0, tail);
      }
    case InUnion =>
      MemberFits(fields, m, i);
      if m.unions[f.htype.group].0 == f.tag {
        OneMember(fields, m, done, i, seen, e, tail);
      } else {
        Nothing(fields, m, done, i, e, tail);
      }
  }

  /** A field that is not sent is already as it should be. */
  lemma Nothing(fields: seq<Field>, m: Message, done: set<nat>, i: nat, e: Bytes, tail: Bytes)
    requires FitsMessage(fields, m) && i < |fields| && e == []
    requires Mixed(fields, m, done + {i}).unions == Mixed(fields, m, done).unions
    requires Mixed(fields, m, done + {i}).slots == Mixed(fields, m, done).slots[i := DefaultSlot(fields, i)]
    requires Mixed(fields, m, done).slots[i] == DefaultSlot(fields, i)
    ensures e + tail == tail && Mixed(fields, m, done + {i}) == Mixed(fields, m, done)
  {}

  /** A required or optional field that is sent. */
  lemma {:induction false} OneValue(fields: seq<Field>, m: Message, done: set<nat>, i: nat, seen: set<nat>, v: Value,
      e: Bytes, tail: Bytes)
    requires WellFormed(fields) && FitsMessage(fields, m) && i < |fields| && i !in done
    requires m.slots[i] == Single(v) || m.slots[i] == Maybe(true, v)
    requires Tagged(fields[i], v) == Some(e) && |e| + |tail| < LENGTH_LIMIT
    ensures DecodeFields(fields, e + tail, Mixed(fields, m, done), seen) ==
        DecodeFields(fields, tail, Mixed(fields, m, done + {i}), Seen(fields, i, seen))
    decreases |e| + |tail|, 0, 0
  {
    hide WellFormed, DecodeFields, DecodeValue, EncodeValue, Normal, Default, Seen, Mixed, Tag;
    var f, a := fields[i], Mixed(fields, m, done);
    FieldIsOk(fields, i);
    MixedStep(fields, m, done, i);
    TagSize(f.tag, WireType(f.ltype));
    var b := EncodeValue(f.ltype, v).value;
    ValueRoundTrip(f.ltype, v, tail, DefaultValue(fields, i));
    assert e + tail == Tag(f.tag, WireType(f.ltype)) + (b + tail);
    TagRoundTrip(fields, i, WireType(f.ltype), b + tail, a, seen);
  }

  lemma FieldIsOk(fields: seq<Field>, i: nat)
    requires WellFormed(fields) && i < |fields|
    ensures FieldOk(fields, i)
  {}

  lemma TagSize(tag: nat, wireType: nat)
    ensures |Tag(tag, wireType)| >= 1
  {}

  /** The selected member of a oneof. */
  lemma {:induction false} OneMember(fields: seq<Field>, m: Message, done: set<nat>, i: nat, seen: set<nat>, e: Bytes,
      tail: Bytes)
    requires WellFormed(fields) && FitsMessage(fields, m) && i < |fields| && i !in done && fields[i].htype.Oneof?
    requires fields[i].htype.group < |m.unions| && m.unions[fields[i].htype.group].0 == fields[i].tag
    requires Tagged(fields[i], m.unions[fields[i].htype.group].1) == Some(e) && |e| + |tail| < LENGTH_LIMIT
    ensures DecodeFields(fields, e + tail, Mixed(fields, m, done), seen) ==
        DecodeFields(fields, tail, Mixed(fields, m, done + {i}), seen)
    decreases |e| + |tail|, 0, 0
  {
    hide WellFormed, DecodeFields, DecodeValue, EncodeValue, Normal, Default, Mixed, Tag;
    var f, a := fields[i], Mixed(fields, m, done);
    var v := m.unions[f.htype.group].1;
    FieldIsOk(fields, i);
    MixedStep(fields, m, done, i);
    TagSize(f.tag, WireType(f.ltype));
    var b := EncodeValue(f.ltype, v).value;
    ValueRoundTrip(f.ltype, v, tail, Num(0));
    SeenSame(fields, i, seen);
    assert FitsSlot(f, m.slots[i]) && a.slots[i] == InUnion && NormalSlot(fields, i, m.slots[i]) == InUnion;
    assert a.slots[i := InUnion] == a.slots;
    assert e + tail == Tag(f.tag, WireType(f.ltype)) + (b + tail);
    TagRoundTrip(fields, i, WireType(f.ltype), b + tail, a, seen);
  }

  ghost function NormalItems(lt: LType, items: seq<Value>): seq<Value>
    requires forall j :: 0 <= j < |items| ==> Fits(lt, items[j])
  {
    seq(|items|, j requires 0 <= j < |items| => NormalValue(lt, items[j]))
  }

  lemma {:induction false} PackedRoundTrip(lt: LType, items: seq<Value>, done: seq<Value>, max: nat)
    requires Packable(lt) && |done| + |items| <= max && forall j :: 0 <= j < |items| ==> Fits(lt, items[j])
    ensures EncodeItems(lt, [], items).Some?
    ensures DecodePacked(lt, EncodeItems(lt, [], items).value, done, max) == Some(done + items)
    decreases |items|
  {
    if items == [] {
      assert done + items == done;
    } else {
      hide EncodeValue, DecodeValue;
      PackedRoundTrip(lt, items[1..], done + [items[0]], max);
      var rest := EncodeItems(lt, [], items[1..]).value;
      PlainRoundTrip(lt, items[0], rest, Num(0));
      var b := EncodeValue(lt, items[0]).value;
      assert [] + b == b;
      assert EncodeItems(lt, [], items).value == b + rest;
      assert (done + [items[0]]) + items[1..] == done + items;
    }
  }

  /** A packed array. */
  lemma OneArray(fields: seq<Field>, m: Message, done: set<nat>, i: nat, seen: set<nat>, items: seq<Value>, e: Bytes,
      tail: Bytes)
    requires WellFormed(fields) && FitsMessage(fields, m) && i < |fields| && i !in done
    requires m.slots[i] == Many(items) && items != []
    requires Packable(fields[i].ltype) && EncodeField(fields[i], m, i) == Some(e) && |e| + |tail| < LENGTH_LIMIT
    ensures DecodeFields(fields, e + tail, Mixed(fields, m, done), seen) ==
        DecodeFields(fields, tail, Mixed(fields, m, done + {i}), seen)
  {
    hide WellFormed, DecodeFields, EncodeItems, DecodePacked, Default, Mixed, Tag, Delimited, Substream;
    var f, a := fields[i], Mixed(fields, m, done);
    FieldIsOk(fields, i);
    MixedStep(fields, m, done, i);
    PackedRoundTrip(f.ltype, items, [], f.htype.max);
    var b := EncodeItems(f.ltype, [], items).value;
    DelimitedSize(b);
    SubstreamRoundTrip(b, tail);
    assert e + tail == Tag(f.tag, 2) + (Delimited(b) + tail);
    TagRoundTrip(fields, i, 2, Delimited(b) + tail, a, seen);
    assert [] + items == items;
    assert NormalSlot(fields, i, Many(items)) == Many(items);
  }

  lemma DelimitedSize(b: Bytes)
    ensures |Delimited(b)| > |b|
  {}

  /** The items of an array that is not packed, from item j on. */
  lemma {:induction false} EachItem(fields: seq<Field>, m: Message, done: set<nat>, i: nat, seen: set<nat>,
      items: seq<Value>, j: nat, tail: Bytes)
    requires WellFormed(fields) && FitsMessage(fields, m) && i < |fields| && i !in done
    requires m.slots[i] == Many(items) && j <= |items|
    requires !Packable(fields[i].ltype) && FitsSlot(fields[i], m.slots[i])
    requires Length(EncodeItems(fields[i].ltype, Tag(fields[i].tag, WireType(fields[i].ltype)), items[j..])) +
        |tail| < LENGTH_LIMIT
    ensures EncodeItems(fields[i].ltype, Tag(fields[i].tag, WireType(fields[i].ltype)), items[j..]).Some?
    ensures var a := Mixed(fields, m, done);
            DecodeFields(fields,
              EncodeItems(fields[i].ltype, Tag(fields[i].tag, WireType(fields[i].ltype)), items[j..]).value + tail,
                         a.(slots := a.slots[i := Many(NormalItems(fields[i].ltype, items[..j]))]), seen)
            == DecodeFields(fields, tail, Mixed(fields, m, done + {i}), seen)
    decreases Length(EncodeItems(fields[i].ltype, Tag(fields[i].tag, WireType(fields[i].ltype)), items[j..])) + |tail|,
        0, |items| - j
  {
    hide WellFormed, DecodeFields, DecodeValue, EncodeValue, Normal, Default, Mixed, Tag;
    var f, a := fields[i], Mixed(fields, m, done);
    var tag := Tag(f.tag, WireType(f.ltype));
    FieldIsOk(fields, i);
    MixedStep(fields, m, done, i);
    EncodesItems(f.ltype, tag, items[j..]);
    if j == |items| {
      assert items[..j] == items;
      assert [] + tail == tail;
    } else {
      var v := items[j];
      assert items[j..][1..] == items[j + 1..];
      EncodesValue(f.ltype, v);
      EncodesItems(f.ltype, tag, items[j + 1..]);
      TagSize(f.tag, WireType(f.ltype));
      var b, rest := EncodeValue(f.ltype, v).value, EncodeItems(f.ltype, tag, items[j + 1..]).value;
      assert EncodeItems(f.ltype, tag, items[j..]).value == (tag + b) + rest;
      assert ((tag + b) + rest) + tail == tag + (b + (rest + tail));
      ValueRoundTrip(f.ltype, v, rest + tail, Num(0));
      var now := a.(slots := a.slots[i := Many(NormalItems(f.ltype, items[..j]))]);
      TagRoundTrip(fields, i, WireType(f.ltype), b + (rest + tail), now, seen);
      assert NormalItems(f.ltype, items[..j]) + [NormalValue(f.ltype, v)] == NormalItems(f.ltype, items[..j + 1]);
      assert now.slots[i := Many(NormalItems(f.ltype, items[..j + 1]))] ==
          a.slots[i := Many(NormalItems(f.ltype, items[..j + 1]))];
      SeenSame(fields, i, seen);
      EachItem(fields, m, done, i, seen, items, j + 1, tail);
    }
  }

  lemma SeenSame(fields: seq<Field>, i: nat, seen: set<nat>)
    requires i < |fields|
    ensures !fields[i].htype.Required? ==> Seen(fields, i, seen) == seen
  {}

  /** The law the codec exists for.  Any valid message of a well-formed descriptor encodes, and decoding
      the bytes gives it back, less what its own flags say is absent. */
  lemma RoundTrip(fields: seq<Field>, m: Message)
    requires WellFormed(fields) && FitsMessage(fields, m)
    ensures Encode(fields, m).Some?
    ensures |Encode(fields, m).value| < LENGTH_LIMIT ==>
        Decode(fields, Encode(fields, m).value) == Some((Normal(fields, m), []))
  {
    EncodesFields(fields, m, 0);
    if |Encode(fields, m).value| < LENGTH_LIMIT {
      FieldsRoundTrip(fields, m, 0, {});
      MixedEndsAt(fields, m);
    }
  }

  /** A string that fills its array, with no room left for a terminator, is encoded but refused when
      it comes back; every shorter one is read back. */
  lemma StringExact(size: nat, b: Bytes, rest: Bytes, prior: Value)
    requires 0 !in b && |b| <= size < WORD
    ensures EncodeValue(StringField(size), Raw(b)).Some?
    ensures var bytes := EncodeValue(StringField(size), Raw(b)).value;
            DecodeValue(StringField(size), bytes + rest, prior) == Some((Raw(b), rest)) <==> |b| < size
  {
    hide Varint32, Delimited;
    LengthRoundTrip(b, rest);
  }
}
