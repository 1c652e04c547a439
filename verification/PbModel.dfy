/** Messages and their descriptors (nanopb: pb.h, pb_common.c), with the struct a descriptor lays out
    as a value: one slot per field, and one union per oneof. */
module PbModel {
  import opened DbFormat
  import opened Coding

  /** PB_SIZE_MAX, with 16-bit sizes. */
  const SIZE_MAX: nat := 0xffff

  /** The largest message whose length a decoder can read. */
  const LENGTH_LIMIT: nat := WORD

  datatype LType =
    | Bool | Int(size: nat) | UInt(size: nat) | SInt(size: nat) | Fixed32 | Fixed64
    | BytesField(size: nat) | StringField(size: nat) | FixedBytes(size: nat) | Submessage(fields: seq<Field>)

  /** A field is required, optional with or without a has_ flag, repeated up to a maximum with a count,
      or one of the members of a oneof. */
  datatype HType = Required | Optional(hasFlag: bool) | Repeated(max: nat) | Oneof(group: nat)

  /** `init` is what the field is set to before decoding, unless it is a submessage. */
  datatype Field = Field(tag: nat, ltype: LType, htype: HType, init: Value)

  datatype Value = Num(n: int) | Raw(bytes: Bytes) | Msg(msg: Message)

  datatype Slot = Single(value: Value) | Maybe(has: bool, value: Value) | Many(items: seq<Value>) | InUnion

  /** unions[g] is the which_ tag of oneof g, 0 for none, and the member it holds. */
  datatype Message = Message(slots: seq<Slot>, unions: seq<(nat, Value)>)

  predicate Packable(lt: LType) {
    lt.Bool? || lt.Int? || lt.UInt? || lt.SInt? || lt.Fixed32? || lt.Fixed64?
  }

  /** Bytes of an integer field; the generator knows four sizes. */
  predicate IntSize(size: nat) { size == 1 || size == 2 || size == 4 || size == 8 }

  /** 2 to the power of the bits in so many bytes. */
  function Span(size: nat): (r: nat)
    requires IntSize(size)
    ensures r % 2 == 0
  {
    if size == 1 then 0x100 else if size == 2 then 0x1_0000 else if size == 4 then WORD else DWORD
  }

  predicate InRange(size: nat, n: int) {
    IntSize(size) && -(Span(size) / 2) <= n < Span(size) / 2
  }

  // ---- What a struct may hold --------------------------------------------------------------------

  /** A valid value of a type; a string is null-terminated within its array. */
  predicate Fits(lt: LType, v: Value)
    decreases v, 0
  {
    match lt
    case Bool => v.Num? && (v.n == 0 || v.n == 1)
    case Int(size) => v.Num? && InRange(size, v.n)
    case UInt(size) => v.Num? && IntSize(size) && 0 <= v.n < Span(size)
    case SInt(size) => v.Num? && InRange(size, v.n)
    case Fixed32 => v.Num? && 0 <= v.n < WORD
    case Fixed64 => v.Num? && 0 <= v.n < DWORD
    case BytesField(size) => v.Raw? && |v.bytes| <= size <= SIZE_MAX
    case StringField(size) => v.Raw? && |v.bytes| < size <= SIZE_MAX && 0 !in v.bytes
    case FixedBytes(size) => v.Raw? && |v.bytes| == size <= SIZE_MAX
    case Submessage(fields) => v.Msg? && FitsMessage(fields, v.msg)
  }

  predicate FitsSlot(f: Field, s: Slot)
    decreases s
  {
    match f.htype
    case Required => s.Single? && Fits(f.ltype, s.value)
    case Optional(hasFlag) => (if hasFlag then s.Maybe? else s.Single?) && Fits(f.ltype, s.value)
    case Repeated(max) => s.Many? && |s.items| <= max && forall i :: 0 <= i < |s.items| ==> Fits(f.ltype, s.items[i])
    case Oneof(_) => s.InUnion?
  }

  predicate FitsMessage(fields: seq<Field>, m: Message)
    decreases m
  {
    && |m.slots| == |fields|
    && (forall i :: 0 <= i < |fields| ==> FitsSlot(fields[i], m.slots[i]))
    && |m.unions| == Groups(fields)
    && forall g :: 0 <= g < |m.unions| ==>
      m.unions[g].0 == 0 || exists i :: 0 <= i < |fields| && Selects(fields[i], g, m.unions[g])
  }

  /** Union g holds this field. */
  predicate Selects(f: Field, g: nat, u: (nat, Value))
    decreases u.1, 1
  {
    f.htype == Oneof(g) && u.0 == f.tag && Fits(f.ltype, u.1)
  }

  /** The number of oneofs. */
  function Groups(fields: seq<Field>): nat {
    if fields == [] then 0
    else
      var n := Groups(fields[1..]);
      if fields[0].htype.Oneof? && fields[0].htype.group >= n then fields[0].htype.group + 1 else n
  }

  // ---- Descriptors -------------------------------------------------------------------------------

  /** How deep submessages nest; a descriptor with static allocation is a tree. */
  function Depth(fields: seq<Field>): nat
    decreases fields
  {
    if fields == [] then 0
    else
      var d, n := FieldDepth(fields[0]), Depth(fields[1..]);
      if d > n then d else n
  }

  function FieldDepth(f: Field): nat
    decreases f
  {
    match f.ltype
    case Submessage(sub) => Depth(sub) + 1
    case _ => 0
  }

  lemma {:induction false} DepthAt(fields: seq<Field>, i: nat)
    requires i < |fields|
    ensures FieldDepth(fields[i]) <= Depth(fields)
  {
    if i > 0 { DepthAt(fields[1..], i - 1); }
  }

  lemma {:induction false} GroupAt(fields: seq<Field>, i: nat)
    requires i < |fields| && fields[i].htype.Oneof?
    ensures fields[i].htype.group < Groups(fields)
  {
    if i > 0 { GroupAt(fields[1..], i - 1); }
  }

  /** What a generated descriptor guarantees: distinct tags, sensible defaults, and no default other
      than zero for a field whose presence is only told by its value. */
  ghost predicate WellFormed(fields: seq<Field>)
    decreases Depth(fields), 1
  {
    && (forall i, j :: 0 <= i < j < |fields| ==> fields[i].tag != fields[j].tag)
    && forall i :: 0 <= i < |fields| ==> FieldOk(fields, i)
  }

  ghost predicate FieldOk(fields: seq<Field>, i: nat)
    requires i < |fields|
    decreases Depth(fields), 0
  {
    var f := fields[i];
    DepthAt(fields, i);
    && 0 < f.tag <= SIZE_MAX
    && (f.ltype.Submessage? ==> WellFormed(f.ltype.fields))
    && (!f.ltype.Submessage? ==> Fits(f.ltype, f.init))
    && (f.htype == Optional(false) && !f.ltype.Submessage? ==> ZeroValue(f.ltype, f.init))
    && (f.htype == Optional(false) && f.ltype.FixedBytes? ==> f.ltype.size > 0)
  }

  // ---- Defaults and zero -------------------------------------------------------------------------

  /** pb_message_set_to_defaults: counts and which_ tags zero, has_ flags false, the rest at its default. */
  function Default(fields: seq<Field>): (m: Message)
    ensures |m.slots| == |fields| && |m.unions| == Groups(fields)
    decreases Depth(fields), 2
  {
    Message(seq(|fields|, i requires 0 <= i < |fields| => DefaultSlot(fields, i)),
      seq(Groups(fields), _ => (0, Num(0))))
  }

  function DefaultSlot(fields: seq<Field>, i: nat): Slot
    requires i < |fields|
    decreases Depth(fields), 1
  {
    match fields[i].htype
    case Required => Single(DefaultValue(fields, i))
    case Optional(hasFlag) => if hasFlag then Maybe(false, DefaultValue(fields, i)) else Single(DefaultValue(fields, i))
    case Repeated(_) => Many([])
    case Oneof(_) => InUnion
  }

  function DefaultValue(fields: seq<Field>, i: nat): Value
    requires i < |fields|
    decreases Depth(fields), 0
  {
    DepthAt(fields, i);
    if fields[i].ltype.Submessage? then Msg(Default(fields[i].ltype.fields)) else fields[i].init
  }

  /** pb_check_proto3_default_value on the value of a singular field: nothing but zeros. */
  predicate ZeroValue(lt: LType, v: Value)
    decreases v, 0
  {
    match lt
    case BytesField(_) => v.Raw? && v.bytes == []
    case StringField(_) => v.Raw? && v.bytes == []
    case FixedBytes(size) => size == 0
    case Submessage(fields) => v.Msg? && |v.msg.slots| == |fields| && forall i :: 0 <= i < |fields| ==>
        ZeroField(fields[i], v.msg, i)
    case _ => v == Num(0)
  }

  /** pb_check_proto3_default_value on field i of a message. */
  predicate ZeroField(f: Field, m: Message, i: nat)
    requires i < |m.slots|
    decreases m, 0
  {
    match m.slots[i]
    case Single(v) => !f.htype.Required? && ZeroValue(f.ltype, v)
    case Maybe(has, _) => !has
    case Many(items) => items == []
    case InUnion => f.htype.Oneof? && f.htype.group < |m.unions| && m.unions[f.htype.group].0 == 0
  }

  // ---- What a round trip keeps -------------------------------------------------------------------

  /** A message less what its flags say is absent. */
  ghost function Normal(fields: seq<Field>, m: Message): (r: Message)
    requires FitsMessage(fields, m)
    ensures |r.slots| == |fields| && |r.unions| == |m.unions|
    decreases m, 0
  {
    Message(seq(|fields|, i requires 0 <= i < |fields| => NormalSlot(fields, i, m.slots[i])),
            seq(|m.unions|, g requires 0 <= g < |m.unions| => NormalUnion(fields, g, m.unions[g])))
  }

  ghost function NormalSlot(fields: seq<Field>, i: nat, s: Slot): Slot
    requires i < |fields| && FitsSlot(fields[i], s)
    decreases s, 0
  {
    match s
    case Single(v) => Single(NormalValue(fields[i].ltype, v))
    case Maybe(has, v) => Maybe(has, if has then NormalValue(fields[i].ltype, v) else DefaultValue(fields, i))
    case Many(items) => Many(seq(|items|, j requires 0 <= j < |items| => NormalValue(fields[i].ltype, items[j])))
    case InUnion => InUnion
  }

  ghost function NormalUnion(fields: seq<Field>, g: nat, u: (nat, Value)): (nat, Value)
    requires u.0 == 0 || exists i :: 0 <= i < |fields| && Selects(fields[i], g, u)
    decreases u.1, 1
  {
    if u.0 == 0 then (0, Num(0))
    else
      var i :| 0 <= i < |fields| && Selects(fields[i], g, u);
      (u.0, NormalValue(fields[i].ltype, u.1))
  }

  ghost function NormalValue(lt: LType, v: Value): Value
    requires Fits(lt, v)
    decreases v, 0
  {
    if lt.Submessage? then Msg(Normal(lt.fields, v.msg)) else v
  }
}
