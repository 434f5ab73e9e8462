/** Message descriptors and message contents, as values. */
module Descriptor {
  import opened Wire
  import opened Wrappers

  /** Largest pb_size_t: the build of this repository defines PB_FIELD_32BIT. */
  const PB_SIZE_MAX := 0xFFFF_FFFF
  /** Offset of the bytes inside a pb_bytes_array_t, behind its size field. */
  const BYTES_HEADER := 4
  const PB_MAX_REQUIRED_FIELDS := 64
  const MAX_TAG := 0x2000_0000

  datatype LType =
    | Bool | Varint | Uvarint | Svarint | Fixed32 | Fixed64
    | Bytes | String | FixedLengthBytes
    | Submessage(fields: seq<Field>)

  datatype HType = Required | Optional | Repeated | Oneof

  /** The data_offset of a field: so many bytes behind the previous field, or the
      PB_SIZE_MAX mark of a further member of the union the previous field is in. */
  datatype Placement = Behind(padding: nat) | InUnion

  /** One pb_field_t. A size_offset of 0 means that the field has no has_ flag, count
      or which_ tag of its own; `default` is what the field's ptr points at, if any. */
  datatype Field = Field(tag: uint32, ltype: LType, htype: HType, placement: Placement,
                         sizeOffset: int, dataSize: uint32, arraySize: uint32, default: Option<Value>)

  datatype Value =
    | Num(n: int)                // bool, integer, fixed word
    | Blob(bytes: seq<byte>)     // contents of bytes and of strings up to their end
    | Sub(msg: Msg)

  /** What the struct holds for one field. A union is kept at its first member;
      the slots of its other members are Shared. */
  datatype Slot =
    | Single(value: Value)
    | Flagged(has: bool, value: Value)
    | Array(items: seq<Value>)
    | Unset
    | Union(which: uint32, value: Value)
    | Shared

  type Msg = seq<Slot>

  predicate Packable(l: LType) {
    l.Bool? || l.Varint? || l.Uvarint? || l.Svarint? || l.Fixed32? || l.Fixed64?
  }

  /** Field i lives in the same union as field i - 1. */
  predicate Continues(fields: seq<Field>, i: nat)
    requires i < |fields|
  {
    i > 0 && fields[i - 1].htype.Oneof? && fields[i].htype.Oneof? && fields[i].placement.InUnion?
  }

  /** The slot that holds the contents of field i. */
  function SlotOf(fields: seq<Field>, i: nat): (k: nat)
    requires i < |fields|
    ensures k <= i && (!fields[i].htype.Oneof? ==> k == i)
    ensures fields[i].htype.Oneof? ==> fields[k].htype.Oneof?
  {
    if Continues(fields, i) then SlotOf(fields, i - 1) else i
  }

  /** A union is kept at its first member. */
  lemma {:induction false} SlotIsFirst(fields: seq<Field>, i: nat)
    requires i < |fields|
    ensures !Continues(fields, SlotOf(fields, i))
  {
    if Continues(fields, i) { SlotIsFirst(fields, i - 1); }
  }

  /** Index of the field with this tag, |fields| when there is none. */
  function IndexOf(fields: seq<Field>, tag: nat): (i: nat)
    ensures i <= |fields|
    ensures i < |fields| ==> fields[i].tag == tag
  {
    if fields == [] then 0
    else if fields[0].tag == tag then 0
    else 1 + IndexOf(fields[1..], tag)
  }

  lemma {:induction false} IndexOfIsFirst(fields: seq<Field>, tag: nat, j: nat)
    requires j < IndexOf(fields, tag)
    ensures fields[j].tag != tag
  {
    if j > 0 { IndexOfIsFirst(fields[1..], tag, j - 1); }
  }

  /** How many required fields stand before field i. */
  function Ordinal(fields: seq<Field>, i: nat): (n: nat)
    requires i <= |fields|
    ensures n <= i
  {
    if i == 0 then 0
    else Ordinal(fields, i - 1) + (if fields[i - 1].htype.Required? then 1 else 0)
  }

  /** What the generator promises of a descriptor: tags are nonzero, unique and small
      enough for a 32-bit field key, and every array and union has its counter. */
  predicate WellFormed(fields: seq<Field>)
    decreases fields, 1
  {
    forall i {:trigger WellFormedField(fields, i)} | 0 <= i < |fields| ::
      WellFormedField(fields, i) && WellFormedInside(fields[i])
  }

  predicate WellFormedField(fields: seq<Field>, i: nat)
    requires i < |fields|
  {
    var f := fields[i];
    && 0 < f.tag < MAX_TAG
    && IndexOf(fields, f.tag) == i
    && (f.htype.Repeated? || f.htype.Oneof? ==> f.sizeOffset != 0)
    && (f.placement.InUnion? ==> Continues(fields, i))
  }

  predicate WellFormedInside(f: Field)
    decreases f, 0
  {
    f.ltype.Submessage? ==> WellFormed(f.ltype.fields)
  }

  // --------------------------------------------------------------- defaults

  function ZeroValue(f: Field): Value {
    match f.ltype
    case Bytes | String => Blob([])
    case FixedLengthBytes => Blob(seq(f.dataSize, _ => 0))
    case _ => Num(0)
  }

  /** The descriptor gives the field a default that need not be zero. */
  predicate HasOwnDefault(f: Field) { f.default.Some? && !f.ltype.Submessage? }

  function DefaultValue(f: Field): Value
    decreases f, 0
  {
    match f.ltype
    case Submessage(fields) => Sub(DefaultMsg(fields))
    case _ => if f.default.Some? then f.default.value else ZeroValue(f)
  }

  function DefaultSlot(f: Field, continues: bool): Slot
    decreases f, 1
  {
    match f.htype
    case Required => Single(DefaultValue(f))
    case Optional => if f.sizeOffset != 0 then Flagged(false, DefaultValue(f)) else Single(DefaultValue(f))
    case Repeated => Array([])
    case Oneof => if continues then Shared else Unset
  }

  /** The contents after initialisation to defaults. */
  function DefaultMsg(fields: seq<Field>): (m: Msg)
    ensures |m| == |fields|
    decreases fields
  {
    seq(|fields|, i requires 0 <= i < |fields| => DefaultSlot(fields[i], Continues(fields, i)))
  }

  // ----------------------------------------------------------- reading slots

  function Held(slot: Slot): Value {
    match slot
    case Single(v) => v
    case Flagged(_, v) => v
    case Union(_, v) => v
    case _ => Num(0)
  }

  function Items(slot: Slot): seq<Value> {
    if slot.Array? then slot.items else []
  }

  /** The submessage held by a value of a submessage field. */
  function MsgOf(v: Value, fields: seq<Field>): (m: Msg)
    ensures |m| == |fields|
  {
    if v.Sub? && |v.msg| == |fields| then v.msg else DefaultMsg(fields)
  }

  // ------------------------------------------------------------------ ranges

  predicate InSigned(n: int, size: nat) {
    || (size == 1 && -0x80 <= n < 0x80)
    || (size == 2 && -0x8000 <= n < 0x8000)
    || (size == 4 && -TWO31 <= n < TWO31)
    || (size == 8 && -TWO63 <= n < TWO63)
  }

  predicate InUnsigned(n: int, size: nat) {
    || (size == 1 && 0 <= n < 0x100)
    || (size == 2 && 0 <= n < 0x1_0000)
    || (size == 4 && 0 <= n < TWO32)
    || (size == 8 && 0 <= n < TWO64)
  }

  function ToUnsigned64(n: int): uint64 { n % TWO64 }

  function ToSigned64(u: uint64): int { if u < TWO63 then u else u - TWO64 }

  function ToSigned32(u: uint64): int {
    var low := u % TWO32;
    if low < TWO31 then low else low - TWO32
  }
}
