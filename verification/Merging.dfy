/** Merging two messages, slot by slot: what decoding the encoding of one on top of the
    other must produce. */
module Merging {
  import opened Wire
  import opened Wrappers
  import opened Descriptor
  import opened Encoding
  import opened Decoding

  /** The tag is that of a member of the union kept in slot k. */
  predicate Member(fields: seq<Field>, k: nat, tag: nat) {
    var j := IndexOf(fields, tag);
    j < |fields| && fields[j].htype.Oneof? && SlotOf(fields, j) == k
  }

  /** Each slot is of the kind its field needs. The tag of a union may be that of none of its
      members. */
  predicate Shaped(fields: seq<Field>, m: Msg) {
    |m| == |fields|
      && forall k {:trigger ShapedSlot(fields, k, m[k])} | 0 <= k < |fields| :: ShapedSlot(fields, k, m[k])
  }

  predicate ShapedSlot(fields: seq<Field>, k: nat, slot: Slot)
    requires k < |fields|
  {
    match fields[k].htype
    case Required => slot.Single?
    case Optional => if fields[k].sizeOffset != 0 then slot.Flagged? else slot.Single?
    case Repeated => slot.Array?
    case Oneof =>
      if Continues(fields, k) then slot.Shared? else slot.Unset? || (slot.Union? && slot.which != 0)
  }

  /** Every submessage in the struct has its layout too. */
  predicate ShapedDeep(fields: seq<Field>, m: Msg)
    decreases fields, 1
  {
    Shaped(fields, m) &&
    forall i {:trigger ShapedInside(fields[i], m[SlotOf(fields, i)])} | 0 <= i < |fields| ::
      ShapedInside(fields[i], m[SlotOf(fields, i)])
  }

  predicate ShapedInside(f: Field, slot: Slot)
    decreases f, 1
  {
    match slot
    case Single(v) => ShapedValue(f, v)
    case Flagged(_, v) => ShapedValue(f, v)
    case Array(items) => forall i | 0 <= i < |items| :: ShapedValue(f, items[i])
    case Union(which, v) => which == f.tag ==> ShapedValue(f, v)
    case _ => true
  }

  predicate ShapedValue(f: Field, v: Value)
    decreases f, 0
  {
    f.ltype.Submessage? && v.Sub? ==> ShapedDeep(f.ltype.fields, v.msg)
  }

  // ------------------------------------------------------------------ merging

  /** A value that is no submessage replaces what was there. A string keeps what stands
      before its terminator; without one inside its buffer it cannot be stored back. */
  function MergeScalar(f: Field, v: Value): Option<Value> {
    match (f.ltype, v)
    case (Bool, Num(n)) => Some(Num(if n != 0 then 1 else 0))
    case (String, Blob(b)) =>
      var n := StringLength(b, f.dataSize);
      if n < f.dataSize then Some(Blob(b[..n])) else None
    case _ => Some(v)
  }

  function MergeValue(f: Field, prior: Value, v: Value): Option<Value>
    decreases f, 0
  {
    match (f.ltype, v)
    case (Submessage(fields), Sub(m)) =>
      if |m| != |fields| then None
      else
        (match Merge(fields, MsgOf(prior, fields), m)
         case None => None
         case Some(m') => Some(Sub(m')))
    case _ => MergeScalar(f, v)
  }

  function MergeInto(f: Field, slot: Slot, v: Value): Option<Slot>
    decreases f, 1
  {
    match MergeValue(f, Before(f, slot), v)
    case None => None
    case Some(v') => Some(After(f, slot, v'))
  }

  /** New array elements start from their defaults. */
  function MergeEach(f: Field, items: seq<Value>): (r: Option<seq<Value>>)
    ensures r.Some? ==> |r.value| == |items|
    decreases f, 1, |items|
  {
    if items == [] then Some([])
    else
      var first, others := MergeValue(f, DefaultValue(f), items[0]), MergeEach(f, items[1..]);
      if first.Some? && others.Some? then Some([first.value] + others.value) else None
  }

  /** Slot k of the merged message: the last singular value wins, submessages merge,
      arrays are appended within their capacity, a union is replaced by the member that the
      second message holds, and what that message does not have stays. */
  function MergeSlot(fields: seq<Field>, k: nat, x: Slot, y: Slot): Option<Slot>
    requires k < |fields|
    decreases fields, 0
  {
    var f := fields[k];
    match y
    case Single(v) => if f.htype.Optional? && IsZero(f, v) then Some(x) else MergeInto(f, x, v)
    case Flagged(has, v) => if has then MergeInto(f, x, v) else Some(x)
    case Array(items) =>
      if items == [] then Some(x)
      else if |Items(x)| + |items| > f.arraySize then None
      else
        (match MergeEach(f, items)
         case None => None
         case Some(vs) => Some(Array(Items(x) + vs)))
    case Union(which, v) =>
      if Member(fields, k, which) then MergeInto(fields[IndexOf(fields, which)], x, v) else Some(x)
    case _ => Some(x)
  }

  /** None when an array overflows or a string is not terminated. */
  function Merge(fields: seq<Field>, a: Msg, b: Msg): (r: Option<Msg>)
    requires |a| == |b| == |fields|
    ensures r.Some? ==> |r.value| == |fields|
    decreases fields, 1
  {
    if forall k | 0 <= k < |fields| :: MergeSlot(fields, k, a[k], b[k]).Some? then
      Some(seq(|fields|, k requires 0 <= k < |fields| && MergeSlot(fields, k, a[k], b[k]).Some?
                         => MergeSlot(fields, k, a[k], b[k]).value))
    else None
  }

  // ---------------------------------------------------------------- framing

  /** Every length that the encoder writes in front of a payload fits the 32 bits in
      which the decoder reads it. */
  predicate Sized(fields: seq<Field>, m: Msg)
    decreases fields, 1
  {
    |m| == |fields| &&
    forall i {:trigger SizedSlot(fields[i], m[SlotOf(fields, i)])} | 0 <= i < |fields| ::
      SizedSlot(fields[i], m[SlotOf(fields, i)])
  }

  predicate SizedSlot(f: Field, slot: Slot)
    decreases f, 1
  {
    match slot
    case Single(v) => SizedValue(f, v)
    case Flagged(has, v) => has ==> SizedValue(f, v)
    case Union(which, v) => which == f.tag ==> SizedValue(f, v)
    case Array(items) =>
      && (forall i | 0 <= i < |items| :: SizedValue(f, items[i]))
      && (Packable(f.ltype) && EncodePacked(f, items).Some? ==> |EncodePacked(f, items).value| < TWO32)
    case _ => true
  }

  predicate SizedValue(f: Field, v: Value)
    decreases f, 0
  {
    f.ltype.Submessage? && v.Sub? ==>
      && Sized(f.ltype.fields, v.msg)
      && (var p := EncodeMessage(f.ltype.fields, v.msg); p.Some? ==> |p.value| < TWO32)
  }
}
