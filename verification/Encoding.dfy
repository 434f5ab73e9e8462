/** The bytes a message must be encoded to. */
module Encoding {
  import opened Wire
  import opened Wrappers
  import opened Descriptor

  /** Number of characters of a C string held in a buffer of dataSize bytes. */
  function StringLength(s: seq<byte>, dataSize: nat): (n: nat)
    ensures n <= |s| && n <= dataSize
  {
    if s == [] || dataSize == 0 || s[0] == 0 then 0 else 1 + StringLength(s[1..], dataSize - 1)
  }

  /** A C string ends at its first zero byte, or with its buffer. */
  lemma {:induction false} StringEnds(s: seq<byte>, dataSize: nat)
    ensures var n := StringLength(s, dataSize);
            && n <= dataSize && n <= |s| && (forall i | 0 <= i < n :: s[i] != 0)
            && (n < dataSize && n < |s| ==> s[n] == 0)
  {
    if s != [] && dataSize > 0 && s[0] != 0 {
      StringEnds(s[1..], dataSize - 1);
      var n := StringLength(s[1..], dataSize - 1);
      forall i | 0 <= i < n + 1
        ensures s[i] != 0
      {
        if i > 0 { assert s[i] == s[1..][i - 1]; }
      }
    }
  }

  function Prefixed(s: seq<byte>): Option<seq<byte>> {
    if |s| < TWO64 then Some(VarintBytes(|s|) + s) else None
  }

  /** A value that is not a submessage; None when the encoder reports an error or the
      field cannot hold the value. */
  function EncodeScalar(f: Field, v: Value): Option<seq<byte>> {
    match (f.ltype, v)
    case (Bool, Num(n)) => Some(VarintBytes(if n != 0 then 1 else 0))
    case (Varint, Num(n)) =>
      if InSigned(n, f.dataSize) then Some(VarintBytes(ToUnsigned64(n))) else None
    case (Uvarint, Num(n)) =>
      if InUnsigned(n, f.dataSize) then Some(VarintBytes(n)) else None
    case (Svarint, Num(n)) =>
      if InSigned(n, f.dataSize) then Some(VarintBytes(Zigzag(n))) else None
    case (Fixed32, Num(n)) => if 0 <= n < TWO32 then Some(LittleEndian(n, 4)) else None
    case (Fixed64, Num(n)) => if 0 <= n < TWO64 then Some(LittleEndian(n, 8)) else None
    case (Bytes, Blob(b)) => if |b| + BYTES_HEADER <= f.dataSize then Prefixed(b) else None
    case (String, Blob(b)) => Prefixed(b[..StringLength(b, f.dataSize)])
    case (FixedLengthBytes, Blob(b)) => if |b| == f.dataSize then Prefixed(b) else None
    case _ => None
  }

  function EncodeValue(f: Field, v: Value): Option<seq<byte>>
    decreases f, 0
  {
    match (f.ltype, v)
    case (Submessage(fields), Sub(m)) =>
      (match EncodeMessage(fields, m)
       case None => None
       case Some(b) => Prefixed(b))
    case _ => EncodeScalar(f, v)
  }

  function WireType(l: LType): nat {
    match l
    case Bool | Varint | Uvarint | Svarint => WT_VARINT
    case Fixed32 => WT_32BIT
    case Fixed64 => WT_64BIT
    case _ => WT_STRING
  }

  function FieldKey(f: Field): seq<byte> { TagBytes(WireType(f.ltype), f.tag) }

  function Joined(a: Option<seq<byte>>, b: Option<seq<byte>>): Option<seq<byte>> {
    if a.Some? && b.Some? then Some(a.value + b.value) else None
  }

  function Keyed(f: Field, v: Value): Option<seq<byte>>
    decreases f, 1
  {
    Joined(Some(FieldKey(f)), EncodeValue(f, v))
  }

  /** The elements of a packed array, one behind the other. */
  function EncodePacked(f: Field, items: seq<Value>): Option<seq<byte>> {
    if items == [] then Some([])
    else Joined(EncodeScalar(f, items[0]), EncodePacked(f, items[1..]))
  }

  /** The elements of an array that cannot be packed, each with its own key. */
  function EncodeEach(f: Field, items: seq<Value>): Option<seq<byte>>
    decreases f, 2, |items|
  {
    if items == [] then Some([]) else Joined(Keyed(f, items[0]), EncodeEach(f, items[1..]))
  }

  function EncodeArray(f: Field, items: seq<Value>): Option<seq<byte>>
    decreases f, 3
  {
    if items == [] then Some([])
    else if |items| > f.arraySize then None
    else if Packable(f.ltype) then
      match EncodePacked(f, items)
      case None => None
      case Some(payload) => Joined(Some(TagBytes(WT_STRING, f.tag)), Prefixed(payload))
    else EncodeEach(f, items)
  }

  /** A value is zero, so a field without a has_ flag that holds it is left out. */
  predicate IsZero(f: Field, v: Value)
    decreases f, 0
  {
    match (f.ltype, v)
    case (Bytes, Blob(b)) => b == []
    case (String, Blob(b)) => b == [] || b[0] == 0
    case (FixedLengthBytes, Blob(b)) => f.dataSize == 0 && b == []
    case (Submessage(fields), Sub(m)) =>
      |m| == |fields| && forall i | 0 <= i < |fields| :: IsAbsent(fields[i], m[SlotOf(fields, i)])
    case (_, Num(n)) => Packable(f.ltype) && n == 0
    case _ => false
  }

  /** Nothing would be emitted for a field of a submessage without has_ flag. A required
      field is never absent. */
  predicate IsAbsent(f: Field, slot: Slot)
    decreases f, 1
  {
    match f.htype
    case Required => false
    case Repeated => Items(slot) == []
    case Oneof => slot.Unset?
    case Optional => if f.sizeOffset != 0 then slot.Flagged? && !slot.has else IsZero(f, Held(slot))
  }

  /** What one field contributes. */
  function EncodeField(f: Field, slot: Slot): Option<seq<byte>>
    decreases f, 4
  {
    match (f.htype, slot)
    case (Required, Single(v)) => Keyed(f, v)
    case (Optional, Flagged(has, v)) =>
      if f.sizeOffset == 0 then None else if has then Keyed(f, v) else Some([])
    case (Optional, Single(v)) =>
      if f.sizeOffset != 0 then None else if IsZero(f, v) then Some([]) else Keyed(f, v)
    case (Repeated, Array(items)) => EncodeArray(f, items)
    case (Oneof, Union(which, v)) => if which == f.tag then Keyed(f, v) else Some([])
    case (Oneof, Unset) => Some([])
    case _ => None
  }

  function EncodeFrom(fields: seq<Field>, m: Msg, i: nat): Option<seq<byte>>
    requires i <= |fields| == |m|
    decreases fields, 0, |fields| - i
  {
    if i == |fields| then Some([])
    else Joined(EncodeField(fields[i], m[SlotOf(fields, i)]), EncodeFrom(fields, m, i + 1))
  }

  /** The encoding of a message: its fields in descriptor order. */
  function EncodeMessage(fields: seq<Field>, m: Msg): Option<seq<byte>>
    decreases fields, 1
  {
    if |m| == |fields| then EncodeFrom(fields, m, 0) else None
  }
}
