/** What the decoder must make of a stream, record by record. */
module Decoding {
  import opened Wire
  import opened Wrappers
  import opened Descriptor

  /** A value that is not a submessage. */
  function DecodeScalar(f: Field, s: seq<byte>): (p: Parsed<Value>)
    ensures p.Ok? ==> |p.rest| <= |s|
    ensures p.Ok? && !f.ltype.Submessage? ==> |p.rest| < |s|
  {
    match f.ltype
    case Bool =>
      (match DecodeVarint32(s)
       case Fail => Fail
       case Ok(u, rest) => Ok(Num(if u != 0 then 1 else 0), rest))
    case Varint =>
      (match DecodeVarint(s)
       case Fail => Fail
       case Ok(u, rest) =>
         var n := if f.dataSize == 8 then ToSigned64(u) else ToSigned32(u);
         if InSigned(n, f.dataSize) then Ok(Num(n), rest) else Fail)
    case Uvarint =>
      (match DecodeVarint(s)
       case Fail => Fail
       case Ok(u, rest) => if InUnsigned(u, f.dataSize) then Ok(Num(u), rest) else Fail)
    case Svarint =>
      (match DecodeVarint(s)
       case Fail => Fail
       case Ok(u, rest) => if InSigned(Unzigzag(u), f.dataSize) then Ok(Num(Unzigzag(u)), rest) else Fail)
    case Fixed32 => DecodeFixed(s, 4)
    case Fixed64 => DecodeFixed(s, 8)
    case Submessage(_) => Fail
    case _ =>
      match DecodeVarint32(s)
      case Fail => Fail
      case Ok(size, rest) => DecodeBlob(f, size, rest)
  }

  function DecodeFixed(s: seq<byte>, n: nat): Parsed<Value> {
    match Take(s, n)
    case Fail => Fail
    case Ok(b, rest) => Ok(Num(FromLittleEndian(b)), rest)
  }

  /** The contents of a bytes, string or fixed-length bytes field of the given size. */
  function DecodeBlob(f: Field, size: uint32, s: seq<byte>): (p: Parsed<Value>)
    ensures p.Ok? ==> |p.rest| <= |s|
  {
    if f.ltype.FixedLengthBytes? && size == 0 then Ok(Blob(seq(f.dataSize, _ => 0)), s)
    else if f.ltype.FixedLengthBytes? && size != f.dataSize then Fail
    else if f.ltype.String? && size + 1 > f.dataSize then Fail
    else if f.ltype.Bytes? && size + BYTES_HEADER > f.dataSize then Fail
    else
      match Take(s, size)
      case Fail => Fail
      case Ok(b, rest) => Ok(Blob(b), rest)
  }

  /** The elements of a packed payload behind those already there. */
  function DecodePacked(f: Field, payload: seq<byte>, items: seq<Value>): Option<seq<Value>>
    requires Packable(f.ltype)
    decreases |payload|
  {
    if payload == [] then Some(items)
    else if |items| >= f.arraySize then None
    else
      match DecodeScalar(f, payload)
      case Fail => None
      case Ok(v, rest) => DecodePacked(f, rest, items + [v])
  }

  /** A value of any type on top of what the field held before: submessages merge. */
  function DecodeValue(f: Field, s: seq<byte>, prior: Value): (p: Parsed<Value>)
    ensures p.Ok? ==> |p.rest| < |s|
    decreases |s|, 0
  {
    if !f.ltype.Submessage? then DecodeScalar(f, s)
    else
      match Delimited(s)
      case Fail => Fail
      case Ok(payload, rest) =>
        match DecodeMessage(f.ltype.fields, payload, MsgOf(prior, f.ltype.fields))
        case Fail => Fail
        case Ok(m, _) => Ok(Sub(m), rest)
  }

  /** The data of one record of field i. */
  function DecodeField(fields: seq<Field>, i: nat, wireType: nat, s: seq<byte>, m: Msg): (p: Parsed<Msg>)
    requires i < |fields| == |m|
    ensures p.Ok? ==> |p.value| == |m| && |p.rest| < |s|
    decreases |s|, 1
  {
    var f, k := fields[i], SlotOf(fields, i);
    if f.htype.Repeated? && wireType == WT_STRING && Packable(f.ltype) then
      match Delimited(s)
      case Fail => Fail
      case Ok(payload, rest) =>
        match DecodePacked(f, payload, Items(m[i]))
        case None => Fail
        case Some(items) => Ok(m[i := Array(items)], rest)
    else if f.htype.Repeated? && |Items(m[i])| >= f.arraySize then Fail
    else
      match DecodeValue(f, s, Before(f, m[k]))
      case Fail => Fail
      case Ok(v, rest) => Ok(m[k := After(f, m[k], v)], rest)
  }

  /** What a submessage is merged into: array elements and union members start anew. */
  function Before(f: Field, slot: Slot): Value {
    if f.htype.Repeated? || f.htype.Oneof? then DefaultValue(f) else Held(slot)
  }

  /** The slot with a newly decoded value in it. */
  function After(f: Field, slot: Slot, v: Value): Slot {
    match f.htype
    case Required => Single(v)
    case Optional => if f.sizeOffset != 0 then Flagged(true, v) else Single(v)
    case Repeated => Array(Items(slot) + [v])
    case Oneof => Union(f.tag, v)
  }

  /** One turn of the decoding loop: an error, the zero key that ends a message, or a
      record of the given tag. */
  datatype Record = Bad | Stop(rest: seq<byte>) | Next(tag: nat, msg: Msg, rest: seq<byte>)

  function DecodeRecord(fields: seq<Field>, s: seq<byte>, m: Msg): (r: Record)
    requires |fields| == |m|
    ensures r.Next? ==> |r.msg| == |m| && |r.rest| < |s|
    decreases |s|, 0
  {
    match DecodeVarint32(s)
    case Fail => Bad
    case Ok(key, rest) =>
      if key == 0 then Stop(rest)
      else
        var tag, wireType := key / 8, key % 8;
        var i := IndexOf(fields, tag);
        if i < |fields| then
          match DecodeField(fields, i, wireType, rest, m)
          case Fail => Bad
          case Ok(m', rest') => Next(tag, m', rest')
        else if fields == [] && tag == 0 then
          // The search stops at the terminator of an empty descriptor, whose tag is 0
          // and whose type reads as that of a required bool.
          match DecodeVarint32(rest)
          case Fail => Bad
          case Ok(_, rest') => Next(0, m, rest')
        else
          match SkipField(wireType, rest)
          case Fail => Bad
          case Ok(_, rest') => Next(tag, m, rest')
  }

  /** How the loop ends: with an error, at the end of the stream, or at a zero key. The
      tags of the records read are collected. */
  datatype Parse =
    | Failed
    | Exhausted(msg: Msg, seen: set<nat>)
    | Stopped(msg: Msg, seen: set<nat>, rest: seq<byte>)

  function DecodeFields(fields: seq<Field>, s: seq<byte>, m: Msg, seen: set<nat>): (p: Parse)
    requires |fields| == |m|
    ensures !p.Failed? ==> |p.msg| == |m|
    decreases |s|, 1
  {
    if s == [] then Exhausted(m, seen)
    else
      match DecodeRecord(fields, s, m)
      case Bad => Failed
      case Stop(rest) => Stopped(m, seen, rest)
      case Next(tag, m', rest) => DecodeFields(fields, rest, m', seen + {tag})
  }

  /** The message that the records before the end, a zero key or the first bad record come
      to. */
  function Reached(fields: seq<Field>, s: seq<byte>, m: Msg): (r: Msg)
    requires |fields| == |m|
    ensures |r| == |m|
    decreases |s|
  {
    if s == [] then m
    else
      match DecodeRecord(fields, s, m)
      case Next(_, m', rest) => Reached(fields, rest, m')
      case _ => m
  }

  lemma {:induction false} ParseReaches(fields: seq<Field>, s: seq<byte>, m: Msg, seen: set<nat>)
    requires |fields| == |m|
    ensures var p := DecodeFields(fields, s, m, seen); !p.Failed? ==> p.msg == Reached(fields, s, m)
    decreases |s|
  {
    if s != [] {
      var r := DecodeRecord(fields, s, m);
      if r.Next? { ParseReaches(fields, r.rest, r.msg, seen + {r.tag}); }
    }
  }

  /** Each of the first 64 required fields has occurred. */
  predicate RequiredSeen(fields: seq<Field>, seen: set<nat>) {
    forall i | 0 <= i < |fields| && fields[i].htype.Required? && Ordinal(fields, i) < PB_MAX_REQUIRED_FIELDS ::
      fields[i].tag in seen
  }

  /** Decoding into a message without initialising it. */
  function DecodeMessage(fields: seq<Field>, s: seq<byte>, m: Msg): (p: Parsed<Msg>)
    requires |fields| == |m|
    ensures p.Ok? ==> |p.value| == |m|
    decreases |s|, 2
  {
    match DecodeFields(fields, s, m, {})
    case Failed => Fail
    case Exhausted(m', seen) => if RequiredSeen(fields, seen) then Ok(m', []) else Fail
    case Stopped(m', seen, rest) => if RequiredSeen(fields, seen) then Ok(m', rest) else Fail
  }

  /** Decoding into a message initialised to its defaults. */
  function Decode(fields: seq<Field>, s: seq<byte>): Parsed<Msg> {
    DecodeMessage(fields, s, DefaultMsg(fields))
  }
}
