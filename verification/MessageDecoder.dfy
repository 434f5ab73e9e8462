/** Decoding a message into a struct, field by field. */
module MessageDecoder {
  import opened Wire
  import opened Wrappers
  import opened Descriptor
  import opened Decoding
  import opened Capacity
  import opened FieldIterator
  import opened InputStream
  import opened RequiredFields
  import opened ScalarDecoder

  /** The struct a message is decoded into. */
  class Struct {
    var slots: Msg

    constructor (slots: Msg)
      ensures this.slots == slots
    {
      this.slots := slots;
    }
  }

  // ------------------------------------------------------------ initialisation

  method FieldSetToDefault(iter: Iterator, dest: Struct)
    requires iter.Valid() && WellFormed(iter.fields) && iter.pos < |iter.fields| == |dest.slots|
    modifies dest
    ensures var k := SlotOf(iter.fields, iter.pos);
            dest.slots == old(dest.slots)[iter.pos := Shared][k := DefaultSlot(iter.fields[k], false)]
    decreases iter.fields[iter.pos], 0
  {
    var f := iter.fields[iter.pos];
    var k := SlotOf(iter.fields, iter.pos);
    dest.slots := dest.slots[iter.pos := Shared];
    if f.htype.Repeated? {
      dest.slots := dest.slots[k := Array([])];
    } else if f.htype.Oneof? {
      dest.slots := dest.slots[k := Unset];
    } else {
      var data;
      if f.ltype.Submessage? {
        assert WellFormedField(iter.fields, iter.pos);
        var inner := new Struct(MsgOf(Held(dest.slots[k]), f.ltype.fields));
        MessageSetToDefaults(f.ltype.fields, inner);
        data := Sub(inner.slots);
      } else if f.default.Some? {
        data := f.default.value;
      } else {
        data := ZeroValue(f);
      }
      HasItsOwnFlag(iter);
      var hasFlag := f.htype.Optional? && iter.pSize != iter.pData;
      dest.slots := dest.slots[k := if hasFlag then Flagged(false, data) else Single(data)];
    }
  }

  /** A singular field outside unions has a has_ flag exactly when its pSize differs from
      its pData. */
  lemma {:induction false} HasItsOwnFlag(iter: Iterator)
    requires iter.Valid() && iter.pos < |iter.fields| && !iter.fields[iter.pos].htype.Oneof?
    ensures iter.pSize != iter.pData <==> iter.fields[iter.pos].sizeOffset != 0
  {}

  /** Slots 0 to i of the struct have been initialised. */
  predicate DefaultsUpTo(fields: seq<Field>, m: Msg, i: nat) {
    |m| == |fields| && forall j | 0 <= j < i && j < |fields| :: m[j] == DefaultSlot(fields[j], Continues(fields, j))
  }

  lemma {:induction false} OneMoreDefault(fields: seq<Field>, m: Msg, i: nat)
    requires i < |fields| && DefaultsUpTo(fields, m, i)
    ensures var k := SlotOf(fields, i);
            DefaultsUpTo(fields, m[i := Shared][k := DefaultSlot(fields[k], false)], i + 1)
  {
    SlotIsFirst(fields, i);
    var k := SlotOf(fields, i);
    if Continues(fields, i) { assert k < i; }
  }

  method MessageSetToDefaults(fields: seq<Field>, dest: Struct)
    requires WellFormed(fields) && |dest.slots| == |fields|
    modifies dest
    ensures dest.slots == DefaultMsg(fields)
    decreases fields, 1
  {
    var iter := new Iterator(fields, 0);
    if fields == [] { return; }
    var more := true;
    while more
      invariant iter.Valid() && iter.fields == fields && fresh(iter)
      invariant DefaultsUpTo(fields, dest.slots, if more then iter.pos else |fields|)
      decreases if more then |fields| - iter.pos else 0
    {
      OneMoreDefault(fields, dest.slots, iter.pos);
      FieldSetToDefault(iter, dest);
      more := iter.Next();
    }
  }

  // -------------------------------------------------------------- submessages

  method DecSubmessage(stream: IStream, f: Field, prior: Value) returns (ok: bool, v: Value)
    requires stream.Valid() && f.ltype.Submessage? && WellFormedInside(f)
    modifies stream
    ensures stream.Valid() && stream.End() <= old(stream.End())
    ensures var p := DecodeValue(f, old(stream.Contents()), if f.htype.Repeated? then DefaultValue(f) else prior);
            ok == p.Ok? && (ok ==> v == p.value && stream.LeftWith(p.rest, old(stream.End())))
    ensures FitsValue(f, prior) ==> FitsValue(f, v)
    decreases stream.bytesLeft, 0
  {
    v := prior;
    ghost var d, before := Delimited(stream.Contents()), if f.htype.Repeated? then DefaultValue(f) else prior;
    SubmessageValue(f, stream.Contents(), before);
    var substream;
    ok, substream := stream.MakeStringSubstream();
    if !ok { return; }
    InnerFits(f, prior);
    var inner := new Struct(MsgOf(prior, f.ltype.fields));
    var status := DecodeInner(substream, f, inner);
    v := Sub(inner.slots);
    ok := stream.CloseStringSubstream(substream, d.rest, old(stream.End()));
    if !ok { return; }
    ok := status;
  }

  lemma {:induction false} InnerFits(f: Field, prior: Value)
    requires f.ltype.Submessage?
    ensures FitsValue(f, prior) ==> FitsValue(f, Sub(MsgOf(prior, f.ltype.fields)))
  {
    if FitsValue(f, prior) { PriorFits(f, prior); }
  }

  lemma {:induction false} SubmessageValue(f: Field, s: seq<byte>, prior: Value)
    requires f.ltype.Submessage?
    ensures DecodeValue(f, s, prior)
         == match Delimited(s)
            case Fail => Fail
            case Ok(payload, rest) =>
              match DecodeMessage(f.ltype.fields, payload, MsgOf(prior, f.ltype.fields))
              case Fail => Fail
              case Ok(m, _) => Ok(Sub(m), rest)
  {}

  /** New array elements need to be initialised. */
  method DecodeInner(substream: IStream, f: Field, inner: Struct) returns (status: bool)
    requires substream.Valid() && f.ltype.Submessage? && WellFormed(f.ltype.fields) && |inner.slots| == |f.ltype.fields|
    modifies substream, inner
    ensures substream.Valid() && substream.End() <= old(substream.End())
    ensures var fields := f.ltype.fields;
            var p := DecodeMessage(fields, old(substream.Contents()),
                                   if f.htype.Repeated? then DefaultMsg(fields) else old(inner.slots));
            status == p.Ok? && (status ==> inner.slots == p.value && substream.LeftWith(p.rest, old(substream.End())))
    ensures FitsValue(f, Sub(old(inner.slots))) ==> FitsValue(f, Sub(inner.slots))
    decreases substream.bytesLeft, 9
  {
    if f.htype.Repeated? {
      status := Decode(substream, f.ltype.fields, inner);
    } else {
      status := DecodeNoInit(substream, f.ltype.fields, inner);
    }
  }

  method DecValue(stream: IStream, f: Field, prior: Value) returns (ok: bool, v: Value)
    requires stream.Valid() && WellFormedInside(f)
    modifies stream
    ensures stream.Valid() && stream.End() <= old(stream.End())
    ensures var p := DecodeValue(f, old(stream.Contents()), if f.htype.Repeated? then DefaultValue(f) else prior);
            ok == p.Ok? && (ok ==> v == p.value && stream.LeftWith(p.rest, old(stream.End())))
    ensures FitsValue(f, prior) ==> FitsValue(f, v)
    decreases stream.bytesLeft, 1
  {
    if f.ltype.Submessage? {
      ok, v := DecSubmessage(stream, f, prior);
    } else {
      ok, v := DecScalar(stream, f);
    }
  }

  // ------------------------------------------------------------------- fields

  /** The elements of one packed record behind those already there. */
  ghost function DecodeArray(f: Field, s: seq<byte>, items: seq<Value>): Parsed<seq<Value>>
    requires Packable(f.ltype)
  {
    match Delimited(s)
    case Fail => Fail
    case Ok(payload, rest) =>
      match DecodePacked(f, payload, items)
      case None => Fail
      case Some(all) => Ok(all, rest)
  }

  /** Reads elements from the payload as long as there is room for them. */
  method DecodeElements(substream: IStream, f: Field, i: nat, dest: Struct) returns (status: bool)
    requires substream.Valid() && Packable(f.ltype) && i < |dest.slots| && dest.slots[i].Array?
    modifies substream, dest
    ensures substream.Valid() && substream.End() == old(substream.End())
    ensures |dest.slots| == |old(dest.slots)| && dest.slots[i].Array?
         && dest.slots == old(dest.slots)[i := dest.slots[i]]
    ensures var all := DecodePacked(f, old(substream.Contents()), old(dest.slots[i].items));
            if status && substream.bytesLeft == 0 then all == Some(dest.slots[i].items) else all == None
    ensures Grown(old(dest.slots[i].items), dest.slots[i].items, f.arraySize)
  {
    ghost var all := DecodePacked(f, substream.Contents(), dest.slots[i].items);
    status := true;
    while substream.bytesLeft > 0 && |dest.slots[i].items| < f.arraySize
      invariant substream.Valid() && substream.End() == old(substream.End())
      invariant |dest.slots| == |old(dest.slots)| && dest.slots[i].Array?
      invariant dest.slots == old(dest.slots)[i := dest.slots[i]]
      invariant all == DecodePacked(f, substream.Contents(), dest.slots[i].items)
      invariant Grown(old(dest.slots[i].items), dest.slots[i].items, f.arraySize)
      decreases substream.bytesLeft
    {
      var read, v := DecScalar(substream, f);
      if !read {
        status := false;
        break;
      }
      dest.slots := dest.slots[i := Array(dest.slots[i].items + [v])];
    }
  }

  method DecodePackedField(stream: IStream, f: Field, i: nat, dest: Struct) returns (ok: bool)
    requires stream.Valid() && Packable(f.ltype) && i < |dest.slots|
    modifies stream, dest
    ensures stream.Valid() && stream.End() <= old(stream.End())
    ensures var p := DecodeArray(f, old(stream.Contents()), Items(old(dest.slots[i])));
            && ok == p.Ok?
            && (ok ==> dest.slots == old(dest.slots)[i := Array(p.value)])
            && (ok ==> stream.LeftWith(p.rest, old(stream.End())))
    ensures OnlySlot(old(dest.slots), dest.slots, i)
    ensures dest.slots[i] == old(dest.slots[i])
         || (dest.slots[i].Array? && Grown(Items(old(dest.slots[i])), dest.slots[i].items, f.arraySize))
  {
    ghost var d := Delimited(stream.Contents());
    var substream;
    ok, substream := stream.MakeStringSubstream();
    if !ok { return; }
    dest.slots := dest.slots[i := Array(Items(dest.slots[i]))];
    var status := DecodeElements(substream, f, i, dest);
    if substream.bytesLeft != 0 { return false; }
    ok := stream.CloseStringSubstream(substream, d.rest, old(stream.End()));
    if !ok { return; }
    return status;
  }

  method DecodeSingular(stream: IStream, iter: Iterator, dest: Struct) returns (ok: bool)
    requires stream.Valid() && iter.Valid() && WellFormed(iter.fields) && iter.pos < |dest.slots| == |iter.fields|
    requires iter.fields[iter.pos].htype.Required? || iter.fields[iter.pos].htype.Optional?
    modifies stream, dest
    ensures stream.Valid() && stream.End() <= old(stream.End())
    ensures var p := DecodeField(iter.fields, iter.pos, 0, old(stream.Contents()), old(dest.slots));
            ok == p.Ok? && (ok ==> dest.slots == p.value && stream.LeftWith(p.rest, old(stream.End())))
    ensures OnlySlot(old(dest.slots), dest.slots, iter.pos)
    ensures iter.fields[iter.pos].htype.Optional? && iter.fields[iter.pos].sizeOffset != 0 ==>
              dest.slots[iter.pos].Flagged? && dest.slots[iter.pos].has
    ensures FitsSlot(iter.fields[iter.pos], old(dest.slots[iter.pos])) ==>
              FitsSlot(iter.fields[iter.pos], dest.slots[iter.pos])
    decreases stream.bytesLeft, 2
  {
    assert WellFormedField(iter.fields, iter.pos);
    var f, i := iter.fields[iter.pos], iter.pos;
    HasItsOwnFlag(iter);
    var hasFlag, prior := f.htype.Optional? && iter.pSize != iter.pData, Held(dest.slots[i]);
    var v;
    if hasFlag { dest.slots := dest.slots[i := Flagged(true, prior)]; }
    ok, v := DecValue(stream, f, prior);
    dest.slots := dest.slots[i := if hasFlag then Flagged(true, v) else Single(v)];
  }

  /** One element has been written behind those of the array. */
  predicate Extended(f: Field, before: Slot, after: Slot) {
    && after.Array? && |after.items| == |Items(before)| + 1 && Items(before) <= after.items
    && FitsValue(f, after.items[|Items(before)|])
  }

  /** An element that comes with a key of its own. The counter of the array goes up even
      when there is no room for the element, and then stands one beyond the capacity. */
  method DecodeElement(stream: IStream, f: Field, i: nat, dest: Struct) returns (ok: bool, size: nat)
    requires stream.Valid() && WellFormedInside(f) && f.htype.Repeated? && i < |dest.slots|
    modifies stream, dest
    ensures stream.Valid() && stream.End() <= old(stream.End())
    ensures var items := Items(old(dest.slots[i]));
            var p := DecodeValue(f, old(stream.Contents()), DefaultValue(f));
            && ok == (|items| < f.arraySize && p.Ok?)
            && (ok ==> dest.slots == old(dest.slots)[i := Array(items + [p.value])])
            && (ok ==> stream.LeftWith(p.rest, old(stream.End())))
    ensures OnlySlot(old(dest.slots), dest.slots, i)
    ensures size == |Items(old(dest.slots[i]))| + 1
    ensures if size > f.arraySize then dest.slots == old(dest.slots) else Extended(f, old(dest.slots[i]), dest.slots[i])
    decreases stream.bytesLeft, 2
  {
    var items := Items(dest.slots[i]);
    size := |items| + 1;
    if size > f.arraySize { return false, size; }
    var v;
    ok, v := DecValue(stream, f, Num(0));
    dest.slots := dest.slots[i := Array(items + [v])];
  }

  /** A member of a union replaces whatever the union held. */
  method DecodeMember(stream: IStream, f: Field, k: nat, dest: Struct) returns (ok: bool)
    requires stream.Valid() && WellFormedInside(f) && f.htype.Oneof? && k < |dest.slots|
    modifies stream, dest
    ensures stream.Valid() && stream.End() <= old(stream.End())
    ensures var p := DecodeValue(f, old(stream.Contents()), DefaultValue(f));
            && ok == p.Ok?
            && (ok ==> dest.slots == old(dest.slots)[k := Union(f.tag, p.value)])
            && (ok ==> stream.LeftWith(p.rest, old(stream.End())))
    ensures OnlySlot(old(dest.slots), dest.slots, k)
    ensures dest.slots[k].Union? && dest.slots[k].which == f.tag && FitsSlot(f, dest.slots[k])
    decreases stream.bytesLeft, 2
  {
    var initial := Held(dest.slots[k]);
    if f.ltype.Submessage? {
      var inner := new Struct(MsgOf(initial, f.ltype.fields));
      MessageSetToDefaults(f.ltype.fields, inner);
      initial := Sub(inner.slots);
      DefaultFits(f.ltype.fields);
    }
    dest.slots := dest.slots[k := Union(f.tag, initial)];
    var v;
    ok, v := DecValue(stream, f, initial);
    dest.slots := dest.slots[k := Union(f.tag, v)];
  }

  /** Decodes the data of one record into the field at the iterator. The terminator of an
      empty descriptor reads as a required bool. */
  method DecodeStaticField(stream: IStream, wireType: nat, iter: Iterator, dest: Struct) returns (ok: bool)
    requires stream.Valid() && iter.Valid() && WellFormed(iter.fields) && |dest.slots| == |iter.fields|
    modifies stream, dest
    ensures stream.Valid() && stream.End() <= old(stream.End())
    ensures iter.fields != [] ==>
              var p := DecodeField(iter.fields, iter.pos, wireType, old(stream.Contents()), old(dest.slots));
              ok == p.Ok? && (ok ==> dest.slots == p.value && stream.LeftWith(p.rest, old(stream.End())))
    ensures iter.fields == [] ==>
              var p := Wire.DecodeVarint32(old(stream.Contents()));
              ok == p.Ok? && dest.slots == old(dest.slots) && (ok ==> stream.LeftWith(p.rest, old(stream.End())))
    ensures OnlySlot(old(dest.slots), dest.slots, if iter.pos < |iter.fields| then SlotOf(iter.fields, iter.pos) else 0)
    ensures Fits(iter.fields, old(dest.slots)) ==> Fits(iter.fields, dest.slots)
    decreases stream.bytesLeft, 3
  {
    if iter.pos == |iter.fields| {
      var v;
      ok, v := DecBool(stream);
      return;
    }
    assert WellFormedField(iter.fields, iter.pos);
    var f, k := iter.fields[iter.pos], SlotOf(iter.fields, iter.pos);
    ghost var before := dest.slots;
    if f.htype.Repeated? {
      if wireType == WT_STRING && Packable(f.ltype) {
        ok := DecodePackedField(stream, f, k, dest);
      } else {
        var size;
        ok, size := DecodeElement(stream, f, k, dest);
      }
    } else if f.htype.Oneof? {
      ok := DecodeMember(stream, f, k, dest);
    } else {
      ok := DecodeSingular(stream, iter, dest);
    }
    if Fits(iter.fields, before) { StillFits(iter.fields, iter.pos, before, dest.slots); }
  }

  /** What decoding a field may have done to its slot, whatever came of it. */
  predicate Kept(f: Field, before: Slot, after: Slot) {
    match f.htype
    case Repeated =>
      || after == before
      || (Packable(f.ltype) && after.Array? && Grown(Items(before), after.items, f.arraySize))
      || (|Items(before)| < f.arraySize && Extended(f, before, after))
    case Oneof => after.Union? && after.which == f.tag && FitsSlot(f, after)
    case _ => FitsSlot(f, before) ==> FitsSlot(f, after)
  }

  lemma {:induction false} StillFits(fields: seq<Field>, i: nat, before: Msg, after: Msg)
    requires i < |fields| && WellFormed(fields) && Fits(fields, before) && OnlySlot(before, after, SlotOf(fields, i))
    requires Kept(fields[i], before[SlotOf(fields, i)], after[SlotOf(fields, i)])
    ensures Fits(fields, after)
  {
    assert FitsSlot(fields[i], before[SlotOf(fields, i)]);
    OneSlotFits(fields, i, before, after);
  }

  // ----------------------------------------------------------------- messages

  /** Counts the required fields by walking on to the end of the descriptor, then looks
      for their bits. */
  method CheckRequired(iter: Iterator, fieldsSeen: array<uint32>, ghost seen: set<nat>) returns (ok: bool)
    requires iter.Valid() && WellFormed(iter.fields) && Marks(fieldsSeen[..], iter.fields, seen)
    modifies iter
    ensures ok <==> RequiredSeen(iter.fields, seen)
  {
    ghost var fields := iter.fields;
    var reqFieldCount: nat, lastIsRequired, more := 0, false, true;
    while more
      invariant iter.Valid()
      invariant !more && fields != [] ==> reqFieldCount == Ordinal(fields, |fields| - 1)
                                          && lastIsRequired == fields[|fields| - 1].htype.Required?
      invariant !more && fields == [] ==> reqFieldCount == 0
      decreases if more then |fields| - iter.pos + 1 else 0
    {
      reqFieldCount := iter.requiredFieldIndex;
      lastIsRequired := iter.pos == |iter.fields| || iter.fields[iter.pos].htype.Required?;
      more := iter.Next();
    }
    // The last field has not been counted yet.
    if lastIsRequired && iter.Tag() != 0 { reqFieldCount := reqFieldCount + 1; }
    TagsAreNonzero(fields, iter.pos);
    assert reqFieldCount == Ordinal(fields, |fields|);
    if reqFieldCount > PB_MAX_REQUIRED_FIELDS { reqFieldCount := PB_MAX_REQUIRED_FIELDS; }
    BitmapIsExact(fieldsSeen[..], fields, seen);
    ok := CheckBits(fieldsSeen, reqFieldCount);
  }

  lemma {:induction false} TagsAreNonzero(fields: seq<Field>, i: nat)
    requires WellFormed(fields)
    ensures i < |fields| ==> fields[i].tag != 0
  {
    if i < |fields| { assert WellFormedField(fields, i); }
  }

  /** Notes a required field at the iterator. The terminator of an empty descriptor reads as
      one. */
  method MarkRequired(iter: Iterator, fieldsSeen: array<uint32>, ghost seen: set<nat>)
    requires iter.Valid() && WellFormed(iter.fields) && Marks(fieldsSeen[..], iter.fields, seen)
    modifies fieldsSeen
    ensures Marks(fieldsSeen[..], iter.fields, seen + {iter.Tag()})
  {
    var index := iter.requiredFieldIndex;
    if iter.pos < |iter.fields| { MarkField(fieldsSeen[..], iter.fields, seen, iter.pos); }
    if (iter.pos == |iter.fields| || iter.fields[iter.pos].htype.Required?) && index < PB_MAX_REQUIRED_FIELDS {
      ghost var marked := Marked(fieldsSeen[..], index);
      fieldsSeen[index / 32] := OrBit(fieldsSeen[index / 32], index % 32);
      assert fieldsSeen[..] == marked;
    }
  }

  /** What is made of the data behind a key. */
  ghost function DataRecord(fields: seq<Field>, tag: nat, wireType: nat, s: seq<byte>, m: Msg): Record
    requires |m| == |fields|
  {
    var i := IndexOf(fields, tag);
    if i < |fields| then
      match DecodeField(fields, i, wireType, s, m)
      case Fail => Bad
      case Ok(m', rest) => Next(tag, m', rest)
    else if fields == [] && tag == 0 then
      match Wire.DecodeVarint32(s)
      case Fail => Bad
      case Ok(_, rest) => Next(0, m, rest)
    else
      match SkipField(wireType, s)
      case Fail => Bad
      case Ok(_, rest) => Next(tag, m, rest)
  }

  method DecodeData(stream: IStream, wireType: nat, tag: nat, iter: Iterator, fieldsSeen: array<uint32>, dest: Struct,
                    ghost seen: set<nat>)
    returns (ok: bool)
    requires stream.Valid() && fieldsSeen as object != stream.buf
    requires iter.Valid() && WellFormed(iter.fields) && |dest.slots| == |iter.fields|
          && Marks(fieldsSeen[..], iter.fields, seen)
    modifies stream, iter, fieldsSeen, dest
    ensures stream.Valid() && stream.End() <= old(stream.End())
    ensures AtMostOneSlot(old(dest.slots), dest.slots)
    ensures Fits(iter.fields, old(dest.slots)) ==> Fits(iter.fields, dest.slots)
    ensures iter.Valid() && Marks(fieldsSeen[..], iter.fields, seen + {tag})
    ensures var r := DataRecord(iter.fields, tag, wireType, old(stream.Contents()), old(dest.slots));
            ok == r.Next? && (ok ==> dest.slots == r.msg && stream.LeftWith(r.rest, old(stream.End())))
    decreases stream.bytesLeft, 4
  {
    var found := iter.Find(tag);
    if !found {
      MarkNothing(fieldsSeen[..], iter.fields, seen, tag);
      ok := stream.SkipField(wireType);
      assert OnlySlot(old(dest.slots), dest.slots, 0);
    } else {
      MarkRequired(iter, fieldsSeen, seen);
      ok := DecodeStaticField(stream, wireType, iter, dest);
    }
  }

  /** What a bad record at the beginning leaves, and what any other one leads to. */
  lemma {:induction false} ReachesOn(fields: seq<Field>, s: seq<byte>, m: Msg)
    requires |m| == |fields| && s != []
    ensures Reached(fields, s, m)
         == match Wire.DecodeVarint32(s)
            case Fail => m
            case Ok(key, rest) =>
              if key == 0 then m
              else match DataRecord(fields, key / 8, key % 8, rest, m)
                   case Next(_, m', rest') => Reached(fields, rest', m')
                   case _ => m
  {}

  /** One turn of the loop. */
  lemma {:induction false} LoopTurn(fields: seq<Field>, s: seq<byte>, m: Msg, seen: set<nat>)
    requires |m| == |fields| && s != []
    ensures DecodeFields(fields, s, m, seen)
         == match Wire.DecodeVarint32(s)
            case Fail => Failed
            case Ok(key, rest) =>
              if key == 0 then Stopped(m, seen, rest)
              else match DataRecord(fields, key / 8, key % 8, rest, m)
                   case Bad => Failed
                   case Stop(_) => Failed
                   case Next(tag, m', rest') => DecodeFields(fields, rest', m', seen + {key / 8})
  {}

  /** One turn of the loop: reads a key and, unless that is zero, decodes the data behind it. */
  method DecodeRecordOf(stream: IStream, iter: Iterator, fieldsSeen: array<uint32>, dest: Struct, ghost seen: set<nat>)
    returns (ok: bool, more: bool, ghost seen': set<nat>)
    requires stream.Valid() && stream.bytesLeft > 0 && fieldsSeen as object != stream.buf
    requires iter.Valid() && WellFormed(iter.fields) && |dest.slots| == |iter.fields|
          && Marks(fieldsSeen[..], iter.fields, seen)
    modifies stream, iter, fieldsSeen, dest
    ensures stream.Valid() && stream.End() <= old(stream.End()) && |dest.slots| == |iter.fields|
    ensures iter.Valid() && Marks(fieldsSeen[..], iter.fields, seen')
    ensures ok ==> stream.End() == old(stream.End()) && stream.bytesLeft < old(stream.bytesLeft)
    ensures DecodeFields(iter.fields, old(stream.Contents()), old(dest.slots), seen)
         == if !ok then Failed
            else if more then DecodeFields(iter.fields, stream.Contents(), dest.slots, seen')
            else Stopped(dest.slots, seen', stream.Contents())
    ensures AtMostOneSlot(old(dest.slots), dest.slots)
         && (Fits(iter.fields, old(dest.slots)) ==> Fits(iter.fields, dest.slots))
    ensures Reached(iter.fields, old(stream.Contents()), old(dest.slots))
         == if !ok then old(dest.slots)
            else if more then Reached(iter.fields, stream.Contents(), dest.slots)
            else dest.slots
    decreases stream.bytesLeft, 5
  {
    LoopTurn(iter.fields, stream.Contents(), dest.slots, seen);
    ReachesOn(iter.fields, stream.Contents(), dest.slots);
    assert OnlySlot(dest.slots, dest.slots, 0);
    seen' := seen;
    var wireType, tag, eof;
    ok, wireType, tag, eof := stream.DecodeTag();
    if !ok { return eof, false, seen; }
    ok := DecodeData(stream, wireType, tag, iter, fieldsSeen, dest, seen);
    return ok, true, seen + {tag};
  }

  /** Decodes records up to the end of the stream or a zero key. */
  method DecodeRecords(stream: IStream, iter: Iterator, fieldsSeen: array<uint32>, dest: Struct)
    returns (ok: bool, ghost seen: set<nat>)
    requires stream.Valid() && fieldsSeen as object != stream.buf
    requires iter.Valid() && WellFormed(iter.fields) && |dest.slots| == |iter.fields|
          && Marks(fieldsSeen[..], iter.fields, {})
    modifies stream, iter, fieldsSeen, dest
    ensures stream.Valid() && stream.End() <= old(stream.End()) && |dest.slots| == |iter.fields|
    ensures iter.Valid() && Marks(fieldsSeen[..], iter.fields, seen)
    ensures var p := DecodeFields(iter.fields, old(stream.Contents()), old(dest.slots), {});
            && ok == !p.Failed?
            && (ok ==> dest.slots == p.msg && seen == p.seen
                       && stream.LeftWith(if p.Stopped? then p.rest else [], old(stream.End())))
    ensures AtMostOneSlot(Reached(iter.fields, old(stream.Contents()), old(dest.slots)), dest.slots)
    ensures Fits(iter.fields, old(dest.slots)) ==> Fits(iter.fields, dest.slots)
    decreases stream.bytesLeft, 6
  {
    seen := {};
    ghost var parse := DecodeFields(iter.fields, stream.Contents(), dest.slots, {});
    ghost var reached := Reached(iter.fields, stream.Contents(), dest.slots);
    assert OnlySlot(reached, reached, 0);
    while stream.bytesLeft > 0
      invariant stream.Valid() && stream.End() == old(stream.End())
      invariant iter.Valid() && Marks(fieldsSeen[..], iter.fields, seen)
      invariant |dest.slots| == |iter.fields|
      invariant parse == DecodeFields(iter.fields, stream.Contents(), dest.slots, seen)
      invariant reached == Reached(iter.fields, stream.Contents(), dest.slots)
      invariant Fits(iter.fields, old(dest.slots)) ==> Fits(iter.fields, dest.slots)
      invariant stream.bytesLeft <= old(stream.bytesLeft)
      decreases stream.bytesLeft
    {
      var more;
      ok, more, seen := DecodeRecordOf(stream, iter, fieldsSeen, dest, seen);
      if !ok || !more { return; }
    }
    return true, seen;
  }

  /** When decoding fails, the struct holds what the records before the bad one come to,
      but for the slot of the field that the bad one is for; in any case no element has
      been written beyond the capacity of its array, at any depth. */
  method DecodeNoInit(stream: IStream, fields: seq<Field>, dest: Struct) returns (ok: bool)
    requires stream.Valid() && WellFormed(fields) && |dest.slots| == |fields|
    modifies stream, dest
    ensures stream.Valid() && stream.End() <= old(stream.End()) && |dest.slots| == |fields|
    ensures var p := DecodeMessage(fields, old(stream.Contents()), old(dest.slots));
            ok == p.Ok? && (ok ==> dest.slots == p.value && stream.LeftWith(p.rest, old(stream.End())))
    ensures AtMostOneSlot(Reached(fields, old(stream.Contents()), old(dest.slots)), dest.slots)
    ensures Fits(fields, old(dest.slots)) ==> Fits(fields, dest.slots)
    decreases stream.bytesLeft, 7
  {
    var fieldsSeen := new uint32[2] [0, 0];
    var iter := new Iterator(fields, 0);
    assert fieldsSeen[..] == [0, 0];
    NothingMarked(fields);
    ghost var seen;
    ok, seen := DecodeRecords(stream, iter, fieldsSeen, dest);
    if !ok { return; }
    ok := CheckRequired(iter, fieldsSeen, seen);
  }

  method Decode(stream: IStream, fields: seq<Field>, dest: Struct) returns (ok: bool)
    requires stream.Valid() && WellFormed(fields) && |dest.slots| == |fields|
    modifies stream, dest
    ensures stream.Valid() && stream.End() <= old(stream.End()) && |dest.slots| == |fields|
    ensures var p := Decoding.Decode(fields, old(stream.Contents()));
            ok == p.Ok? && (ok ==> dest.slots == p.value && stream.LeftWith(p.rest, old(stream.End())))
    ensures AtMostOneSlot(Reached(fields, old(stream.Contents()), DefaultMsg(fields)), dest.slots)
         && Fits(fields, dest.slots)
    decreases stream.bytesLeft, 8
  {
    DefaultFits(fields);
    MessageSetToDefaults(fields, dest);
    ok := DecodeNoInit(stream, fields, dest);
  }

  /** However much of its payload the message uses up, the stream is left behind it. */
  method DecodeDelimited(stream: IStream, fields: seq<Field>, dest: Struct) returns (ok: bool)
    requires stream.Valid() && WellFormed(fields) && |dest.slots| == |fields|
    modifies stream, dest
    ensures stream.Valid() && stream.End() <= old(stream.End())
    ensures var d := Delimited(old(stream.Contents()));
            && ok == (d.Ok? && Decoding.Decode(fields, d.value).Ok?)
            && (ok ==> dest.slots == Decoding.Decode(fields, d.value).value)
            && (ok ==> stream.LeftWith(d.rest, old(stream.End())))
    ensures Fits(fields, old(dest.slots)) ==> Fits(fields, dest.slots)
  {
    ghost var d := Delimited(stream.Contents());
    var substream;
    ok, substream := stream.MakeStringSubstream();
    if !ok { return; }
    var status := Decode(substream, fields, dest);
    ok := stream.CloseStringSubstream(substream, d.rest, old(stream.End()));
    if !ok { return; }
    return status;
  }
}
