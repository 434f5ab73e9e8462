/** Encoding the contents of a struct, field by field. */
module MessageEncoder {
  import opened Wire
  import opened Wrappers
  import opened Descriptor
  import opened Encoding
  import opened Merging
  import opened FieldIterator
  import opened OutputStream

  // ------------------------------------------------------- what a struct can hold

  /** The struct holds values of the types its descriptor gives. */
  predicate Storable(fields: seq<Field>, m: Msg)
    decreases fields, 1
  {
    Shaped(fields, m) &&
    forall i {:trigger StorableSlot(fields[i], m[SlotOf(fields, i)])} | 0 <= i < |fields| ::
      StorableSlot(fields[i], m[SlotOf(fields, i)])
  }

  predicate StorableSlot(f: Field, slot: Slot)
    decreases f, 1
  {
    match slot
    case Single(v) => StorableValue(f, v)
    case Flagged(_, v) => StorableValue(f, v)
    case Array(items) => forall i | 0 <= i < |items| :: StorableValue(f, items[i])
    case Union(which, v) => which == f.tag ==> StorableValue(f, v)
    case _ => true
  }

  predicate StorableValue(f: Field, v: Value)
    decreases f, 0
  {
    match f.ltype
    case Submessage(fields) => v.Sub? && Storable(fields, v.msg)
    case Bool => v.Num?
    case Varint | Svarint => v.Num? && (f.dataSize in {1, 2, 4, 8} ==> InSigned(v.n, f.dataSize))
    case Uvarint => v.Num? && (f.dataSize in {1, 2, 4, 8} ==> InUnsigned(v.n, f.dataSize))
    case Fixed32 => v.Num? && 0 <= v.n < TWO32
    case Fixed64 => v.Num? && 0 <= v.n < TWO64
    case Bytes => v.Blob? && |v.bytes| <= PB_SIZE_MAX
    case String => v.Blob?
    case FixedLengthBytes => v.Blob? && |v.bytes| == f.dataSize
  }

  // ------------------------------------------------------------------- absence

  /** Whether a field of a submessage holds only its proto3 default, zero. */
  method CheckDefaultField(fields: seq<Field>, i: nat, slot: Slot) returns (r: bool)
    requires i < |fields| && WellFormed(fields)
    requires ShapedSlot(fields, SlotOf(fields, i), slot) && StorableSlot(fields[i], slot)
    ensures r == IsAbsent(fields[i], slot)
    decreases fields[i], 1
  {
    var f := fields[i];
    SlotIsFirst(fields, i);
    assert WellFormedField(fields, i);
    if f.htype.Required? {
      return false;
    } else if f.htype.Repeated? {
      return |slot.items| == 0;
    } else if f.htype.Oneof? {
      return slot.Unset?;
    } else if f.sizeOffset != 0 {
      return !slot.has;
    }
    r := CheckDefaultValue(f, slot.value);
  }

  method CheckDefaultValue(f: Field, v: Value) returns (r: bool)
    requires WellFormedInside(f) && StorableValue(f, v)
    ensures r == IsZero(f, v)
    decreases f, 0
  {
    match f.ltype
    case Bytes => r := |v.bytes| == 0;
    case String => r := |v.bytes| == 0 || v.bytes[0] == 0;
    case FixedLengthBytes => r := f.dataSize == 0;
    case Submessage(fields) => r := CheckDefaultMessage(fields, v.msg);
    case _ => r := v.n == 0;
  }

  predicate AbsentUpTo(fields: seq<Field>, m: Msg, i: nat)
    requires i <= |fields| == |m|
  {
    forall j {:trigger IsAbsent(fields[j], m[SlotOf(fields, j)])} | 0 <= j < i ::
      IsAbsent(fields[j], m[SlotOf(fields, j)])
  }

  method CheckDefaultMessage(fields: seq<Field>, m: Msg) returns (r: bool)
    requires WellFormed(fields) && Storable(fields, m)
    ensures r <==> AbsentUpTo(fields, m, |fields|)
    decreases fields, 2
  {
    var iter := new Iterator(fields, 0);
    if fields == [] { return true; }
    var more := true;
    while more
      invariant iter.Valid() && iter.fields == fields && fresh(iter)
      invariant AbsentUpTo(fields, m, if more then iter.pos else |fields|)
      decreases if more then |fields| - iter.pos else 0
    {
      var slot := m[SlotOf(fields, iter.pos)];
      assert ShapedSlot(fields, SlotOf(fields, iter.pos), slot) && StorableSlot(fields[iter.pos], slot);
      r := CheckDefaultField(fields, iter.pos, slot);
      if !r { return false; }
      more := iter.Next();
    }
    return true;
  }

  // -------------------------------------------------------------------- values

  /** Length of the string in a buffer of dataSize bytes. */
  method MeasureString(s: seq<byte>, dataSize: nat) returns (size: nat)
    ensures size == StringLength(s, dataSize)
  {
    size := 0;
    while size < dataSize && size < |s| && s[size] != 0
      invariant size <= |s| && size <= dataSize
      invariant StringLength(s, dataSize) == size + StringLength(s[size..], dataSize - size)
    {
      size := size + 1;
    }
  }

  method EncVarint(stream: OStream, f: Field, v: Value) returns (ok: bool)
    requires stream.Valid() && f.ltype.Varint? && StorableValue(f, v)
    modifies stream, stream.buf
    ensures stream.Valid() && Emitted(old(stream.Now()), stream.Now(), ok, EncodeScalar(f, v))
  {
    if f.dataSize !in {1, 2, 4, 8} { return false; }
    ok := stream.EncodeVarint(ToUnsigned64(v.n));
  }

  method EncUvarint(stream: OStream, f: Field, v: Value) returns (ok: bool)
    requires stream.Valid() && f.ltype.Uvarint? && StorableValue(f, v)
    modifies stream, stream.buf
    ensures stream.Valid() && Emitted(old(stream.Now()), stream.Now(), ok, EncodeScalar(f, v))
  {
    if f.dataSize !in {1, 2, 4, 8} { return false; }
    ok := stream.EncodeVarint(v.n);
  }

  method EncSvarint(stream: OStream, f: Field, v: Value) returns (ok: bool)
    requires stream.Valid() && f.ltype.Svarint? && StorableValue(f, v)
    modifies stream, stream.buf
    ensures stream.Valid() && Emitted(old(stream.Now()), stream.Now(), ok, EncodeScalar(f, v))
  {
    if f.dataSize !in {1, 2, 4, 8} { return false; }
    ok := stream.EncodeSvarint(v.n);
  }

  method EncBytes(stream: OStream, f: Field, v: Value) returns (ok: bool)
    requires stream.Valid() && f.ltype.Bytes? && StorableValue(f, v)
    modifies stream, stream.buf
    ensures stream.Valid() && Emitted(old(stream.Now()), stream.Now(), ok, EncodeScalar(f, v))
  {
    var allocSize := |v.bytes| + BYTES_HEADER;
    if allocSize > f.dataSize { return false; }
    ok := stream.EncodeString(v.bytes);
  }

  method EncString(stream: OStream, f: Field, v: Value) returns (ok: bool)
    requires stream.Valid() && f.ltype.String? && StorableValue(f, v)
    modifies stream, stream.buf
    ensures stream.Valid() && Emitted(old(stream.Now()), stream.Now(), ok, EncodeScalar(f, v))
  {
    var size := MeasureString(v.bytes, f.dataSize);
    ok := stream.EncodeString(v.bytes[..size]);
  }

  /** The encoder of a value is chosen by the type of its field. */
  method EncScalar(stream: OStream, f: Field, v: Value) returns (ok: bool)
    requires stream.Valid() && !f.ltype.Submessage? && StorableValue(f, v)
    modifies stream, stream.buf
    ensures stream.Valid() && Emitted(old(stream.Now()), stream.Now(), ok, EncodeScalar(f, v))
  {
    match f.ltype
    case Bool => ok := stream.EncodeVarint(if v.n != 0 then 1 else 0);
    case Varint => ok := EncVarint(stream, f, v);
    case Uvarint => ok := EncUvarint(stream, f, v);
    case Svarint => ok := EncSvarint(stream, f, v);
    case Fixed32 => ok := stream.EncodeFixed32(v.n);
    case Fixed64 => ok := stream.EncodeFixed64(v.n);
    case Bytes => ok := EncBytes(stream, f, v);
    case String => ok := EncString(stream, f, v);
    case FixedLengthBytes => ok := stream.EncodeString(v.bytes);
  }

  /** The size is found out by encoding without writing, then the same is written into a
      part of the stream of exactly that size. */
  method EncodeSubmessage(stream: OStream, fields: seq<Field>, m: Msg) returns (ok: bool)
    requires stream.Valid() && WellFormed(fields) && Storable(fields, m)
    modifies stream, stream.buf
    ensures stream.Valid() && Emitted(old(stream.Now()), stream.Now(), ok, Delimiting(fields, m))
    decreases fields, 6
  {
    ghost var start := stream.Now();
    var substream := new OStream.Sizing();
    ok := Encode(substream, fields, m);
    if !ok { return; }
    var size := substream.bytesWritten;
    if size >= TWO64 { return false; } // longer than any object in memory
    ghost var e := EncodeMessage(fields, m).value;
    ok := stream.EncodeVarint(size);
    ghost var middle := stream.Now();
    if !ok {
      FailsEarly(start, middle, Some(VarintBytes(size)), Some(e));
      return;
    }
    if stream.buf == null {
      ok := stream.Write(None, size);
      Composes(start, middle, stream.Now(), VarintBytes(size), ok, Some(e));
      return;
    }
    ok := WriteSubmessage(stream, fields, m, size);
    Composes(start, middle, stream.Now(), VarintBytes(size), ok, Some(e));
  }

  /** The second pass, into a stream that ends where the message has to. "submsg size changed"
      is never reported. */
  method WriteSubmessage(stream: OStream, fields: seq<Field>, m: Msg, size: nat) returns (ok: bool)
    requires stream.Valid() && stream.buf != null && WellFormed(fields) && Storable(fields, m)
    requires EncodeMessage(fields, m).Some? && size == |EncodeMessage(fields, m).value|
    modifies stream, stream.buf
    ensures stream.Valid() && Emitted(old(stream.Now()), stream.Now(), ok, EncodeMessage(fields, m))
    decreases fields, 5
  {
    if stream.bytesWritten + size > stream.maxSize { return false; }
    ghost var e, before := EncodeMessage(fields, m).value, stream.Now();
    var substream := new OStream(stream.buf, stream.state, size);
    ghost var inner := substream.Now();
    var status := Encode(substream, fields, m);
    Nested(before, inner, substream.Now(), status, e);
    stream.bytesWritten := stream.bytesWritten + substream.bytesWritten;
    stream.state := substream.state;
    return status && substream.bytesWritten == size;
  }

  ghost function Delimiting(fields: seq<Field>, m: Msg): Option<seq<byte>> {
    match EncodeMessage(fields, m)
    case None => None
    case Some(b) => Prefixed(b)
  }

  /** The second pass fills its part of the buffer exactly. */
  lemma {:induction false} Nested(a: Output, inner: Output, inner': Output, ok: bool, e: seq<byte>)
    requires a.Valid() && !a.sizing && a.written + |e| <= a.maxSize
    requires inner == Output(false, a.state, |e|, 0, a.mem) && Emitted(inner, inner', ok, Some(e))
    ensures ok && inner'.written == |e|
    ensures Emitted(a, a.(state := inner'.state, written := a.written + inner'.written, mem := inner'.mem), true,
                    Some(e))
  {
    TailOfEqual(a.mem, inner'.mem, inner'.state, a.Limit());
  }

  method EncValue(stream: OStream, f: Field, v: Value) returns (ok: bool)
    requires stream.Valid() && WellFormedInside(f) && StorableValue(f, v)
    modifies stream, stream.buf
    ensures stream.Valid() && Emitted(old(stream.Now()), stream.Now(), ok, EncodeValue(f, v))
    decreases f, 0
  {
    if f.ltype.Submessage? {
      ok := EncodeSubmessage(stream, f.ltype.fields, v.msg);
    } else {
      ok := EncScalar(stream, f, v);
    }
  }

  /** The key of a field, then a value. */
  method EncodeKeyed(stream: OStream, f: Field, v: Value) returns (ok: bool)
    requires stream.Valid() && WellFormedInside(f) && StorableValue(f, v)
    modifies stream, stream.buf
    ensures stream.Valid() && Emitted(old(stream.Now()), stream.Now(), ok, Keyed(f, v))
    decreases f, 1
  {
    ghost var start := stream.Now();
    ok := stream.EncodeTagForField(f);
    ghost var middle := stream.Now();
    if !ok {
      FailsEarly(start, middle, Some(FieldKey(f)), EncodeValue(f, v));
      return;
    }
    ok := EncValue(stream, f, v);
    Composes(start, middle, stream.Now(), FieldKey(f), ok, EncodeValue(f, v));
  }

  // ---------------------------------------------------------- one after another

  /** Of the whole, `done` has been emitted since the start and the others are still to
      come. */
  ghost predicate Underway(start: Output, now: Output, whole: Option<seq<byte>>, done: seq<byte>,
                           others: Option<seq<byte>>) {
    start.Valid() && Emitted(start, now, true, Some(done)) && whole == Joined(Some(done), others)
  }

  lemma {:induction false} Begin(start: Output, whole: Option<seq<byte>>)
    requires start.Valid()
    ensures Underway(start, start, whole, [], whole)
  {
    if whole.Some? { assert [] + whole.value == whole.value; }
  }

  /** The next bytes have been emitted between before and after, or not. */
  lemma {:induction false} Progress(start: Output, before: Output, after: Output, whole: Option<seq<byte>>,
                                    done: seq<byte>, ok: bool, next: Option<seq<byte>>, others: Option<seq<byte>>)
    requires Underway(start, before, whole, done, Joined(next, others)) && Emitted(before, after, ok, next)
    ensures ok ==> next.Some? && Underway(start, after, whole, done + next.value, others)
    ensures !ok ==> Emitted(start, after, false, whole)
  {
    Composes(start, before, after, done, ok, next);
    if next.Some? && others.Some? { assert done + (next.value + others.value) == done + next.value + others.value; }
    if !ok { FailsEarly(start, after, Joined(Some(done), next), others); }
  }

  lemma {:induction false} End(start: Output, now: Output, whole: Option<seq<byte>>, done: seq<byte>)
    requires Underway(start, now, whole, done, Some([]))
    ensures Emitted(start, now, true, whole)
  {
    assert done + [] == done;
  }

  // -------------------------------------------------------------------- arrays

  /** The elements of a packed array, one behind the other. */
  method EncodeElements(stream: OStream, f: Field, items: seq<Value>) returns (ok: bool)
    requires stream.Valid() && Packable(f.ltype) && StorableSlot(f, Array(items))
    modifies stream, stream.buf
    ensures stream.Valid() && Emitted(old(stream.Now()), stream.Now(), ok, EncodePacked(f, items))
  {
    ghost var start, done, whole := stream.Now(), [], EncodePacked(f, items);
    Begin(start, whole);
    assert items[0..] == items;
    for i := 0 to |items|
      invariant stream.Valid() && Underway(start, stream.Now(), whole, done, EncodePacked(f, items[i..]))
    {
      ghost var before, next := stream.Now(), EncodeScalar(f, items[i]);
      assert items[i..][1..] == items[i + 1..];
      ok := EncScalar(stream, f, items[i]);
      Progress(start, before, stream.Now(), whole, done, ok, next, EncodePacked(f, items[i + 1..]));
      if !ok { return; }
      done := done + next.value;
    }
    End(start, stream.Now(), whole, done);
    return true;
  }

  lemma {:induction false} FixedSize(f: Field, items: seq<Value>)
    requires (f.ltype.Fixed32? || f.ltype.Fixed64?) && StorableSlot(f, Array(items))
    ensures var e := EncodePacked(f, items);
            e.Some? && |e.value| == (if f.ltype.Fixed32? then 4 else 8) * |items|
    decreases |items|
  {
    if items != [] {
      assert StorableValue(f, items[0]);
      FixedSize(f, items[1..]);
    }
  }

  /** Total size of a packed array. */
  method PackedSize(f: Field, items: seq<Value>) returns (ok: bool, size: nat)
    requires Packable(f.ltype) && StorableSlot(f, Array(items))
    ensures var e := EncodePacked(f, items); ok == e.Some? && (ok ==> size == |e.value|)
  {
    if f.ltype.Fixed32? {
      FixedSize(f, items);
      return true, 4 * |items|;
    } else if f.ltype.Fixed64? {
      FixedSize(f, items);
      return true, 8 * |items|;
    }
    var sizestream := new OStream.Sizing();
    ok := EncodeElements(sizestream, f, items);
    size := sizestream.bytesWritten;
  }

  /** The size of a packed array and its elements. */
  method EncodePayload(stream: OStream, f: Field, items: seq<Value>) returns (ok: bool)
    requires stream.Valid() && Packable(f.ltype) && StorableSlot(f, Array(items))
    modifies stream, stream.buf
    ensures stream.Valid() && Emitted(old(stream.Now()), stream.Now(), ok, Payload(f, items))
  {
    ghost var start, e := stream.Now(), EncodePacked(f, items);
    var size;
    ok, size := PackedSize(f, items);
    if !ok { return; }
    if size >= TWO64 { return false; } // longer than any object in memory
    ok := stream.EncodeVarint(size);
    ghost var middle := stream.Now();
    if !ok {
      FailsEarly(start, middle, Some(VarintBytes(size)), e);
      return;
    }
    if stream.buf == null {
      ok := stream.Write(None, size);
    } else {
      ok := EncodeElements(stream, f, items);
    }
    Composes(start, middle, stream.Now(), VarintBytes(size), ok, e);
  }

  ghost function Payload(f: Field, items: seq<Value>): Option<seq<byte>> {
    match EncodePacked(f, items)
    case None => None
    case Some(payload) => Prefixed(payload)
  }

  /** Elements that cannot be packed come each with a key. */
  method EncodeKeyedElements(stream: OStream, f: Field, items: seq<Value>) returns (ok: bool)
    requires stream.Valid() && WellFormedInside(f) && StorableSlot(f, Array(items))
    modifies stream, stream.buf
    ensures stream.Valid() && Emitted(old(stream.Now()), stream.Now(), ok, EncodeEach(f, items))
    decreases f, 2
  {
    ghost var start, done, whole := stream.Now(), [], EncodeEach(f, items);
    Begin(start, whole);
    assert items[0..] == items;
    for i := 0 to |items|
      invariant stream.Valid() && Underway(start, stream.Now(), whole, done, EncodeEach(f, items[i..]))
    {
      ghost var before, next := stream.Now(), Keyed(f, items[i]);
      assert items[i..][1..] == items[i + 1..];
      ok := EncodeKeyed(stream, f, items[i]);
      Progress(start, before, stream.Now(), whole, done, ok, next, EncodeEach(f, items[i + 1..]));
      if !ok { return; }
      done := done + next.value;
    }
    End(start, stream.Now(), whole, done);
    return true;
  }

  method EncodeArrayField(stream: OStream, f: Field, items: seq<Value>) returns (ok: bool)
    requires stream.Valid() && WellFormedInside(f) && StorableSlot(f, Array(items))
    modifies stream, stream.buf
    ensures stream.Valid() && Emitted(old(stream.Now()), stream.Now(), ok, EncodeArray(f, items))
    decreases f, 3
  {
    if |items| == 0 {
      EmitsNothing(stream.Now());
      return true;
    }
    if |items| > f.arraySize { return false; }
    if Packable(f.ltype) {
      ghost var start, key := stream.Now(), TagBytes(WT_STRING, f.tag);
      ok := stream.EncodeTag(WT_STRING, f.tag);
      ghost var middle := stream.Now();
      if !ok {
        FailsEarly(start, middle, Some(key), Payload(f, items));
        return;
      }
      ok := EncodePayload(stream, f, items);
      Composes(start, middle, stream.Now(), key, ok, Payload(f, items));
    } else {
      ok := EncodeKeyedElements(stream, f, items);
    }
  }

  // -------------------------------------------------------------------- fields

  /** One field of a struct whose slot k holds it. */
  method EncodeBasicField(stream: OStream, fields: seq<Field>, i: nat, slot: Slot) returns (ok: bool)
    requires stream.Valid() && i < |fields| && WellFormed(fields)
    requires ShapedSlot(fields, SlotOf(fields, i), slot) && StorableSlot(fields[i], slot)
    modifies stream, stream.buf
    ensures stream.Valid() && Emitted(old(stream.Now()), stream.Now(), ok, EncodeField(fields[i], slot))
    decreases fields[i], 4
  {
    var f := fields[i];
    SlotIsFirst(fields, i);
    assert WellFormedField(fields, i);
    EmitsNothing(stream.Now());
    match f.htype
    case Required => ok := EncodeKeyed(stream, f, slot.value);
    case Optional =>
      var has;
      if f.sizeOffset != 0 {
        has := slot.has;
      } else {
        var zero := CheckDefaultField(fields, i, slot);
        has := !zero;
      }
      ok := true;
      if has { ok := EncodeKeyed(stream, f, slot.value); }
    case Repeated => ok := EncodeArrayField(stream, f, slot.items);
    case Oneof =>
      ok := true;
      if slot.Union? && slot.which == f.tag { ok := EncodeKeyed(stream, f, slot.value); }
  }

  // ------------------------------------------------------------------ messages

  /** Emits field i where the fields before it have been emitted. */
  method EncodeNext(stream: OStream, fields: seq<Field>, i: nat, m: Msg, ghost start: Output,
                    ghost whole: Option<seq<byte>>, ghost done: seq<byte>)
    returns (ok: bool, ghost done': seq<byte>)
    requires stream.Valid() && i < |fields| && WellFormed(fields) && Storable(fields, m)
    requires Underway(start, stream.Now(), whole, done, EncodeFrom(fields, m, i))
    modifies stream, stream.buf
    ensures stream.Valid()
    ensures if ok then Underway(start, stream.Now(), whole, done', EncodeFrom(fields, m, i + 1))
            else Emitted(start, stream.Now(), false, whole)
    decreases fields, 3
  {
    var slot := m[SlotOf(fields, i)];
    assert ShapedSlot(fields, SlotOf(fields, i), slot) && StorableSlot(fields[i], slot);
    ghost var before, next := stream.Now(), EncodeField(fields[i], slot);
    ok := EncodeBasicField(stream, fields, i, slot);
    Progress(start, before, stream.Now(), whole, done, ok, next, EncodeFrom(fields, m, i + 1));
    done' := if ok then done + next.value else done;
  }

  method Encode(stream: OStream, fields: seq<Field>, m: Msg) returns (ok: bool)
    requires stream.Valid() && WellFormed(fields) && Storable(fields, m)
    modifies stream, stream.buf
    ensures stream.Valid() && Emitted(old(stream.Now()), stream.Now(), ok, EncodeMessage(fields, m))
    decreases fields, 4
  {
    ghost var start, done, whole := stream.Now(), [], EncodeMessage(fields, m);
    Begin(start, whole);
    var iter := new Iterator(fields, 0);
    if fields == [] { return true; }
    var more := true;
    while more
      invariant iter.Valid() && iter.fields == fields && fresh(iter)
      invariant stream.Valid()
             && Underway(start, stream.Now(), whole, done, EncodeFrom(fields, m, if more then iter.pos else |fields|))
      decreases if more then |fields| - iter.pos else 0
    {
      ok, done := EncodeNext(stream, fields, iter.pos, m, start, whole, done);
      if !ok { return; }
      more := iter.Next();
    }
    End(start, stream.Now(), whole, done);
    return true;
  }

  /** The length comes first. */
  method EncodeDelimited(stream: OStream, fields: seq<Field>, m: Msg) returns (ok: bool)
    requires stream.Valid() && WellFormed(fields) && Storable(fields, m)
    modifies stream, stream.buf
    ensures stream.Valid() && Emitted(old(stream.Now()), stream.Now(), ok, Delimiting(fields, m))
  {
    ok := EncodeSubmessage(stream, fields, m);
  }

  /** A zero byte comes last. */
  method EncodeNullTerminated(stream: OStream, fields: seq<Field>, m: Msg) returns (ok: bool)
    requires stream.Valid() && WellFormed(fields) && Storable(fields, m)
    modifies stream, stream.buf
    ensures stream.Valid() && Emitted(old(stream.Now()), stream.Now(), ok, Joined(EncodeMessage(fields, m), Some([0])))
  {
    ghost var start, e := stream.Now(), EncodeMessage(fields, m);
    ok := Encode(stream, fields, m);
    ghost var middle := stream.Now();
    if !ok {
      FailsEarly(start, middle, e, Some([0]));
      return;
    }
    ok := stream.Write(Some([0]), 1);
    Composes(start, middle, stream.Now(), e.value, ok, Some([0]));
  }

  /** Encoding with nowhere to write to measures what encoding would write. */
  method GetEncodedSize(fields: seq<Field>, m: Msg) returns (ok: bool, size: nat)
    requires WellFormed(fields) && Storable(fields, m)
    ensures var e := EncodeMessage(fields, m); ok == e.Some? && (ok ==> size == |e.value|)
  {
    var stream := new OStream.Sizing();
    ok := Encode(stream, fields, m);
    size := stream.bytesWritten;
  }
}
