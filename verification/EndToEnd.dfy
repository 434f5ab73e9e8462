/** From a struct through a buffer and back. */
module EndToEnd {
  import opened Wire
  import opened Wrappers
  import opened Descriptor
  import opened Encoding
  import opened Decoding
  import opened Merging
  import opened DecodeOfEncode
  import opened RoundTrip
  import opened OutputStream
  import opened MessageEncoder

  // ------------------------------------------------------------- what is left out

  lemma {:induction false} KeyedEmits(f: Field, v: Value)
    ensures Keyed(f, v) != Some([])
  {}

  lemma {:induction false} ArrayEmits(f: Field, items: seq<Value>)
    ensures EncodeArray(f, items) == Some([]) <==> items == []
  {
    if items != [] { KeyedEmits(f, items[0]); }
  }

  /** A field that is absent emits nothing; one that emits nothing is absent, unless it is
      a member of a union that holds another one. */
  lemma {:induction false} AbsentEmitsNothing(fields: seq<Field>, i: nat, slot: Slot)
    requires i < |fields| && WellFormed(fields) && ShapedSlot(fields, SlotOf(fields, i), slot)
    ensures var f := fields[i];
            && (IsAbsent(f, slot) ==> EncodeField(f, slot) == Some([]))
            && (EncodeField(f, slot) == Some([]) ==> IsAbsent(f, slot) || (slot.Union? && slot.which != f.tag))
  {
    var f := fields[i];
    SlotIsFirst(fields, i);
    match slot
    case Single(v) => KeyedEmits(f, v);
    case Flagged(_, v) => KeyedEmits(f, v);
    case Union(_, v) => KeyedEmits(f, v);
    case Array(items) => ArrayEmits(f, items);
    case _ =>
  }

  predicate AllAbsent(fields: seq<Field>, m: Msg, i: nat)
    requires |m| == |fields|
  {
    forall j {:trigger IsAbsent(fields[j], m[SlotOf(fields, j)])} | i <= j < |fields| ::
      IsAbsent(fields[j], m[SlotOf(fields, j)])
  }

  lemma {:induction false} AbsentFrom(fields: seq<Field>, m: Msg, i: nat)
    requires i <= |fields| && WellFormed(fields) && Shaped(fields, m) && AllAbsent(fields, m, i)
    ensures EncodeFrom(fields, m, i) == Some([])
    decreases |fields| - i
  {
    if i < |fields| {
      var slot := m[SlotOf(fields, i)];
      assert ShapedSlot(fields, SlotOf(fields, i), slot);
      assert IsAbsent(fields[i], slot);
      AbsentEmitsNothing(fields, i, slot);
      AbsentFrom(fields, m, i + 1);
      var nothing: seq<byte> := [];
      assert nothing + nothing == nothing;
    }
  }

  lemma {:induction false} NothingFrom(fields: seq<Field>, m: Msg, i: nat, j: nat)
    requires i <= j < |fields| == |m| && EncodeFrom(fields, m, i) == Some([])
    ensures EncodeField(fields[j], m[SlotOf(fields, j)]) == Some([])
    decreases j - i
  {
    if i < j { NothingFrom(fields, m, i + 1, j); }
  }

  /** No union of the message holds anything, be it only a tag that is that of no member. */
  predicate NoUnionHolds(fields: seq<Field>, m: Msg) {
    |m| == |fields| && forall k | 0 <= k < |fields| :: !m[k].Union?
  }

  /** A submessage without a has_ flag counts as zero exactly when encoding it would emit
      nothing and none of its unions has a tag. */
  lemma {:induction false} ZeroMeansEmpty(f: Field, m: Msg)
    requires f.ltype.Submessage? && WellFormed(f.ltype.fields) && Shaped(f.ltype.fields, m)
    ensures var fields := f.ltype.fields;
            IsZero(f, Sub(m)) <==> EncodeMessage(fields, m) == Some([]) && NoUnionHolds(fields, m)
  {
    var fields := f.ltype.fields;
    if IsZero(f, Sub(m)) {
      assert AllAbsent(fields, m, 0);
      AbsentFrom(fields, m, 0);
      forall k | 0 <= k < |fields|
        ensures !m[k].Union?
      {
        assert ShapedSlot(fields, k, m[k]);
        assert IsAbsent(fields[k], m[SlotOf(fields, k)]);
      }
    }
    if EncodeMessage(fields, m) == Some([]) && NoUnionHolds(fields, m) {
      forall j | 0 <= j < |fields|
        ensures IsAbsent(fields[j], m[SlotOf(fields, j)])
      {
        var k := SlotOf(fields, j);
        assert ShapedSlot(fields, k, m[k]);
        NothingFrom(fields, m, 0, j);
        AbsentEmitsNothing(fields, j, m[k]);
      }
    }
  }

  lemma {:induction false} EmptyPayload(f: Field, m: Msg)
    requires f.ltype.Submessage? && EncodeMessage(f.ltype.fields, m) == Some([])
    ensures Keyed(f, Sub(m)) == Some(FieldKey(f) + [0])
  {
    assert VarintBytes(0) + [] == [0];
    assert Prefixed([]) == Some([0]);
    assert EncodeValue(f, Sub(m)) == Some([0]);
  }

  /** So a submessage that would emit nothing but has a union whose tag is that of no member
      is not left out: its field is emitted with an empty payload. */
  lemma {:induction false} EmptyButNotZero(f: Field, m: Msg)
    requires f.ltype.Submessage? && f.htype.Optional? && f.sizeOffset == 0
    requires WellFormed(f.ltype.fields) && Shaped(f.ltype.fields, m) && EncodeMessage(f.ltype.fields, m) == Some([])
    ensures EncodeField(f, Single(Sub(m))) == Some(if NoUnionHolds(f.ltype.fields, m) then [] else FieldKey(f) + [0])
  {
    ZeroMeansEmpty(f, m);
    EmptyPayload(f, m);
  }

  // --------------------------------------------------------------------- lengths

  lemma {:induction false} FieldWithin(fields: seq<Field>, m: Msg, i: nat, j: nat)
    requires i <= j < |fields| == |m| && EncodeFrom(fields, m, i).Some?
    ensures var e := EncodeField(fields[j], m[SlotOf(fields, j)]);
            e.Some? && |e.value| <= |EncodeFrom(fields, m, i).value|
    decreases j - i
  {
    if i < j { FieldWithin(fields, m, i + 1, j); }
  }

  lemma {:induction false} ElementWithin(f: Field, items: seq<Value>, i: nat)
    requires i < |items| && EncodeEach(f, items).Some?
    ensures EncodeValue(f, items[i]).Some? && |EncodeValue(f, items[i]).value| <= |EncodeEach(f, items).value|
    decreases |items|
  {
    if i > 0 { ElementWithin(f, items[1..], i - 1); }
  }

  /** A value whose encoding is short has only short payloads inside. */
  lemma {:induction false} ValueIsSized(f: Field, v: Value)
    requires WellFormedInside(f) && ShapedValue(f, v) && EncodeValue(f, v).Some? && |EncodeValue(f, v).value| < TWO32
    ensures SizedValue(f, v)
    decreases f, 0
  {
    if f.ltype.Submessage? && v.Sub? { MessageIsSized(f.ltype.fields, v.msg); }
  }

  lemma {:induction false} ZeroIsSized(f: Field, v: Value)
    requires WellFormedInside(f) && ShapedValue(f, v) && IsZero(f, v)
    ensures SizedValue(f, v)
    decreases f, 0
  {
    if f.ltype.Submessage? && v.Sub? {
      ZeroMeansEmpty(f, v.msg);
      MessageIsSized(f.ltype.fields, v.msg);
    }
  }

  lemma {:induction false} ArrayIsSized(f: Field, items: seq<Value>)
    requires WellFormedInside(f) && ShapedInside(f, Array(items)) && EncodeArray(f, items).Some?
    requires |EncodeArray(f, items).value| < TWO32
    ensures SizedSlot(f, Array(items))
    decreases f, 1
  {
    if items != [] && !Packable(f.ltype) {
      forall i | 0 <= i < |items|
        ensures SizedValue(f, items[i])
      {
        ElementWithin(f, items, i);
        ValueIsSized(f, items[i]);
      }
    }
  }

  lemma {:induction false} SlotIsSized(fields: seq<Field>, i: nat, slot: Slot)
    requires i < |fields| && WellFormed(fields) && ShapedSlot(fields, SlotOf(fields, i), slot)
          && ShapedInside(fields[i], slot)
    requires EncodeField(fields[i], slot).Some? && |EncodeField(fields[i], slot).value| < TWO32
    ensures SizedSlot(fields[i], slot)
    decreases fields[i], 2
  {
    var f := fields[i];
    SlotIsFirst(fields, i);
    assert WellFormedField(fields, i);
    match slot
    case Single(v) => if f.htype.Optional? && IsZero(f, v) { ZeroIsSized(f, v); } else { ValueIsSized(f, v); }
    case Flagged(has, v) => if has { ValueIsSized(f, v); }
    case Union(which, v) => if which == f.tag { ValueIsSized(f, v); }
    case Array(items) => ArrayIsSized(f, items);
    case _ =>
  }

  /** When a whole encoding is shorter than 2^32 bytes, so is every payload in it. */
  lemma {:induction false} MessageIsSized(fields: seq<Field>, m: Msg)
    requires WellFormed(fields) && ShapedDeep(fields, m) && EncodeMessage(fields, m).Some?
    requires |EncodeMessage(fields, m).value| < TWO32
    ensures Sized(fields, m)
    decreases fields, 3
  {
    forall i | 0 <= i < |fields|
      ensures SizedSlot(fields[i], m[SlotOf(fields, i)])
    {
      var slot := m[SlotOf(fields, i)];
      assert ShapedSlot(fields, SlotOf(fields, i), slot) && ShapedInside(fields[i], slot);
      FieldWithin(fields, m, 0, i);
      SlotIsSized(fields, i, slot);
    }
  }

  // ------------------------------------------------------------------ the round trip

  lemma {:induction false} StorableValueIsShaped(f: Field, v: Value)
    requires StorableValue(f, v)
    ensures ShapedValue(f, v)
    decreases f, 0
  {
    if f.ltype.Submessage? { StorableIsShaped(f.ltype.fields, v.msg); }
  }

  lemma {:induction false} StorableSlotIsShaped(f: Field, slot: Slot)
    requires StorableSlot(f, slot)
    ensures ShapedInside(f, slot)
    decreases f, 1
  {
    match slot
    case Single(v) => StorableValueIsShaped(f, v);
    case Flagged(_, v) => StorableValueIsShaped(f, v);
    case Union(which, v) => if which == f.tag { StorableValueIsShaped(f, v); }
    case Array(items) =>
      forall i | 0 <= i < |items|
        ensures ShapedValue(f, items[i])
      {
        StorableValueIsShaped(f, items[i]);
      }
    case _ =>
  }

  lemma {:induction false} StorableIsShaped(fields: seq<Field>, m: Msg)
    requires Storable(fields, m)
    ensures ShapedDeep(fields, m)
    decreases fields, 1
  {
    forall i | 0 <= i < |fields|
      ensures ShapedInside(fields[i], m[SlotOf(fields, i)])
    {
      assert StorableSlot(fields[i], m[SlotOf(fields, i)]);
      StorableSlotIsShaped(fields[i], m[SlotOf(fields, i)]);
    }
  }

  /** Whatever a struct holds: once it has been encoded into a buffer of less than 2^32
      bytes, decoding the bytes written succeeds exactly when its strings are terminated,
      and then uses up all of them and restores the struct. */
  lemma {:induction false} BufferRoundTrip(fields: seq<Field>, m: Msg, a: Output, b: Output)
    requires WellFormed(fields) && Storable(fields, m)
    requires a.Valid() && !a.sizing && a.maxSize < TWO32 && OutputStream.Emitted(a, b, true, EncodeMessage(fields, m))
    ensures b.state <= |b.mem|
    ensures var p := Decode(fields, b.mem[a.state..b.state]);
            && (p.Ok? <==> Terminated(fields, m))
            && (p.Ok? ==> p.rest == [] && Restores(fields, m, p.value))
  {
    StorableIsShaped(fields, m);
    MessageIsSized(fields, m);
    DecodeRestores(fields, m);
  }

  /** And one encoded with its length in front is read back from among other bytes. */
  lemma {:induction false} DelimitedRoundTrip(fields: seq<Field>, m: Msg, t: seq<byte>)
    requires WellFormed(fields) && Storable(fields, m)
    requires EncodeMessage(fields, m).Some? && |EncodeMessage(fields, m).value| < TWO32
    ensures var d := Wire.Delimited(Delimiting(fields, m).value + t);
            && d.Ok? && d.rest == t
            && (Decode(fields, d.value).Ok? <==> Terminated(fields, m))
            && (Decode(fields, d.value).Ok? ==> Restores(fields, m, Decode(fields, d.value).value))
  {
    StorableIsShaped(fields, m);
    MessageIsSized(fields, m);
    DecodeRestores(fields, m);
    DelimitedReads(EncodeMessage(fields, m).value, t);
  }
}
