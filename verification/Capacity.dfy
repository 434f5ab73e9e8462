/** No array in a decoded message, at any depth, has more elements than there is room for. */
module Capacity {
  import opened Bits
  import opened Wire
  import opened Wrappers
  import opened Descriptor
  import opened Decoding
  import opened ScalarDecoder

  predicate Fits(fields: seq<Field>, m: Msg)
    decreases fields, 1
  {
    |m| == |fields| &&
    forall i {:trigger FitsSlot(fields[i], m[SlotOf(fields, i)])} | 0 <= i < |fields| ::
      FitsSlot(fields[i], m[SlotOf(fields, i)])
  }

  predicate FitsSlot(f: Field, slot: Slot)
    decreases f, 1
  {
    match f.htype
    case Required | Optional => (slot.Single? || slot.Flagged?) && FitsValue(f, Held(slot))
    case Repeated => slot.Array? && |slot.items| <= f.arraySize
      && forall i | 0 <= i < |slot.items| :: FitsValue(f, slot.items[i])
    case Oneof => slot.Union? && slot.which == f.tag ==> FitsValue(f, slot.value)
  }

  predicate FitsValue(f: Field, v: Value)
    decreases f, 0
  {
    f.ltype.Submessage? && v.Sub? ==> Fits(f.ltype.fields, v.msg)
  }

  lemma {:induction false} DefaultFits(fields: seq<Field>)
    ensures Fits(fields, DefaultMsg(fields))
    decreases fields, 1
  {
    var m := DefaultMsg(fields);
    forall i | 0 <= i < |fields|
      ensures FitsSlot(fields[i], m[SlotOf(fields, i)])
    {
      var k := SlotOf(fields, i);
      assert m[k] == DefaultSlot(fields[k], Continues(fields, k));
      if !fields[i].htype.Oneof? { DefaultValueFits(fields[i]); }
    }
  }

  lemma {:induction false} DefaultValueFits(f: Field)
    ensures FitsValue(f, DefaultValue(f))
    decreases f, 0
  {
    if f.ltype.Submessage? { DefaultFits(f.ltype.fields); }
  }

  lemma {:induction false} PackedFits(f: Field, payload: seq<byte>, items: seq<Value>)
    requires Packable(f.ltype) && |items| <= f.arraySize && DecodePacked(f, payload, items).Some?
    ensures |DecodePacked(f, payload, items).value| <= f.arraySize
    decreases |payload|
  {
    if payload != [] {
      var p := DecodeScalar(f, payload);
      PackedFits(f, p.rest, items + [p.value]);
    }
  }

  lemma {:induction false} ValueFits(f: Field, s: seq<byte>, prior: Value)
    requires WellFormedInside(f)
    requires f.ltype.Submessage? ==> Fits(f.ltype.fields, MsgOf(prior, f.ltype.fields))
    ensures var p := DecodeValue(f, s, prior); p.Ok? ==> FitsValue(f, p.value)
    decreases |s|, 0
  {
    if f.ltype.Submessage? && Delimited(s).Ok? {
      MessageFits(f.ltype.fields, Delimited(s).value, MsgOf(prior, f.ltype.fields));
    }
  }

  lemma {:induction false} PriorFits(f: Field, prior: Value)
    requires f.ltype.Submessage? && FitsValue(f, prior)
    ensures Fits(f.ltype.fields, MsgOf(prior, f.ltype.fields))
  {
    DefaultFits(f.ltype.fields);
  }

  /** Writing one slot leaves the others as they are. */
  lemma {:induction false} SlotWritten(fields: seq<Field>, i: nat, m: Msg, slot: Slot)
    requires i < |fields| && WellFormed(fields) && Fits(fields, m) && FitsSlot(fields[i], slot)
    requires fields[i].htype.Oneof? ==> slot.Union? && slot.which == fields[i].tag
    ensures Fits(fields, m[SlotOf(fields, i) := slot])
  {
    var k := SlotOf(fields, i);
    var m' := m[k := slot];
    forall j | 0 <= j < |fields|
      ensures FitsSlot(fields[j], m'[SlotOf(fields, j)])
    {
      assert FitsSlot(fields[j], m[SlotOf(fields, j)]);
      if SlotOf(fields, j) == k && j != i {
        assert WellFormedField(fields, i) && WellFormedField(fields, j);
      }
    }
  }

  lemma {:induction false} FieldFits(fields: seq<Field>, i: nat, wireType: nat, s: seq<byte>, m: Msg)
    requires i < |fields| && WellFormed(fields) && Fits(fields, m) && DecodeField(fields, i, wireType, s, m).Ok?
    ensures Fits(fields, DecodeField(fields, i, wireType, s, m).value)
    decreases |s|, 1
  {
    var f, k := fields[i], SlotOf(fields, i);
    assert FitsSlot(f, m[k]) && WellFormedField(fields, i);
    if f.htype.Repeated? && wireType == WT_STRING && Packable(f.ltype) {
      var payload := Delimited(s).value;
      PackedFits(f, payload, Items(m[i]));
      SlotWritten(fields, i, m, Array(DecodePacked(f, payload, Items(m[i])).value));
    } else {
      var prior := Before(f, m[k]);
      DefaultValueFits(f);
      if f.ltype.Submessage? { PriorFits(f, prior); }
      ValueFits(f, s, prior);
      SlotWritten(fields, i, m, After(f, m[k], DecodeValue(f, s, prior).value));
    }
  }

  /** Whatever the bytes are, and even if some record is bad, the message that the records
      before it come to fits its struct. */
  lemma {:induction false} ReachedFits(fields: seq<Field>, s: seq<byte>, m: Msg)
    requires WellFormed(fields) && Fits(fields, m)
    ensures Fits(fields, Reached(fields, s, m))
    decreases |s|, 2
  {
    if s != [] && DecodeRecord(fields, s, m).Next? {
      var key, rest := DecodeVarint32(s).value, DecodeVarint32(s).rest;
      var i := IndexOf(fields, key / 8);
      if i < |fields| { FieldFits(fields, i, key % 8, rest, m); }
      var r := DecodeRecord(fields, s, m);
      ReachedFits(fields, r.rest, r.msg);
    }
  }

  lemma {:induction false} MessageFits(fields: seq<Field>, s: seq<byte>, m: Msg)
    requires WellFormed(fields) && Fits(fields, m)
    ensures var p := DecodeMessage(fields, s, m); p.Ok? ==> Fits(fields, p.value)
    decreases |s|, 3
  {
    ReachedFits(fields, s, m);
    ParseReaches(fields, s, m, {});
  }

  /** Whatever the bytes are, and whether they decode or not, what is decoded of them fits
      its struct. */
  lemma {:induction false} DecodedFits(fields: seq<Field>, s: seq<byte>)
    requires WellFormed(fields)
    ensures Fits(fields, Reached(fields, s, DefaultMsg(fields)))
    ensures Decode(fields, s).Ok? ==> Fits(fields, Decode(fields, s).value)
  {
    DefaultFits(fields);
    ReachedFits(fields, s, DefaultMsg(fields));
    MessageFits(fields, s, DefaultMsg(fields));
  }

  // ------------------------------------------------------------- one slot at a time

  /** Only slot k may differ. */
  predicate OnlySlot(before: Msg, after: Msg, k: nat) {
    |after| == |before| && forall i | 0 <= i < |before| && i != k :: after[i] == before[i]
  }

  ghost predicate AtMostOneSlot(before: Msg, after: Msg) { exists k: nat :: OnlySlot(before, after, k) }

  /** Elements have been appended as long as there was room for them. */
  predicate Grown(before: seq<Value>, after: seq<Value>, capacity: nat) {
    before <= after && (after == before || |after| <= capacity)
  }

  lemma {:induction false} OneSlotFits(fields: seq<Field>, i: nat, before: Msg, after: Msg)
    requires i < |fields| && WellFormed(fields) && Fits(fields, before) && OnlySlot(before, after, SlotOf(fields, i))
    requires FitsSlot(fields[i], after[SlotOf(fields, i)])
    requires fields[i].htype.Oneof? ==>
               after[SlotOf(fields, i)].Union? && after[SlotOf(fields, i)].which == fields[i].tag
    ensures Fits(fields, after)
  {
    var k := SlotOf(fields, i);
    assert after == before[k := after[k]];
    SlotWritten(fields, i, before, after[k]);
  }

  // ------------------------------------------------------------- inside one field

  lemma {:induction false} ByteSizes()
    ensures Pow2(7) == 0x80 && Pow2(8) == 0x100 && Pow2(15) == 0x8000 && Pow2(16) == 0x1_0000
  {
    Pow2Adds(7, 1);
    Pow2Adds(8, 7);
    Pow2Adds(8, 8);
    Words();
  }

  /** The numbers of so many bytes, in two's complement and unsigned. */
  lemma {:induction false} RangesAre(n: int, size: nat)
    ensures InSigned(n, size) <==> size in {1, 2, 4, 8} && 0 - Pow2(8 * size - 1) <= n < Pow2(8 * size - 1)
    ensures InUnsigned(n, size) <==> size in {1, 2, 4, 8} && 0 <= n < Pow2(8 * size)
  {
    ByteSizes();
    Words();
  }

  /** A value that has been decoded has room in its field: a number in as many bytes as the
      field has. */
  lemma {:induction false} NumberStaysInside(f: Field, s: seq<byte>)
    requires Packable(f.ltype) && DecodeScalar(f, s).Ok?
    ensures DecodeScalar(f, s).value.Num?
    ensures var n := DecodeScalar(f, s).value.n;
            && (f.ltype.Bool? ==> n == 0 || n == 1)
            && (f.ltype.Uvarint? ==> f.dataSize in {1, 2, 4, 8} && 0 <= n < Pow2(8 * f.dataSize))
            && (f.ltype.Varint? || f.ltype.Svarint? ==>
                  f.dataSize in {1, 2, 4, 8} && 0 - Pow2(8 * f.dataSize - 1) <= n < Pow2(8 * f.dataSize - 1))
            && (f.ltype.Fixed32? ==> 0 <= n < Pow2(32))
            && (f.ltype.Fixed64? ==> 0 <= n < Pow2(64))
  {
    RangesAre(DecodeScalar(f, s).value.n, f.dataSize);
    match f.ltype
    case Fixed32 => LittleEndianBound(s[..4]);
    case Fixed64 => LittleEndianBound(s[..8]);
    case _ =>
  }

  /** And a string with its terminator, bytes with their size in front of them. */
  lemma {:induction false} BlobStaysInside(f: Field, s: seq<byte>)
    requires !Packable(f.ltype) && !f.ltype.Submessage? && DecodeScalar(f, s).Ok?
    ensures DecodeScalar(f, s).value.Blob?
    ensures var n := |DecodeScalar(f, s).value.bytes|;
            match f.ltype
            case String => n + 1 <= f.dataSize
            case Bytes => 4 + n <= f.dataSize
            case _ => n == f.dataSize
  {}
}
