/** What has been decoded can be encoded and decoded again. */
module Redecoding {
  import opened Wire
  import opened Wrappers
  import opened Descriptor
  import opened Encoding
  import opened Decoding
  import opened Merging
  import opened RoundTrip
  import opened ScalarDecoder
  import opened MessageEncoder
  import opened EndToEnd

  /** The struct is laid out as its descriptor says and holds values of the right types, with
      all strings terminated and all unions holding one of their members or nothing. */
  predicate Regular(fields: seq<Field>, m: Msg)
    decreases fields, 1
  {
    Known(fields, m) &&
    forall i {:trigger RegularSlot(fields[i], m[SlotOf(fields, i)])} | 0 <= i < |fields| ::
      RegularSlot(fields[i], m[SlotOf(fields, i)])
  }

  predicate Known(fields: seq<Field>, m: Msg) {
    |m| == |fields| && forall k {:trigger KnownSlot(fields, k, m[k])} | 0 <= k < |fields| :: KnownSlot(fields, k, m[k])
  }

  predicate KnownSlot(fields: seq<Field>, k: nat, slot: Slot)
    requires k < |fields|
  {
    ShapedSlot(fields, k, slot) && (slot.Union? ==> Member(fields, k, slot.which))
  }

  predicate RegularSlot(f: Field, slot: Slot)
    decreases f, 1
  {
    match slot
    case Single(v) => RegularValue(f, v)
    case Flagged(_, v) => RegularValue(f, v)
    case Array(items) => forall i | 0 <= i < |items| :: RegularValue(f, items[i])
    case Union(which, v) => which == f.tag ==> RegularValue(f, v)
    case _ => true
  }

  predicate RegularValue(f: Field, v: Value)
    decreases f, 0
  {
    if f.ltype.Submessage? then v.Sub? && Regular(f.ltype.fields, v.msg)
    else StorableValue(f, v) && TerminatedValue(f, v)
  }

  /** The defaults in a descriptor are of the types of their fields, and there is room for
      the terminator of every string. */
  predicate RegularDefaults(fields: seq<Field>)
    decreases fields, 1
  {
    forall i {:trigger RegularDefault(fields[i])} | 0 <= i < |fields| :: RegularDefault(fields[i])
  }

  predicate RegularDefault(f: Field)
    decreases f, 0
  {
    if f.ltype.Submessage? then RegularDefaults(f.ltype.fields) else RegularValue(f, DefaultValue(f))
  }

  // --------------------------------------------------------------------- decoding

  lemma {:induction false} DefaultValueIsRegular(f: Field)
    requires RegularDefault(f)
    ensures RegularValue(f, DefaultValue(f))
    decreases f, 0
  {
    if f.ltype.Submessage? { DefaultIsRegular(f.ltype.fields); }
  }

  lemma {:induction false} DefaultIsRegular(fields: seq<Field>)
    requires RegularDefaults(fields)
    ensures Regular(fields, DefaultMsg(fields))
    decreases fields, 1
  {
    var m := DefaultMsg(fields);
    forall k | 0 <= k < |fields|
      ensures KnownSlot(fields, k, m[k])
    {
      assert m[k] == DefaultSlot(fields[k], Continues(fields, k));
    }
    forall i | 0 <= i < |fields|
      ensures RegularSlot(fields[i], m[SlotOf(fields, i)])
    {
      var k := SlotOf(fields, i);
      assert m[k] == DefaultSlot(fields[k], Continues(fields, k));
      assert RegularDefault(fields[i]);
      if !fields[i].htype.Oneof? { DefaultValueIsRegular(fields[i]); }
    }
  }

  lemma {:induction false} FixedIsStorable(s: seq<byte>)
    requires DecodeFixed(s, 4).Ok?
    ensures 0 <= DecodeFixed(s, 4).value.n < TWO32
  {
    LittleEndianBound(s[..4]);
    Words();
  }

  lemma {:induction false} LongFixedIsStorable(s: seq<byte>)
    requires DecodeFixed(s, 8).Ok?
    ensures 0 <= DecodeFixed(s, 8).value.n < TWO64
  {
    LittleEndianBound(s[..8]);
    Words();
  }

  lemma {:induction false} ScalarIsRegular(f: Field, s: seq<byte>)
    requires DecodeScalar(f, s).Ok?
    ensures RegularValue(f, DecodeScalar(f, s).value)
  {
    match f.ltype
    case Fixed32 => FixedIsStorable(s);
    case Fixed64 => LongFixedIsStorable(s);
    case _ =>
  }

  lemma {:induction false} PackedIsRegular(f: Field, payload: seq<byte>, items: seq<Value>)
    requires Packable(f.ltype) && RegularSlot(f, Array(items)) && DecodePacked(f, payload, items).Some?
    ensures RegularSlot(f, Array(DecodePacked(f, payload, items).value))
    decreases |payload|
  {
    if payload != [] {
      var p := DecodeScalar(f, payload);
      ScalarIsRegular(f, payload);
      PackedIsRegular(f, p.rest, items + [p.value]);
    }
  }

  lemma {:induction false} ValueIsRegular(f: Field, s: seq<byte>, prior: Value)
    requires WellFormedInside(f) && RegularDefault(f) && (f.ltype.Submessage? ==> RegularValue(f, prior))
    ensures var p := DecodeValue(f, s, prior); p.Ok? ==> RegularValue(f, p.value)
    decreases |s|, 0
  {
    if !f.ltype.Submessage? {
      if DecodeScalar(f, s).Ok? { ScalarIsRegular(f, s); }
    } else if Delimited(s).Ok? {
      MessageIsRegular(f.ltype.fields, Delimited(s).value, MsgOf(prior, f.ltype.fields));
    }
  }

  lemma {:induction false} SlotStaysKnown(fields: seq<Field>, k: nat, m: Msg, slot: Slot)
    requires k < |fields| && Known(fields, m) && KnownSlot(fields, k, slot)
    ensures Known(fields, m[k := slot])
  {
    var m' := m[k := slot];
    forall j | 0 <= j < |fields|
      ensures KnownSlot(fields, j, m'[j])
    {
      assert KnownSlot(fields, j, m[j]);
    }
  }

  lemma {:induction false} SlotWritten(fields: seq<Field>, i: nat, m: Msg, slot: Slot)
    requires i < |fields| && WellFormed(fields) && Regular(fields, m)
    requires KnownSlot(fields, SlotOf(fields, i), slot) && RegularSlot(fields[i], slot)
    requires fields[i].htype.Oneof? ==> slot.Union? && slot.which == fields[i].tag
    ensures Regular(fields, m[SlotOf(fields, i) := slot])
  {
    var k := SlotOf(fields, i);
    var m' := m[k := slot];
    SlotStaysKnown(fields, k, m, slot);
    forall j | 0 <= j < |fields|
      ensures RegularSlot(fields[j], m'[SlotOf(fields, j)])
    {
      if SlotOf(fields, j) != k {
        assert RegularSlot(fields[j], m[SlotOf(fields, j)]);
      } else if j != i {
        assert WellFormedField(fields, i) && WellFormedField(fields, j);
      }
    }
  }

  lemma {:induction false} SlotIsRegular(fields: seq<Field>, i: nat, m: Msg)
    requires i < |fields| && RegularDefaults(fields) && Regular(fields, m)
    ensures var f, slot := fields[i], m[SlotOf(fields, i)];
            && RegularDefault(f) && RegularSlot(f, slot)
            && (f.htype.Required? || f.htype.Optional? ==> slot.Single? || slot.Flagged?)
  {
    var k := SlotOf(fields, i);
    assert KnownSlot(fields, k, m[k]) && RegularSlot(fields[i], m[k]) && RegularDefault(fields[i]);
  }

  lemma {:induction false} BeforeIsRegular(f: Field, slot: Slot)
    requires RegularDefault(f) && RegularSlot(f, slot)
    requires f.htype.Required? || f.htype.Optional? ==> slot.Single? || slot.Flagged?
    ensures RegularValue(f, Before(f, slot))
  {
    if f.htype.Repeated? || f.htype.Oneof? { DefaultValueIsRegular(f); }
  }

  /** A value decoded for a field makes a regular slot of the kind the field needs. */
  lemma {:induction false} AfterIsRegular(fields: seq<Field>, i: nat, slot: Slot, v: Value)
    requires i < |fields| && WellFormedField(fields, i) && RegularSlot(fields[i], slot) && RegularValue(fields[i], v)
    ensures var f, after := fields[i], After(fields[i], slot, v);
            && KnownSlot(fields, SlotOf(fields, i), after) && RegularSlot(f, after)
            && (f.htype.Oneof? ==> after.Union? && after.which == f.tag)
  {
    SlotIsFirst(fields, i);
  }

  lemma {:induction false} FieldIsRegular(fields: seq<Field>, i: nat, wireType: nat, s: seq<byte>, m: Msg)
    requires i < |fields| && WellFormed(fields) && RegularDefaults(fields) && Regular(fields, m)
    requires DecodeField(fields, i, wireType, s, m).Ok?
    ensures Regular(fields, DecodeField(fields, i, wireType, s, m).value)
    decreases |s|, 1
  {
    var f, k := fields[i], SlotOf(fields, i);
    assert WellFormedField(fields, i);
    SlotIsRegular(fields, i, m);
    BeforeIsRegular(f, m[k]);
    if f.htype.Repeated? && wireType == WT_STRING && Packable(f.ltype) {
      var payload := Delimited(s).value;
      PackedIsRegular(f, payload, Items(m[i]));
      SlotWritten(fields, i, m, Array(DecodePacked(f, payload, Items(m[i])).value));
    } else {
      var v := DecodeValue(f, s, Before(f, m[k])).value;
      ValueIsRegular(f, s, Before(f, m[k]));
      AfterIsRegular(fields, i, m[k], v);
      SlotWritten(fields, i, m, After(f, m[k], v));
    }
  }

  lemma {:induction false} RecordsAreRegular(fields: seq<Field>, s: seq<byte>, m: Msg, seen: set<nat>)
    requires WellFormed(fields) && RegularDefaults(fields) && Regular(fields, m)
    ensures var p := DecodeFields(fields, s, m, seen); !p.Failed? ==> Regular(fields, p.msg)
    decreases |s|, 2
  {
    if s != [] && DecodeRecord(fields, s, m).Next? {
      var key, rest := DecodeVarint32(s).value, DecodeVarint32(s).rest;
      var i := IndexOf(fields, key / 8);
      if i < |fields| { FieldIsRegular(fields, i, key % 8, rest, m); }
      var r := DecodeRecord(fields, s, m);
      RecordsAreRegular(fields, r.rest, r.msg, seen + {r.tag});
    }
  }

  lemma {:induction false} MessageIsRegular(fields: seq<Field>, s: seq<byte>, m: Msg)
    requires WellFormed(fields) && RegularDefaults(fields) && Regular(fields, m)
    ensures var p := DecodeMessage(fields, s, m); p.Ok? ==> Regular(fields, p.value)
    decreases |s|, 3
  {
    RecordsAreRegular(fields, s, m, {});
  }

  /** Whatever the bytes are, a message decoded from them is regular. */
  lemma {:induction false} DecodedIsRegular(fields: seq<Field>, s: seq<byte>)
    requires WellFormed(fields) && RegularDefaults(fields) && Decode(fields, s).Ok?
    ensures Regular(fields, Decode(fields, s).value)
  {
    DefaultIsRegular(fields);
    MessageIsRegular(fields, s, DefaultMsg(fields));
  }

  // --------------------------------------------------------------- encoding again

  lemma {:induction false} RegularValueIs(f: Field, v: Value)
    requires WellFormedInside(f) && RegularValue(f, v)
    ensures StorableValue(f, v) && TerminatedValue(f, v) && ShapedValue(f, v)
    decreases f, 0
  {
    if f.ltype.Submessage? { RegularIs(f.ltype.fields, v.msg); }
  }

  lemma {:induction false} RegularSlotIs(f: Field, slot: Slot)
    requires WellFormedInside(f) && RegularSlot(f, slot)
    ensures StorableSlot(f, slot) && TerminatedSlot(f, slot) && ShapedInside(f, slot)
    decreases f, 1
  {
    match slot
    case Single(v) => RegularValueIs(f, v);
    case Flagged(_, v) => RegularValueIs(f, v);
    case Union(which, v) => if which == f.tag { RegularValueIs(f, v); }
    case Array(items) =>
      forall i | 0 <= i < |items|
        ensures StorableValue(f, items[i]) && TerminatedValue(f, items[i]) && ShapedValue(f, items[i])
      {
        RegularValueIs(f, items[i]);
      }
    case _ =>
  }

  lemma {:induction false} RegularIs(fields: seq<Field>, m: Msg)
    requires WellFormed(fields) && Regular(fields, m)
    ensures Storable(fields, m) && Terminated(fields, m) && ShapedDeep(fields, m)
    decreases fields, 1
  {
    forall k | 0 <= k < |fields|
      ensures ShapedSlot(fields, k, m[k])
    {
      assert KnownSlot(fields, k, m[k]);
    }
    forall i | 0 <= i < |fields|
      ensures var slot := m[SlotOf(fields, i)];
              StorableSlot(fields[i], slot) && TerminatedSlot(fields[i], slot) && ShapedInside(fields[i], slot)
    {
      assert WellFormedField(fields, i) && RegularSlot(fields[i], m[SlotOf(fields, i)]);
      RegularSlotIs(fields[i], m[SlotOf(fields, i)]);
    }
  }

  /** A message decoded from any bytes is one that encoding accepts; once encoded, it is
      decoded without fail, to its last byte and with nothing lost. */
  lemma {:induction false} DecodedRoundTrip(fields: seq<Field>, s: seq<byte>)
    requires WellFormed(fields) && RegularDefaults(fields) && Decode(fields, s).Ok?
    ensures var m := Decode(fields, s).value;
            && Storable(fields, m) && Terminated(fields, m) && ShapedDeep(fields, m)
            && (EncodeMessage(fields, m).Some? && |EncodeMessage(fields, m).value| < TWO32 ==>
                  var p := Decode(fields, EncodeMessage(fields, m).value);
                  p.Ok? && p.rest == [] && Restores(fields, m, p.value))
  {
    var m := Decode(fields, s).value;
    DecodedIsRegular(fields, s);
    RegularIs(fields, m);
    if EncodeMessage(fields, m).Some? && |EncodeMessage(fields, m).value| < TWO32 {
      MessageIsSized(fields, m);
      DecodeRestores(fields, m);
    }
  }
}
