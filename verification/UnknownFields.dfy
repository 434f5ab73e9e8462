/** What has been encoded can be passed over by a reader that does not know its fields. */
module UnknownFields {
  import opened Wire
  import opened Wrappers
  import opened Varint32
  import opened Descriptor
  import opened Encoding
  import opened Decoding
  import opened Merging
  import opened DecodeOfEncode
  import opened Composition

  // ------------------------------------------------------------------- one record

  lemma {:induction false} VarintSkips(v: uint64, t: seq<byte>)
    ensures SkipField(0, VarintBytes(v) + t) == Ok(VarintBytes(v), t)
  {
    VarintShape(v, t);
    var e := VarintBytes(v);
    assert (e + t)[..|e|] == e && (e + t)[|e|..] == t;
  }

  /** A varint is passed over however long it is, also where it is too long to be decoded. */
  lemma {:induction false} LongVarintSkips(e: seq<byte>, t: seq<byte>)
    requires e != [] && e[|e| - 1] < 128 && forall i | 0 <= i < |e| - 1 :: e[i] >= 128
    ensures SkipField(0, e + t) == Ok(e, t)
  {
    var s := e + t;
    var n := VarintLen(s);
    assert s[|e| - 1] < 128;
    assert forall i | 0 <= i < |e| :: s[i] == e[i];
    assert n == |e|;
    assert s[..|e|] == e && s[|e|..] == t;
  }

  lemma {:induction false} PayloadSkips(p: seq<byte>, t: seq<byte>)
    requires |p| < TWO32
    ensures SkipField(2, VarintBytes(|p|) + p + t) == Ok(p, t)
  {
    DelimitedReads(p, t);
  }

  /** An encoded value is what the wire type of its field announces. */
  lemma {:induction false} ValueSkips(f: Field, v: Value, t: seq<byte>)
    requires EncodeValue(f, v).Some? && SizedValue(f, v)
    ensures var p := SkipField(WireType(f.ltype), EncodeValue(f, v).value + t); p.Ok? && p.rest == t
  {
    match (f.ltype, v)
    case (Bool, Num(n)) => VarintSkips(if n != 0 then 1 else 0, t);
    case (Varint, Num(n)) => VarintSkips(ToUnsigned64(n), t);
    case (Uvarint, Num(n)) => VarintSkips(n, t);
    case (Svarint, Num(n)) => VarintSkips(Zigzag(n), t);
    case (Submessage(fields), Sub(m)) => PayloadSkips(EncodeMessage(fields, m).value, t);
    case (String, Blob(b)) => PayloadSkips(b[..StringLength(b, f.dataSize)], t);
    case (_, Blob(b)) => PayloadSkips(b, t);
    case _ =>
  }

  /** Whoever reads the key of an encoded value, and passes over what the wire type in it
      announces, is right behind the value. */
  lemma {:induction false} KeyedSkips(f: Field, v: Value, t: seq<byte>)
    requires 0 < f.tag < MAX_TAG && EncodeValue(f, v).Some? && SizedValue(f, v)
    ensures Keyed(f, v).Some?
    ensures var e, key := EncodeValue(f, v).value, DecodeVarint32(Keyed(f, v).value + t);
            && key.Ok? && key.value / 8 == f.tag && key.rest == e + t
            && SkipField(key.value % 8, e + t).Ok? && SkipField(key.value % 8, e + t).rest == t
  {
    var e := EncodeValue(f, v).value;
    KeyedForm(f, v, t);
    assert WireType(f.ltype) < 8;
    Varint32RoundTrip(f.tag * 8 + WireType(f.ltype), e + t);
    ValueSkips(f, v, t);
  }

  /** To a reader whose descriptor lacks the tag, an encoded value is an unknown record. */
  lemma {:induction false} ValueIsUnknown(fields: seq<Field>, f: Field, v: Value)
    requires 0 < f.tag < MAX_TAG && IndexOf(fields, f.tag) == |fields|
    requires EncodeValue(f, v).Some? && SizedValue(f, v)
    ensures Keyed(f, v).Some? && UnknownRecord(fields, Keyed(f, v).value)
  {
    KeyedSkips(f, v, []);
    assert Keyed(f, v).value + [] == Keyed(f, v).value;
  }

  /** So is a packed array: all of its elements are one record. */
  lemma {:induction false} PackedIsUnknown(fields: seq<Field>, f: Field, items: seq<Value>)
    requires 0 < f.tag < MAX_TAG && IndexOf(fields, f.tag) == |fields|
    requires Packable(f.ltype) && items != [] && EncodeArray(f, items).Some? && SizedSlot(f, Array(items))
    ensures UnknownRecord(fields, EncodeArray(f, items).value)
  {
    var p := EncodePacked(f, items).value;
    var data := VarintBytes(|p|) + p;
    assert EncodeArray(f, items).value == TagBytes(WT_STRING, f.tag) + data;
    PayloadSkips(p, []);
    assert data + [] == data;
    UnknownForm(fields, f.tag, 2, data);
  }

  /** Groups, and the wire types that mean nothing, cannot be passed over. */
  lemma {:induction false} GroupsAreErrors(fields: seq<Field>, tag: nat, wireType: nat, t: seq<byte>, m: Msg)
    requires |m| == |fields| && 0 < tag < MAX_TAG && IndexOf(fields, tag) == |fields|
    requires wireType < 8 && wireType !in {0, 1, 2, 5}
    ensures DecodeMessage(fields, TagBytes(wireType, tag) + t, m).Fail?
  {
    Varint32RoundTrip(tag * 8 + wireType, t);
    assert (tag * 8 + wireType) / 8 == tag && (tag * 8 + wireType) % 8 == wireType;
    assert DecodeRecord(fields, TagBytes(wireType, tag) + t, m) == Bad;
    FirstRecord(fields, TagBytes(wireType, tag) + t, m, {});
  }

  // --------------------------------------------------------------- whole messages

  /** The reader has none of the tags of the writer. */
  predicate Strangers(reader: seq<Field>, writer: seq<Field>) {
    forall i | 0 <= i < |writer| :: IndexOf(reader, writer[i].tag) == |reader|
  }

  lemma {:induction false} RecordPassed(reader: seq<Field>, r: seq<byte>, tag: nat, t: seq<byte>, a: Msg,
                                        seen: set<nat>)
    requires |a| == |reader| && tag > 0 && UnknownRecord(reader, r) && DecodeVarint32(r).value / 8 == tag
    ensures DecodeFields(reader, r + t, a, seen) == DecodeFields(reader, t, a, seen + {tag})
  {
    UnknownRecordFirst(reader, r, t, a, seen);
    SeenAccumulates(reader, t, a, seen, {tag});
  }

  lemma {:induction false} KeyOf(f: Field, wireType: nat, data: seq<byte>)
    requires 0 < f.tag < MAX_TAG && wireType < 8
    ensures DecodeVarint32(TagBytes(wireType, f.tag) + data).Ok?
    ensures DecodeVarint32(TagBytes(wireType, f.tag) + data).value / 8 == f.tag
  {
    Varint32RoundTrip(f.tag * 8 + wireType, data);
    assert (f.tag * 8 + wireType) / 8 == f.tag;
  }

  lemma {:induction false} ValuePassed(reader: seq<Field>, f: Field, v: Value, t: seq<byte>, a: Msg, seen: set<nat>)
    requires |a| == |reader| && 0 < f.tag < MAX_TAG && IndexOf(reader, f.tag) == |reader|
    requires EncodeValue(f, v).Some? && SizedValue(f, v)
    ensures Keyed(f, v).Some?
         && DecodeFields(reader, Keyed(f, v).value + t, a, seen) == DecodeFields(reader, t, a, seen + {f.tag})
  {
    ValueIsUnknown(reader, f, v);
    KeyOf(f, WireType(f.ltype), EncodeValue(f, v).value);
    RecordPassed(reader, Keyed(f, v).value, f.tag, t, a, seen);
  }

  lemma {:induction false} EachPassed(reader: seq<Field>, f: Field, items: seq<Value>, t: seq<byte>, a: Msg,
                                      seen: set<nat>)
    requires |a| == |reader| && 0 < f.tag < MAX_TAG && IndexOf(reader, f.tag) == |reader|
    requires items != [] && EncodeEach(f, items).Some? && forall i | 0 <= i < |items| :: SizedValue(f, items[i])
    ensures DecodeFields(reader, EncodeEach(f, items).value + t, a, seen) == DecodeFields(reader, t, a, seen + {f.tag})
    decreases |items|
  {
    var first, others := Keyed(f, items[0]).value, EncodeEach(f, items[1..]).value;
    assert first + others + t == first + (others + t);
    ValuePassed(reader, f, items[0], others + t, a, seen);
    if |items| == 1 {
      assert others + t == t;
    } else {
      EachPassed(reader, f, items[1..], t, a, seen + {f.tag});
      assert seen + {f.tag} + {f.tag} == seen + {f.tag};
    }
  }

  lemma {:induction false} ArrayPassed(reader: seq<Field>, f: Field, items: seq<Value>, t: seq<byte>, a: Msg,
                                       seen: set<nat>)
    requires |a| == |reader| && 0 < f.tag < MAX_TAG && IndexOf(reader, f.tag) == |reader|
    requires items != [] && EncodeArray(f, items).Some? && SizedSlot(f, Array(items))
    ensures DecodeFields(reader, EncodeArray(f, items).value + t, a, seen) == DecodeFields(reader, t, a, seen + {f.tag})
  {
    if Packable(f.ltype) {
      var p := EncodePacked(f, items).value;
      PackedIsUnknown(reader, f, items);
      KeyOf(f, WT_STRING, VarintBytes(|p|) + p);
      RecordPassed(reader, EncodeArray(f, items).value, f.tag, t, a, seen);
    } else {
      EachPassed(reader, f, items, t, a, seen);
    }
  }

  /** What one field of the writer contributes leaves no trace but its tag. */
  lemma {:induction false} FieldPassed(reader: seq<Field>, f: Field, slot: Slot, t: seq<byte>, a: Msg, seen: set<nat>)
    returns (more: set<nat>)
    requires |a| == |reader| && 0 < f.tag < MAX_TAG && IndexOf(reader, f.tag) == |reader|
    requires EncodeField(f, slot).Some? && SizedSlot(f, slot)
    ensures more <= {f.tag as nat}
    ensures DecodeFields(reader, EncodeField(f, slot).value + t, a, seen) == DecodeFields(reader, t, a, seen + more)
  {
    if EncodeField(f, slot).value == [] {
      assert EncodeField(f, slot).value + t == t && seen + {} == seen;
      more := {};
    } else {
      more := {f.tag as nat};
      match slot {
        case Array(items) => ArrayPassed(reader, f, items, t, a, seen);
        case _ => ValuePassed(reader, f, Held(slot), t, a, seen);
      }
    }
  }

  lemma {:induction false} FieldsPassed(reader: seq<Field>, writer: seq<Field>, m: Msg, i: nat, t: seq<byte>, a: Msg,
                                        seen: set<nat>)
    returns (more: set<nat>)
    requires |a| == |reader| && i <= |writer| == |m| && WellFormed(writer) && Strangers(reader, writer)
    requires EncodeFrom(writer, m, i).Some? && Sized(writer, m)
    ensures forall tag | tag in more :: IndexOf(reader, tag) == |reader|
    ensures DecodeFields(reader, EncodeFrom(writer, m, i).value + t, a, seen) == DecodeFields(reader, t, a, seen + more)
    decreases |writer| - i
  {
    if i == |writer| {
      assert EncodeFrom(writer, m, i).value + t == t && seen + {} == seen;
      more := {};
    } else {
      var f, slot := writer[i], m[SlotOf(writer, i)];
      var e, others := EncodeField(f, slot).value, EncodeFrom(writer, m, i + 1).value;
      assert WellFormedField(writer, i) && SizedSlot(f, slot);
      assert e + others + t == e + (others + t);
      var first := FieldPassed(reader, f, slot, others + t, a, seen);
      var rest := FieldsPassed(reader, writer, m, i + 1, t, a, seen + first);
      assert seen + first + rest == seen + (first + rest);
      more := first + rest;
    }
  }

  lemma {:induction false} SeenInVain(reader: seq<Field>, s: seq<byte>, a: Msg, more: set<nat>)
    requires |a| == |reader| && forall tag | tag in more :: IndexOf(reader, tag) == |reader|
    ensures var p := DecodeFields(reader, s, a, {});
            DecodeFields(reader, s, a, more) == WithSeen(p, more)
    ensures var p := DecodeFields(reader, s, a, {});
            !p.Failed? ==> RequiredSeen(reader, p.seen + more) == RequiredSeen(reader, p.seen)
  {
    assert {} + more == more;
    SeenAccumulates(reader, s, a, {}, more);
    forall i | 0 <= i < |reader|
      ensures reader[i].tag !in more
    {
      if reader[i].tag in more { IndexOfIsFirst(reader, reader[i].tag, i); }
    }
  }

  /** To a reader that knows none of its fields, a whole encoded message is as if it were not
      there. */
  lemma {:induction false} MessageIsTransparent(reader: seq<Field>, writer: seq<Field>, m: Msg, t: seq<byte>, a: Msg)
    requires |a| == |reader| && |m| == |writer| && WellFormed(writer) && Strangers(reader, writer)
    requires EncodeMessage(writer, m).Some? && Sized(writer, m)
    ensures DecodeMessage(reader, EncodeMessage(writer, m).value + t, a) == DecodeMessage(reader, t, a)
  {
    var more := FieldsPassed(reader, writer, m, 0, t, a, {});
    assert {} + more == more;
    SeenInVain(reader, t, a, more);
  }
}
