/** What encodings look like, byte by byte and field by field. */
module EncodedForm {
  import opened Wire
  import opened Wrappers
  import opened Descriptor
  import opened Encoding
  import opened Decoding
  import opened RoundTrip
  import opened MessageEncoder

  // --------------------------------------------------------------- spelled out

  /** The number 150 as field 1, the string "testing" as field 2, that number inside a
      submessage as field 3, and the numbers 3, 270 and 86942 packed as field 6: the examples
      of the chapter "Encoding" of the Protocol Buffers documentation. */
  const NUMBER := Field(1, Varint, Required, Behind(0), 0, 4, 0, None)
  const TEXT := Field(2, String, Required, Behind(0), 0, 8, 0, None)
  const INNER := Field(3, Submessage([NUMBER]), Required, Behind(0), 0, 4, 0, None)
  const NUMBERS := Field(6, Varint, Repeated, Behind(0), 1, 4, 3, None)

  const TESTING: seq<byte> := [0x74, 0x65, 0x73, 0x74, 0x69, 0x6E, 0x67]

  lemma {:induction false} Varints()
    ensures VarintBytes(150) == [0x96, 0x01] && VarintBytes(270) == [0x8E, 0x02]
    ensures VarintBytes(86942) == [0x9E, 0xA7, 0x05]
  {
    assert VarintBytes(1) == [1] && VarintBytes(2) == [2] && VarintBytes(5) == [5];
    assert VarintBytes(679) == [0xA7, 0x05];
  }

  lemma {:induction false} NumberForm()
    ensures EncodeField(NUMBER, Single(Num(150))) == Some([0x08, 0x96, 0x01])
    ensures EncodeMessage([NUMBER], [Single(Num(150))]) == Some([0x08, 0x96, 0x01])
  {
    Varints();
    assert VarintBytes(8) == [8];
    assert Keyed(NUMBER, Num(150)) == Some([0x08] + [0x96, 0x01]);
    assert [0x08] + [0x96, 0x01] == [0x08, 0x96, 0x01];
    var e, nothing := EncodeField(NUMBER, Single(Num(150))), EncodeFrom([NUMBER], [Single(Num(150))], 1);
    assert nothing == Some([]);
    NothingElse(e);
  }

  lemma {:induction false} TextForm()
    ensures EncodeField(TEXT, Single(Blob(TESTING))) == Some([0x12, 0x07] + TESTING)
  {
    StringEnds(TESTING, 8);
    assert TESTING[..7] == TESTING;
    assert VarintBytes(18) == [0x12] && VarintBytes(7) == [7];
    assert StringLength(TESTING, 8) == 7;
    assert EncodeValue(TEXT, Blob(TESTING)) == Some([7] + TESTING);
    assert Keyed(TEXT, Blob(TESTING)) == Some([0x12] + ([7] + TESTING));
    assert [0x12] + ([7] + TESTING) == [0x12, 0x07] + TESTING;
  }

  lemma {:induction false} InnerForm()
    ensures EncodeField(INNER, Single(Sub([Single(Num(150))]))) == Some([0x1A, 0x03, 0x08, 0x96, 0x01])
  {
    NumberForm();
    assert VarintBytes(26) == [0x1A] && VarintBytes(3) == [3];
    assert EncodeValue(INNER, Sub([Single(Num(150))])) == Some([3] + [0x08, 0x96, 0x01]);
    assert Keyed(INNER, Sub([Single(Num(150))])) == Some([0x1A] + ([3] + [0x08, 0x96, 0x01]));
    assert [0x1A] + ([3] + [0x08, 0x96, 0x01]) == [0x1A, 0x03, 0x08, 0x96, 0x01];
  }

  lemma {:induction false} NumbersForm()
    ensures EncodeField(NUMBERS, Array([Num(3), Num(270), Num(86942)]))
         == Some([0x32, 0x06, 0x03, 0x8E, 0x02, 0x9E, 0xA7, 0x05])
  {
    var items := [Num(3), Num(270), Num(86942)];
    Varints();
    assert VarintBytes(50) == [0x32] && VarintBytes(6) == [6] && VarintBytes(3) == [3];
    assert items[1..] == [Num(270), Num(86942)] && items[1..][1..] == [Num(86942)] && items[1..][1..][1..] == [];
    assert EncodePacked(NUMBERS, items[1..][1..]) == Some([0x9E, 0xA7, 0x05] + []);
    assert EncodePacked(NUMBERS, items[1..]) == Some([0x8E, 0x02] + ([0x9E, 0xA7, 0x05] + []));
    var payload := [0x03] + ([0x8E, 0x02] + ([0x9E, 0xA7, 0x05] + []));
    assert EncodePacked(NUMBERS, items) == Some(payload);
    assert [0x32] + ([6] + payload) == [0x32, 0x06, 0x03, 0x8E, 0x02, 0x9E, 0xA7, 0x05];
  }

  // ------------------------------------------------------------------- the order

  lemma {:induction false} SameSlot(fields: seq<Field>, f: Field, i: nat)
    requires i < |fields|
    ensures SlotOf(fields + [f], i) == SlotOf(fields, i)
  {
    if Continues(fields, i) { SameSlot(fields, f, i - 1); }
  }

  /** Fields are written in the order of their descriptor: what one more field at its end
      contributes stands behind all the others. */
  lemma {:induction false} LastFieldIsLast(fields: seq<Field>, m: Msg, f: Field, slot: Slot, i: nat)
    requires |m| == |fields| && i <= |fields| && !f.htype.Oneof?
    ensures EncodeFrom(fields + [f], m + [slot], i) == Joined(EncodeFrom(fields, m, i), EncodeField(f, slot))
    decreases |fields| - i
  {
    var all, whole := fields + [f], m + [slot];
    if i == |fields| {
      assert EncodeFrom(all, whole, i + 1) == Some([]);
      assert all[i] == f && SlotOf(all, i) == i;
      NothingElse(EncodeField(f, slot));
    } else {
      SameSlot(fields, f, i);
      LastFieldIsLast(fields, m, f, slot, i + 1);
      JoinedThrice(EncodeField(fields[i], m[SlotOf(fields, i)]), EncodeFrom(fields, m, i + 1), EncodeField(f, slot));
    }
  }

  lemma {:induction false} NothingElse(e: Option<seq<byte>>)
    ensures Joined(e, Some([])) == e && Joined(Some([]), e) == e
  {
    if e.Some? { assert e.value + [] == e.value && [] + e.value == e.value; }
  }

  lemma {:induction false} JoinedThrice(a: Option<seq<byte>>, b: Option<seq<byte>>, c: Option<seq<byte>>)
    ensures Joined(Joined(a, b), c) == Joined(a, Joined(b, c))
  {
    if a.Some? && b.Some? && c.Some? { assert a.value + b.value + c.value == a.value + (b.value + c.value); }
  }

  // ------------------------------------------------------------ what is left out

  /** Of a field without has_ flag and without a default of its own, exactly what the reader
      fills in anyway is not written. */
  lemma {:induction false} LeftOutExactly(f: Field, v: Value)
    requires f.htype.Optional? && f.sizeOffset == 0 && !HasOwnDefault(f) && StorableValue(f, v)
    requires !f.ltype.Submessage? && !f.ltype.FixedLengthBytes? && (f.ltype.String? ==> f.dataSize > 0)
    ensures EncodeField(f, Single(v)) == Some([]) <==> SameValue(f, v, DefaultValue(f))
  {
    if f.ltype.String? { StringEnds(v.bytes, f.dataSize); }
    assert Keyed(f, v) != Some([]);
  }

  /** Fixed-length bytes are written unless there are none. */
  lemma {:induction false} FixedBytesLeftOut(f: Field, v: Value)
    requires f.htype.Optional? && f.sizeOffset == 0 && f.ltype.FixedLengthBytes? && StorableValue(f, v)
    ensures EncodeField(f, Single(v)) == Some([]) <==> f.dataSize == 0
  {
    assert Keyed(f, v) != Some([]);
  }

  // ---------------------------------------------------------------- what is absent

  /** What the reader fills in for a value: the default of the descriptor or else zero, nothing,
      or so many zero bytes. */
  predicate FilledIn(f: Field, v: Value)
    decreases f, 0
  {
    if HasOwnDefault(f) then v == f.default.value
    else
      match f.ltype
      case Bytes | String => v == Blob([])
      case FixedLengthBytes => v.Blob? && |v.bytes| == f.dataSize && Zeros(v.bytes)
      case Submessage(fields) => v.Sub? && AllFilledIn(fields, v.msg)
      case _ => v == Num(0)
  }

  predicate Zeros(s: seq<byte>) { forall i | 0 <= i < |s| :: s[i] == 0 }

  /** A has_ flag is not set, an array is empty, a union holds nothing. */
  predicate SlotFilledIn(f: Field, slot: Slot)
    decreases f, 1
  {
    match f.htype
    case Required => slot.Single? && FilledIn(f, slot.value)
    case Optional =>
      if f.sizeOffset != 0 then slot.Flagged? && !slot.has && FilledIn(f, slot.value)
      else slot.Single? && FilledIn(f, slot.value)
    case Repeated => slot == Array([])
    case Oneof => slot == Unset
  }

  predicate AllFilledIn(fields: seq<Field>, m: Msg)
    decreases fields, 1
  {
    |m| == |fields| &&
    forall i {:trigger SlotFilledIn(fields[i], m[SlotOf(fields, i)])} | 0 <= i < |fields| ::
      SlotFilledIn(fields[i], m[SlotOf(fields, i)])
  }

  lemma {:induction false} DefaultIsFilledIn(f: Field)
    ensures FilledIn(f, DefaultValue(f))
    decreases f, 0
  {
    if f.ltype.Submessage? { DefaultsAreFilledIn(f.ltype.fields); }
  }

  lemma {:induction false} DefaultsAreFilledIn(fields: seq<Field>)
    ensures AllFilledIn(fields, DefaultMsg(fields))
    decreases fields, 1
  {
    var m := DefaultMsg(fields);
    forall i | 0 <= i < |fields|
      ensures SlotFilledIn(fields[i], m[SlotOf(fields, i)])
    {
      var k := SlotOf(fields, i);
      SlotIsFirst(fields, i);
      assert m[k] == DefaultSlot(fields[k], Continues(fields, k));
      if !fields[i].htype.Oneof? { DefaultIsFilledIn(fields[i]); }
    }
  }

  /** A message of no bytes decodes to nothing but defaults, at any depth. */
  lemma {:induction false} NothingDecodes(fields: seq<Field>)
    requires Decode(fields, []).Ok?
    ensures AllFilledIn(fields, Decode(fields, []).value)
  {
    DefaultsAreFilledIn(fields);
  }

  /** Fixed-length bytes with an empty payload are so many zeros. */
  lemma {:induction false} EmptyFixedBytes(f: Field, t: seq<byte>)
    requires f.ltype.FixedLengthBytes?
    ensures var p := DecodeScalar(f, [0] + t);
            p.Ok? && p.rest == t && p.value.Blob? && |p.value.bytes| == f.dataSize && Zeros(p.value.bytes)
  {
    var s: seq<byte> := [0] + t;
    assert s[1..] == t;
    assert DecodeVarint32(s) == Ok(0, t);
  }

  // --------------------------------------------------------------------- integers

  /** n is the number of so many bits, in two's complement, whose lowest bits are those of u. */
  predicate Congruent(n: int, u: nat, size: nat) {
    if size == 8 then -TWO63 <= n < TWO63 && (u - n) % TWO64 == 0
    else -TWO31 <= n < TWO31 && (u - n) % TWO32 == 0
  }

  lemma {:induction false} CutOff(n: int, u: uint64, size: nat)
    ensures Congruent(n, u, size) <==> n == if size == 8 then ToSigned64(u) else ToSigned32(u)
  {}

  /** Of a signed number the lowest 64 bits are read, or the lowest 32 for a smaller field, and
      it is an error when the result does not fit; an unsigned one has to fit as it is, and so
      has one in zigzag form, of which the even codes are the numbers from zero up and the odd
      ones the negative numbers. */
  lemma {:induction false} IntegersRead(f: Field, u: uint64, n: int, t: seq<byte>)
    ensures var p := DecodeScalar(f, VarintBytes(u) + t);
            && (f.ltype.Varint? && Congruent(n, u, f.dataSize) ==>
                  p == if InSigned(n, f.dataSize) then Ok(Num(n), t) else Fail)
            && (f.ltype.Uvarint? ==> p == if InUnsigned(u, f.dataSize) then Ok(Num(u), t) else Fail)
            && (f.ltype.Svarint? && (u == 2 * n || u == -2 * n - 1) ==>
                  p == if InSigned(n, f.dataSize) then Ok(Num(n), t) else Fail)
  {
    VarintRoundTrip(u, t);
    CutOff(n, u, f.dataSize);
  }
}
