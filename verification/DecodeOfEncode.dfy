/** Decoding what the encoder wrote: it merges the encoded message into the message it
    is decoded onto, and fails exactly when that merge does. */
module DecodeOfEncode {
  import opened Bits
  import opened Wire
  import opened Wrappers
  import opened Varint32
  import opened Descriptor
  import opened Encoding
  import opened Decoding
  import opened Merging

  function ReadBack<T>(v: Option<T>, t: seq<byte>): Parsed<T> {
    match v
    case None => Fail
    case Some(x) => Ok(x, t)
  }

  lemma {:induction false} DelimitedReads(p: seq<byte>, t: seq<byte>)
    requires |p| < TWO32
    ensures Delimited(VarintBytes(|p|) + p + t) == Ok(p, t)
  {
    assert VarintBytes(|p|) + p + t == VarintBytes(|p|) + (p + t);
    Varint32RoundTrip(|p|, p + t);
    assert (p + t)[..|p|] == p && (p + t)[|p|..] == t;
  }

  /** Strings and byte arrays. */
  lemma {:induction false} BlobDecodes(f: Field, b: seq<byte>, t: seq<byte>)
    requires f.ltype.Bytes? || f.ltype.String? || f.ltype.FixedLengthBytes?
    requires |b| <= f.dataSize
    requires f.ltype.Bytes? ==> |b| + BYTES_HEADER <= f.dataSize
    requires f.ltype.FixedLengthBytes? ==> |b| == f.dataSize
    ensures DecodeScalar(f, VarintBytes(|b|) + b + t)
         == if f.ltype.String? && |b| == f.dataSize then Fail else Ok(Blob(b), t)
  {
    var s := VarintBytes(|b|) + b + t;
    assert s == VarintBytes(|b|) + (b + t);
    Varint32RoundTrip(|b|, b + t);
    assert DecodeScalar(f, s) == DecodeBlob(f, |b|, b + t);
    assert (b + t)[..|b|] == b && (b + t)[|b|..] == t;
    if f.ltype.FixedLengthBytes? && |b| == 0 {
      assert seq(f.dataSize, _ => 0) == b;
    }
  }

  lemma {:induction false} FixedDecodes(v: nat, n: nat, t: seq<byte>)
    requires v < Pow2(8 * n)
    ensures DecodeFixed(LittleEndian(v, n) + t, n) == Ok(Num(v), t)
  {
    LittleEndianReads(v, n, t);
  }

  /** An int32 field keeps its value although it travels as 64 bits. */
  lemma {:induction false} SignedWord(n: int, size: nat)
    requires InSigned(n, size)
    ensures (if size == 8 then ToSigned64(ToUnsigned64(n)) else ToSigned32(ToUnsigned64(n))) == n
  {
    if n < 0 {
      assert ToUnsigned64(n) == n + TWO64;
      if size != 8 { Remainder(n + TWO64, n + TWO32, TWO32 - 1); }
    } else if size != 8 {
      Remainder(n, n, 0);
    }
  }

  lemma {:induction false} ScalarDecodes(f: Field, v: Value, t: seq<byte>)
    requires EncodeScalar(f, v).Some?
    ensures DecodeScalar(f, EncodeScalar(f, v).value + t) == ReadBack(MergeScalar(f, v), t)
  {
    match (f.ltype, v)
    case (Bool, Num(n)) => Varint32RoundTrip(if n != 0 then 1 else 0, t);
    case (Varint, Num(n)) => VarintRoundTrip(ToUnsigned64(n), t); SignedWord(n, f.dataSize);
    case (Uvarint, Num(n)) => VarintRoundTrip(n, t);
    case (Svarint, Num(n)) => ZigzagRoundTrip(n); VarintRoundTrip(Zigzag(n), t);
    case (Fixed32, Num(n)) => Words(); FixedDecodes(n, 4, t);
    case (Fixed64, Num(n)) => Words(); FixedDecodes(n, 8, t);
    case (String, Blob(b)) => BlobDecodes(f, b[..StringLength(b, f.dataSize)], t);
    case (_, Blob(b)) => BlobDecodes(f, b, t);
    case _ =>
  }

  lemma {:induction false} SubmessageReads(f: Field, p: seq<byte>, prior: Value, t: seq<byte>)
    requires f.ltype.Submessage? && |p| < TWO32
    ensures DecodeValue(f, VarintBytes(|p|) + p + t, prior)
         == match DecodeMessage(f.ltype.fields, p, MsgOf(prior, f.ltype.fields))
            case Fail => Fail
            case Ok(m, _) => Ok(Sub(m), t)
  {
    DelimitedReads(p, t);
  }

  /** A value of any type is merged into what was there before. */
  lemma {:induction false} ValueDecodes(f: Field, v: Value, prior: Value, t: seq<byte>)
    requires WellFormedInside(f) && ShapedValue(f, v) && SizedValue(f, v) && EncodeValue(f, v).Some?
    ensures DecodeValue(f, EncodeValue(f, v).value + t, prior) == ReadBack(MergeValue(f, prior, v), t)
    decreases f, 0
  {
    if f.ltype.Submessage? {
      var fields := f.ltype.fields;
      var p := EncodeMessage(fields, v.msg).value;
      assert EncodeValue(f, v).value == VarintBytes(|p|) + p;
      SubmessageReads(f, p, prior, t);
      MessageDecodes(fields, MsgOf(prior, fields), v.msg);
    } else {
      ScalarDecodes(f, v, t);
    }
  }

  /** The key of a field and one value behind it are one record. */
  lemma {:induction false} RecordDecodes(fields: seq<Field>, i: nat, a: Msg, v: Value, t: seq<byte>)
    requires i < |fields| == |a| && WellFormed(fields)
    requires var f := fields[i]; ShapedValue(f, v) && SizedValue(f, v) && EncodeValue(f, v).Some?
    ensures var f, k := fields[i], SlotOf(fields, i);
            DecodeRecord(fields, Keyed(f, v).value + t, a)
            == if f.htype.Repeated? && |Items(a[k])| >= f.arraySize then Bad
               else match MergeInto(f, a[k], v)
                    case None => Bad
                    case Some(slot) => Next(f.tag, a[k := slot], t)
    decreases fields[i], 1
  {
    var f, k := fields[i], SlotOf(fields, i);
    var e := EncodeValue(f, v).value;
    assert WellFormedField(fields, i);
    KeyedForm(f, v, t);
    KeyThenField(fields, i, a, e + t);
    ValueDecodes(f, v, Before(f, a[k]), t);
  }

  lemma {:induction false} KeyedForm(f: Field, v: Value, t: seq<byte>)
    requires EncodeValue(f, v).Some?
    ensures Keyed(f, v).Some? && Keyed(f, v).value + t == FieldKey(f) + (EncodeValue(f, v).value + t)
  {}

  /** The record that a value of field i amounts to. */
  function RecordOf(fields: seq<Field>, i: nat, a: Msg, p: Parsed<Value>): Record
    requires i < |fields| == |a|
  {
    var f, k := fields[i], SlotOf(fields, i);
    if f.htype.Repeated? && |Items(a[k])| >= f.arraySize then Bad
    else match p
         case Fail => Bad
         case Ok(v, rest) => Next(f.tag, a[k := After(f, a[k], v)], rest)
  }

  lemma {:induction false} KeyThenField(fields: seq<Field>, i: nat, a: Msg, s: seq<byte>)
    requires i < |fields| == |a| && WellFormed(fields)
    ensures var f, k := fields[i], SlotOf(fields, i);
            DecodeRecord(fields, FieldKey(f) + s, a) == RecordOf(fields, i, a, DecodeValue(f, s, Before(f, a[k])))
  {
    var f := fields[i];
    KeyReads(fields, i, WireType(f.ltype), s);
    assert Packable(f.ltype) ==> WireType(f.ltype) != WT_STRING;
  }

  /** The key of a field is read back as its tag and wire type, and leads to it. */
  lemma {:induction false} KeyReads(fields: seq<Field>, i: nat, wireType: nat, t: seq<byte>)
    requires i < |fields| && WellFormed(fields) && wireType < 8
    ensures var key := fields[i].tag * 8 + wireType;
            && 0 < key < TWO32
            && key / 8 == fields[i].tag && key % 8 == wireType
            && DecodeVarint32(TagBytes(wireType, fields[i].tag) + t) == Ok(key, t)
    ensures IndexOf(fields, fields[i].tag) == i && WellFormedInside(fields[i])
  {
    assert WellFormedField(fields, i);
    Varint32RoundTrip(fields[i].tag * 8 + wireType, t);
  }

  // ------------------------------------------------------------------ arrays

  lemma {:induction false} NextElement(f: Field, payload: seq<byte>, v: Value, rest: seq<byte>, done: seq<Value>)
    requires Packable(f.ltype) && payload != [] && DecodeScalar(f, payload) == Ok(v, rest)
    ensures DecodePacked(f, payload, done) == if |done| >= f.arraySize then None else DecodePacked(f, rest, done + [v])
  {}

  /** A packable value has a nonempty encoding and always replaces the one before. */
  lemma {:induction false} PackableMerges(f: Field, v: Value)
    requires Packable(f.ltype) && EncodeScalar(f, v).Some?
    ensures EncodeScalar(f, v).value != [] && MergeScalar(f, v).Some?
    ensures MergeValue(f, DefaultValue(f), v) == MergeScalar(f, v)
  {}

  /** Packed elements are decoded one by one until the array is full. */
  lemma {:induction false} PackedDecodes(f: Field, items: seq<Value>, done: seq<Value>)
    requires Packable(f.ltype) && EncodePacked(f, items).Some?
    ensures MergeEach(f, items).Some?
    ensures DecodePacked(f, EncodePacked(f, items).value, done)
         == if |done| + |items| <= f.arraySize || items == [] then Some(done + MergeEach(f, items).value) else None
    decreases |items|
  {
    if items == [] {
      assert done + [] == done;
    } else {
      var e, others := EncodeScalar(f, items[0]).value, EncodePacked(f, items[1..]).value;
      PackableMerges(f, items[0]);
      var v := MergeScalar(f, items[0]).value;
      ScalarDecodes(f, items[0], others);
      NextElement(f, e + others, v, others, done);
      PackedDecodes(f, items[1..], done + [v]);
      var vs := MergeEach(f, items[1..]).value;
      assert MergeEach(f, items).value == [v] + vs;
      OneByOne(done, v, vs);
    }
  }

  lemma {:induction false} OneByOne(done: seq<Value>, v: Value, vs: seq<Value>)
    ensures done + [v] + vs == done + ([v] + vs)
  {}

  lemma {:induction false} FirstRecord(fields: seq<Field>, s: seq<byte>, a: Msg, seen: set<nat>)
    requires |fields| == |a| && s != []
    ensures DecodeFields(fields, s, a, seen)
         == match DecodeRecord(fields, s, a)
            case Bad => Failed
            case Stop(rest) => Stopped(a, seen, rest)
            case Next(tag, a', rest) => DecodeFields(fields, rest, a', seen + {tag})
  {}

  lemma {:induction false} EachDecodes(fields: seq<Field>, i: nat, a: Msg, items: seq<Value>, seen: set<nat>,
                                       t: seq<byte>)
    requires i < |fields| == |a| && WellFormed(fields) && fields[i].htype.Repeated?
    requires EncodeEach(fields[i], items).Some?
    requires forall n | 0 <= n < |items| :: ShapedValue(fields[i], items[n]) && SizedValue(fields[i], items[n])
    requires items != []
    ensures var f := fields[i];
            DecodeFields(fields, EncodeEach(f, items).value + t, a, seen)
            == if |Items(a[i])| + |items| > f.arraySize || MergeEach(f, items).None? then Failed
               else DecodeFields(fields, t, a[i := Array(Items(a[i]) + MergeEach(f, items).value)], seen + {f.tag})
    decreases fields[i], 2, |items|
  {
    var f := fields[i];
    var first, others := Keyed(f, items[0]).value, EncodeEach(f, items[1..]).value;
    var s := first + others + t;
    RecordDecodes(fields, i, a, items[0], others + t);
    assert s == first + (others + t) && s != [];
    FirstRecord(fields, s, a, seen);
    var v := MergeValue(f, DefaultValue(f), items[0]);
    if |Items(a[i])| < f.arraySize && v.Some? {
      var a' := a[i := Array(Items(a[i]) + [v.value])];
      if |items| == 1 {
        assert others + t == t;
        assert MergeEach(f, items[1..]) == Some([]);
        assert [v.value] + [] == [v.value];
      } else {
        EachDecodes(fields, i, a', items[1..], seen + {f.tag}, t);
        assert seen + {f.tag} + {f.tag} == seen + {f.tag};
        if MergeEach(f, items).Some? {
          var vs := MergeEach(f, items[1..]).value;
          OneByOne(Items(a[i]), v.value, vs);
          assert a'[i := Array(Items(a[i]) + ([v.value] + vs))] == a[i := Array(Items(a[i]) + ([v.value] + vs))];
        }
      }
    }
  }

  /** One packed record appends its elements. */
  lemma {:induction false} PackedRecord(fields: seq<Field>, i: nat, a: Msg, p: seq<byte>, t: seq<byte>)
    requires i < |fields| == |a| && WellFormed(fields) && fields[i].htype.Repeated?
    requires Packable(fields[i].ltype) && |p| < TWO32
    ensures DecodeRecord(fields, TagBytes(WT_STRING, fields[i].tag) + (VarintBytes(|p|) + p + t), a)
         == match DecodePacked(fields[i], p, Items(a[i]))
            case None => Bad
            case Some(items) => Next(fields[i].tag, a[i := Array(items)], t)
  {
    KeyReads(fields, i, WT_STRING, VarintBytes(|p|) + p + t);
    DelimitedReads(p, t);
  }

  lemma {:induction false} ArrayDecodes(fields: seq<Field>, i: nat, a: Msg, items: seq<Value>, seen: set<nat>,
                                        t: seq<byte>)
    requires i < |fields| == |a| && WellFormed(fields) && fields[i].htype.Repeated?
    requires EncodeArray(fields[i], items).Some? && items != []
    requires SizedSlot(fields[i], Array(items)) && ShapedInside(fields[i], Array(items))
    ensures var f := fields[i];
            DecodeFields(fields, EncodeArray(f, items).value + t, a, seen)
            == if |Items(a[i])| + |items| > f.arraySize || MergeEach(f, items).None? then Failed
               else DecodeFields(fields, t, a[i := Array(Items(a[i]) + MergeEach(f, items).value)], seen + {f.tag})
    decreases fields[i], 3
  {
    var f := fields[i];
    if Packable(f.ltype) {
      var p := EncodePacked(f, items).value;
      var s := EncodeArray(f, items).value + t;
      assert s == TagBytes(WT_STRING, f.tag) + (VarintBytes(|p|) + p + t);
      PackedRecord(fields, i, a, p, t);
      PackedDecodes(f, items, Items(a[i]));
    } else {
      EachDecodes(fields, i, a, items, seen, t);
    }
  }

  // ----------------------------------------------------------------- messages

  /** Field i contributes something to the encoding of b. */
  predicate Emitted(fields: seq<Field>, b: Msg, i: nat)
    requires i < |fields| == |b|
  {
    var f, slot := fields[i], b[SlotOf(fields, i)];
    match slot
    case Single(v) => f.htype.Required? || !IsZero(f, v)
    case Flagged(has, _) => has
    case Array(items) => items != []
    case Union(which, _) => which == f.tag
    case _ => false
  }

  /** What an emitted field that is no array holds, and how its slot is merged. */
  lemma {:induction false} EmittedSingle(fields: seq<Field>, i: nat, x: Slot, b: Msg)
    requires i < |fields| && WellFormed(fields) && ShapedDeep(fields, b) && Sized(fields, b)
    requires Emitted(fields, b, i) && !fields[i].htype.Repeated?
    ensures var f, k := fields[i], SlotOf(fields, i);
            var v := Held(b[k]);
            && EncodeField(f, b[k]) == Keyed(f, v)
            && ShapedValue(f, v) && SizedValue(f, v)
            && MergeSlot(fields, k, x, b[k]) == MergeInto(f, x, v)
  {
    var f, k := fields[i], SlotOf(fields, i);
    assert ShapedSlot(fields, k, b[k]) && ShapedInside(f, b[k]) && SizedSlot(f, b[k]);
    if f.htype.Oneof? { KeyReads(fields, i, 0, []); }
  }

  lemma {:induction false} SingleDecodes(fields: seq<Field>, i: nat, a: Msg, b: Msg, seen: set<nat>, t: seq<byte>)
    requires i < |fields| && WellFormed(fields) && |a| == |fields| && ShapedDeep(fields, b) && Sized(fields, b)
    requires var k := SlotOf(fields, i); EncodeField(fields[i], b[k]).Some?
    requires Emitted(fields, b, i) && !fields[i].htype.Repeated?
    ensures var f, k := fields[i], SlotOf(fields, i);
            DecodeFields(fields, EncodeField(f, b[k]).value + t, a, seen)
            == match MergeSlot(fields, k, a[k], b[k])
               case None => Failed
               case Some(slot) => DecodeFields(fields, t, a[k := slot], seen + {f.tag})
    decreases fields[i], 4
  {
    var f, k := fields[i], SlotOf(fields, i);
    EmittedSingle(fields, i, a[k], b);
    RecordDecodes(fields, i, a, Held(b[k]), t);
    assert EncodeField(f, b[k]).value + t != [];
  }

  lemma {:induction false} FieldDecodes(fields: seq<Field>, i: nat, a: Msg, b: Msg, seen: set<nat>, t: seq<byte>)
    requires i < |fields| && WellFormed(fields) && |a| == |fields| && ShapedDeep(fields, b) && Sized(fields, b)
    requires var k := SlotOf(fields, i); EncodeField(fields[i], b[k]).Some?
    ensures var f, k := fields[i], SlotOf(fields, i);
            DecodeFields(fields, EncodeField(f, b[k]).value + t, a, seen)
            == if !Emitted(fields, b, i) then DecodeFields(fields, t, a, seen)
               else match MergeSlot(fields, k, a[k], b[k])
                    case None => Failed
                    case Some(slot) => DecodeFields(fields, t, a[k := slot], seen + {f.tag})
    decreases fields[i], 5
  {
    var f, k := fields[i], SlotOf(fields, i);
    if Emitted(fields, b, i) && !f.htype.Repeated? {
      SingleDecodes(fields, i, a, b, seen, t);
    } else {
      assert ShapedSlot(fields, k, b[k]);
      if Emitted(fields, b, i) {
        assert ShapedInside(f, b[k]) && SizedSlot(f, b[k]);
        ArrayDecodes(fields, i, a, b[k].items, seen, t);
      } else {
        assert EncodeField(f, b[k]).value + t == t;
      }
    }
  }

  /** Slot k of b has not been written before field i. */
  predicate Pending(fields: seq<Field>, b: Msg, k: nat, i: nat)
    requires k < |fields| == |b|
  {
    if b[k].Union? then IndexOf(fields, b[k].which) >= i else k >= i
  }

  predicate MergeableFrom(fields: seq<Field>, a: Msg, b: Msg, i: nat)
    requires |a| == |b| == |fields|
  {
    forall k | 0 <= k < |fields| && Pending(fields, b, k, i) :: MergeSlot(fields, k, a[k], b[k]).Some?
  }

  function MergedFrom(fields: seq<Field>, a: Msg, b: Msg, i: nat): (m: Msg)
    requires |a| == |b| == |fields| && MergeableFrom(fields, a, b, i)
    ensures |m| == |fields|
  {
    seq(|fields|, k requires 0 <= k < |fields| && MergeableFrom(fields, a, b, i) =>
      if Pending(fields, b, k, i) then MergeSlot(fields, k, a[k], b[k]).value else a[k])
  }

  /** The tags that occur in the encoding from field i on. */
  function TagsFrom(fields: seq<Field>, b: Msg, i: nat): set<nat>
    requires |b| == |fields| && i <= |fields|
    decreases |fields| - i
  {
    if i == |fields| then {}
    else Tags(fields, i, b) + TagsFrom(fields, b, i + 1)
  }

  /** The message behind the records of field i. */
  function Advanced(fields: seq<Field>, i: nat, a: Msg, b: Msg): (r: Option<Msg>)
    requires i < |fields| == |a| == |b|
    ensures r.Some? ==> |r.value| == |fields|
  {
    var k := SlotOf(fields, i);
    if !Emitted(fields, b, i) then Some(a)
    else match MergeSlot(fields, k, a[k], b[k])
         case None => None
         case Some(slot) => Some(a[k := slot])
  }

  function Tags(fields: seq<Field>, i: nat, b: Msg): set<nat>
    requires i < |fields| == |b|
  {
    if Emitted(fields, b, i) then {fields[i].tag as nat} else {}
  }

  /** The decoding loop run over the fields of b instead of their encoding. */
  function RunFrom(fields: seq<Field>, i: nat, a: Msg, b: Msg, seen: set<nat>, t: seq<byte>): Parse
    requires i <= |fields| == |a| == |b|
    decreases |fields| - i
  {
    if i == |fields| then DecodeFields(fields, t, a, seen)
    else match Advanced(fields, i, a, b)
         case None => Failed
         case Some(a') => RunFrom(fields, i + 1, a', b, seen + Tags(fields, i, b), t)
  }

  lemma {:induction false} LoopRuns(fields: seq<Field>, i: nat, a: Msg, b: Msg, seen: set<nat>, t: seq<byte>)
    requires i <= |fields| && WellFormed(fields) && |a| == |fields| && ShapedDeep(fields, b) && Sized(fields, b)
    requires EncodeFrom(fields, b, i).Some?
    ensures DecodeFields(fields, EncodeFrom(fields, b, i).value + t, a, seen) == RunFrom(fields, i, a, b, seen, t)
    decreases fields, 5, |fields| - i
  {
    if i == |fields| {
      assert EncodeFrom(fields, b, i).value + t == t;
    } else {
      LoopStep(fields, i, a, b, seen, t);
      var a' := Advanced(fields, i, a, b);
      if a'.Some? { LoopRuns(fields, i + 1, a'.value, b, seen + Tags(fields, i, b), t); }
    }
  }

  /** Decoding goes on behind the fields from i on with these merged. */
  function LoopResult(fields: seq<Field>, i: nat, a: Msg, b: Msg, seen: set<nat>, t: seq<byte>): Parse
    requires i <= |fields| == |a| == |b|
  {
    if MergeableFrom(fields, a, b, i)
    then DecodeFields(fields, t, MergedFrom(fields, a, b, i), seen + TagsFrom(fields, b, i))
    else Failed
  }

  lemma {:induction false} RunMerges(fields: seq<Field>, i: nat, a: Msg, b: Msg, seen: set<nat>, t: seq<byte>)
    requires i <= |fields| && WellFormed(fields) && |a| == |fields| && Shaped(fields, b)
    ensures RunFrom(fields, i, a, b, seen, t) == LoopResult(fields, i, a, b, seen, t)
    decreases |fields| - i
  {
    if i == |fields| {
      NothingPending(fields, a, b);
      assert seen + {} == seen;
    } else {
      LoopAdvances(fields, i, a, b, seen, t);
      var a' := Advanced(fields, i, a, b);
      if a'.Some? { RunMerges(fields, i + 1, a'.value, b, seen + Tags(fields, i, b), t); }
    }
  }

  lemma {:induction false} LoopDecodes(fields: seq<Field>, a: Msg, b: Msg, seen: set<nat>, t: seq<byte>)
    requires WellFormed(fields) && |a| == |fields| && ShapedDeep(fields, b) && Sized(fields, b)
    requires EncodeMessage(fields, b).Some?
    ensures DecodeFields(fields, EncodeMessage(fields, b).value + t, a, seen) == LoopResult(fields, 0, a, b, seen, t)
    decreases fields, 6
  {
    LoopRuns(fields, 0, a, b, seen, t);
    RunMerges(fields, 0, a, b, seen, t);
  }

  lemma {:induction false} LoopStep(fields: seq<Field>, i: nat, a: Msg, b: Msg, seen: set<nat>, t: seq<byte>)
    requires i < |fields| && WellFormed(fields) && |a| == |fields| && ShapedDeep(fields, b) && Sized(fields, b)
    requires EncodeFrom(fields, b, i).Some?
    ensures var others := EncodeFrom(fields, b, i + 1);
            && others.Some?
            && DecodeFields(fields, EncodeFrom(fields, b, i).value + t, a, seen)
               == match Advanced(fields, i, a, b)
                  case None => Failed
                  case Some(a') => DecodeFields(fields, others.value + t, a', seen + Tags(fields, i, b))
    decreases fields, 4
  {
    var e, others := EncodeField(fields[i], b[SlotOf(fields, i)]).value, EncodeFrom(fields, b, i + 1).value;
    assert e + others + t == e + (others + t);
    FieldDecodes(fields, i, a, b, seen, others + t);
    assert seen + {} == seen;
  }

  lemma {:induction false} LoopAdvances(fields: seq<Field>, i: nat, a: Msg, b: Msg, seen: set<nat>, t: seq<byte>)
    requires i < |fields| && WellFormed(fields) && |a| == |fields| && Shaped(fields, b)
    ensures LoopResult(fields, i, a, b, seen, t)
         == match Advanced(fields, i, a, b)
            case None => Failed
            case Some(a') => LoopResult(fields, i + 1, a', b, seen + Tags(fields, i, b), t)
  {
    var k := SlotOf(fields, i);
    assert seen + Tags(fields, i, b) + TagsFrom(fields, b, i + 1) == seen + TagsFrom(fields, b, i);
    if !Emitted(fields, b, i) {
      SkipsField(fields, i, a, b);
    } else {
      EmittedIsPending(fields, i, b);
      if MergeSlot(fields, k, a[k], b[k]).Some? { MergesField(fields, i, a, b); }
    }
  }

  lemma {:induction false} NothingPending(fields: seq<Field>, a: Msg, b: Msg)
    requires |a| == |fields| && Shaped(fields, b)
    ensures MergeableFrom(fields, a, b, |fields|) && MergedFrom(fields, a, b, |fields|) == a
  {
    assert forall k | 0 <= k < |fields| :: ShapedSlot(fields, k, b[k]);
  }

  lemma {:induction false} EmittedIsPending(fields: seq<Field>, i: nat, b: Msg)
    requires i < |fields| && WellFormed(fields) && Shaped(fields, b) && Emitted(fields, b, i)
    ensures var k := SlotOf(fields, i); Pending(fields, b, k, i) && !Pending(fields, b, k, i + 1)
  {
    var k := SlotOf(fields, i);
    assert ShapedSlot(fields, k, b[k]);
    if b[k].Union? { KeyReads(fields, i, 0, []); }
  }

  /** A field that contributes nothing leaves its slot as it is. */
  lemma {:induction false} SkipsField(fields: seq<Field>, i: nat, a: Msg, b: Msg)
    requires i < |fields| && WellFormed(fields) && |a| == |fields| && Shaped(fields, b) && !Emitted(fields, b, i)
    ensures MergeableFrom(fields, a, b, i) == MergeableFrom(fields, a, b, i + 1)
    ensures MergeableFrom(fields, a, b, i) ==> MergedFrom(fields, a, b, i) == MergedFrom(fields, a, b, i + 1)
  {
    forall k | 0 <= k < |fields|
      ensures Pending(fields, b, k, i) == Pending(fields, b, k, i + 1)
           || (Pending(fields, b, k, i) && MergeSlot(fields, k, a[k], b[k]) == Some(a[k]))
    {
      assert ShapedSlot(fields, k, b[k]);
    }
  }

  /** A field that contributes something settles its slot and no other. */
  lemma {:induction false} MergesField(fields: seq<Field>, i: nat, a: Msg, b: Msg)
    requires i < |fields| && WellFormed(fields) && |a| == |fields| && Shaped(fields, b) && Emitted(fields, b, i)
    requires var k := SlotOf(fields, i); MergeSlot(fields, k, a[k], b[k]).Some?
    ensures var k := SlotOf(fields, i);
            var a' := a[k := MergeSlot(fields, k, a[k], b[k]).value];
            && MergeableFrom(fields, a, b, i) == MergeableFrom(fields, a', b, i + 1)
            && (MergeableFrom(fields, a, b, i) ==> MergedFrom(fields, a, b, i) == MergedFrom(fields, a', b, i + 1))
  {
    var k := SlotOf(fields, i);
    var slot := MergeSlot(fields, k, a[k], b[k]).value;
    var a' := a[k := slot];
    EmittedIsPending(fields, i, b);
    forall n | 0 <= n < |fields| && n != k
      ensures Pending(fields, b, n, i) == Pending(fields, b, n, i + 1)
           || (Pending(fields, b, n, i) && MergeSlot(fields, n, a[n], b[n]) == Some(a[n]))
    {
      assert ShapedSlot(fields, n, b[n]);
    }
  }

  /** Decoding the encoding of b onto a gives the merge of b into a, and fails exactly
      when there is none. */
  lemma {:induction false} MessageDecodes(fields: seq<Field>, a: Msg, b: Msg)
    requires WellFormed(fields) && |a| == |fields| && ShapedDeep(fields, b) && Sized(fields, b)
    requires EncodeMessage(fields, b).Some?
    ensures DecodeMessage(fields, EncodeMessage(fields, b).value, a) == ReadBack(Merge(fields, a, b), [])
    decreases fields, 7
  {
    var e := EncodeMessage(fields, b).value;
    assert e + [] == e;
    LoopDecodes(fields, a, b, {}, []);
    assert MergeableFrom(fields, a, b, 0) == Merge(fields, a, b).Some?;
    if MergeableFrom(fields, a, b, 0) {
      assert MergedFrom(fields, a, b, 0) == Merge(fields, a, b).value;
      RequiredEmitted(fields, b, 0);
      assert {} + TagsFrom(fields, b, 0) == TagsFrom(fields, b, 0);
    }
  }

  /** The encoder leaves out no required field. */
  lemma {:induction false} RequiredEmitted(fields: seq<Field>, b: Msg, i: nat)
    requires i <= |fields| && Shaped(fields, b)
    ensures forall j | i <= j < |fields| && fields[j].htype.Required? :: fields[j].tag in TagsFrom(fields, b, i)
    decreases |fields| - i
  {
    if i < |fields| {
      RequiredEmitted(fields, b, i + 1);
      assert ShapedSlot(fields, i, b[SlotOf(fields, i)]) || fields[i].htype.Oneof?;
    }
  }
}
