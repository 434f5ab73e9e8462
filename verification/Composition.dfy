/** Streams put one behind the other, and records the descriptor does not know. */
module Composition {
  import opened Wire
  import opened Wrappers
  import opened Varint32
  import opened Descriptor
  import opened Encoding
  import opened Decoding
  import opened Merging
  import opened DecodeOfEncode

  // ------------------------------------- bytes behind a record do not matter

  lemma {:induction false} ScalarExtends(f: Field, s: seq<byte>, t: seq<byte>)
    requires DecodeScalar(f, s).Ok?
    ensures DecodeScalar(f, s + t) == Ok(DecodeScalar(f, s).value, DecodeScalar(f, s).rest + t)
  {
    if f.ltype.Fixed32? || f.ltype.Fixed64? {
      ReadersExtend(s, t, if f.ltype.Fixed32? then 4 else 8);
    } else if f.ltype.Varint? || f.ltype.Uvarint? || f.ltype.Svarint? || f.ltype.Bool? {
      ReadersExtend(s, t, 0);
    } else {
      ReadersExtend(s, t, 0);
      BlobExtends(f, DecodeVarint32(s).value, DecodeVarint32(s).rest, t);
    }
  }

  lemma {:induction false} BlobExtends(f: Field, size: uint32, s: seq<byte>, t: seq<byte>)
    requires DecodeBlob(f, size, s).Ok?
    ensures DecodeBlob(f, size, s + t) == Ok(DecodeBlob(f, size, s).value, DecodeBlob(f, size, s).rest + t)
  {
    ReadersExtend(s, t, size);
  }

  lemma {:induction false} ValueExtends(f: Field, s: seq<byte>, t: seq<byte>, prior: Value)
    requires DecodeValue(f, s, prior).Ok?
    ensures DecodeValue(f, s + t, prior) == Ok(DecodeValue(f, s, prior).value, DecodeValue(f, s, prior).rest + t)
  {
    if f.ltype.Submessage? { DelimitedExtends(s, t); } else { ScalarExtends(f, s, t); }
  }

  lemma {:induction false} FieldExtends(fields: seq<Field>, i: nat, wireType: nat, s: seq<byte>, t: seq<byte>, m: Msg)
    requires i < |fields| == |m| && DecodeField(fields, i, wireType, s, m).Ok?
    ensures var p := DecodeField(fields, i, wireType, s, m);
            DecodeField(fields, i, wireType, s + t, m) == Ok(p.value, p.rest + t)
  {
    var f := fields[i];
    if f.htype.Repeated? && wireType == WT_STRING && Packable(f.ltype) {
      DelimitedExtends(s, t);
    } else {
      ValueExtends(f, s, t, Before(f, m[SlotOf(fields, i)]));
    }
  }

  lemma {:induction false} RecordExtends(fields: seq<Field>, s: seq<byte>, t: seq<byte>, m: Msg)
    requires |fields| == |m| && DecodeRecord(fields, s, m).Next?
    ensures var r := DecodeRecord(fields, s, m);
            DecodeRecord(fields, s + t, m) == Next(r.tag, r.msg, r.rest + t)
  {
    ReadersExtend(s, t, 0);
    var key, rest := DecodeVarint32(s).value, DecodeVarint32(s).rest;
    var i := IndexOf(fields, key / 8);
    if i < |fields| {
      FieldExtends(fields, i, key % 8, rest, t, m);
    } else if fields == [] && key / 8 == 0 {
      ReadersExtend(rest, t, 0);
    } else {
      SkipExtends(key % 8, rest, t);
    }
  }

  // ------------------------------------------------------------ concatenation

  /** When a first stream decodes to its end, decoding goes on with the second from
      where the first left the message. */
  lemma {:induction false} ConcatDecodes(fields: seq<Field>, s1: seq<byte>, s2: seq<byte>, m: Msg, seen: set<nat>)
    requires |fields| == |m| && DecodeFields(fields, s1, m, seen).Exhausted?
    ensures var p := DecodeFields(fields, s1, m, seen);
            DecodeFields(fields, s1 + s2, m, seen) == DecodeFields(fields, s2, p.msg, p.seen)
    decreases |s1|
  {
    if s1 == [] {
      assert s1 + s2 == s2;
    } else {
      var r := DecodeRecord(fields, s1, m);
      RecordExtends(fields, s1, s2, m);
      ConcatDecodes(fields, r.rest, s2, r.msg, seen + {r.tag});
    }
  }

  /** A parse with more tags seen from the start has just these more at its end. */
  function WithSeen(p: Parse, more: set<nat>): Parse {
    match p
    case Failed => Failed
    case Exhausted(m, seen) => Exhausted(m, seen + more)
    case Stopped(m, seen, rest) => Stopped(m, seen + more, rest)
  }

  lemma {:induction false} SeenAccumulates(fields: seq<Field>, s: seq<byte>, m: Msg, seen: set<nat>, more: set<nat>)
    requires |fields| == |m|
    ensures DecodeFields(fields, s, m, seen + more) == WithSeen(DecodeFields(fields, s, m, seen), more)
    decreases |s|
  {
    if s != [] {
      var r := DecodeRecord(fields, s, m);
      if r.Next? {
        assert seen + more + {r.tag} == seen + {r.tag} + more;
        SeenAccumulates(fields, r.rest, r.msg, seen + {r.tag}, more);
      }
    }
  }

  /** Decoding composes: if s1 decodes to its end from m to m1, and s2 decodes from m1 to
      m2, then s1 + s2 decodes from m to m2. */
  lemma {:induction false} DecodingComposes(fields: seq<Field>, s1: seq<byte>, s2: seq<byte>, m: Msg)
    requires |fields| == |m| && DecodeFields(fields, s1, m, {}).Exhausted?
    requires DecodeMessage(fields, s1, m).Ok?
    ensures var m1 := DecodeMessage(fields, s1, m).value;
            DecodeMessage(fields, s2, m1).Ok? ==> DecodeMessage(fields, s1 + s2, m) == DecodeMessage(fields, s2, m1)
  {
    var p := DecodeFields(fields, s1, m, {});
    ConcatDecodes(fields, s1, s2, m, {});
    SeenAccumulates(fields, s2, p.msg, {}, p.seen);
    assert {} + p.seen == p.seen;
    var q := DecodeFields(fields, s2, p.msg, {});
    if !q.Failed? && RequiredSeen(fields, q.seen) { assert RequiredSeen(fields, q.seen + p.seen); }
  }

  /** Two encoded messages, one behind the other, decode to their merge. */
  lemma {:induction false} TwoMessagesMerge(fields: seq<Field>, x: Msg, a: Msg, b: Msg)
    requires WellFormed(fields) && |x| == |fields|
    requires ShapedDeep(fields, a) && Sized(fields, a) && EncodeMessage(fields, a).Some?
    requires ShapedDeep(fields, b) && Sized(fields, b) && EncodeMessage(fields, b).Some?
    ensures DecodeMessage(fields, EncodeMessage(fields, a).value + EncodeMessage(fields, b).value, x)
         == match Merge(fields, x, a)
            case None => Fail
            case Some(m) => ReadBack(Merge(fields, m, b), [])
  {
    var eb := EncodeMessage(fields, b).value;
    LoopDecodes(fields, x, a, {}, eb);
    assert MergeableFrom(fields, x, a, 0) == Merge(fields, x, a).Some?;
    if Merge(fields, x, a).Some? {
      var m := Merge(fields, x, a).value;
      assert MergedFrom(fields, x, a, 0) == m;
      var seen := {} + TagsFrom(fields, a, 0);
      SecondMessage(fields, m, b, seen);
    }
  }

  lemma {:induction false} SecondMessage(fields: seq<Field>, m: Msg, b: Msg, seen: set<nat>)
    requires WellFormed(fields) && |m| == |fields|
    requires ShapedDeep(fields, b) && Sized(fields, b) && EncodeMessage(fields, b).Some?
    ensures DecodeFields(fields, EncodeMessage(fields, b).value, m, seen)
         == match Merge(fields, m, b)
            case None => Failed
            case Some(m') => Exhausted(m', seen + TagsFrom(fields, b, 0))
    ensures RequiredSeen(fields, seen + TagsFrom(fields, b, 0))
  {
    var eb := EncodeMessage(fields, b).value;
    assert eb + [] == eb;
    LoopDecodes(fields, m, b, seen, []);
    assert MergeableFrom(fields, m, b, 0) == Merge(fields, m, b).Some?;
    if Merge(fields, m, b).Some? { assert MergedFrom(fields, m, b, 0) == Merge(fields, m, b).value; }
    RequiredEmitted(fields, b, 0);
  }

  // ---------------------------------------------------------- unknown fields

  /** One complete record with a nonzero key whose tag, which may be zero, no field of the
      descriptor has. */
  predicate UnknownRecord(fields: seq<Field>, r: seq<byte>) {
    var p := DecodeVarint32(r);
    && p.Ok? && p.value != 0
    && IndexOf(fields, p.value / 8) == |fields|
    && SkipField(p.value % 8, p.rest).Ok? && SkipField(p.value % 8, p.rest).rest == []
  }

  /** Between the fields of s1 and what follows them, the record r changes neither the
      decoded message, nor whether decoding succeeds, nor what it leaves unread. */
  predicate Transparent(fields: seq<Field>, r: seq<byte>, s1: seq<byte>, s2: seq<byte>, m: Msg) {
    |fields| == |m| && DecodeFields(fields, s1, m, {}).Exhausted? ==>
      DecodeMessage(fields, s1 + (r + s2), m) == DecodeMessage(fields, s1 + s2, m)
  }

  /** In a descriptor with fields every unknown record is transparent; in an empty one every
      unknown record is whose tag is not zero. */
  lemma {:induction false} UnknownFieldsAreTransparent(fields: seq<Field>, r: seq<byte>, s1: seq<byte>, s2: seq<byte>,
                                                       m: Msg)
    requires UnknownRecord(fields, r) && (fields != [] || DecodeVarint32(r).value / 8 != 0)
    ensures Transparent(fields, r, s1, s2, m)
  {
    if |fields| == |m| && DecodeFields(fields, s1, m, {}).Exhausted? {
      var p := DecodeFields(fields, s1, m, {});
      ConcatDecodes(fields, s1, r + s2, m, {});
      ConcatDecodes(fields, s1, s2, m, {});
      var tag := DecodeVarint32(r).value / 8;
      UnknownRecordFirst(fields, r, s2, p.msg, p.seen);
      var q := DecodeFields(fields, s2, p.msg, p.seen);
      if !q.Failed? { UnknownTagIsNotRequired(fields, q.seen, tag); }
    }
  }

  /** The payload of this record of tag 0, one byte behind its length, is not skipped in an
      empty descriptor: its length is taken for the number of a required bool, and its byte
      for the beginning of a record. */
  const ZERO_TAG_RECORD: seq<byte> := [WT_STRING, 1, 0x80]

  lemma {:induction false} ZeroTagIsNotTransparent()
    ensures UnknownRecord([], ZERO_TAG_RECORD) && !Transparent([], ZERO_TAG_RECORD, [], [], [])
  {
    var none: seq<byte>, r := [], ZERO_TAG_RECORD;
    assert r[1..] == [1, 0x80] && r[1..][1..] == [0x80] && r[1..][1..][1..] == [];
    assert DecodeVarint32(r) == Ok(2, [1, 0x80]);
    assert DecodeVarint32(r[1..]) == Ok(1, [0x80]);
    assert DecodeVarint32([0x80]) == Fail;
    assert none + (r + none) == r && none + none == none;
    assert DecodeRecord([], r, []) == Next(0, [], [0x80]);
    assert DecodeRecord([], [0x80], []) == Bad;
    assert DecodeFields([], r, [], {}) == Failed;
    assert DecodeMessage([], none, []) == Ok([], none);
  }

  /** All unknown records are transparent exactly in the descriptors that have fields. */
  lemma {:induction false} TransparentExactly(fields: seq<Field>)
    ensures (forall r, s1, s2, m :: UnknownRecord(fields, r) ==> Transparent(fields, r, s1, s2, m)) <==> fields != []
  {
    if fields == [] {
      ZeroTagIsNotTransparent();
    } else {
      forall r, s1, s2, m | UnknownRecord(fields, r)
        ensures Transparent(fields, r, s1, s2, m)
      {
        UnknownFieldsAreTransparent(fields, r, s1, s2, m);
      }
    }
  }

  lemma {:induction false} UnknownRecordFirst(fields: seq<Field>, r: seq<byte>, t: seq<byte>, m: Msg, seen: set<nat>)
    requires |fields| == |m| && UnknownRecord(fields, r) && (fields != [] || DecodeVarint32(r).value / 8 != 0)
    ensures DecodeFields(fields, r + t, m, seen)
         == WithSeen(DecodeFields(fields, t, m, seen), {DecodeVarint32(r).value / 8})
  {
    UnknownRecordSkipped(fields, r, t, m);
    assert r + t != [];
    SeenAccumulates(fields, t, m, seen, {DecodeVarint32(r).value / 8});
  }

  lemma {:induction false} UnknownRecordSkipped(fields: seq<Field>, r: seq<byte>, t: seq<byte>, m: Msg)
    requires |fields| == |m| && UnknownRecord(fields, r) && (fields != [] || DecodeVarint32(r).value / 8 != 0)
    ensures DecodeRecord(fields, r + t, m) == Next(DecodeVarint32(r).value / 8, m, t)
  {
    var p := DecodeVarint32(r);
    ReadersExtend(r, t, 0);
    SkipExtends(p.value % 8, p.rest, t);
    assert [] + t == t;
  }

  lemma {:induction false} UnknownTagIsNotRequired(fields: seq<Field>, seen: set<nat>, tag: nat)
    requires IndexOf(fields, tag) == |fields|
    ensures RequiredSeen(fields, seen + {tag}) == RequiredSeen(fields, seen)
  {
    forall i | 0 <= i < |fields|
      ensures fields[i].tag != tag
    {
      IndexOfIsFirst(fields, tag, i);
    }
  }

  /** The records of every wire type that an encoder with more fields may write; of tag 0 all
      of them but that of wire type 0, whose key may be zero. */
  lemma {:induction false} UnknownRecordForms(fields: seq<Field>, tag: nat, v: uint64, eight: seq<byte>,
                                              four: seq<byte>, payload: seq<byte>)
    requires tag < MAX_TAG && IndexOf(fields, tag) == |fields|
    requires |eight| == 8 && |four| == 4 && |payload| < TWO32
    ensures tag > 0 ==> UnknownRecord(fields, TagBytes(WT_VARINT, tag) + VarintBytes(v))
    ensures UnknownRecord(fields, TagBytes(WT_64BIT, tag) + eight)
    ensures UnknownRecord(fields, TagBytes(WT_STRING, tag) + (VarintBytes(|payload|) + payload))
    ensures UnknownRecord(fields, TagBytes(WT_32BIT, tag) + four)
  {
    VarintShape(v, []);
    assert VarintBytes(v) + [] == VarintBytes(v);
    DelimitedReads(payload, []);
    assert VarintBytes(|payload|) + payload + [] == VarintBytes(|payload|) + payload;
    if tag > 0 { UnknownForm(fields, tag, WT_VARINT, VarintBytes(v)); }
    UnknownForm(fields, tag, WT_64BIT, eight);
    UnknownForm(fields, tag, WT_STRING, VarintBytes(|payload|) + payload);
    UnknownForm(fields, tag, WT_32BIT, four);
  }

  lemma {:induction false} UnknownForm(fields: seq<Field>, tag: nat, wireType: nat, data: seq<byte>)
    requires tag < MAX_TAG && wireType < 8 && 0 < tag * 8 + wireType && IndexOf(fields, tag) == |fields|
    requires SkipField(wireType, data).Ok? && SkipField(wireType, data).rest == []
    ensures UnknownRecord(fields, TagBytes(wireType, tag) + data)
  {
    var key := tag * 8 + wireType;
    assert key / 8 == tag && key % 8 == wireType;
    Varint32RoundTrip(key, data);
  }
}
