/** What several records of one field come to, whatever bytes they hold. */
module RecordLaws {
  import opened Wire
  import opened Wrappers
  import opened Descriptor
  import opened Decoding
  import opened DecodeOfEncode
  import opened Composition

  /** A record of field f whose data is the payload behind its length. */
  function Framed(f: Field, payload: seq<byte>): seq<byte> {
    TagBytes(WT_STRING, f.tag) + (VarintBytes(|payload|) + payload)
  }

  /** Field i of the descriptor is a submessage outside arrays and unions. */
  predicate SingleSubmessage(fields: seq<Field>, i: nat) {
    i < |fields| && fields[i].ltype.Submessage? && (fields[i].htype.Required? || fields[i].htype.Optional?)
  }

  predicate UnionSubmessage(fields: seq<Field>, i: nat) {
    i < |fields| && fields[i].ltype.Submessage? && fields[i].htype.Oneof?
  }

  predicate RepeatedSubmessage(fields: seq<Field>, i: nat) {
    i < |fields| && fields[i].ltype.Submessage? && fields[i].htype.Repeated?
  }

  /** What a singular field holds once it has been decoded. */
  function Present(f: Field, v: Value): Slot {
    if f.htype.Optional? && f.sizeOffset != 0 then Flagged(true, v) else Single(v)
  }

  /** The submessage that a singular field of the struct holds. */
  function Inside(fields: seq<Field>, i: nat, m: Msg): (r: Msg)
    requires SingleSubmessage(fields, i) && |m| == |fields|
    ensures |r| == |fields[i].ltype.fields|
  {
    MsgOf(Held(m[i]), fields[i].ltype.fields)
  }

  // ------------------------------------------------------------------- one record

  lemma {:induction false} FramedReads(fields: seq<Field>, i: nat, p: seq<byte>, t: seq<byte>, m: Msg)
    requires i < |fields| == |m| && WellFormed(fields) && fields[i].ltype.Submessage? && |p| < TWO32
    ensures var f := fields[i];
            DecodeRecord(fields, Framed(f, p) + t, m)
            == RecordOf(fields, i, m, DecodeValue(f, VarintBytes(|p|) + p + t, Before(f, m[SlotOf(fields, i)])))
  {
    var f := fields[i];
    assert Framed(f, p) + t == TagBytes(WT_STRING, f.tag) + (VarintBytes(|p|) + p + t);
    KeyReads(fields, i, WT_STRING, VarintBytes(|p|) + p + t);
  }

  /** A singular submessage is decoded onto what the field holds. */
  lemma {:induction false} SingleReads(fields: seq<Field>, i: nat, p: seq<byte>, t: seq<byte>, m: Msg)
    requires WellFormed(fields) && SingleSubmessage(fields, i) && |m| == |fields| && |p| < TWO32
    ensures var f := fields[i];
            DecodeRecord(fields, Framed(f, p) + t, m)
            == match DecodeMessage(f.ltype.fields, p, Inside(fields, i, m))
               case Fail => Bad
               case Ok(v, _) => Next(f.tag, m[i := Present(f, Sub(v))], t)
  {
    FramedReads(fields, i, p, t, m);
    SubmessageReads(fields[i], p, Held(m[i]), t);
  }

  /** A member of a union is decoded from its defaults, and takes the place of whatever the
      union held. */
  lemma {:induction false} MemberReads(fields: seq<Field>, i: nat, p: seq<byte>, t: seq<byte>, m: Msg)
    requires WellFormed(fields) && UnionSubmessage(fields, i) && |m| == |fields| && |p| < TWO32
    ensures var f := fields[i];
            DecodeRecord(fields, Framed(f, p) + t, m)
            == match Decode(f.ltype.fields, p)
               case Fail => Bad
               case Ok(v, _) => Next(f.tag, m[SlotOf(fields, i) := Union(f.tag, Sub(v))], t)
  {
    FramedReads(fields, i, p, t, m);
    SubmessageReads(fields[i], p, DefaultValue(fields[i]), t);
  }

  /** An element of an array is decoded from its defaults. */
  lemma {:induction false} ElementReads(fields: seq<Field>, i: nat, p: seq<byte>, t: seq<byte>, m: Msg)
    requires WellFormed(fields) && RepeatedSubmessage(fields, i) && |m| == |fields| && |p| < TWO32
    ensures var f := fields[i];
            DecodeRecord(fields, Framed(f, p) + t, m)
            == if |Items(m[i])| >= f.arraySize then Bad
               else match Decode(f.ltype.fields, p)
                    case Fail => Bad
                    case Ok(v, _) => Next(f.tag, m[i := Array(Items(m[i]) + [Sub(v)])], t)
  {
    FramedReads(fields, i, p, t, m);
    SubmessageReads(fields[i], p, DefaultValue(fields[i]), t);
  }

  // ------------------------------------------------------------------ two records

  /** Submessages merge: two records of a singular submessage decode exactly as one record
      that holds the two payloads one behind the other. */
  lemma {:induction false} SubmessagesMerge(fields: seq<Field>, i: nat, p1: seq<byte>, p2: seq<byte>, t: seq<byte>,
                                            m: Msg, seen: set<nat>)
    requires WellFormed(fields) && SingleSubmessage(fields, i) && |m| == |fields| && |p1 + p2| < TWO32
    requires var inner := fields[i].ltype.fields;
             var first := DecodeMessage(inner, p1, Inside(fields, i, m));
             && first.Ok? && DecodeFields(inner, p1, Inside(fields, i, m), {}).Exhausted?
             && DecodeMessage(inner, p2, first.value).Ok?
    ensures var f := fields[i];
            DecodeFields(fields, Framed(f, p1) + (Framed(f, p2) + t), m, seen)
            == DecodeFields(fields, Framed(f, p1 + p2) + t, m, seen)
  {
    var f := fields[i];
    var inner := f.ltype.fields;
    var m1 := DecodeMessage(inner, p1, Inside(fields, i, m)).value;
    var s := Framed(f, p2) + t;
    var a := m[i := Present(f, Sub(m1))];
    SingleReads(fields, i, p1, s, m);
    assert Inside(fields, i, a) == m1;
    SingleReads(fields, i, p2, t, a);
    var m2 := DecodeMessage(inner, p2, m1).value;
    assert a[i := Present(f, Sub(m2))] == m[i := Present(f, Sub(m2))];
    assert seen + {f.tag} + {f.tag} == seen + {f.tag};
    DecodingComposes(inner, p1, p2, Inside(fields, i, m));
    SingleReads(fields, i, p1 + p2, t, m);
  }

  /** A member of a union replaces what an earlier record has put there, be it of the same
      member or of another one: but for having been seen, the earlier one leaves no trace. */
  lemma {:induction false} MembersReplace(fields: seq<Field>, j: nat, i: nat, p1: seq<byte>, p2: seq<byte>,
                                          t: seq<byte>, m: Msg, seen: set<nat>)
    requires WellFormed(fields) && UnionSubmessage(fields, j) && UnionSubmessage(fields, i)
    requires SlotOf(fields, j) == SlotOf(fields, i) && |m| == |fields| && |p1| < TWO32 && |p2| < TWO32
    requires Decode(fields[j].ltype.fields, p1).Ok?
    ensures var f := fields[i];
            DecodeFields(fields, Framed(fields[j], p1) + (Framed(f, p2) + t), m, seen)
            == DecodeFields(fields, Framed(f, p2) + t, m, seen + {fields[j].tag})
  {
    var f, g, k := fields[i], fields[j], SlotOf(fields, i);
    var s := Framed(f, p2) + t;
    var a := m[k := Union(g.tag, Sub(Decode(g.ltype.fields, p1).value))];
    MemberReads(fields, j, p1, s, m);
    MemberReads(fields, i, p2, t, a);
    MemberReads(fields, i, p2, t, m);
    if Decode(f.ltype.fields, p2).Ok? {
      var slot := Union(f.tag, Sub(Decode(f.ltype.fields, p2).value));
      assert a[k := slot] == m[k := slot];
    }
  }

  /** Records of a repeated submessage append elements, each decoded from its defaults, as
      long as there is room for them. */
  lemma {:induction false} ElementsAppend(fields: seq<Field>, i: nat, p1: seq<byte>, p2: seq<byte>, t: seq<byte>,
                                          m: Msg, seen: set<nat>)
    requires WellFormed(fields) && RepeatedSubmessage(fields, i) && |m| == |fields|
    requires |p1| < TWO32 && |p2| < TWO32
    ensures var f := fields[i];
            var v1, v2 := Decode(f.ltype.fields, p1), Decode(f.ltype.fields, p2);
            DecodeFields(fields, Framed(f, p1) + (Framed(f, p2) + t), m, seen)
            == if v1.Fail? || v2.Fail? || |Items(m[i])| + 2 > f.arraySize then Failed
               else DecodeFields(fields, t, m[i := Array(Items(m[i]) + [Sub(v1.value), Sub(v2.value)])],
                                 seen + {f.tag})
  {
    var f := fields[i];
    var v1, v2 := Decode(f.ltype.fields, p1), Decode(f.ltype.fields, p2);
    var s := Framed(f, p2) + t;
    ElementReads(fields, i, p1, s, m);
    if |Items(m[i])| < f.arraySize && v1.Ok? {
      var a := m[i := Array(Items(m[i]) + [Sub(v1.value)])];
      ElementReads(fields, i, p2, t, a);
      assert seen + {f.tag} + {f.tag} == seen + {f.tag};
      if v2.Ok? {
        assert Items(m[i]) + [Sub(v1.value)] + [Sub(v2.value)] == Items(m[i]) + [Sub(v1.value), Sub(v2.value)];
        assert a[i := Array(Items(m[i]) + [Sub(v1.value), Sub(v2.value)])]
            == m[i := Array(Items(m[i]) + [Sub(v1.value), Sub(v2.value)])];
      }
    }
  }

  predicate SingleScalar(fields: seq<Field>, i: nat) {
    i < |fields| && !fields[i].ltype.Submessage? && (fields[i].htype.Required? || fields[i].htype.Optional?)
  }

  lemma {:induction false} ScalarField(fields: seq<Field>, i: nat, wireType: nat, s: seq<byte>, m: Msg)
    requires SingleScalar(fields, i) && |m| == |fields|
    ensures DecodeField(fields, i, wireType, s, m)
         == match DecodeScalar(fields[i], s)
            case Fail => Fail
            case Ok(v, rest) => Ok(m[i := Present(fields[i], v)], rest)
  {}

  /** What a singular field that is no submessage held does not matter. */
  lemma {:induction false} ScalarReads(fields: seq<Field>, i: nat, wireType: nat, s: seq<byte>, m: Msg)
    requires WellFormed(fields) && SingleScalar(fields, i) && |m| == |fields| && wireType < 8
    ensures DecodeRecord(fields, TagBytes(wireType, fields[i].tag) + s, m)
         == match DecodeScalar(fields[i], s)
            case Fail => Bad
            case Ok(v, rest) => Next(fields[i].tag, m[i := Present(fields[i], v)], rest)
  {
    KeyReads(fields, i, wireType, s);
    ScalarField(fields, i, wireType, s, m);
  }

  /** The last record of a singular field that is no submessage wins: a complete one before
      it, of any wire type, leaves no trace. */
  lemma {:induction false} LastOneWins(fields: seq<Field>, i: nat, w1: nat, w2: nat, e1: seq<byte>, s: seq<byte>,
                                       m: Msg, seen: set<nat>)
    requires WellFormed(fields) && SingleScalar(fields, i) && |m| == |fields| && w1 < 8 && w2 < 8
    requires DecodeScalar(fields[i], e1).Ok? && DecodeScalar(fields[i], e1).rest == []
    ensures var k1, k2 := TagBytes(w1, fields[i].tag), TagBytes(w2, fields[i].tag);
            DecodeFields(fields, k1 + (e1 + (k2 + s)), m, seen)
            == DecodeFields(fields, k2 + s, m, seen + {fields[i].tag})
  {
    var f := fields[i];
    var s1 := TagBytes(w2, f.tag) + s;
    var a := m[i := Present(f, DecodeScalar(f, e1).value)];
    ScalarExtends(f, e1, s1);
    Nothing(s1);
    ScalarReads(fields, i, w1, e1 + s1, m);
    FirstRecord(fields, TagBytes(w1, f.tag) + (e1 + s1), m, seen);
    ScalarReads(fields, i, w2, s, a);
    ScalarReads(fields, i, w2, s, m);
    FirstRecord(fields, s1, a, seen + {f.tag});
    FirstRecord(fields, s1, m, seen + {f.tag});
    if DecodeScalar(f, s).Ok? {
      var slot := Present(f, DecodeScalar(f, s).value);
      assert a[i := slot] == m[i := slot];
    }
  }

  lemma {:induction false} Nothing(s: seq<byte>)
    ensures [] + s == s
  {}

  // --------------------------------------------------------------- what must occur

  /** Decoding comes upon a record of that tag. */
  predicate Occurs(fields: seq<Field>, s: seq<byte>, m: Msg, tag: nat)
    requires |fields| == |m|
    decreases |s|
  {
    s != [] &&
    match DecodeRecord(fields, s, m)
    case Next(_, m', rest) => DecodeVarint32(s).value / 8 == tag || Occurs(fields, rest, m', tag)
    case _ => false
  }

  /** It comes to the end of the stream, or to a zero key, without a bad record. */
  predicate Ends(fields: seq<Field>, s: seq<byte>, m: Msg)
    requires |fields| == |m|
    decreases |s|
  {
    s == [] ||
    match DecodeRecord(fields, s, m)
    case Bad => false
    case Stop(_) => true
    case Next(_, m', rest) => Ends(fields, rest, m')
  }

  lemma {:induction false} SeenOccurs(fields: seq<Field>, s: seq<byte>, m: Msg, seen: set<nat>, tag: nat)
    requires |fields| == |m|
    ensures var p := DecodeFields(fields, s, m, seen);
            !p.Failed? == Ends(fields, s, m)
              && (!p.Failed? ==> (tag in p.seen <==> tag in seen || Occurs(fields, s, m, tag)))
    decreases |s|
  {
    if s != [] {
      var r := DecodeRecord(fields, s, m);
      if r.Next? { SeenOccurs(fields, r.rest, r.msg, seen + {r.tag}, tag); }
    }
  }

  /** The required fields before field i. */
  function RequiredBefore(fields: seq<Field>, i: nat): set<nat>
    requires i <= |fields|
  {
    set j: nat | j < i && fields[j].htype.Required?
  }

  lemma {:induction false} OrdinalCounts(fields: seq<Field>, i: nat)
    requires i <= |fields|
    ensures Ordinal(fields, i) == |RequiredBefore(fields, i)|
  {
    if i == 0 {
      assert RequiredBefore(fields, 0) == {};
    } else {
      OrdinalCounts(fields, i - 1);
      var before := RequiredBefore(fields, i - 1);
      assert RequiredBefore(fields, i) == before + (if fields[i - 1].htype.Required? then {i - 1} else {});
      assert i - 1 !in before;
    }
  }

  /** A required field that the decoder looks for: it is among the first 64. */
  predicate LookedFor(fields: seq<Field>, i: nat)
    requires i < |fields|
  {
    fields[i].htype.Required? && |RequiredBefore(fields, i)| < 64
  }

  /** Decoding succeeds exactly when there is no bad record up to the end and a record occurs
      of each of the first 64 required fields. */
  lemma {:induction false} DecodesExactly(fields: seq<Field>, s: seq<byte>, m: Msg)
    requires |fields| == |m|
    ensures DecodeMessage(fields, s, m).Ok?
       <==> && Ends(fields, s, m)
            && forall i {:trigger LookedFor(fields, i)} | 0 <= i < |fields| && LookedFor(fields, i) ::
                 Occurs(fields, s, m, fields[i].tag)
  {
    var p := DecodeFields(fields, s, m, {});
    SeenOccurs(fields, s, m, {}, 0);
    forall i | 0 <= i < |fields|
      ensures LookedFor(fields, i) <==> fields[i].htype.Required? && Ordinal(fields, i) < PB_MAX_REQUIRED_FIELDS
      ensures !p.Failed? ==> (fields[i].tag in p.seen <==> Occurs(fields, s, m, fields[i].tag))
    {
      OrdinalCounts(fields, i);
      SeenOccurs(fields, s, m, {}, fields[i].tag);
    }
    if !p.Failed? && RequiredSeen(fields, p.seen) {
      forall i | 0 <= i < |fields| && LookedFor(fields, i)
        ensures Occurs(fields, s, m, fields[i].tag)
      {
        assert fields[i].tag in p.seen;
      }
    }
  }
}
