/** Decoding an encoded message restores it. */
module RoundTrip {
  import opened Wire
  import opened Wrappers
  import opened Descriptor
  import opened Encoding
  import opened Decoding
  import opened Merging
  import opened DecodeOfEncode

  // ------------------------------------------------ what is meant by restored

  /** Message m holds every field of b, but for those with a has_ flag that is not set, which
      are at their defaults. A union whose tag is that of no member holds nothing, and is
      unset in m. A field without a has_ flag holds what it held in b; only if its descriptor
      gives it a default of its own is a zero lost to that. */
  predicate Restores(fields: seq<Field>, b: Msg, m: Msg)
    decreases fields, 1
  {
    |b| == |m| == |fields| &&
    forall k {:trigger RestoresSlot(fields, k, b[k], m[k])} | 0 <= k < |fields| ::
      RestoresSlot(fields, k, b[k], m[k])
  }

  predicate RestoresSlot(fields: seq<Field>, k: nat, y: Slot, z: Slot)
    requires k < |fields|
    decreases fields, 0
  {
    var f := fields[k];
    match y
    case Single(v) =>
      z.Single? &&
      if f.htype.Optional? && HasOwnDefault(f) && IsZero(f, v) then z.value == DefaultValue(f)
      else SameValue(f, v, z.value)
    case Flagged(has, v) =>
      z.Flagged? && z.has == has &&
      if has then SameValue(f, v, z.value) else z.value == DefaultValue(f)
    case Array(items) =>
      z.Array? && |z.items| == |items| && forall i | 0 <= i < |items| :: SameValue(f, items[i], z.items[i])
    case Union(which, v) =>
      if Member(fields, k, which)
      then z.Union? && z.which == which && SameValue(fields[IndexOf(fields, which)], v, z.value)
      else z.Unset?
    case _ => z == y
  }

  /** Equal as the message format sees it: of a string what stands before its terminator,
      of a bool whether it is zero. */
  predicate SameValue(f: Field, v: Value, w: Value)
    decreases f, 0
  {
    match (f.ltype, v)
    case (Submessage(fields), Sub(m)) => w.Sub? && Restores(fields, m, w.msg)
    case (Bool, Num(n)) => w == Num(if n != 0 then 1 else 0)
    case (String, Blob(b)) => w == Blob(b[..StringLength(b, f.dataSize)])
    case _ => w == v
  }

  /** Every string to be encoded ends inside its buffer. */
  predicate Terminated(fields: seq<Field>, m: Msg)
    decreases fields, 1
  {
    |m| == |fields| && forall i {:trigger TerminatedSlot(fields[i], m[SlotOf(fields, i)])} | 0 <= i < |fields| ::
      TerminatedSlot(fields[i], m[SlotOf(fields, i)])
  }

  predicate TerminatedSlot(f: Field, slot: Slot)
    decreases f, 1
  {
    match slot
    case Single(v) => (f.htype.Optional? && IsZero(f, v)) || TerminatedValue(f, v)
    case Flagged(has, v) => has ==> TerminatedValue(f, v)
    case Array(items) => forall i | 0 <= i < |items| :: TerminatedValue(f, items[i])
    case Union(which, v) => which == f.tag ==> TerminatedValue(f, v)
    case _ => true
  }

  predicate TerminatedValue(f: Field, v: Value)
    decreases f, 0
  {
    match (f.ltype, v)
    case (Submessage(fields), Sub(m)) => Terminated(fields, m)
    case (String, Blob(b)) => StringLength(b, f.dataSize) < f.dataSize
    case _ => true
  }

  // ------------------------------------------------------ what need not be written

  lemma {:induction false} AbsentRestored(fields: seq<Field>, k: nat, slot: Slot)
    requires k < |fields| && WellFormed(fields) && ShapedSlot(fields, k, slot) && ShapedInside(fields[k], slot)
    requires fields[k].htype.Oneof? ==> slot.Unset? || slot.Shared?
    requires !fields[k].htype.Oneof? ==> IsAbsent(fields[k], slot)
    ensures RestoresSlot(fields, k, slot, DefaultSlot(fields[k], Continues(fields, k)))
    decreases fields[k], 1
  {
    var f := fields[k];
    assert WellFormedField(fields, k);
    if f.htype.Optional? && f.sizeOffset == 0 && !HasOwnDefault(f) { ZeroRestored(f, slot.value); }
  }

  /** A field that holds zero need not be written: zero is what the reader fills in. */
  lemma {:induction false} ZeroRestored(f: Field, v: Value)
    requires WellFormedInside(f) && ShapedValue(f, v) && IsZero(f, v) && !HasOwnDefault(f)
    ensures SameValue(f, v, DefaultValue(f))
    decreases f, 0
  {
    if f.ltype.Submessage? {
      var fields, m := f.ltype.fields, v.msg;
      var d := DefaultMsg(fields);
      forall k | 0 <= k < |fields|
        ensures RestoresSlot(fields, k, m[k], d[k])
      {
        assert ShapedSlot(fields, k, m[k]) && WellFormedField(fields, k);
        assert IsAbsent(fields[k], m[SlotOf(fields, k)]);
        assert ShapedInside(fields[k], m[SlotOf(fields, k)]);
        AbsentRestored(fields, k, m[k]);
      }
    }
  }

  // --------------------------------------------------------------- the proof

  lemma {:induction false} ValueRestored(f: Field, v: Value)
    requires WellFormedInside(f) && ShapedValue(f, v) && EncodeValue(f, v).Some?
    ensures var w := MergeValue(f, DefaultValue(f), v);
            w.Some? == TerminatedValue(f, v) && (w.Some? ==> SameValue(f, v, w.value))
    decreases f, 0
  {
    if f.ltype.Submessage? { MessageRestored(f.ltype.fields, v.msg); }
  }

  lemma {:induction false} IntoRestored(f: Field, slot: Slot, v: Value)
    requires WellFormedInside(f) && ShapedValue(f, v) && EncodeValue(f, v).Some?
    requires Before(f, slot) == DefaultValue(f)
    ensures var z := MergeInto(f, slot, v);
            && z.Some? == TerminatedValue(f, v)
            && (z.Some? ==> exists w :: z.value == After(f, slot, w) && SameValue(f, v, w))
    decreases f, 1
  {
    ValueRestored(f, v);
    var w := MergeValue(f, DefaultValue(f), v);
    if w.Some? { assert MergeInto(f, slot, v).value == After(f, slot, w.value) && SameValue(f, v, w.value); }
  }

  lemma {:induction false} EachRestored(f: Field, items: seq<Value>)
    requires WellFormedInside(f)
    requires forall i | 0 <= i < |items| :: ShapedValue(f, items[i]) && EncodeValue(f, items[i]).Some?
    ensures var ws := MergeEach(f, items);
            && ws.Some? == (forall i | 0 <= i < |items| :: TerminatedValue(f, items[i]))
            && (ws.Some? ==> forall i | 0 <= i < |items| :: SameValue(f, items[i], ws.value[i]))
    decreases f, 1, |items|
  {
    if items != [] {
      ValueRestored(f, items[0]);
      EachRestored(f, items[1..]);
      if forall i | 0 <= i < |items| :: TerminatedValue(f, items[i]) {
        assert forall i | 0 <= i < |items| - 1 :: items[1..][i] == items[i + 1];
      } else {
        var i :| 0 <= i < |items| && !TerminatedValue(f, items[i]);
        assert i > 0 ==> items[1..][i - 1] == items[i];
      }
    }
  }

  /** Each element of an encodable array is encodable. */
  lemma {:induction false} EachEncodable(f: Field, items: seq<Value>, i: nat)
    requires i < |items|
    requires if Packable(f.ltype) then EncodePacked(f, items).Some? else EncodeEach(f, items).Some?
    ensures EncodeValue(f, items[i]).Some?
  {
    if i > 0 { EachEncodable(f, items[1..], i - 1); }
  }

  lemma {:induction false} ArrayRestored(f: Field, items: seq<Value>)
    requires WellFormedInside(f) && ShapedInside(f, Array(items)) && EncodeArray(f, items).Some?
    ensures var ws := MergeEach(f, items);
            && ws.Some? == TerminatedSlot(f, Array(items))
            && (ws.Some? ==> forall i | 0 <= i < |items| :: SameValue(f, items[i], ws.value[i]))
    ensures |items| <= f.arraySize || items == []
    decreases f, 2
  {
    forall i | 0 <= i < |items|
      ensures EncodeValue(f, items[i]).Some?
    {
      EachEncodable(f, items, i);
    }
    EachRestored(f, items);
  }

  lemma {:induction false} EncodableFields(fields: seq<Field>, b: Msg, i: nat, j: nat)
    requires |b| == |fields| && i <= j < |fields| && EncodeFrom(fields, b, i).Some?
    ensures EncodeField(fields[j], b[SlotOf(fields, j)]).Some?
    decreases j - i
  {
    if i < j { EncodableFields(fields, b, i + 1, j); }
  }

  /** The field that writes slot k. */
  function WriterOf(fields: seq<Field>, b: Msg, k: nat): (j: nat)
    requires k < |fields| == |b|
    ensures j <= |fields|
  {
    if b[k].Union? && Member(fields, k, b[k].which) then IndexOf(fields, b[k].which) else k
  }

  lemma {:induction false} SlotRestored(fields: seq<Field>, k: nat, b: Msg)
    requires k < |fields| && WellFormed(fields) && ShapedDeep(fields, b) && EncodeMessage(fields, b).Some?
    ensures var j, z := WriterOf(fields, b, k), MergeSlot(fields, k, DefaultMsg(fields)[k], b[k]);
            && j < |fields|
            && (z.Some? <==> b[k].Shared? || TerminatedSlot(fields[j], b[k]))
            && (z.Some? ==> RestoresSlot(fields, k, b[k], z.value))
    decreases fields, 0
  {
    var j := WriterOf(fields, b, k);
    assert ShapedSlot(fields, k, b[k]);
    var f, x := fields[j], DefaultMsg(fields)[k];
    assert x == DefaultSlot(fields[k], Continues(fields, k));
    if b[k].Union? && !Member(fields, k, b[k].which) {
      KeyReads(fields, k, 0, []);
    } else if !b[k].Shared? && !b[k].Unset? {
      assert SlotOf(fields, j) == k;
      assert ShapedInside(f, b[k]);
      EncodableFields(fields, b, 0, j);
      KeyReads(fields, j, 0, []);
      match b[k]
      case Single(v) =>
        if !(f.htype.Optional? && IsZero(f, v)) {
          IntoRestored(f, x, v);
        } else if !HasOwnDefault(f) {
          ZeroRestored(f, v);
        }
      case Flagged(has, v) => if has { IntoRestored(f, x, v); }
      case Array(items) => ArrayRestored(f, items);
      case Union(which, v) => IntoRestored(f, x, v);
      case _ =>
    }
  }

  /** Which field decides whether a slot is terminated. */
  lemma {:induction false} WriterDecides(fields: seq<Field>, b: Msg, i: nat)
    requires i < |fields| && WellFormed(fields) && Shaped(fields, b)
    ensures var k := SlotOf(fields, i);
            var j := WriterOf(fields, b, k);
            && !b[k].Shared? && j < |fields| && SlotOf(fields, j) == k
            && (j == i || TerminatedSlot(fields[i], b[k]))
  {
    var k := SlotOf(fields, i);
    SlotIsFirst(fields, i);
    assert ShapedSlot(fields, k, b[k]);
    KeyReads(fields, i, 0, []);
  }

  lemma {:induction false} MessageRestored(fields: seq<Field>, b: Msg)
    requires WellFormed(fields) && ShapedDeep(fields, b) && EncodeMessage(fields, b).Some?
    ensures var m := Merge(fields, DefaultMsg(fields), b);
            m.Some? == Terminated(fields, b) && (m.Some? ==> Restores(fields, b, m.value))
    decreases fields, 1
  {
    var d := DefaultMsg(fields);
    forall k | 0 <= k < |fields|
      ensures MergeSlot(fields, k, d[k], b[k]).Some? ==>
                RestoresSlot(fields, k, b[k], MergeSlot(fields, k, d[k], b[k]).value)
      ensures Terminated(fields, b) ==> MergeSlot(fields, k, d[k], b[k]).Some?
    {
      SlotRestored(fields, k, b);
      assert ShapedSlot(fields, k, b[k]);
      if !b[k].Shared? && !b[k].Unset? { assert SlotOf(fields, WriterOf(fields, b, k)) == k; }
    }
    if Merge(fields, d, b).Some? {
      forall i | 0 <= i < |fields|
        ensures TerminatedSlot(fields[i], b[SlotOf(fields, i)])
      {
        var k := SlotOf(fields, i);
        WriterDecides(fields, b, i);
        SlotRestored(fields, k, b);
        assert MergeSlot(fields, k, d[k], b[k]).Some?;
      }
    }
  }

  /** Decoding an encoded message succeeds exactly when its strings are terminated, then
      uses up all of its bytes, and restores every present field and the defaults of
      every absent one. */
  lemma {:induction false} DecodeRestores(fields: seq<Field>, b: Msg)
    requires WellFormed(fields) && ShapedDeep(fields, b) && Sized(fields, b) && EncodeMessage(fields, b).Some?
    ensures var p := Decode(fields, EncodeMessage(fields, b).value);
            && (p.Ok? <==> Terminated(fields, b))
            && (p.Ok? ==> p.rest == [] && Restores(fields, b, p.value))
  {
    MessageDecodes(fields, DefaultMsg(fields), b);
    MessageRestored(fields, b);
  }

  /** A message of one string whose buffer has room for a single character. */
  const ONE_CHARACTER := [Field(1, String, Required, Behind(0), 0, 1, 0, None)]

  /** The character fills the buffer: the message is encoded, but not decoded again. */
  lemma {:induction false} UnterminatedIsLost(c: byte)
    requires c != 0
    ensures var m := [Single(Blob([c]))];
            && WellFormed(ONE_CHARACTER) && ShapedDeep(ONE_CHARACTER, m)
            && EncodeMessage(ONE_CHARACTER, m).Some?
            && Decode(ONE_CHARACTER, EncodeMessage(ONE_CHARACTER, m).value).Fail?
  {
    var m := [Single(Blob([c]))];
    var f := ONE_CHARACTER[0];
    assert WellFormedField(ONE_CHARACTER, 0);
    assert StringLength([c], 1) == 1;
    assert EncodeScalar(f, Blob([c])).Some?;
    assert EncodeFrom(ONE_CHARACTER, m, 1) == Some([]);
    assert !TerminatedSlot(f, m[SlotOf(ONE_CHARACTER, 0)]);
    DecodeRestores(ONE_CHARACTER, m);
  }

  lemma {:induction false} ZeroStops(fields: seq<Field>, t: seq<byte>, m: Msg, seen: set<nat>)
    requires |m| == |fields|
    ensures DecodeFields(fields, [0] + t, m, seen) == Stopped(m, seen, t)
  {
    var s: seq<byte> := [0] + t;
    assert s[1..] == t;
    assert DecodeVarint32(s) == Ok(0, t);
    assert DecodeRecord(fields, s, m) == Stop(t);
  }

  /** The form ended by a zero byte stops right behind it, whatever follows. */
  lemma {:induction false} NullTerminatedRestores(fields: seq<Field>, b: Msg, t: seq<byte>)
    requires WellFormed(fields) && ShapedDeep(fields, b) && Sized(fields, b) && EncodeMessage(fields, b).Some?
    ensures var p := Decode(fields, EncodeMessage(fields, b).value + [0] + t);
            && (p.Ok? <==> Terminated(fields, b))
            && (p.Ok? ==> p.rest == t && Restores(fields, b, p.value))
  {
    var d, e := DefaultMsg(fields), EncodeMessage(fields, b).value;
    assert e + [0] + t == e + ([0] + t);
    LoopDecodes(fields, d, b, {}, [0] + t);
    MessageRestored(fields, b);
    assert MergeableFrom(fields, d, b, 0) == Merge(fields, d, b).Some?;
    if MergeableFrom(fields, d, b, 0) {
      var m := MergedFrom(fields, d, b, 0);
      assert m == Merge(fields, d, b).value;
      ZeroStops(fields, t, m, {} + TagsFrom(fields, b, 0));
      assert {} + TagsFrom(fields, b, 0) == TagsFrom(fields, b, 0);
      RequiredEmitted(fields, b, 0);
    }
  }
}
