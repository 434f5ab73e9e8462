/** Repeated scalar fields decode to the same array however their elements are split
    into packed and unpacked records. */
module PackedArrays {
  import opened Wire
  import opened Wrappers
  import opened Descriptor
  import opened Decoding
  import opened DecodeOfEncode
  import opened Composition

  /** One record of a repeated field: several elements packed together, or a single one
      under a wire type other than that of packed data. */
  datatype Chunk = Packed(elements: seq<seq<byte>>) | Unpacked(wireType: nat, element: seq<byte>)

  /** The bytes of one element, in any form the decoder accepts. */
  predicate IsElement(f: Field, e: seq<byte>) {
    DecodeScalar(f, e).Ok? && DecodeScalar(f, e).rest == []
  }

  predicate AreElements(f: Field, es: seq<seq<byte>>) {
    forall i | 0 <= i < |es| :: IsElement(f, es[i])
  }

  function Flat(es: seq<seq<byte>>): seq<byte> {
    if es == [] then [] else es[0] + Flat(es[1..])
  }

  function Values(f: Field, es: seq<seq<byte>>): (vs: seq<Value>)
    requires AreElements(f, es)
    ensures |vs| == |es|
  {
    seq(|es|, i requires 0 <= i < |es| && AreElements(f, es) => DecodeScalar(f, es[i]).value)
  }

  function Elements(c: Chunk): seq<seq<byte>> {
    match c
    case Packed(es) => es
    case Unpacked(_, e) => [e]
  }

  predicate IsChunk(f: Field, c: Chunk) {
    && AreElements(f, Elements(c))
    && (c.Packed? ==> |Flat(c.elements)| < TWO32)
    && (c.Unpacked? ==> c.wireType < 8 && c.wireType != WT_STRING)
  }

  function ChunkBytes(f: Field, c: Chunk): seq<byte> {
    match c
    case Packed(es) => TagBytes(WT_STRING, f.tag) + (VarintBytes(|Flat(es)|) + Flat(es))
    case Unpacked(wireType, e) => TagBytes(wireType, f.tag) + e
  }

  function AllBytes(f: Field, cs: seq<Chunk>): seq<byte> {
    if cs == [] then [] else ChunkBytes(f, cs[0]) + AllBytes(f, cs[1..])
  }

  function AllElements(cs: seq<Chunk>): seq<seq<byte>> {
    if cs == [] then [] else Elements(cs[0]) + AllElements(cs[1..])
  }

  lemma {:induction false} AllAreElements(f: Field, cs: seq<Chunk>)
    requires forall n | 0 <= n < |cs| :: IsChunk(f, cs[n])
    ensures AreElements(f, AllElements(cs))
  {
    if cs != [] {
      assert IsChunk(f, cs[0]);
      AllAreElements(f, cs[1..]);
    }
  }

  lemma {:induction false} FirstElement(f: Field, es: seq<seq<byte>>, t: seq<byte>)
    requires AreElements(f, es) && es != []
    ensures AreElements(f, es[1..])
    ensures Values(f, es) == [DecodeScalar(f, es[0]).value] + Values(f, es[1..])
    ensures DecodeScalar(f, es[0] + t) == Ok(DecodeScalar(f, es[0]).value, t)
    ensures Packable(f.ltype) ==> es[0] != []
  {
    assert IsElement(f, es[0]);
    assert forall i | 0 <= i < |es| - 1 :: es[1..][i] == es[i + 1];
    ScalarExtends(f, es[0], t);
    assert [] + t == t;
  }

  lemma {:induction false} PayloadDecodes(f: Field, es: seq<seq<byte>>, done: seq<Value>)
    requires Packable(f.ltype) && AreElements(f, es) && |done| <= f.arraySize
    ensures DecodePacked(f, Flat(es), done)
         == if |done| + |es| <= f.arraySize then Some(done + Values(f, es)) else None
    decreases |es|
  {
    if es == [] {
      assert done + Values(f, es) == done;
    } else {
      var e, others := es[0], es[1..];
      FirstElement(f, es, Flat(others));
      var v := DecodeScalar(f, e).value;
      NextElement(f, Flat(es), v, Flat(others), done);
      if |done| < f.arraySize {
        PayloadDecodes(f, others, done + [v]);
        OneByOne(done, v, Values(f, others));
      }
    }
  }

  /** The array with further elements. */
  function Appended(a: Msg, i: nat, vs: seq<Value>): (a': Msg)
    requires i < |a|
    ensures |a'| == |a|
  {
    a[i := Array(Items(a[i]) + vs)]
  }

  lemma {:induction false} UnpackedDecodes(fields: seq<Field>, i: nat, wireType: nat, e: seq<byte>, a: Msg,
                                           t: seq<byte>)
    requires i < |fields| == |a| && WellFormed(fields) && fields[i].htype.Repeated? && Packable(fields[i].ltype)
    requires IsElement(fields[i], e) && wireType < 8 && wireType != WT_STRING
    ensures var f := fields[i];
            DecodeRecord(fields, TagBytes(wireType, f.tag) + (e + t), a)
            == if |Items(a[i])| >= f.arraySize then Bad
               else Next(f.tag, Appended(a, i, [DecodeScalar(f, e).value]), t)
  {
    var f := fields[i];
    KeyReads(fields, i, wireType, e + t);
    ScalarExtends(f, e, t);
    assert [] + t == t;
    assert DecodeValue(f, e + t, Before(f, a[i])) == Ok(DecodeScalar(f, e).value, t);
    assert SlotOf(fields, i) == i;
  }

  lemma {:induction false} ChunkDecodes(fields: seq<Field>, i: nat, c: Chunk, a: Msg, seen: set<nat>, t: seq<byte>)
    requires i < |fields| == |a| && WellFormed(fields) && fields[i].htype.Repeated? && Packable(fields[i].ltype)
    requires IsChunk(fields[i], c) && |Items(a[i])| <= fields[i].arraySize
    ensures var f := fields[i];
            DecodeFields(fields, ChunkBytes(f, c) + t, a, seen)
            == if |Items(a[i])| + |Elements(c)| > f.arraySize then Failed
               else DecodeFields(fields, t, Appended(a, i, Values(f, Elements(c))), seen + {f.tag})
  {
    var f := fields[i];
    assert ChunkBytes(f, c) + t != [];
    match c
    case Packed(es) =>
      var p := Flat(es);
      assert ChunkBytes(f, c) + t == TagBytes(WT_STRING, f.tag) + (VarintBytes(|p|) + p + t);
      PackedRecord(fields, i, a, p, t);
      PayloadDecodes(f, es, Items(a[i]));
    case Unpacked(wireType, e) =>
      assert ChunkBytes(f, c) + t == TagBytes(wireType, f.tag) + (e + t);
      assert IsElement(f, Elements(c)[0]);
      UnpackedDecodes(fields, i, wireType, e, a, t);
      assert Values(f, Elements(c)) == [DecodeScalar(f, e).value];
  }

  lemma {:induction false} ValuesAppend(f: Field, es: seq<seq<byte>>, es': seq<seq<byte>>)
    requires AreElements(f, es) && AreElements(f, es')
    ensures AreElements(f, es + es') && Values(f, es + es') == Values(f, es) + Values(f, es')
  {
    forall i | 0 <= i < |es + es'|
      ensures IsElement(f, (es + es')[i])
    {
      if i >= |es| { assert IsElement(f, es'[i - |es|]); }
    }
  }

  /** The elements of all records are appended in order, whatever the records; decoding
      fails exactly when they are more than the array holds. */
  lemma {:induction false} ChunksDecode(fields: seq<Field>, i: nat, cs: seq<Chunk>, a: Msg, seen: set<nat>,
                                        t: seq<byte>)
    requires i < |fields| == |a| && WellFormed(fields) && fields[i].htype.Repeated? && Packable(fields[i].ltype)
    requires forall n | 0 <= n < |cs| :: IsChunk(fields[i], cs[n])
    requires a[i].Array? && |a[i].items| <= fields[i].arraySize
    ensures AreElements(fields[i], AllElements(cs))
    ensures var f, es := fields[i], AllElements(cs);
            DecodeFields(fields, AllBytes(f, cs) + t, a, seen)
            == if |a[i].items| + |es| > f.arraySize then Failed
               else DecodeFields(fields, t, Appended(a, i, Values(f, es)),
                                 seen + (if cs == [] then {} else {f.tag as nat}))
    decreases |cs|
  {
    var f, es := fields[i], AllElements(cs);
    AllAreElements(f, cs);
    if cs == [] {
      assert AllBytes(f, cs) + t == t;
      assert a[i].items + Values(f, es) == a[i].items;
      assert Appended(a, i, Values(f, es)) == a;
      assert seen + {} == seen;
    } else {
      var first, others := Elements(cs[0]), AllElements(cs[1..]);
      var behind := AllBytes(f, cs[1..]) + t;
      assert IsChunk(f, cs[0]);
      AllAreElements(f, cs[1..]);
      assert AllBytes(f, cs) + t == ChunkBytes(f, cs[0]) + behind;
      ChunkDecodes(fields, i, cs[0], a, seen, behind);
      if |a[i].items| + |first| <= f.arraySize {
        ChunksDecode(fields, i, cs[1..], Appended(a, i, Values(f, first)), seen + {f.tag}, t);
        AppendedTwice(f, a, i, first, others);
        assert seen + {f.tag} + {f.tag} == seen + {f.tag};
        assert seen + {f.tag} + {} == seen + {f.tag};
      }
    }
  }

  lemma {:induction false} AppendedTwice(f: Field, a: Msg, i: nat, es: seq<seq<byte>>, es': seq<seq<byte>>)
    requires i < |a| && AreElements(f, es) && AreElements(f, es')
    ensures AreElements(f, es + es')
    ensures Appended(Appended(a, i, Values(f, es)), i, Values(f, es')) == Appended(a, i, Values(f, es + es'))
  {
    ValuesAppend(f, es, es');
    assert Items(a[i]) + Values(f, es) + Values(f, es') == Items(a[i]) + Values(f, es + es');
  }

  /** Two ways of sending the same elements decode alike. */
  lemma {:induction false} SplittingDoesNotMatter(fields: seq<Field>, i: nat, cs: seq<Chunk>, ds: seq<Chunk>,
                                                  a: Msg, seen: set<nat>, t: seq<byte>)
    requires i < |fields| == |a| && WellFormed(fields) && fields[i].htype.Repeated? && Packable(fields[i].ltype)
    requires forall n | 0 <= n < |cs| :: IsChunk(fields[i], cs[n])
    requires forall n | 0 <= n < |ds| :: IsChunk(fields[i], ds[n])
    requires a[i].Array? && |a[i].items| <= fields[i].arraySize
    requires AllElements(cs) == AllElements(ds) && (cs == [] <==> ds == [])
    ensures DecodeFields(fields, AllBytes(fields[i], cs) + t, a, seen)
         == DecodeFields(fields, AllBytes(fields[i], ds) + t, a, seen)
  {
    ChunksDecode(fields, i, cs, a, seen, t);
    ChunksDecode(fields, i, ds, a, seen, t);
  }
}
