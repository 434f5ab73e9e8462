/** Encoding multipart form data in memory and to a stream, and splitting it again. */
module Multipart {
  import opened Wire

  type Data = seq<byte>

  const CR: byte := 13
  const LF: byte := 10
  const CRLF: Data := [13, 10]
  const DASHES: Data := [45, 45]

  datatype Header = Header(name: Data, value: Data)

  /** What a body part contributes: its headers, what its stream has left to deliver, and
      whether the stream ends there without an error. */
  datatype Part = Part(headers: seq<Header>, body: Data, readable: bool, hasInitialBoundary: bool,
                       hasFinalBoundary: bool)

  // ---------------------------------------------------------------- the format

  datatype BoundaryType = Initial | Encapsulated | Final

  function BoundaryData(boundaryType: BoundaryType, boundary: Data): Data {
    match boundaryType
    case Initial => DASHES + boundary + CRLF
    case Encapsulated => CRLF + DASHES + boundary + CRLF
    case Final => CRLF + DASHES + boundary + DASHES + CRLF
  }

  function HeaderLine(h: Header): Data { h.name + [58, 32] + h.value }

  function HeaderLines(headers: seq<Header>): Data {
    if headers == [] then [] else HeaderLine(headers[0]) + CRLF + HeaderLines(headers[1..])
  }

  /** A part up to the end of its body. */
  function Opened(p: Part, boundary: Data): Data {
    BoundaryData(if p.hasInitialBoundary then Initial else Encapsulated, boundary)
    + (HeaderLines(p.headers) + CRLF) + p.body
  }

  function EncodedPart(p: Part, boundary: Data): Data {
    Opened(p, boundary) + (if p.hasFinalBoundary then BoundaryData(Final, boundary) else [])
  }

  /** The parts one behind the other. */
  function Assembled(ps: seq<Part>, boundary: Data): Data {
    if ps == [] then [] else EncodedPart(ps[0], boundary) + Assembled(ps[1..], boundary)
  }

  /** What is written of the parts: all of each one up to the first whose body cannot be read
      to its end, and that one up to where reading fails. */
  function Attempted(ps: seq<Part>, boundary: Data): Data {
    if ps == [] then []
    else if ps[0].readable then EncodedPart(ps[0], boundary) + Attempted(ps[1..], boundary)
    else Opened(ps[0], boundary)
  }

  /** Encoding marks the first and the last part. */
  function Marked(ps: seq<Part>): (r: seq<Part>)
    ensures |r| == |ps|
  {
    if ps == [] then []
    else
      var q := ps[0 := ps[0].(hasInitialBoundary := true)];
      q[|q| - 1 := q[|q| - 1].(hasFinalBoundary := true)]
  }

  /** Reading the parts one after the other uses up their bodies, up to and with the first
      one that cannot be read to its end. */
  function Consumed(ps: seq<Part>): (r: seq<Part>)
    ensures |r| == |ps|
  {
    if ps == [] then []
    else [ps[0].(body := [])] + (if ps[0].readable then Consumed(ps[1..]) else ps[1..])
  }

  /** The parts are the same but for what is left of their bodies. */
  predicate OnlyBodiesDiffer(ps: seq<Part>, qs: seq<Part>) {
    |ps| == |qs| && forall i | 0 <= i < |ps| :: qs[i] == ps[i].(body := qs[i].body)
  }

  predicate Readable(ps: seq<Part>) { forall i | 0 <= i < |ps| :: ps[i].readable }

  // ------------------------------------------------------------------ the streams

  class BodyPart {
    const headers: seq<Header>
    /** Whether the body stream ends, and not in an error. */
    const readable: bool
    /** What the body stream has not delivered yet and will deliver before its end or error. */
    var unread: Data
    var hasInitialBoundary: bool
    var hasFinalBoundary: bool

    constructor (headers: seq<Header>, body: Data, readable: bool)
      ensures Value() == Part(headers, body, readable, false, false)
    {
      this.headers, this.readable, unread := headers, readable, body;
      hasInitialBoundary, hasFinalBoundary := false, false;
    }

    function Value(): Part
      reads this
    {
      Part(headers, unread, readable, hasInitialBoundary, hasFinalBoundary)
    }

    /** May be true at the end of the stream, where only reading can tell. */
    method HasBytesAvailable() returns (available: bool)
      ensures unread != [] || !readable ==> available
    {
      if unread != [] || !readable { return true; }
      available := *;
    }

    /** Delivers as many bytes as it likes, at least one as long as there are any; behind them
        is the end or the error. */
    method Read(maxLength: nat) returns (bytes: Data, error: bool)
      requires maxLength > 0
      modifies this`unread
      ensures bytes + unread == old(unread) && |bytes| <= maxLength && (bytes == [] <==> old(unread) == [])
      ensures error <==> old(unread) == [] && !readable
    {
      if unread == [] { return [], !readable; }
      var n: nat :| 1 <= n <= maxLength && n <= |unread|;
      bytes, error := unread[..n], false;
      unread := unread[n..];
    }
  }

  /** What has been written to an output stream, and how many bytes it has room for. */
  datatype Sink = Sink(written: Data, room: nat)

  /** As much of the data as there is room for. */
  function Fitting(data: Data, room: nat): Data { if |data| <= room then data else data[..room] }

  /** Between a and b the data was written as far as there was room for it. */
  predicate Took(a: Sink, b: Sink, data: Data) {
    b.written == a.written + Fitting(data, a.room) && b.room == a.room - |Fitting(data, a.room)|
  }

  lemma {:induction false} TookBoth(a: Sink, b: Sink, c: Sink, x: Data, y: Data)
    requires Took(a, b, x) && Took(b, c, y)
    ensures Took(a, c, x + y)
  {
    assert Fitting(x + y, a.room) == Fitting(x, a.room) + Fitting(y, b.room);
  }

  /** All of the data was written if and only if there was room for it. */
  lemma {:induction false} TookAll(a: Sink, b: Sink, data: Data)
    requires Took(a, b, data)
    ensures b.written == a.written + data <==> |data| <= a.room
  {
    if |data| > a.room { assert |b.written| < |a.written + data|; }
  }

  /** A stream that accepts as many bytes at a time as it likes, as long as it has room. One
      that is not reliable may report an error. */
  class OutputStream {
    const reliable: bool
    var written: Data
    var room: nat

    function Now(): Sink
      reads this
    {
      Sink(written, room)
    }

    constructor (room: nat, reliable: bool)
      ensures this.reliable == reliable && Now() == Sink([], room)
    {
      this.reliable, this.room, written := reliable, room, [];
    }

    method HasSpaceAvailable() returns (available: bool)
      ensures available == (room > 0)
    {
      available := room > 0;
    }

    method Write(buffer: Data, maxLength: nat) returns (n: nat, error: bool)
      requires 0 < maxLength <= |buffer| && room > 0
      modifies this
      ensures reliable ==> !error
      ensures 1 <= n <= maxLength && n <= old(room)
      ensures written == old(written) + buffer[..n] && room == old(room) - n
    {
      n :| 1 <= n <= maxLength && n <= room;
      written, room := written + buffer[..n], room - n;
      error := false;
      if !reliable { error := *; }
    }
  }

  datatype Encoding = Encoded(data: Data) | Failed

  // --------------------------------------------------------------------- encoding

  const STREAM_BUFFER_SIZE := 1024

  class MultipartFormData {
    const boundary: Data
    var bodyParts: seq<BodyPart>
    /** Set when a part could not be appended. */
    var bodyPartError: bool

    ghost predicate Valid()
      reads this
    {
      Distinct(bodyParts)
    }

    ghost function Parts(): seq<Part>
      reads this, bodyParts
    {
      Values(bodyParts)
    }

    constructor (boundary: Data)
      ensures Valid() && this.boundary == boundary && bodyParts == [] && !bodyPartError
    {
      this.boundary, bodyParts, bodyPartError := boundary, [], false;
    }

    method Append(headers: seq<Header>, body: Data, readable: bool)
      requires Valid()
      modifies this
      ensures Valid() && Parts() == old(Parts()) + [Part(headers, body, readable, false, false)]
      ensures bodyPartError == old(bodyPartError)
    {
      var part := new BodyPart(headers, body, readable);
      ValuesAppend(bodyParts, part);
      DistinctAppended(bodyParts, part);
      bodyParts := bodyParts + [part];
    }

    method MarkEnds()
      requires Valid()
      modifies bodyParts
      ensures Parts() == Marked(old(Parts()))
    {
      ghost var before := Parts();
      ValuesAt(bodyParts);
      if bodyParts != [] {
        NoOther(bodyParts, 0);
        NoOther(bodyParts, |bodyParts| - 1);
        bodyParts[0].hasInitialBoundary := true;
        bodyParts[|bodyParts| - 1].hasFinalBoundary := true;
      }
      ValuesAt(bodyParts);
      assert Parts() == Marked(before);
    }

    method Encode() returns (r: Encoding)
      requires Valid()
      modifies bodyParts
      ensures r.Encoded? <==> !bodyPartError && Readable(old(Parts()))
      ensures r.Encoded? ==> r.data == Assembled(Marked(old(Parts())), boundary)
      ensures Parts() == if bodyPartError then old(Parts()) else Consumed(Marked(old(Parts())))
    {
      if bodyPartError { return Failed; }
      MarkedReadable(Parts());
      MarkEnds();
      r := EncodeParts(bodyParts, boundary);
    }

    /** Without an error the same bytes are written that encoding in memory yields, as far as
        the stream has room for them, and whether it had is not reported. */
    method WriteEncodedData(out: OutputStream) returns (ok: bool)
      requires Valid()
      modifies bodyParts, out
      ensures old(out.written) <= out.written
      ensures ok ==> !bodyPartError && Readable(old(Parts()))
      ensures out.reliable ==> (ok <==> !bodyPartError && Readable(old(Parts())))
      ensures ok ==>
                var data := Assembled(Marked(old(Parts())), boundary);
                && Took(old(out.Now()), out.Now(), data)
                && (out.written == old(out.written) + data <==> |data| <= old(out.room))
      ensures out.reliable && !bodyPartError ==>
                Took(old(out.Now()), out.Now(), Attempted(Marked(old(Parts())), boundary))
      ensures ok || out.reliable ==> Parts() == if bodyPartError then old(Parts()) else Consumed(Marked(old(Parts())))
      ensures !bodyPartError ==> OnlyBodiesDiffer(Marked(old(Parts())), Parts())
    {
      if bodyPartError { return false; }
      MarkedReadable(Parts());
      MarkEnds();
      ghost var data := Assembled(Parts(), boundary);
      ok := WriteParts(bodyParts, boundary, out);
      if ok { TookAll(old(out.Now()), out.Now(), data); }
    }
  }

  ghost predicate Distinct(parts: seq<BodyPart>) {
    parts == [] || (parts[0] !in parts[1..] && Distinct(parts[1..]))
  }

  lemma {:induction false} NoOther(parts: seq<BodyPart>, i: nat)
    requires Distinct(parts) && i < |parts|
    ensures forall j | 0 <= j < |parts| && j != i :: parts[j] != parts[i]
  {
    if i > 0 {
      NoOther(parts[1..], i - 1);
      assert parts[i] == parts[1..][i - 1];
      forall j | 0 <= j < |parts| && j != i
        ensures parts[j] != parts[i]
      {
        if j > 0 { assert parts[j] == parts[1..][j - 1]; }
      }
    } else {
      assert forall j | 0 < j < |parts| :: parts[j] == parts[1..][j - 1];
    }
  }

  lemma {:induction false} DistinctAppended(parts: seq<BodyPart>, part: BodyPart)
    requires Distinct(parts) && part !in parts
    ensures Distinct(parts + [part])
  {
    if parts == [] {
      assert [part][1..] == [];
    } else {
      assert (parts + [part])[1..] == parts[1..] + [part];
      DistinctAppended(parts[1..], part);
    }
  }

  ghost function Values(parts: seq<BodyPart>): (r: seq<Part>)
    reads parts
    ensures |r| == |parts|
  {
    if parts == [] then [] else [parts[0].Value()] + Values(parts[1..])
  }

  lemma {:induction false} ValuesAt(parts: seq<BodyPart>)
    ensures forall i | 0 <= i < |parts| :: Values(parts)[i] == parts[i].Value()
  {
    if parts != [] {
      ValuesAt(parts[1..]);
      forall i | 0 <= i < |parts|
        ensures Values(parts)[i] == parts[i].Value()
      {
        if i > 0 { assert Values(parts)[i] == Values(parts[1..])[i - 1]; }
      }
    }
  }

  lemma {:induction false} ValuesAppend(parts: seq<BodyPart>, part: BodyPart)
    ensures Values(parts + [part]) == Values(parts) + [part.Value()]
  {
    ValuesAt(parts);
    ValuesAt(parts + [part]);
  }

  lemma {:induction false} MarkedReadable(ps: seq<Part>)
    ensures Readable(Marked(ps)) == Readable(ps)
  {
    forall i | 0 <= i < |ps|
      ensures Marked(ps)[i].readable == ps[i].readable
    {}
  }

  /** The first i parts can be read, and come to `done`. */
  predicate Progress(ps: seq<Part>, i: nat, boundary: Data, done: Data) {
    i <= |ps| && done == Assembled(ps[..i], boundary) && forall j | 0 <= j < i :: ps[j].readable
  }

  lemma {:induction false} OneMore(ps: seq<Part>, i: nat, boundary: Data, done: Data)
    requires i < |ps| && Progress(ps, i, boundary, done) && ps[i].readable
    ensures Progress(ps, i + 1, boundary, done + EncodedPart(ps[i], boundary))
  {
    AssembledGrows(ps, i, boundary);
  }

  lemma {:induction false} AllDone(ps: seq<Part>, boundary: Data, done: Data)
    requires Progress(ps, |ps|, boundary, done)
    ensures Readable(ps) && done == Assembled(ps, boundary)
  {
    assert ps[..|ps|] == ps;
  }

  lemma {:induction false} AssembledGrows(ps: seq<Part>, i: nat, boundary: Data)
    requires i < |ps|
    ensures Assembled(ps[..i + 1], boundary) == Assembled(ps[..i], boundary) + EncodedPart(ps[i], boundary)
  {
    if i == 0 {
      assert ps[..1] == [ps[0]];
      assert ps[..1][1..] == [];
    } else {
      assert ps[..i + 1][1..] == ps[1..][..i];
      assert ps[..i][1..] == ps[1..][..i - 1];
      AssembledGrows(ps[1..], i - 1, boundary);
    }
  }

  /** The bodies of the first i parts have been used up, those from there on have not been
      touched. */
  ghost predicate Partway(parts: seq<BodyPart>, ps: seq<Part>, i: nat)
    reads parts
  {
    |parts| == |ps| && forall j | 0 <= j < |parts| :: parts[j].Value() == if j < i then ps[j].(body := []) else ps[j]
  }

  /** Reading comes to its end behind the last part or one that cannot be read. */
  predicate StopsBehind(ps: seq<Part>, i: nat) {
    && i <= |ps|
    && (forall j | 0 <= j < i - 1 :: ps[j].readable)
    && (i < |ps| ==> i > 0 && !ps[i - 1].readable)
  }

  lemma {:induction false} ConsumedAt(ps: seq<Part>, i: nat)
    requires StopsBehind(ps, i)
    ensures forall j | 0 <= j < |ps| :: Consumed(ps)[j] == if j < i then ps[j].(body := []) else ps[j]
  {
    if i > 1 {
      ConsumedAt(ps[1..], i - 1);
      forall j | 0 <= j < |ps|
        ensures Consumed(ps)[j] == if j < i then ps[j].(body := []) else ps[j]
      {
        if j > 0 { assert Consumed(ps)[j] == Consumed(ps[1..])[j - 1]; }
      }
    }
  }

  lemma {:induction false} PartwayIsConsumed(parts: seq<BodyPart>, ps: seq<Part>, i: nat)
    requires StopsBehind(ps, i) && Partway(parts, ps, i)
    ensures Values(parts) == Consumed(ps)
  {
    ValuesAt(parts);
    ConsumedAt(ps, i);
  }

  /** Encodes part i. */
  method EncodeNext(parts: seq<BodyPart>, ghost ps: seq<Part>, i: nat, boundary: Data) returns (r: Encoding)
    requires Distinct(parts) && i < |parts| && Partway(parts, ps, i)
    modifies parts[i]
    ensures (r.Encoded? <==> ps[i].readable) && (r.Encoded? ==> r.data == EncodedPart(ps[i], boundary))
    ensures Partway(parts, ps, i + 1)
  {
    NoOther(parts, i);
    r := EncodePart(parts[i], boundary);
  }

  method EncodeParts(parts: seq<BodyPart>, boundary: Data) returns (r: Encoding)
    requires Distinct(parts)
    modifies parts
    ensures r.Encoded? <==> Readable(old(Values(parts)))
    ensures r.Encoded? ==> r.data == Assembled(old(Values(parts)), boundary)
    ensures Values(parts) == Consumed(old(Values(parts)))
  {
    ghost var ps := Values(parts);
    ValuesAt(parts);
    var encoded: Data := [];
    for i := 0 to |parts|
      invariant Progress(ps, i, boundary, encoded) && Partway(parts, ps, i)
    {
      var part := EncodeNext(parts, ps, i, boundary);
      if part.Failed? {
        PartwayIsConsumed(parts, ps, i + 1);
        return Failed;
      }
      OneMore(ps, i, boundary, encoded);
      encoded := encoded + part.data;
    }
    AllDone(ps, boundary, encoded);
    PartwayIsConsumed(parts, ps, |ps|);
    return Encoded(encoded);
  }

  method EncodePart(part: BodyPart, boundary: Data) returns (r: Encoding)
    modifies part`unread
    ensures r.Encoded? <==> part.readable
    ensures r.Encoded? ==> r.data == EncodedPart(old(part.Value()), boundary)
    ensures part.unread == []
  {
    var encoded := BoundaryData(if part.hasInitialBoundary then Initial else Encapsulated, boundary);
    encoded := encoded + (HeaderLines(part.headers) + CRLF);
    var body := EncodeBodyStream(part);
    if body.Failed? { return Failed; }
    encoded := encoded + body.data;
    if part.hasFinalBoundary { encoded := encoded + BoundaryData(Final, boundary); }
    return Encoded(encoded);
  }

  method EncodeBodyStream(part: BodyPart) returns (r: Encoding)
    modifies part`unread
    ensures r == if part.readable then Encoded(old(part.unread)) else Failed
    ensures part.unread == []
  {
    var encoded: Data := [];
    var available := part.HasBytesAvailable();
    while available
      invariant encoded + part.unread == old(part.unread)
      invariant part.unread != [] || !part.readable ==> available
      decreases |part.unread|, available
    {
      var bytes, error := part.Read(STREAM_BUFFER_SIZE);
      if error { return Failed; }
      if |bytes| == 0 { break; }
      encoded := encoded + bytes;
      available := part.HasBytesAvailable();
    }
    return Encoded(encoded);
  }

  // -------------------------------------------------------------- writing to a stream

  lemma {:induction false} BodiesDiffer(parts: seq<BodyPart>, ps: seq<Part>)
    requires |parts| == |ps| && forall j | 0 <= j < |parts| :: parts[j].Value() == ps[j].(body := parts[j].unread)
    ensures OnlyBodiesDiffer(ps, Values(parts))
  {
    ValuesAt(parts);
  }

  /** The first i parts have been written as far as there was room for them. */
  predicate WrittenUpTo(start: Sink, now: Sink, ps: seq<Part>, i: nat, boundary: Data, done: Data) {
    Progress(ps, i, boundary, done) && Took(start, now, done)
  }

  lemma {:induction false} OneMoreWritten(start: Sink, before: Sink, after: Sink, ps: seq<Part>, i: nat,
                                          boundary: Data, done: Data)
    requires i < |ps| && ps[i].readable && WrittenUpTo(start, before, ps, i, boundary, done)
    requires Took(before, after, EncodedPart(ps[i], boundary))
    ensures WrittenUpTo(start, after, ps, i + 1, boundary, done + EncodedPart(ps[i], boundary))
  {
    OneMore(ps, i, boundary, done);
    TookBoth(start, before, after, done, EncodedPart(ps[i], boundary));
  }

  lemma {:induction false} AttemptedWhole(ps: seq<Part>, boundary: Data)
    requires Readable(ps)
    ensures Attempted(ps, boundary) == Assembled(ps, boundary)
  {
    if ps != [] { AttemptedWhole(ps[1..], boundary); }
  }

  lemma {:induction false} OneByOne(a: Data, b: Data, c: Data)
    ensures a + (b + c) == a + b + c
  {}

  lemma {:induction false} AttemptedUpTo(ps: seq<Part>, i: nat, boundary: Data)
    requires i < |ps| && !ps[i].readable && forall j | 0 <= j < i :: ps[j].readable
    ensures Attempted(ps, boundary) == Assembled(ps[..i], boundary) + Opened(ps[i], boundary)
  {
    if i > 0 {
      var others := Assembled(ps[1..][..i - 1], boundary);
      assert ps[..i][1..] == ps[1..][..i - 1];
      assert Assembled(ps[..i], boundary) == EncodedPart(ps[0], boundary) + others;
      AttemptedUpTo(ps[1..], i - 1, boundary);
      OneByOne(EncodedPart(ps[0], boundary), others, Opened(ps[i], boundary));
    }
  }

  /** Writes part i. */
  method WriteNext(parts: seq<BodyPart>, ghost ps: seq<Part>, i: nat, boundary: Data, out: OutputStream)
    returns (ok: bool)
    requires Distinct(parts) && i < |parts| && Partway(parts, ps, i)
    modifies parts[i], out
    ensures old(out.written) <= out.written && OnlyBodiesDiffer(ps, Values(parts))
    ensures (ok ==> ps[i].readable) && (out.reliable ==> ok == ps[i].readable)
    ensures ok || out.reliable ==> Partway(parts, ps, i + 1)
    ensures ok ==> Took(old(out.Now()), out.Now(), EncodedPart(ps[i], boundary))
    ensures out.reliable && !ok ==> Took(old(out.Now()), out.Now(), Opened(ps[i], boundary))
  {
    NoOther(parts, i);
    ok := WritePart(parts[i], boundary, out);
    BodiesDiffer(parts, ps);
  }

  /** When a part cannot be read, what comes before its failure has been written. */
  method WriteParts(parts: seq<BodyPart>, boundary: Data, out: OutputStream) returns (ok: bool)
    requires Distinct(parts)
    modifies parts, out
    ensures old(out.written) <= out.written
    ensures ok ==> Readable(old(Values(parts)))
    ensures out.reliable ==> (ok <==> Readable(old(Values(parts))))
    ensures ok ==> Took(old(out.Now()), out.Now(), Assembled(old(Values(parts)), boundary))
    ensures out.reliable ==> Took(old(out.Now()), out.Now(), Attempted(old(Values(parts)), boundary))
    ensures ok || out.reliable ==> Values(parts) == Consumed(old(Values(parts)))
    ensures OnlyBodiesDiffer(old(Values(parts)), Values(parts))
  {
    ghost var ps, start, done := Values(parts), out.Now(), [];
    ValuesAt(parts);
    BodiesDiffer(parts, ps);
    for i := 0 to |parts|
      invariant start.written <= out.written && Partway(parts, ps, i) && OnlyBodiesDiffer(ps, Values(parts))
      invariant WrittenUpTo(start, out.Now(), ps, i, boundary, done)
    {
      ghost var before := out.Now();
      ok := WriteNext(parts, ps, i, boundary, out);
      if !ok {
        if out.reliable {
          PartwayIsConsumed(parts, ps, i + 1);
          AttemptedUpTo(ps, i, boundary);
          TookBoth(start, before, out.Now(), done, Opened(ps[i], boundary));
        }
        return;
      }
      OneMoreWritten(start, before, out.Now(), ps, i, boundary, done);
      done := done + EncodedPart(ps[i], boundary);
    }
    AllDone(ps, boundary, done);
    AttemptedWhole(ps, boundary);
    PartwayIsConsumed(parts, ps, |ps|);
    return true;
  }

  method WritePart(part: BodyPart, boundary: Data, out: OutputStream) returns (ok: bool)
    modifies part`unread, out
    ensures old(out.written) <= out.written
    ensures ok ==> part.readable && part.unread == []
    ensures out.reliable ==> ok == part.readable && part.unread == []
    ensures ok ==> Took(old(out.Now()), out.Now(), EncodedPart(old(part.Value()), boundary))
    ensures out.reliable && !ok ==> Took(old(out.Now()), out.Now(), Opened(old(part.Value()), boundary))
  {
    ghost var p, s0 := part.Value(), out.Now();
    var first := BoundaryData(if part.hasInitialBoundary then Initial else Encapsulated, boundary);
    var headers := HeaderLines(part.headers) + CRLF;
    var last := if part.hasFinalBoundary then BoundaryData(Final, boundary) else [];
    ok := WriteBuffer(first, out);
    if !ok { return; }
    ghost var s1 := out.Now();
    ok := WriteBuffer(headers, out);
    if !ok { return; }
    ghost var s2 := out.Now();
    TookBoth(s0, s1, s2, first, headers);
    ok := WriteBodyStream(part, out);
    ghost var s3 := out.Now();
    if ok || out.reliable { TookBoth(s0, s2, s3, first + headers, p.body); }
    if !ok { return; }
    if part.hasFinalBoundary { ok := WriteBuffer(last, out); }
    if ok { TookBoth(s0, s3, out.Now(), first + headers + p.body, last); }
    assert EncodedPart(p, boundary) == first + headers + p.body + last;
  }

  method WriteBodyStream(part: BodyPart, out: OutputStream) returns (ok: bool)
    modifies part`unread, out
    ensures old(out.written) <= out.written
    ensures ok ==> part.readable && part.unread == []
    ensures out.reliable ==> ok == part.readable && part.unread == []
    ensures ok || out.reliable ==> Took(old(out.Now()), out.Now(), old(part.unread))
  {
    ghost var start, done: Data := out.Now(), [];
    var available := part.HasBytesAvailable();
    while available
      invariant start.written <= out.written
      invariant done + part.unread == old(part.unread)
      invariant Took(start, out.Now(), done)
      invariant part.unread != [] || !part.readable ==> available
      decreases |part.unread|, available
    {
      var bytes, error := part.Read(STREAM_BUFFER_SIZE);
      if error { return false; }
      if |bytes| == 0 { break; }
      ghost var before := out.Now();
      ok := WriteBuffer(bytes, out);
      if !ok { return; }
      TookBoth(start, before, out.Now(), done, bytes);
      done := done + bytes;
      available := part.HasBytesAvailable();
    }
    return true;
  }

  /** Writes a buffer, as often as it takes, or as long as there is space. */
  method WriteBuffer(data: Data, out: OutputStream) returns (ok: bool)
    modifies out
    ensures old(out.written) <= out.written
    ensures out.reliable ==> ok
    ensures ok ==> Took(old(out.Now()), out.Now(), data)
  {
    var buffer := data;
    var bytesToWrite := |buffer|;
    ghost var start, k := out.Now(), 0;
    var space := out.HasSpaceAvailable();
    while bytesToWrite > 0 && space
      invariant 0 <= k <= |data| && bytesToWrite == |data| - k
      invariant bytesToWrite > 0 ==> buffer == data[k..]
      invariant out.written == start.written + data[..k] && out.room + k == start.room
      invariant space == (out.room > 0)
      decreases bytesToWrite
    {
      var bytesWritten, error := out.Write(buffer, bytesToWrite);
      assert data[..k] + data[k..][..bytesWritten] == data[..k + bytesWritten];
      if error { return false; }
      bytesToWrite := bytesToWrite - bytesWritten;
      if bytesToWrite > 0 { buffer := buffer[bytesWritten..]; }
      k := k + bytesWritten;
      space := out.HasSpaceAvailable();
    }
    return true;
  }
}
