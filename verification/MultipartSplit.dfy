/** Splitting encoded multipart form data at its boundaries, after section 5.1.1 of
    RFC 2046, and what encoding must be given for that to yield its parts again. */
module MultipartSplit {
  import opened Wrappers
  import opened Multipart

  /** One part as a receiver sees it: its headers and its body. */
  datatype Piece = Piece(headers: seq<Header>, body: Data)

  /** The same with its header lines not read yet. */
  datatype RawPiece = RawPiece(lines: seq<Data>, body: Data)

  datatype HeaderSplit = HeaderSplit(lines: seq<Data>, rest: Data)

  predicate OccursAt(s: Data, d: Data, i: nat) { i + |d| <= |s| && s[i..i + |d|] == d }

  ghost predicate Contains(s: Data, d: Data) { exists i: nat :: OccursAt(s, d, i) }

  /** Where d first occurs in s. */
  function Find(s: Data, d: Data): (r: Option<nat>)
    ensures r.Some? ==> OccursAt(s, d, r.value)
  {
    if d <= s then
      assert s[0..|d|] == d;
      Some(0)
    else if s == [] then None
    else
      match Find(s[1..], d)
      case None => None
      case Some(i) =>
        assert s[1..][i..i + |d|] == s[i + 1..i + 1 + |d|];
        Some(i + 1)
  }

  lemma {:induction false} OccursThere(s: Data, d: Data, i: nat, k: nat)
    requires k < |d|
    ensures OccursAt(s, d, i) ==> s[i + k] == d[k]
  {
    if OccursAt(s, d, i) { assert s[i..i + |d|][k] == s[i + k]; }
  }

  lemma {:induction false} FindIsFirst(s: Data, d: Data, i: nat)
    requires OccursAt(s, d, i) && forall j: nat | j < i :: !OccursAt(s, d, j)
    ensures Find(s, d) == Some(i)
  {
    if i == 0 {
      assert d <= s;
    } else {
      assert !OccursAt(s, d, 0);
      forall j: nat | j < i - 1
        ensures !OccursAt(s[1..], d, j)
      {
        assert !OccursAt(s, d, j + 1);
      }
      FindIsFirst(s[1..], d, i - 1);
    }
  }

  lemma {:induction false} FindsNoLater(s: Data, d: Data, i: nat)
    requires OccursAt(s, d, i)
    ensures Find(s, d).Some? && Find(s, d).value <= i
  {
    if i > 0 && !(d <= s) {
      FindsNoLater(s[1..], d, i - 1);
    }
  }

  // ------------------------------------------------------------------- splitting

  /** What separates the parts, up to the end of its line. */
  function Delimiter(boundary: Data): Data { CRLF + DASHES + boundary }

  /** Header lines up to the empty line that ends them. */
  function SplitHeaders(s: Data): (r: Option<HeaderSplit>)
    ensures r.Some? ==> |r.value.rest| < |s|
    decreases |s|
  {
    match Find(s, CRLF)
    case None => None
    case Some(n) =>
      if n == 0 then Some(HeaderSplit([], s[2..]))
      else
        match SplitHeaders(s[n + 2..])
        case None => None
        case Some(h) => Some(HeaderSplit([s[..n]] + h.lines, h.rest))
  }

  function SplitParts(s: Data, boundary: Data): Option<seq<RawPiece>>
    decreases |s|, 0
  {
    match SplitHeaders(s)
    case None => None
    case Some(h) =>
      match Find(h.rest, Delimiter(boundary))
      case None => None
      case Some(n) => OnePiece(RawPiece(h.lines, h.rest[..n]), h.rest[n + |Delimiter(boundary)|..], boundary)
  }

  /** A piece and what is made of the text behind the boundary that ends it. */
  function OnePiece(piece: RawPiece, behind: Data, boundary: Data): (r: Option<seq<RawPiece>>)
    ensures r.Some? ==> r.value != [] && r.value[0] == piece
    decreases |behind|, 1
  {
    if behind == DASHES + CRLF then Some([piece])
    else if CRLF <= behind then
      match SplitParts(behind[2..], boundary)
      case None => None
      case Some(others) => Some([piece] + others)
    else None
  }

  function SplitRaw(s: Data, boundary: Data): Option<seq<RawPiece>> {
    var first := DASHES + boundary + CRLF;
    if s == [] then Some([])
    else if first <= s then SplitParts(s[|first|..], boundary)
    else None
  }

  /** Colon and space, between the name and the value of a header. */
  const SEPARATOR: Data := [58, 32]

  /** What stands before the first separator and what behind it. */
  function ReadHeader(line: Data): Option<Header> {
    match Find(line, SEPARATOR)
    case None => None
    case Some(n) => Some(Header(line[..n], line[n + 2..]))
  }

  function ReadHeaders(lines: seq<Data>): Option<seq<Header>> {
    if lines == [] then Some([])
    else
      match (ReadHeader(lines[0]), ReadHeaders(lines[1..]))
      case (Some(h), Some(others)) => Some([h] + others)
      case _ => None
  }

  function ReadPieces(raw: seq<RawPiece>): Option<seq<Piece>> {
    if raw == [] then Some([])
    else
      match (ReadHeaders(raw[0].lines), ReadPieces(raw[1..]))
      case (Some(headers), Some(others)) => Some([Piece(headers, raw[0].body)] + others)
      case _ => None
  }

  /** All a receiver does. */
  function Split(s: Data, boundary: Data): Option<seq<Piece>> {
    match SplitRaw(s, boundary)
    case None => None
    case Some(raw) => ReadPieces(raw)
  }

  // --------------------------------------------------------------- what was encoded

  predicate OneLine(s: Data) { forall i | 0 <= i < |s| :: s[i] != CR && s[i] != LF }

  /** No line break in any name or value. */
  predicate CleanHeaders(headers: seq<Header>) {
    forall i | 0 <= i < |headers| :: OneLine(headers[i].name) && OneLine(headers[i].value)
  }

  /** No name has a colon and a space in it. */
  ghost predicate PlainNames(headers: seq<Header>) {
    forall i | 0 <= i < |headers| :: !Contains(headers[i].name, SEPARATOR)
  }

  ghost predicate NamesArePlain(ps: seq<Part>) { forall i | 0 <= i < |ps| :: PlainNames(ps[i].headers) }

  function Pieces(ps: seq<Part>): (r: seq<Piece>)
    ensures |r| == |ps|
  {
    if ps == [] then [] else [Piece(ps[0].headers, ps[0].body)] + Pieces(ps[1..])
  }

  function Lines(headers: seq<Header>): (r: seq<Data>)
    ensures |r| == |headers|
  {
    if headers == [] then [] else [HeaderLine(headers[0])] + Lines(headers[1..])
  }

  /** Parts as they are between encodings: only the first one may have been marked as the
      first, any of them as the last. */
  predicate Appendable(ps: seq<Part>) {
    forall i | 0 <= i < |ps| :: CleanHeaders(ps[i].headers) && (i > 0 ==> !ps[i].hasInitialBoundary)
  }

  /** Parts that have just been appended. */
  predicate Fresh(ps: seq<Part>) {
    forall i | 0 <= i < |ps| :: CleanHeaders(ps[i].headers) && !ps[i].hasInitialBoundary && !ps[i].hasFinalBoundary
  }

  /** No part but the last one has been marked as the last. */
  predicate NoEarlyFinal(ps: seq<Part>) { forall i | 0 <= i < |ps| - 1 :: !ps[i].hasFinalBoundary }

  function RawPieces(ps: seq<Part>): (r: seq<RawPiece>)
    ensures |r| == |ps|
  {
    if ps == [] then [] else [RawPiece(Lines(ps[0].headers), ps[0].body)] + RawPieces(ps[1..])
  }

  ghost predicate NoneContains(ps: seq<Part>, d: Data) { forall i | 0 <= i < |ps| :: !Contains(ps[i].body, d) }

  function Content(p: Part): Data { HeaderLines(p.headers) + CRLF + p.body }

  /** What stands behind the first boundary line. */
  function Text(ps: seq<Part>, boundary: Data): Data
    requires ps != []
    decreases |ps|, 1
  {
    Content(ps[0]) + Delimiter(boundary) + Behind(ps, boundary)
  }

  /** What stands behind the boundary at the end of the first part. */
  function Behind(ps: seq<Part>, boundary: Data): Data
    requires ps != []
    decreases |ps|, 0
  {
    if |ps| == 1 then DASHES + CRLF
    else
      var next := CRLF + Text(ps[1..], boundary);
      if ps[0].hasFinalBoundary then DASHES + CRLF + (Delimiter(boundary) + next) else next
  }

  function MarkLast(ps: seq<Part>): seq<Part>
    requires ps != []
  {
    ps[|ps| - 1 := ps[|ps| - 1].(hasFinalBoundary := true)]
  }

  function Opening(p: Part, boundary: Data): Data {
    if p.hasInitialBoundary then BoundaryData(Initial, boundary) else Delimiter(boundary) + CRLF
  }

  function Closing(p: Part, boundary: Data): Data {
    if p.hasFinalBoundary then Delimiter(boundary) + (DASHES + CRLF) else []
  }

  lemma {:induction false} PartForm(p: Part, boundary: Data)
    ensures EncodedPart(p, boundary) == Opening(p, boundary) + Content(p) + Closing(p, boundary)
  {
    assert BoundaryData(Encapsulated, boundary) == Delimiter(boundary) + CRLF;
    assert BoundaryData(Final, boundary) == Delimiter(boundary) + (DASHES + CRLF);
    Regroup(Opening(p, boundary), HeaderLines(p.headers) + CRLF, p.body, Closing(p, boundary));
  }

  lemma {:induction false} Regroup(a: Data, b: Data, c: Data, d: Data)
    ensures a + b + c + d == a + (b + c) + d
    ensures a + b + (c + d) == a + (b + c + d)
    ensures (a + b + []) + (c + d) == a + (b + c + d)
  {}

  lemma {:induction false} RegroupFinal(a: Data, b: Data, c: Data, d: Data, e: Data)
    ensures a + b + (c + d) + e == a + (b + c + (d + e))
  {}

  /** The first of several parts and what the others come to. */
  lemma {:induction false} FirstAndOthers(ps: seq<Part>, qs: seq<Part>, boundary: Data)
    requires ps != [] && |qs| == |ps| && Content(qs[0]) == Content(ps[0])
    requires qs[0].hasFinalBoundary == (|ps| == 1 || ps[0].hasFinalBoundary)
    requires |ps| > 1 ==> Assembled(qs[1..], boundary) == Delimiter(boundary) + (CRLF + Text(ps[1..], boundary))
    ensures Assembled(qs, boundary) == Opening(qs[0], boundary) + Text(ps, boundary)
  {
    var o, c, d, e := Opening(qs[0], boundary), Content(ps[0]), Delimiter(boundary), Behind(ps, boundary);
    PartForm(qs[0], boundary);
    Regroup(o, c, d, e);
    if |ps| == 1 {
      assert qs[1..] == [];
      assert Assembled(qs, boundary) == EncodedPart(qs[0], boundary) + [];
    } else {
      var next := CRLF + Text(ps[1..], boundary);
      assert Assembled(qs, boundary) == EncodedPart(qs[0], boundary) + (d + next);
      if ps[0].hasFinalBoundary { RegroupFinal(o, c, d, DASHES + CRLF, d + next); }
    }
  }

  lemma {:induction false} LaterParts(ps: seq<Part>, boundary: Data)
    requires ps != [] && Appendable(ps) && !ps[0].hasInitialBoundary
    ensures Assembled(MarkLast(ps), boundary) == Delimiter(boundary) + (CRLF + Text(ps, boundary))
    decreases |ps|
  {
    if |ps| > 1 {
      assert MarkLast(ps)[1..] == MarkLast(ps[1..]);
      LaterParts(ps[1..], boundary);
    }
    FirstAndOthers(ps, MarkLast(ps), boundary);
  }

  lemma {:induction false} AssembledForm(ps: seq<Part>, boundary: Data)
    requires ps != [] && Appendable(ps)
    ensures Assembled(Marked(ps), boundary) == BoundaryData(Initial, boundary) + Text(ps, boundary)
  {
    if |ps| > 1 {
      assert Marked(ps)[1..] == MarkLast(ps[1..]);
      LaterParts(ps[1..], boundary);
    }
    FirstAndOthers(ps, Marked(ps), boundary);
  }

  // ------------------------------------------------------------------- the pieces

  lemma {:induction false} LineFound(line: Data, t: Data)
    requires OneLine(line)
    ensures Find(line + CRLF + t, CRLF) == Some(|line|)
  {
    var s := line + CRLF + t;
    assert s[|line|..|line| + 2] == CRLF;
    forall j: nat | j < |line|
      ensures !OccursAt(s, CRLF, j)
    {
      OccursThere(s, CRLF, j, 0);
      assert s[j] == line[j];
    }
    FindIsFirst(s, CRLF, |line|);
  }

  lemma {:induction false} HeadersSplit(headers: seq<Header>, t: Data)
    requires CleanHeaders(headers)
    ensures SplitHeaders(HeaderLines(headers) + CRLF + t) == Some(HeaderSplit(Lines(headers), t))
    decreases |headers|
  {
    var s := HeaderLines(headers) + CRLF + t;
    if headers == [] {
      assert s == [] + CRLF + t;
      LineFound([], t);
      assert s[2..] == t;
    } else {
      var line, rest := HeaderLine(headers[0]), HeaderLines(headers[1..]) + CRLF + t;
      assert s == line + CRLF + rest;
      LineFound(line, rest);
      assert s[..|line|] == line && s[|line| + 2..] == rest;
      HeadersSplit(headers[1..], t);
    }
  }

  /** No line break inside the delimiter but at its start. */
  lemma {:induction false} DelimiterStarts(boundary: Data, k: nat)
    requires OneLine(boundary) && 0 < k < |Delimiter(boundary)|
    ensures Delimiter(boundary)[k] != CR
  {
    if k >= 4 { assert Delimiter(boundary)[k] == boundary[k - 4]; }
  }

  /** A delimiter does not overlap with the one that ends the body. */
  lemma {:induction false} OccursInBody(body: Data, boundary: Data, t: Data, j: nat)
    requires OneLine(boundary) && j < |body| && OccursAt(body + Delimiter(boundary) + t, Delimiter(boundary), j)
    ensures OccursAt(body, Delimiter(boundary), j)
  {
    var d := Delimiter(boundary);
    var s := body + d + t;
    if j + |d| <= |body| {
      assert body[j..j + |d|] == s[j..j + |d|];
    } else {
      var k := |body| - j;
      assert s[|body|] == d[0] == CR;
      assert s[j..j + |d|][k] == s[|body|];
      DelimiterStarts(boundary, k);
      assert false;
    }
  }

  /** The body is cut off where it ends exactly when it does not contain the delimiter. */
  lemma {:induction false} BodyFound(body: Data, boundary: Data, t: Data)
    requires OneLine(boundary)
    ensures var r := Find(body + Delimiter(boundary) + t, Delimiter(boundary));
            if Contains(body, Delimiter(boundary)) then r.Some? && r.value < |body| else r == Some(|body|)
  {
    var d := Delimiter(boundary);
    var s := body + d + t;
    assert s[|body|..|body| + |d|] == d;
    if Contains(body, d) {
      var i: nat :| OccursAt(body, d, i);
      assert s[i..i + |d|] == body[i..i + |d|];
      FindsNoLater(s, d, i);
    } else {
      forall j: nat | j < |body|
        ensures !OccursAt(s, d, j)
      {
        if OccursAt(s, d, j) { OccursInBody(body, boundary, t, j); }
      }
      FindIsFirst(s, d, |body|);
    }
  }

  /** The first piece of a text, and the rest of it. */
  lemma {:induction false} FirstPiece(p: Part, boundary: Data, behind: Data)
    requires OneLine(boundary) && CleanHeaders(p.headers)
    ensures var s := Content(p) + Delimiter(boundary) + behind;
            var piece := RawPiece(Lines(p.headers), p.body);
            if Contains(p.body, Delimiter(boundary)) then
              SplitParts(s, boundary).Some? ==> SplitParts(s, boundary).value[0] != piece
            else
              SplitParts(s, boundary) == OnePiece(piece, behind, boundary)
  {
    var d := Delimiter(boundary);
    var rest := p.body + d + behind;
    var s := Content(p) + d + behind;
    TakenApart(HeaderLines(p.headers) + CRLF, p.body, d, behind);
    HeadersSplit(p.headers, rest);
    BodyFound(p.body, boundary, behind);
    if !Contains(p.body, d) {
      assert rest[..|p.body|] == p.body && rest[|p.body| + |d|..] == behind;
    }
  }

  lemma {:induction false} TakenApart(a: Data, b: Data, c: Data, d: Data)
    ensures a + b + c + d == a + (b + c + d)
  {}

  lemma {:induction false} OneOfSeveral(piece: RawPiece, text: Data, others: seq<RawPiece>, boundary: Data)
    ensures OnePiece(piece, CRLF + text, boundary) == Some([piece] + others)
       <==> SplitParts(text, boundary) == Some(others)
  {
    assert (CRLF + text)[2..] == text;
    assert (CRLF + text)[0] == CR && (DASHES + CRLF)[0] != CR;
    var r := SplitParts(text, boundary);
    if r.Some? { assert ([piece] + r.value)[1..] == r.value && ([piece] + others)[1..] == others; }
  }

  /** Behind a final boundary there must not be anything. */
  lemma {:induction false} NothingBehindFinal(piece: RawPiece, others: Data, boundary: Data)
    requires others != []
    ensures OnePiece(piece, DASHES + CRLF + others, boundary) == None
  {
    var behind := DASHES + CRLF + others;
    assert behind[0] == 45 && |behind| > |DASHES + CRLF|;
  }

  lemma {:induction false} TextSplits(ps: seq<Part>, boundary: Data)
    requires ps != [] && Appendable(ps) && OneLine(boundary)
    ensures SplitParts(Text(ps, boundary), boundary) == Some(RawPieces(ps))
       <==> NoneContains(ps, Delimiter(boundary)) && NoEarlyFinal(ps)
    decreases |ps|
  {
    var d, piece, others := Delimiter(boundary), RawPiece(Lines(ps[0].headers), ps[0].body), ps[1..];
    FirstPiece(ps[0], boundary, Behind(ps, boundary));
    assert RawPieces(ps) == [piece] + RawPieces(others);
    if !Contains(ps[0].body, d) {
      if |ps| == 1 {
        assert RawPieces(ps) == [piece];
      } else if ps[0].hasFinalBoundary {
        NothingBehindFinal(piece, d + (CRLF + Text(others, boundary)), boundary);
      } else {
        TextSplits(others, boundary);
        OthersFinal(ps);
        OneOfSeveral(piece, Text(others, boundary), RawPieces(others), boundary);
      }
    }
  }

  lemma {:induction false} OthersFinal(ps: seq<Part>)
    requires |ps| > 1 && !ps[0].hasFinalBoundary
    ensures NoEarlyFinal(ps) <==> NoEarlyFinal(ps[1..])
  {
    if NoEarlyFinal(ps[1..]) {
      forall i | 0 <= i < |ps| - 1
        ensures !ps[i].hasFinalBoundary
      {
        if i > 0 { assert ps[1..][i - 1] == ps[i]; }
      }
    }
  }

  lemma {:induction false} SplitRecoversRaw(ps: seq<Part>, boundary: Data)
    requires Appendable(ps) && OneLine(boundary)
    ensures SplitRaw(Assembled(Marked(ps), boundary), boundary) == Some(RawPieces(ps))
       <==> NoneContains(ps, Delimiter(boundary)) && NoEarlyFinal(ps)
  {
    if ps != [] {
      var first, text := BoundaryData(Initial, boundary), Text(ps, boundary);
      AssembledForm(ps, boundary);
      assert (first + text)[|first|..] == text;
      TextSplits(ps, boundary);
    }
  }

  // ------------------------------------------------------------------- the headers

  /** Name and value come back exactly when the name does not have the separator in it. */
  lemma {:induction false} HeaderRead(h: Header)
    ensures ReadHeader(HeaderLine(h)) == Some(h) <==> !Contains(h.name, SEPARATOR)
  {
    var line, n := HeaderLine(h), |h.name|;
    assert line[n..n + 2] == SEPARATOR && line[..n] == h.name && line[n + 2..] == h.value;
    if Contains(h.name, SEPARATOR) {
      var i: nat :| OccursAt(h.name, SEPARATOR, i);
      assert line[i..i + 2] == h.name[i..i + 2];
      FindsNoLater(line, SEPARATOR, i);
    } else {
      forall j: nat | j < n
        ensures !OccursAt(line, SEPARATOR, j)
      {
        OccursInName(h.name, h.value, j);
      }
      FindIsFirst(line, SEPARATOR, n);
    }
  }

  /** The separator does not overlap with itself. */
  lemma {:induction false} OccursInName(name: Data, value: Data, j: nat)
    requires j < |name| && !Contains(name, SEPARATOR)
    ensures !OccursAt(name + SEPARATOR + value, SEPARATOR, j)
  {
    var line := name + SEPARATOR + value;
    OccursThere(line, SEPARATOR, j, 1);
    if j + 2 <= |name| {
      assert line[j..j + 2] == name[j..j + 2];
      assert !OccursAt(name, SEPARATOR, j);
    }
  }

  /** Reading a line loses nothing of it. */
  lemma {:induction false} NothingLost(line: Data)
    requires ReadHeader(line).Some?
    ensures HeaderLine(ReadHeader(line).value) == line
  {
    var n := Find(line, SEPARATOR).value;
    assert line == line[..n] + line[n..n + 2] + line[n + 2..];
  }

  lemma {:induction false} LinesRead(headers: seq<Header>)
    ensures ReadHeaders(Lines(headers)) == Some(headers) <==> PlainNames(headers)
  {
    if headers != [] {
      var h, others := headers[0], headers[1..];
      HeaderRead(h);
      LinesRead(others);
      assert Lines(headers)[1..] == Lines(others);
      assert headers == [h] + others;
      var r := ReadHeaders(Lines(others));
      if r.Some? { assert ([h] + r.value)[1..] == r.value; }
    }
  }

  lemma {:induction false} NoLineLost(lines: seq<Data>)
    requires ReadHeaders(lines).Some?
    ensures Lines(ReadHeaders(lines).value) == lines
  {
    if lines != [] {
      NothingLost(lines[0]);
      NoLineLost(lines[1..]);
      var h, others := ReadHeader(lines[0]).value, ReadHeaders(lines[1..]).value;
      assert ([h] + others)[1..] == others;
    }
  }

  lemma {:induction false} PiecesRead(ps: seq<Part>)
    ensures ReadPieces(RawPieces(ps)) == Some(Pieces(ps)) <==> NamesArePlain(ps)
  {
    if ps != [] {
      var others := ps[1..];
      LinesRead(ps[0].headers);
      PiecesRead(others);
      assert RawPieces(ps)[1..] == RawPieces(others) && Pieces(ps)[1..] == Pieces(others);
      var headers, r := ReadHeaders(Lines(ps[0].headers)), ReadPieces(RawPieces(others));
      if headers.Some? && r.Some? {
        var all := [Piece(headers.value, ps[0].body)] + r.value;
        assert all[0] == Piece(headers.value, ps[0].body) && all[1..] == r.value;
        assert Pieces(ps)[0] == Piece(ps[0].headers, ps[0].body);
      }
    }
  }

  /** What reads as the pieces of the parts is their raw pieces. */
  lemma {:induction false} NoPieceLost(raw: seq<RawPiece>, ps: seq<Part>)
    requires ReadPieces(raw) == Some(Pieces(ps))
    ensures raw == RawPieces(ps)
  {
    if raw != [] {
      var headers, others := ReadHeaders(raw[0].lines).value, ReadPieces(raw[1..]).value;
      var all := [Piece(headers, raw[0].body)] + others;
      assert all == Pieces(ps) && all[1..] == others && Pieces(ps)[1..] == Pieces(ps[1..]);
      assert all[0] == Piece(ps[0].headers, ps[0].body);
      NoLineLost(raw[0].lines);
      NoPieceLost(raw[1..], ps[1..]);
      assert raw == [raw[0]] + raw[1..];
    }
  }

  /** With a boundary and headers free of line breaks, splitting what was encoded yields the
      original parts in order, names, values and bodies, exactly when no name contains a colon
      and a space, no body contains the delimiter, and no part but the last one has been the
      last one in an encoding before. */
  lemma {:induction false} SplitRecoversParts(ps: seq<Part>, boundary: Data)
    requires Appendable(ps) && OneLine(boundary)
    ensures Split(Assembled(Marked(ps), boundary), boundary) == Some(Pieces(ps))
       <==> NamesArePlain(ps) && NoneContains(ps, Delimiter(boundary)) && NoEarlyFinal(ps)
  {
    SplitRecoversRaw(ps, boundary);
    PiecesRead(ps);
    var raw := SplitRaw(Assembled(Marked(ps), boundary), boundary);
    if raw.Some? && ReadPieces(raw.value) == Some(Pieces(ps)) { NoPieceLost(raw.value, ps); }
  }

  lemma {:induction false} ConsumedKeeps(ps: seq<Part>, i: nat)
    requires i < |ps|
    ensures Consumed(ps)[i] == ps[i].(body := Consumed(ps)[i].body)
  {
    if ps[0].readable && i > 0 { ConsumedKeeps(ps[1..], i - 1); }
  }

  /** Parts are encoded, whatever comes of it, others are appended, and all are encoded
      again. That splits into what the parts hold then exactly when there were none before
      or none were appended, no name contains a colon and a space, and no body contains the
      delimiter. */
  lemma {:induction false} EncodingAgain(ps: seq<Part>, added: seq<Part>, boundary: Data)
    requires Fresh(ps) && Fresh(added) && OneLine(boundary)
    ensures var qs := Consumed(Marked(ps)) + added;
            Split(Assembled(Marked(qs), boundary), boundary) == Some(Pieces(qs))
            <==> (ps == [] || added == []) && NamesArePlain(qs) && NoneContains(qs, Delimiter(boundary))
  {
    var used := Consumed(Marked(ps));
    var qs := used + added;
    forall i | 0 <= i < |ps|
      ensures used[i] == Marked(ps)[i].(body := used[i].body)
    {
      ConsumedKeeps(Marked(ps), i);
    }
    forall i | 0 <= i < |qs|
      ensures CleanHeaders(qs[i].headers) && (i > 0 ==> !qs[i].hasInitialBoundary)
      ensures qs[i].hasFinalBoundary == (i == |ps| - 1)
    {
      if i >= |ps| { assert qs[i] == added[i - |ps|]; }
    }
    SplitRecoversParts(qs, boundary);
    if ps != [] && added != [] { assert qs[|ps| - 1].hasFinalBoundary; }
  }

  /** Spelled out for a header "A: B", the body "x" and the boundary "b". */
  lemma {:induction false} SmallForm()
    ensures Assembled(Marked([Part([Header([65], [66])], [120], true, false, false)]), [98])
         == [45, 45, 98, 13, 10]
            + [65, 58, 32, 66, 13, 10] + [13, 10]
            + [120]
            + [13, 10, 45, 45, 98, 45, 45, 13, 10]
  {
    var headers := [Header([65], [66])];
    var p := Part(headers, [120], true, true, true);
    assert Marked([Part(headers, [120], true, false, false)]) == [p];
    assert headers[1..] == [] && [p][1..] == [];
    assert HeaderLines(headers) == [65, 58, 32, 66, 13, 10];
    assert Assembled([p], [98]) == EncodedPart(p, [98]);
  }
}
