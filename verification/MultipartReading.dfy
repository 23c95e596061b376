/** A reader for multipart bodies after section 5.1.1 of RFC 2046, and what it gets back of what is encoded. */
module MultipartReading {
  import opened Bits
  import opened Multipart
  import opened Options

  // ---------------------------------------------------------------- searching and splitting

  predicate Occurs(pattern: Bytes, d: Bytes) {
    exists i :: 0 <= i <= |d| && pattern <= d[i..]
  }

  /** The leftmost occurrence. */
  function Find(pattern: Bytes, d: Bytes): (at: Option<nat>)
    ensures at.Some? ==> at.value <= |d| && pattern <= d[at.value..]
  {
    if pattern <= d then Some(0)
    else if d == [] then None
    else
      var at := Find(pattern, d[1..]);
      if at.None? then None
      else
        assert d[at.value + 1..] == d[1..][at.value..];
        Some(at.value + 1)
  }

  /** Everything between the occurrences of a pattern, from left to right. */
  function Split(pattern: Bytes, d: Bytes): (pieces: seq<Bytes>)
    requires pattern != []
    ensures pieces != []
    decreases |d|
  {
    var at := Find(pattern, d);
    if at.None? then [d]
    else [d[..at.value]] + Split(pattern, d[at.value + |pattern|..])
  }

  lemma {:induction false} FindIsLeftmost(pattern: Bytes, d: Bytes)
    ensures Find(pattern, d).None? <==> !Occurs(pattern, d)
    ensures Find(pattern, d).Some? ==> forall j :: 0 <= j < Find(pattern, d).value ==> !(pattern <= d[j..])
  {
    if pattern <= d {
      assert pattern <= d[0..];
    } else if d != [] {
      FindIsLeftmost(pattern, d[1..]);
      forall j | 0 < j <= |d| ensures pattern <= d[j..] <==> pattern <= d[1..][j - 1..] {
        assert d[1..][j - 1..] == d[j..];
      }
      assert d[0..] == d;
      if Occurs(pattern, d) {
        var i :| 0 <= i <= |d| && pattern <= d[i..];
        assert pattern <= d[1..][i - 1..];
      }
      var at := Find(pattern, d[1..]);
      if at.Some? {
        assert pattern <= d[at.value + 1..];
      }
    }
  }

  lemma FoundAt(pattern: Bytes, d: Bytes, i: nat)
    requires i <= |d| && pattern <= d[i..]
    requires forall j :: 0 <= j < i ==> !(pattern <= d[j..])
    ensures Find(pattern, d) == Some(i)
  {
    hide Find;
    FindIsLeftmost(pattern, d);
    assert Occurs(pattern, d);
    hide Occurs;
    var at := Find(pattern, d).value;
    assert pattern <= d[at..];
    assert i <= at by { assert !(at < i); }
  }

  /** The first byte of a pattern does not come back in it. */
  predicate Marks(pattern: Bytes) {
    pattern != [] && pattern[0] !in pattern[1..]
  }

  /** No occurrence starts in `s` and ends in the pattern after it. */
  lemma NoStraddling(pattern: Bytes, s: Bytes, rest: Bytes)
    requires Marks(pattern) && !Occurs(pattern, s)
    ensures Find(pattern, s + pattern + rest) == Some(|s|)
  {
    var d := s + pattern + rest;
    assert d[|s|..] == pattern + rest;
    forall j | 0 <= j < |s| ensures !(pattern <= d[j..]) {
      if j + |pattern| <= |s| {
        assert s[j..] <= d[j..];
        assert !(pattern <= s[j..]);
      } else {
        var k := |s| - j;
        assert d[j..][k] == d[|s|] == pattern[0];
        assert pattern[1..][k - 1] == pattern[k];
      }
    }
    FoundAt(pattern, d, |s|);
  }

  /** Pieces, each with the pattern before it. */
  function Glue(pattern: Bytes, pieces: seq<Bytes>): Bytes {
    if pieces == [] then [] else pattern + pieces[0] + Glue(pattern, pieces[1..])
  }

  lemma BeforeIsFree(pattern: Bytes, d: Bytes)
    requires pattern != [] && Find(pattern, d).Some?
    ensures !Occurs(pattern, d[..Find(pattern, d).value])
  {
    FindIsLeftmost(pattern, d);
    var before := d[..Find(pattern, d).value];
    forall j | 0 <= j <= |before| ensures !(pattern <= before[j..]) {
      assert before[j..] <= d[j..];
    }
  }

  lemma OccursInWhole(pattern: Bytes, a: Bytes, s: Bytes)
    requires Occurs(pattern, s)
    ensures Occurs(pattern, a + s)
  {
    var i :| 0 <= i <= |s| && pattern <= s[i..];
    var k := |a| + i;
    assert (a + s)[k..] == s[i..];
  }

  lemma OccursInFront(pattern: Bytes, s: Bytes, a: Bytes)
    requires Occurs(pattern, s)
    ensures Occurs(pattern, s + a)
  {
    var i :| 0 <= i <= |s| && pattern <= s[i..];
    assert (s + a)[i..] == s[i..] + a;
  }

  // ---------------------------------------------------------------- the reader

  function ReadHeader(line: Bytes): Option<Header> {
    var colon := Find([COLON], line);
    if colon.None? || colon.value + 1 >= |line| || line[colon.value + 1] != SPACE then None
    else Some(Header(line[..colon.value], line[colon.value + 2..]))
  }

  /** Header lines up to the empty line, then the body. */
  function ReadPart(d: Bytes): Option<Part>
    decreases |d|
  {
    var end := Find(CRLF, d);
    if end.None? then None
    else if end.value == 0 then Some(Part([], d[2..]))
    else
      var header, rest := ReadHeader(d[..end.value]), ReadPart(d[end.value + 2..]);
      if header.None? || rest.None? then None
      else Some(rest.value.(headers := [header.value] + rest.value.headers))
  }

  /** Padding that transports may add after a boundary. */
  function SkipPadding(d: Bytes): Bytes {
    if d != [] && d[0] in [SPACE, TAB] then SkipPadding(d[1..]) else d
  }

  /** The parts up to the close delimiter; what comes after it is epilogue. */
  function ReadPieces(pieces: seq<Bytes>): Option<seq<Part>> {
    if pieces == [] then None
    else if DASHES <= pieces[0] then Some([])
    else
      var line := SkipPadding(pieces[0]);
      if !(CRLF <= line) then None
      else
        var part := ReadPart(line[2..]);
        var rest := ReadPieces(pieces[1..]);
        if part.None? || rest.None? then None else Some([part.value] + rest.value)
  }

  /** A boundary line may also stand at the very start; what comes before the first one is preamble. */
  function Read(d: Bytes, boundary: Bytes): Option<seq<Part>> {
    var pieces := Split(Delimiter(boundary), CRLF + d);
    var parts := ReadPieces(pieces[1..]);
    if parts == Some([]) then None else parts
  }

  // ---------------------------------------------------------------- parts

  predicate ReadableHeader(h: Header) {
    COLON !in h.name && !Occurs(CRLF, HeaderLine(h))
  }

  predicate Readable(p: Part) {
    forall h <- p.headers :: ReadableHeader(h)
  }

  lemma HeaderRoundTrip(h: Header)
    requires COLON !in h.name
    ensures ReadHeader(HeaderLine(h)) == Some(h)
  {
    hide Find;
    var line := HeaderLine(h);
    assert line[|h.name|..] == [COLON, SPACE] + h.value;
    forall j | 0 <= j < |h.name| ensures !([COLON] <= line[j..]) {
      assert line[j..][0] == h.name[j];
    }
    FoundAt([COLON], line, |h.name|);
    assert line[..|h.name|] == h.name;
    assert line[|h.name| + 2..] == h.value;
  }

  lemma ReadHeaderIsLine(line: Bytes)
    requires ReadHeader(line).Some?
    ensures HeaderLine(ReadHeader(line).value) == line && COLON !in ReadHeader(line).value.name
  {
    hide Find, Occurs;
    var colon := Find([COLON], line).value;
    Cut([COLON], line, colon);
    assert line[colon + 1..] == [SPACE] + line[colon + 2..];
    BeforeIsFree([COLON], line);
    FreeOfByte(COLON, line[..colon]);
  }

  lemma FreeOfByte(b: byte, s: Bytes)
    requires !Occurs([b], s)
    ensures b !in s
  {
    forall j | 0 <= j < |s| ensures s[j] != b {
      assert s[j..] == [s[j]] + s[j + 1..];
      assert !([b] <= s[j..]);
    }
  }

  lemma NoHeaders(body: Bytes)
    ensures Content(Part([], body)) == CRLF + body
  {
  }

  lemma ContentOfFirst(h: Header, p: Part)
    ensures Content(p.(headers := [h] + p.headers)) == HeaderLine(h) + CRLF + Content(p)
  {
    assert ([h] + p.headers)[1..] == p.headers;
  }

  lemma {:induction false} PartRoundTrip(p: Part)
    requires Readable(p)
    ensures ReadPart(Content(p)) == Some(p)
    decreases |p.headers|
  {
    hide Occurs, Find, ReadHeader, HeaderLine, Content;
    var d := Content(p);
    if p.headers == [] {
      NoHeaders(p.body);
      assert d[0..] == d;
      FoundAt(CRLF, d, 0);
    } else {
      var h, rest := p.headers[0], Part(p.headers[1..], p.body);
      var line := HeaderLine(h);
      ContentOfFirst(h, rest);
      assert p == rest.(headers := [h] + rest.headers);
      assert CRLF[1..] == [LF] && ReadableHeader(h);
      NoStraddling(CRLF, line, Content(rest));
      assert d[..|line|] == line && d[|line| + 2..] == Content(rest);
      assert |line| > 0 by { HeaderLineNotEmpty(h); }
      PartRoundTrip(rest);
      HeaderRoundTrip(h);
    }
  }

  lemma HeaderLineNotEmpty(h: Header)
    ensures HeaderLine(h) != []
  {
  }

  lemma Cut(pattern: Bytes, d: Bytes, at: nat)
    requires at <= |d| && pattern <= d[at..]
    ensures at + |pattern| <= |d| && d == d[..at] + pattern + d[at + |pattern|..]
  {
    assert d[at..] == pattern + d[at..][|pattern|..];
  }

  /** The text before the first CRLF, and what follows it. */
  lemma FirstLine(d: Bytes)
    requires Find(CRLF, d).Some?
    ensures var end := Find(CRLF, d).value;
            end + 2 <= |d| && d == d[..end] + CRLF + d[end + 2..] && !Occurs(CRLF, d[..end])
  {
    hide Occurs, Find;
    BeforeIsFree(CRLF, d);
    Cut(CRLF, d, Find(CRLF, d).value);
  }

  /** Nothing but the content of a part is read as that part. */
  lemma {:induction false} ReadPartIsContent(d: Bytes)
    requires ReadPart(d).Some?
    ensures d == Content(ReadPart(d).value) && Readable(ReadPart(d).value)
    decreases |d|
  {
    hide Occurs, ReadHeader, Find, HeaderLine, Content;
    FirstLine(d);
    var end := Find(CRLF, d).value;
    if end == 0 {
      NoHeaders(d[2..]);
    } else {
      var line, rest := d[..end], d[end + 2..];
      ReadPartIsContent(rest);
      ReadHeaderIsLine(line);
      ContentOfFirst(ReadHeader(line).value, ReadPart(rest).value);
    }
  }

  // ---------------------------------------------------------------- whole forms

  /** The delimiter is neither in the header block nor in the body, and the body is no boundary line itself. */
  predicate Separable(p: Part, boundary: Bytes) {
    && !Occurs(Delimiter(boundary), CRLF + EncodedHeaders(p.headers))
    && !Occurs(Delimiter(boundary), p.body)
    && !(DashBoundary(boundary) <= p.body)
  }

  /** In front of a delimiter, that delimiter is the first one a reader finds in the part. */
  predicate Delimited(p: Part, boundary: Bytes) {
    Find(Delimiter(boundary), CRLF + Content(p) + Delimiter(boundary)) == Some(|CRLF + Content(p)|)
  }

  predicate Recoverable(p: Part, boundary: Bytes) {
    Readable(p) && Delimited(p, boundary)
  }

  /**
   Across the empty line the delimiter can only appear as that line's CRLF and a boundary at the start of the
   body.
   */
  lemma SeparableIs(p: Part, boundary: Bytes)
    requires CR !in boundary
    ensures Separable(p, boundary) <==> !Occurs(Delimiter(boundary), CRLF + Content(p))
  {
    var delimiter, head := Delimiter(boundary), CRLF + EncodedHeaders(p.headers);
    var d := head + p.body;
    assert CRLF + Content(p) == d;
    var n := |head| - 2;
    assert head[n..] == CRLF;
    if Occurs(delimiter, head) { OccursInFront(delimiter, head, p.body); }
    if Occurs(delimiter, p.body) { OccursInWhole(delimiter, head, p.body); }
    if DashBoundary(boundary) <= p.body {
      assert d[n..] == CRLF + p.body;
      assert delimiter <= d[n..];
    }
    forall i | 0 <= i <= |d| ensures delimiter <= d[i..] ==> !Separable(p, boundary) {
      OccursAt(boundary, head, p.body, i);
    }
  }

  /** Where the delimiter can be in a header block with its empty line and a body behind it. */
  lemma OccursAt(boundary: Bytes, head: Bytes, body: Bytes, i: nat)
    requires CR !in boundary && |head| >= 2 && head[|head| - 2..] == CRLF && i <= |head + body|
    ensures Delimiter(boundary) <= (head + body)[i..]
        ==> Occurs(Delimiter(boundary), head) || Occurs(Delimiter(boundary), body) || DashBoundary(boundary) <= body
  {
    var delimiter, d, n := Delimiter(boundary), head + body, |head| - 2;
    if i >= |head| {
      var k := i - |head|;
      assert d[i..] == body[k..];
      assert delimiter <= body[k..] ==> Occurs(delimiter, body);
    } else if i + |delimiter| <= |head| {
      assert head[i..] <= d[i..];
      assert delimiter <= head[i..] ==> Occurs(delimiter, head);
    } else if i == n {
      assert d[n..] == CRLF + body;
      CancelFront(CRLF, DashBoundary(boundary), body);
    } else {
      NotAcross(boundary, head, body, i);
    }
  }

  lemma CancelFront(a: Bytes, s: Bytes, t: Bytes)
    ensures a + s <= a + t <==> s <= t
  {
    if |s| <= |t| {
      assert (a + t)[..|a + s|] == a + t[..|s|];
      assert (a + s)[|a|..] == s && (a + t[..|s|])[|a|..] == t[..|s|];
    }
  }

  lemma NotAcross(boundary: Bytes, head: Bytes, body: Bytes, i: nat)
    requires CR !in boundary && |head| >= 2 && head[|head| - 2..] == CRLF
    requires |head| - |Delimiter(boundary)| < i < |head| && i != |head| - 2
    ensures !(Delimiter(boundary) <= (head + body)[i..])
  {
    var delimiter, d, n := Delimiter(boundary), head + body, |head| - 2;
    assert d[n] == head[n..][0] && d[n + 1] == head[n..][1];
    if i < n {
      var k := n - i;
      assert d[i..] == head[i..] + body;
      assert d[i..][k] == CR;
      assert delimiter[k] != CR;
    } else {
      assert d[i..][0] == LF;
    }
  }

  function Pieces(parts: seq<Part>): seq<Bytes> {
    if parts == [] then [DASHES + CRLF] else [CRLF + Content(parts[0])] + Pieces(parts[1..])
  }

  lemma GluedPieces(parts: seq<Part>, delimiter: Bytes)
    ensures Glue(delimiter, Pieces(parts))
         == if parts == [] then delimiter + DASHES + CRLF
            else delimiter + CRLF + Content(parts[0]) + Glue(delimiter, Pieces(parts[1..]))
  {
    var pieces := Pieces(parts);
    if parts == [] {
      assert pieces[1..] == [];
    } else {
      assert pieces[1..] == Pieces(parts[1..]);
    }
  }

  /** The parts after the first, as the encoder marks them. */
  lemma {:induction false} AssembledTail(marked: seq<Marked>, parts: seq<Part>, boundary: Bytes)
    requires parts != [] && |marked| == |parts|
    requires forall i :: 0 <= i < |parts| ==> marked[i] == Marked(parts[i], false, i == |parts| - 1)
    ensures Assembled(marked, boundary) == Glue(Delimiter(boundary), Pieces(parts))
    decreases |parts|
  {
    hide Content, EncodedPart, Glue, Pieces, Delimiter;
    var delimiter := Delimiter(boundary);
    var head, rest := delimiter + CRLF + Content(parts[0]), Glue(delimiter, Pieces(parts[1..]));
    GluedPieces(parts, delimiter);
    PartBytes(marked[0], boundary);
    if |parts| == 1 {
      GluedPieces([], delimiter);
      assert marked[1..] == [] && parts[1..] == [];
      assert EncodedPart(marked[0], boundary) == head + rest;
    } else {
      AssembledTail(marked[1..], parts[1..], boundary);
      assert EncodedPart(marked[0], boundary) == head;
    }
  }

  lemma PartBytes(m: Marked, boundary: Bytes)
    requires !m.initial
    ensures EncodedPart(m, boundary)
         == Delimiter(boundary) + CRLF + Content(m.part) + (if m.final then Delimiter(boundary) + DASHES + CRLF else [])
  {
    hide EncodedHeaders, DashBoundary;
  }

  /** The first part only lacks the CRLF that starts the others. */
  lemma InitialBytes(m: Marked, boundary: Bytes)
    requires m.initial
    ensures CRLF + EncodedPart(m, boundary) == EncodedPart(m.(initial := false), boundary)
  {
    hide EncodedHeaders, BoundaryData;
    var headers, final := EncodedHeaders(m.part.headers), if m.final then BoundaryData(Final, boundary) else [];
    assert CRLF + BoundaryData(Initial, boundary) == BoundaryData(Encapsulated, boundary) by { BoundaryCrlf(boundary); }
    assert CRLF + (BoundaryData(Initial, boundary) + headers + m.part.body + final)
        == (CRLF + BoundaryData(Initial, boundary)) + headers + m.part.body + final;
  }

  lemma BoundaryCrlf(boundary: Bytes)
    ensures CRLF + BoundaryData(Initial, boundary) == BoundaryData(Encapsulated, boundary)
  {
  }

  /** With the CRLF a reader puts in front, an encoded form is its pieces with a delimiter before each. */
  lemma EncodedIsGlued(parts: seq<Part>, boundary: Bytes)
    requires parts != []
    ensures CRLF + Encoded(parts, boundary) == Glue(Delimiter(boundary), Pieces(parts))
  {
    hide Glue, Pieces, EncodedPart, BoundaryData;
    var marked := Mark(Unmarked(parts));
    var plain := marked[0 := Marked(parts[0], false, |parts| == 1)];
    InitialBytes(marked[0], boundary);
    assert marked[0] == plain[0].(initial := true) && marked[1..] == plain[1..];
    assert CRLF + Assembled(marked, boundary) == Assembled(plain, boundary);
    AssembledTail(plain, parts, boundary);
  }

  lemma DelimiterMarks(boundary: Bytes)
    requires CR !in boundary
    ensures Marks(Delimiter(boundary))
  {
  }

  /** For a boundary without a CR, that is a matter of the part alone. */
  lemma DelimitedIsSeparable(p: Part, boundary: Bytes)
    requires CR !in boundary
    ensures Delimited(p, boundary) <==> Separable(p, boundary)
  {
    var delimiter, piece := Delimiter(boundary), CRLF + Content(p);
    SeparableIs(p, boundary);
    DelimiterMarks(boundary);
    hide Separable, Content, Delimiter;
    if Occurs(delimiter, piece) {
      var i :| 0 <= i <= |piece| && delimiter <= piece[i..];
      assert delimiter <= (piece + delimiter)[i..] by { assert (piece + delimiter)[i..] == piece[i..] + delimiter; }
      FindIsLeftmost(delimiter, piece + delimiter);
    } else {
      NoStraddling(delimiter, piece, []);
      assert piece + delimiter + [] == piece + delimiter;
    }
  }

  lemma FoundWithin(pattern: Bytes, s: Bytes)
    ensures Find(pattern, s + pattern).Some? && Find(pattern, s + pattern).value <= |s|
  {
    hide Find;
    var d := s + pattern;
    FindIsLeftmost(pattern, d);
    assert d[|s|..] == pattern;
    assert Occurs(pattern, d);
    hide Occurs;
    assert !(|s| < Find(pattern, d).value);
  }

  /** What follows a delimiter at which a search has ended does not matter. */
  lemma FoundInFront(pattern: Bytes, s: Bytes, rest: Bytes)
    ensures Find(pattern, s + pattern + rest) == Find(pattern, s + pattern)
  {
    hide Find, Occurs;
    var d := s + pattern;
    FoundWithin(pattern, s);
    FindIsLeftmost(pattern, d);
    var k := Find(pattern, d).value;
    forall j | 0 <= j <= k ensures pattern <= (d + rest)[j..] <==> pattern <= d[j..] {
      var tail := d[j..];
      assert (d + rest)[j..] == tail + rest && |pattern| <= |tail|;
    }
    FoundAt(pattern, d + rest, k);
  }

  lemma {:induction false} PaddingIsShorter(d: Bytes)
    ensures |SkipPadding(d)| <= |d|
  {
    if d != [] && d[0] in [SPACE, TAB] { PaddingIsShorter(d[1..]); }
  }

  /** Everything behind the first delimiter of the encoded parts. */
  function Tail(parts: seq<Part>, delimiter: Bytes): Bytes {
    if parts == [] then DASHES + CRLF
    else CRLF + Content(parts[0]) + delimiter + Tail(parts[1..], delimiter)
  }

  lemma {:induction false} GluedIsTail(parts: seq<Part>, delimiter: Bytes)
    ensures Glue(delimiter, Pieces(parts)) == delimiter + Tail(parts, delimiter)
  {
    hide Glue, Pieces, Content;
    GluedPieces(parts, delimiter);
    if parts != [] { GluedIsTail(parts[1..], delimiter); }
  }

  /** A piece that ends where the part does is read as it, exactly if the part is readable. */
  lemma WholePiece(p: Part)
    ensures var piece := CRLF + Content(p);
            !(DASHES <= piece) && SkipPadding(piece) == piece && CRLF <= piece && piece[2..] == Content(p)
    ensures ReadPart(Content(p)) == Some(p) <==> Readable(p)
  {
    assert (CRLF + Content(p))[0] == CR;
    if Readable(p) { PartRoundTrip(p); }
    if ReadPart(Content(p)) == Some(p) { ReadPartIsContent(Content(p)); }
  }

  /** A piece that ends before is not. */
  lemma CutPiece(piece: Bytes, p: Part)
    requires |piece| < |CRLF + Content(p)|
    ensures var line := SkipPadding(piece);
            !(CRLF <= line) || ReadPart(line[2..]) != Some(p)
  {
    hide ReadPart, Content, Find;
    var line := SkipPadding(piece);
    PaddingIsShorter(piece);
    if CRLF <= line && ReadPart(line[2..]).Some? { ReadPartIsContent(line[2..]); }
  }

  lemma SplitTail(delimiter: Bytes, piece: Bytes, tail: Bytes)
    requires delimiter != []
    ensures Find(delimiter, piece + delimiter).Some? && Find(delimiter, piece + delimiter).value <= |piece|
    ensures var k, pieces := Find(delimiter, piece + delimiter).value, Split(delimiter, piece + delimiter + tail);
            pieces[0] == piece[..k] && (k == |piece| ==> pieces[1..] == Split(delimiter, tail))
  {
    FoundWithin(delimiter, piece);
    FoundInFront(delimiter, piece, tail);
    hide Find;
    var k, d := Find(delimiter, piece + delimiter).value, piece + delimiter + tail;
    assert d[..k] == piece[..k];
    if k == |piece| { assert d[k + |delimiter|..] == tail; }
  }

  lemma AllRecoverable(parts: seq<Part>, boundary: Bytes)
    requires parts != []
    ensures (forall p <- parts :: Recoverable(p, boundary))
       <==> Recoverable(parts[0], boundary) && forall p <- parts[1..] :: Recoverable(p, boundary)
  {
    hide Recoverable;
    assert parts == [parts[0]] + parts[1..];
  }

  lemma FirstPiece(pieces: seq<Bytes>, p: Part, rest: seq<Part>)
    requires pieces != [] && pieces[0] == CRLF + Content(p)
    ensures ReadPieces(pieces) == Some([p] + rest) <==> Readable(p) && ReadPieces(pieces[1..]) == Some(rest)
  {
    WholePiece(p);
    hide ReadPart, Content, Readable, SkipPadding;
    var read := ReadPieces(pieces[1..]);
    if ReadPart(Content(p)).Some? && read.Some? {
      var q := ReadPart(Content(p)).value;
      assert ([q] + read.value)[0] == q && ([q] + read.value)[1..] == read.value;
      assert ([p] + rest)[0] == p && ([p] + rest)[1..] == rest;
    }
  }

  lemma FirstPieceCut(pieces: seq<Bytes>, p: Part, rest: seq<Part>)
    requires pieces != [] && |pieces[0]| < |CRLF + Content(p)|
    ensures ReadPieces(pieces) != Some([p] + rest)
  {
    CutPiece(pieces[0], p);
    hide ReadPart, Content, SkipPadding;
    if ReadPieces(pieces) == Some([p] + rest) {
      assert ([p] + rest)[0] == p;
    }
  }

  lemma TailOfFirst(parts: seq<Part>, delimiter: Bytes)
    requires parts != []
    ensures Tail(parts, delimiter) == CRLF + Content(parts[0]) + delimiter + Tail(parts[1..], delimiter)
  {
  }

  lemma RecoverableMeans(p: Part, boundary: Bytes)
    ensures var piece, delimiter := CRLF + Content(p), Delimiter(boundary);
            && delimiter != []
            && (Recoverable(p, boundary) <==> Readable(p) && Find(delimiter, piece + delimiter) == Some(|piece|))
  {
  }

  lemma NoParts(boundary: Bytes)
    ensures ReadPieces(Split(Delimiter(boundary), Tail([], Delimiter(boundary)))) == Some([])
  {
    NothingInClosing(boundary);
  }

  lemma {:induction false} ReadTail(parts: seq<Part>, boundary: Bytes)
    ensures ReadPieces(Split(Delimiter(boundary), Tail(parts, Delimiter(boundary)))) == Some(parts)
       <==> forall p <- parts :: Recoverable(p, boundary)
    decreases |parts|
  {
    hide *;
    var delimiter := Delimiter(boundary);
    if parts == [] {
      NoParts(boundary);
    } else {
      var p, rest := parts[0], parts[1..];
      var piece, tail := CRLF + Content(p), Tail(rest, delimiter);
      RecoverableMeans(p, boundary);
      TailOfFirst(parts, delimiter);
      SplitTail(delimiter, piece, tail);
      ReadTail(rest, boundary);
      AllRecoverable(parts, boundary);
      assert [p] + rest == parts;
      var pieces := Split(delimiter, piece + delimiter + tail);
      if Find(delimiter, piece + delimiter).value == |piece| {
        assert piece[..|piece|] == piece;
        FirstPiece(pieces, p, rest);
      } else {
        FirstPieceCut(pieces, p, rest);
      }
    }
  }

  lemma NothingInClosing(boundary: Bytes)
    ensures Split(Delimiter(boundary), DASHES + CRLF) == [DASHES + CRLF]
  {
    var closing: Bytes := DASHES + CRLF;
    forall i | 0 <= i <= |closing| ensures !(Delimiter(boundary) <= closing[i..]) {
      if i == 0 { assert closing[0..] == closing && closing[0] != Delimiter(boundary)[0]; }
    }
    FindIsLeftmost(Delimiter(boundary), closing);
  }

  /**
   Whatever the boundary, a reader recovers exactly the forms that have a part and in which all headers can be read
   and the first delimiter found from the start of each part is the one behind it.
   */
  lemma RoundTrip(parts: seq<Part>, boundary: Bytes)
    ensures Read(Encoded(parts, boundary), boundary) == Some(parts)
       <==> parts != [] && forall p <- parts :: Recoverable(p, boundary)
  {
    var delimiter := Delimiter(boundary);
    if parts != [] {
      var tail := Tail(parts, delimiter);
      EncodedIsGlued(parts, boundary);
      GluedIsTail(parts, delimiter);
      var d := CRLF + Encoded(parts, boundary);
      assert d == delimiter + tail && d[0..] == d && d[|delimiter|..] == tail;
      FoundAt(delimiter, d, 0);
      assert Split(delimiter, d)[1..] == Split(delimiter, tail);
      ReadTail(parts, boundary);
    }
  }

  /** With a boundary without a CR: the forms with a part, readable headers and no delimiter in their parts. */
  lemma RoundTripSeparable(parts: seq<Part>, boundary: Bytes)
    requires CR !in boundary
    ensures Read(Encoded(parts, boundary), boundary) == Some(parts)
       <==> parts != [] && forall p <- parts :: Readable(p) && Separable(p, boundary)
  {
    RoundTrip(parts, boundary);
    forall p | p in parts ensures Delimited(p, boundary) <==> Separable(p, boundary) {
      DelimitedIsSeparable(p, boundary);
    }
  }

  /** A body that is a boundary line is lost although the delimiter is neither in the headers nor in the body. */
  lemma BoundaryLineInBody(boundary: Bytes)
    requires CR !in boundary
    ensures var p := Part([], DashBoundary(boundary));
            && !Occurs(Delimiter(boundary), EncodedHeaders(p.headers))
            && !Occurs(Delimiter(boundary), p.body)
            && Read(Encoded([p], boundary), boundary) != Some([p])
  {
    var p := Part([], DashBoundary(boundary));
    RoundTripSeparable([p], boundary);
    assert p in [p] && !Separable(p, boundary);
    forall i | 0 <= i <= |p.body| ensures !(Delimiter(boundary) <= p.body[i..]) {
      if i < |p.body| {
        assert p.body[i..][0] == p.body[i] != CR;
      }
    }
  }

  // ---------------------------------------------------------------- byte for byte

  function LiteralHeaders(headers: seq<Header>): Bytes {
    if headers == [] then [13, 10]
    else headers[0].name + [58, 32] + headers[0].value + [13, 10] + LiteralHeaders(headers[1..])
  }

  /** The parts from one on, each behind a boundary line, and the closing one. */
  function LiteralParts(parts: seq<Part>, boundary: Bytes): Bytes {
    if parts == [] then [13, 10, 45, 45] + boundary + [45, 45, 13, 10]
    else [13, 10, 45, 45] + boundary + [13, 10] + (LiteralHeaders(parts[0].headers) + parts[0].body)
         + LiteralParts(parts[1..], boundary)
  }

  lemma {:induction false} HeadersLiterally(headers: seq<Header>)
    ensures EncodedHeaders(headers) == LiteralHeaders(headers)
    decreases |headers|
  {
    if headers == [] {
      assert HeaderLines(headers) + CRLF == CRLF;
    } else {
      HeadersLiterally(headers[1..]);
      assert EncodedHeaders(headers) == HeaderLine(headers[0]) + CRLF + EncodedHeaders(headers[1..]);
    }
  }

  lemma Regrouped(a: Bytes, b: Bytes, c: Bytes, d: Bytes, e: Bytes)
    ensures a + (b + c + d + e) == a + b + c + (d + e)
  {
  }

  lemma {:induction false} TailLiterally(parts: seq<Part>, boundary: Bytes)
    ensures Delimiter(boundary) + Tail(parts, Delimiter(boundary)) == LiteralParts(parts, boundary)
    decreases |parts|
  {
    var delimiter := Delimiter(boundary);
    assert delimiter == [13, 10, 45, 45] + boundary && CRLF == [13, 10];
    if parts == [] {
      assert DASHES + CRLF == [45, 45, 13, 10];
    } else {
      var rest := Tail(parts[1..], delimiter);
      TailLiterally(parts[1..], boundary);
      TailOfFirst(parts, delimiter);
      HeadersLiterally(parts[0].headers);
      Regrouped(delimiter, CRLF, Content(parts[0]), delimiter, rest);
      hide Tail, LiteralHeaders, Delimiter, EncodedHeaders;
      assert Content(parts[0]) == LiteralHeaders(parts[0].headers) + parts[0].body;
    }
  }

  /** Every byte of a form's body, but for the line break that its first boundary line goes without. */
  lemma EncodedLiterally(parts: seq<Part>, boundary: Bytes)
    ensures if parts == [] then Encoded(parts, boundary) == []
            else [13, 10] + Encoded(parts, boundary) == LiteralParts(parts, boundary)
  {
    if parts != [] {
      EncodedIsGlued(parts, boundary);
      GluedIsTail(parts, Delimiter(boundary));
      TailLiterally(parts, boundary);
      hide Tail, LiteralParts, Encoded;
      assert CRLF == [13, 10];
    }
  }

  // ---------------------------------------------------------------- generated boundaries

  /** The number written in lower-case hexadecimal digits. */
  function HexNumber(s: Bytes): int {
    if s == [] then 0
    else
      var c: int := s[|s| - 1];
      16 * HexNumber(s[..|s| - 1]) + (if c < 58 then c - 48 else c - 97 + 10)
  }

  lemma {:induction false} HexReadsBack(x: nat, n: nat)
    requires x < Shl(1, 4 * n)
    ensures HexNumber(Hex(x, n)) == x
  {
    if n > 0 {
      var s := Hex(x, n);
      HexDigits(x, n);
      HexDigits(x / 16, n - 1);
      assert s[..n - 1] == Hex(x / 16, n - 1) && s[n - 1] == HexDigit(x % 16);
      var k := 4 * (n - 1);
      assert Shl(1, 4 * n) == 16 * Shl(1, k) by {
        assert 4 * n == k + 4;
        assert Shl(1, k + 4) == 2 * Shl(1, k + 3) == 4 * Shl(1, k + 2) == 8 * Shl(1, k + 1);
      }
      HexReadsBack(x / 16, n - 1);
    }
  }

  /** A generated boundary names the two draws, in eight digits each. */
  lemma BoundaryNamesDraws(first: nat, second: nat)
    requires first < U32 && second < U32
    ensures var b := RandomBoundary(first, second);
            |b| == 35 && b[..19] == Ascii("alamofire.boundary.")
            && HexNumber(b[19..27]) == first && HexNumber(b[27..]) == second
  {
    var n := 8;
    HexDigits(first, n);
    HexDigits(second, n);
    ShlTable(1, 4 * n);
    HexReadsBack(first, n);
    HexReadsBack(second, n);
    var prefix := "alamofire.boundary.";
    assert |prefix| == 19;
    var b := RandomBoundary(first, second);
    assert b == Ascii(prefix) + Hex(first, n) + Hex(second, n);
    hide Hex, HexNumber, Ascii;
    assert b[19..27] == Hex(first, n) && b[27..] == Hex(second, n);
  }

  lemma {:induction false} HexDigits(x: nat, n: nat)
    ensures |Hex(x, n)| == n
    ensures forall c <- Hex(x, n) :: 48 <= c <= 57 || 97 <= c <= 102
  {
    if n > 0 { HexDigits(x / 16, n - 1); }
  }

  lemma {:induction false} HexInjective(x: nat, y: nat, n: nat)
    requires Hex(x, n) == Hex(y, n) && x < Shl(1, 4 * n) && y < Shl(1, 4 * n)
    ensures x == y
  {
    if n > 0 {
      var a, b := Hex(x / 16, n - 1), Hex(y / 16, n - 1);
      var s, t := a + [HexDigit(x % 16)], b + [HexDigit(y % 16)];
      HexDigits(x / 16, n - 1);
      HexDigits(y / 16, n - 1);
      assert s == t;
      assert s[n - 1] == t[n - 1];
      assert a == s[..n - 1] && b == t[..n - 1];
      var k := 4 * (n - 1);
      assert Shl(1, 4 * n) == 16 * Shl(1, k) by {
        assert 4 * n == k + 4;
        assert Shl(1, k + 4) == 2 * Shl(1, k + 3) == 4 * Shl(1, k + 2) == 8 * Shl(1, k + 1);
      }
      HexInjective(x / 16, y / 16, n - 1);
    }
  }

  /**
   Generated boundaries never hold a CR, keep to the 70 characters RFC 2046 allows, and differ for different
   draws.
   */
  lemma RandomBoundaries(first: nat, second: nat, first': nat, second': nat)
    requires first < U32 && second < U32 && first' < U32 && second' < U32
    ensures CR !in RandomBoundary(first, second) && |RandomBoundary(first, second)| <= 70
    ensures RandomBoundary(first, second) == RandomBoundary(first', second') ==> first == first' && second == second'
  {
    var prefix, n := Ascii("alamofire.boundary."), 8;
    HexDigits(first, n);
    HexDigits(second, n);
    HexDigits(first', n);
    HexDigits(second', n);
    var a, b := RandomBoundary(first, second), RandomBoundary(first', second');
    assert CR !in prefix;
    if a == b {
      assert Hex(first, n) == a[|prefix|..|prefix| + n] == b[|prefix|..|prefix| + n] == Hex(first', n);
      assert Hex(second, n) == a[|prefix| + n..] == b[|prefix| + n..] == Hex(second', n);
      ShlTable(1, 4 * n);
      HexInjective(first, first', n);
      HexInjective(second, second', n);
    }
  }
}
