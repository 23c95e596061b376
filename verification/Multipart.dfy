/** The bytes of a multipart/form-data body (section 4 of RFC 7578, section 5.1.1 of RFC 2046). */
module Multipart {
  import opened Bits
  import opened Options

  type Bytes = seq<byte>

  const CR: byte := 13
  const LF: byte := 10
  const CRLF: Bytes := [CR, LF]
  const DASHES: Bytes := [45, 45]
  const COLON: byte := 58
  const SPACE: byte := 32
  const TAB: byte := 9
  const QUOTE: byte := 34

  datatype BoundaryType = Initial | Encapsulated | Final

  datatype Header = Header(name: Bytes, value: Bytes)

  datatype Part = Part(headers: seq<Header>, body: Bytes)

  /** A part with the two flags that say which boundaries go around it. */
  datatype Marked = Marked(part: Part, initial: bool, final: bool)

  /** The dash-boundary and the delimiter of RFC 2046. */
  function DashBoundary(boundary: Bytes): Bytes {
    DASHES + boundary
  }

  function Delimiter(boundary: Bytes): Bytes {
    CRLF + DashBoundary(boundary)
  }

  function BoundaryData(t: BoundaryType, boundary: Bytes): Bytes {
    match t
    case Initial => DashBoundary(boundary) + CRLF
    case Encapsulated => CRLF + DashBoundary(boundary) + CRLF
    case Final => CRLF + DashBoundary(boundary) + DASHES + CRLF
  }

  function HeaderLine(h: Header): Bytes {
    h.name + [COLON, SPACE] + h.value
  }

  function HeaderLines(headers: seq<Header>): Bytes {
    if headers == [] then [] else HeaderLine(headers[0]) + CRLF + HeaderLines(headers[1..])
  }

  function EncodedHeaders(headers: seq<Header>): Bytes {
    HeaderLines(headers) + CRLF
  }

  /** What stands between two boundary lines. */
  function Content(p: Part): Bytes {
    EncodedHeaders(p.headers) + p.body
  }

  function EncodedPart(m: Marked, boundary: Bytes): Bytes {
    BoundaryData(if m.initial then Initial else Encapsulated, boundary)
    + EncodedHeaders(m.part.headers)
    + m.part.body
    + (if m.final then BoundaryData(Final, boundary) else [])
  }

  function Assembled(parts: seq<Marked>, boundary: Bytes): Bytes {
    if parts == [] then [] else EncodedPart(parts[0], boundary) + Assembled(parts[1..], boundary)
  }

  /** The flags set at the start of encoding. */
  function Mark(parts: seq<Marked>): (marked: seq<Marked>)
    ensures |marked| == |parts|
  {
    if parts == [] then []
    else
      var started := parts[0 := parts[0].(initial := true)];
      started[|started| - 1 := started[|started| - 1].(final := true)]
  }

  function Unmarked(parts: seq<Part>): seq<Marked> {
    seq(|parts|, i requires 0 <= i < |parts| => Marked(parts[i], false, false))
  }

  /** The body of a form encoded for the first time. */
  function Encoded(parts: seq<Part>, boundary: Bytes): Bytes {
    Assembled(Mark(Unmarked(parts)), boundary)
  }

  lemma {:induction false} AssembledAppend(parts: seq<Marked>, m: Marked, boundary: Bytes)
    ensures Assembled(parts + [m], boundary) == Assembled(parts, boundary) + EncodedPart(m, boundary)
  {
    hide EncodedPart;
    if parts == [] {
      assert (parts + [m])[1..] == [];
    } else {
      assert (parts + [m])[1..] == parts[1..] + [m];
      AssembledAppend(parts[1..], m, boundary);
    }
  }

  // ---------------------------------------------------------------- forms whose bodies are streams

  /** A part, the bytes its stream will deliver as body, and the length declared for it. */
  datatype Source = Source(marked: Marked, declared: nat)

  datatype EncodingError =
    | BodyPartInvalid(reason: nat)
    | InputStreamReadFailed(code: nat)
    | UnexpectedInputStreamLength(bytesExpected: nat, bytesRead: nat)
    | OutputStreamFileAlreadyExists
    | OutputStreamURLInvalid
    | OutputStreamCreationFailed
    | OutputStreamWriteFailed(code: nat)

  datatype Result<+T> = Success(value: T) | Failure(error: EncodingError)

  function MarkedOf(sources: seq<Source>): (parts: seq<Marked>)
    ensures |parts| == |sources| && forall i :: 0 <= i < |sources| ==> parts[i] == sources[i].marked
  {
    seq(|sources|, i requires 0 <= i < |sources| => sources[i].marked)
  }

  predicate LengthKept(s: Source) {
    |s.marked.part.body| == s.declared
  }

  /** The first part whose stream is not as long as declared. */
  function FirstMismatch(sources: seq<Source>): (at: Option<nat>)
    ensures at.Some? ==> at.value < |sources| && !LengthKept(sources[at.value])
    ensures forall i :: 0 <= i < (if at.Some? then at.value else |sources|) ==> LengthKept(sources[i])
  {
    if sources == [] then None
    else if !LengthKept(sources[0]) then Some(0)
    else
      var at := FirstMismatch(sources[1..]);
      assert forall i :: 0 < i < |sources| ==> sources[i] == sources[1..][i - 1];
      if at.None? then None else Some(at.value + 1)
  }

  function WrongLength(s: Source): Result<Bytes> {
    Failure(UnexpectedInputStreamLength(s.declared, |s.marked.part.body|))
  }

  /** What encoding into memory comes to when no stream fails. */
  function EncodeOutcome(sources: seq<Source>, boundary: Bytes): Result<Bytes> {
    var at := FirstMismatch(sources);
    if at.None? then Success(Assembled(Mark(MarkedOf(sources)), boundary)) else WrongLength(sources[at.value])
  }

  /** The part whose body stops at the declared length. */
  function Clipped(s: Source): Marked {
    var body := s.marked.part.body;
    s.marked.(part := s.marked.part.(body := if s.declared <= |body| then body[..s.declared] else body))
  }

  function ClippedAll(sources: seq<Source>): (parts: seq<Marked>)
    ensures |parts| == |sources| && forall i :: 0 <= i < |sources| ==> parts[i] == Clipped(sources[i])
  {
    seq(|sources|, i requires 0 <= i < |sources| => Clipped(sources[i]))
  }

  // ---------------------------------------------------------------- generated boundaries and headers

  function Ascii(text: string): (bytes: Bytes)
    ensures |bytes| == |text|
    ensures forall i :: 0 <= i < |text| ==> text[i] < 128 as char ==> bytes[i] == text[i] as int
  {
    seq(|text|, i requires 0 <= i < |text| => text[i] as int % 256)
  }

  function HexDigit(d: nat): byte
    requires d < 16
  {
    if d < 10 then 48 + d else 87 + d
  }

  /** `%0Nx`: the last `n` hexadecimal digits. */
  function Hex(x: nat, n: nat): Bytes {
    if n == 0 then [] else Hex(x / 16, n - 1) + [HexDigit(x % 16)]
  }

  /** The headers of a part appended by name. */
  function ContentHeaders(name: Bytes, fileName: Option<Bytes>, mimeType: Option<Bytes>): seq<Header> {
    var disposition := Ascii("form-data; name=\"") + name + [QUOTE]
      + (if fileName.Some? then Ascii("; filename=\"") + fileName.value + [QUOTE] else []);
    [Header(Ascii("Content-Disposition"), disposition)]
    + (if mimeType.Some? then [Header(Ascii("Content-Type"), mimeType.value)] else [])
  }

  function RandomBoundary(first: nat, second: nat): Bytes {
    Ascii("alamofire.boundary.") + Hex(first, 8) + Hex(second, 8)
  }
}
