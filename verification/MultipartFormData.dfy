/** MultipartFormData: a form encoded into memory, or written part by part to an output stream. */
module MultipartFormDataClass {
  import opened Bits
  import opened Multipart
  import opened Options

  const STREAM_BUFFER_SIZE: nat := 1024

  /** A stream of bytes.  How many of them one read delivers, and whether it fails, is not up to the reader. */
  class InputStream {
    var rest: Bytes
    var streamError: Option<nat>

    constructor (data: Bytes)
      ensures rest == data && streamError == None
    {
      rest, streamError := data, None;
    }

    /** At the end of the stream the answer may also be yes. */
    method HasBytesAvailable() returns (available: bool)
      ensures rest != [] ==> available
    {
      available := *;
      if rest != [] { available := true; }
    }

    method Read(buffer: array<byte>, maxLength: nat) returns (bytesRead: int)
      requires 0 < maxLength <= buffer.Length
      modifies this, buffer
      ensures streamError.None? ==>
                && 0 <= bytesRead <= maxLength && old(rest) == buffer[..bytesRead] + rest
                && (old(rest) != [] ==> bytesRead > 0)
    {
      var fails: bool := *;
      if fails && streamError.None? {
        var code: nat := *;
        streamError := Some(code);
      }
      if streamError.Some? { return -1; }
      if rest == [] { return 0; }
      var n: nat :| 1 <= n <= maxLength && n <= |rest|;
      forall i | 0 <= i < n {
        buffer[i] := rest[i];
      }
      assert buffer[..n] == rest[..n];
      rest := rest[n..];
      return n;
    }
  }

  /** A stream to write to.  It takes any positive part of what it is given, when it has space and does not fail. */
  class OutputStream {
    var written: Bytes
    var streamError: Option<nat>
    /** Whether it ever said that it had no space. */
    ghost var refused: bool

    constructor ()
      ensures written == [] && streamError == None && !refused
    {
      written, streamError, refused := [], None, false;
    }

    method HasSpaceAvailable() returns (space: bool)
      modifies `refused
      ensures refused == (old(refused) || !space)
    {
      space := *;
      refused := refused || !space;
    }

    method Write(buffer: Bytes, maxLength: nat) returns (bytesWritten: int)
      requires 0 < maxLength <= |buffer|
      modifies `written, `streamError
      ensures old(written) <= written
      ensures streamError.None? ==> 0 < bytesWritten <= maxLength && written == old(written) + buffer[..bytesWritten]
    {
      var fails: bool := *;
      if fails && streamError.None? {
        var code: nat := *;
        streamError := Some(code);
      }
      if streamError.Some? { return -1; }
      var n: nat :| 1 <= n <= maxLength;
      written := written + buffer[..n];
      return n;
    }
  }

  class BodyPart {
    const headers: seq<Header>
    const bodyStream: InputStream
    const bodyContentLength: nat
    var hasInitialBoundary: bool
    var hasFinalBoundary: bool

    constructor (headers: seq<Header>, bodyStream: InputStream, bodyContentLength: nat)
      ensures this.headers == headers && this.bodyStream == bodyStream && this.bodyContentLength == bodyContentLength
      ensures !hasInitialBoundary && !hasFinalBoundary
    {
      this.headers, this.bodyStream, this.bodyContentLength := headers, bodyStream, bodyContentLength;
      hasInitialBoundary, hasFinalBoundary := false, false;
    }

    ghost function View(): Source
      reads this, bodyStream
    {
      Source(Marked(Part(headers, bodyStream.rest), hasInitialBoundary, hasFinalBoundary), bodyContentLength)
    }
  }

  ghost function Streams(parts: seq<BodyPart>): set<InputStream> {
    set p <- parts :: p.bodyStream
  }

  ghost function Views(parts: seq<BodyPart>): (sources: seq<Source>)
    reads parts, Streams(parts)
    ensures |sources| == |parts| && forall i :: 0 <= i < |parts| ==> sources[i] == parts[i].View()
  {
    if parts == [] then [] else Views(parts[..|parts| - 1]) + [parts[|parts| - 1].View()]
  }

  /** The same sources after marking the ends of the form. */
  predicate EndsMarked(before: seq<Source>, after: seq<Source>) {
    && |after| == |before| && MarkedOf(after) == Mark(MarkedOf(before))
    && forall i :: 0 <= i < |after| ==> after[i].declared == before[i].declared
  }

  lemma MarksKeepBodies(before: seq<Source>, after: seq<Source>)
    requires EndsMarked(before, after)
    ensures forall i :: 0 <= i < |after| ==> after[i].marked.part == before[i].marked.part
  {
    forall i | 0 <= i < |after| ensures after[i].marked.part == before[i].marked.part {
      assert MarkedOf(after)[i] == after[i].marked;
    }
  }

  /** Marking the ends does not change whether encoding succeeds, nor how it fails. */
  lemma MarkedOutcome(before: seq<Source>, after: seq<Source>, boundary: Bytes)
    requires EndsMarked(before, after)
    ensures FirstMismatch(after) == FirstMismatch(before)
    ensures FirstMismatch(after).Some? ==>
      WrongLength(after[FirstMismatch(after).value]) == WrongLength(before[FirstMismatch(after).value])
  {
    hide Mark, FirstMismatch;
    MarksKeepBodies(before, after);
    forall k | 0 <= k < |before| ensures LengthKept(before[k]) <==> LengthKept(after[k]) {
      assert before[k].marked.part == after[k].marked.part;
    }
    hide EndsMarked, LengthKept;
  }

  lemma NothingAssembled(boundary: Bytes)
    ensures Assembled([], boundary) == []
  {
  }

  lemma OneMore(sources: seq<Source>, i: nat, boundary: Bytes)
    requires i < |sources|
    ensures Assembled(MarkedOf(sources[..i + 1]), boundary)
         == Assembled(MarkedOf(sources[..i]), boundary) + EncodedPart(sources[i].marked, boundary)
  {
    hide Assembled, EncodedPart;
    AssembledAppend(MarkedOf(sources[..i]), sources[i].marked, boundary);
    assert MarkedOf(sources[..i + 1]) == MarkedOf(sources[..i]) + [sources[i].marked];
  }

  lemma OneMoreClipped(sources: seq<Source>, i: nat, boundary: Bytes)
    requires i < |sources|
    ensures Assembled(ClippedAll(sources[..i + 1]), boundary)
         == Assembled(ClippedAll(sources[..i]), boundary) + EncodedPart(Clipped(sources[i]), boundary)
  {
    hide Assembled, EncodedPart, Clipped;
    AssembledAppend(ClippedAll(sources[..i]), Clipped(sources[i]), boundary);
    assert ClippedAll(sources[..i + 1]) == ClippedAll(sources[..i]) + [Clipped(sources[i])];
  }

  lemma MarkClipped(before: seq<Source>, after: seq<Source>)
    requires EndsMarked(before, after)
    ensures ClippedAll(after) == Mark(ClippedAll(before))
  {
    MarksKeepBodies(before, after);
    forall i | 0 <= i < |after| ensures ClippedAll(after)[i] == Mark(ClippedAll(before))[i] {
      assert MarkedOf(after)[i] == after[i].marked;
    }
  }

  /** A failed read or write is told with the stream's own error. */
  ghost predicate StreamFailed(error: EncodingError, parts: seq<BodyPart>)
    reads Streams(parts)
  {
    error.InputStreamReadFailed? && exists p <- parts :: p.bodyStream.streamError == Some(error.code)
  }

  class MultipartFormData {
    const boundary: Bytes
    var bodyParts: seq<BodyPart>
    var bodyPartError: Option<nat>

    /** No stream is appended twice. */
    ghost predicate Valid()
      reads this
    {
      forall i, j :: 0 <= i < j < |bodyParts| ==>
        bodyParts[i] != bodyParts[j] && bodyParts[i].bodyStream != bodyParts[j].bodyStream
    }

    constructor (boundary: Bytes)
      ensures Valid() && this.boundary == boundary && bodyParts == [] && bodyPartError == None
    {
      this.boundary, bodyParts, bodyPartError := boundary, [], None;
    }

    method AppendStream(stream: InputStream, length: nat, headers: seq<Header>)
      requires Valid() && stream !in Streams(bodyParts)
      modifies `bodyParts
      ensures Valid()
      ensures Views(bodyParts)
           == old(Views(bodyParts)) + [Source(Marked(Part(headers, stream.rest), false, false), length)]
      ensures Streams(bodyParts) == old(Streams(bodyParts)) + {stream}
    {
      var bodyPart := new BodyPart(headers, stream, length);
      ghost var before := bodyParts;
      bodyParts := bodyParts + [bodyPart];
      assert bodyParts[..|before|] == before;
    }

    method AppendData(data: Bytes, name: Bytes, fileName: Option<Bytes>, mimeType: Option<Bytes>)
      requires Valid()
      modifies `bodyParts
      ensures Valid()
      ensures Views(bodyParts)
           == old(Views(bodyParts)) + [Source(Marked(Part(ContentHeaders(name, fileName, mimeType), data), false, false), |data|)]
    {
      var stream := new InputStream(data);
      AppendStream(stream, |data|, ContentHeaders(name, fileName, mimeType));
    }

    /** Only the first error is kept. */
    method SetBodyPartError(reason: nat)
      modifies `bodyPartError
      ensures bodyPartError == if old(bodyPartError).Some? then old(bodyPartError) else Some(reason)
    {
      if bodyPartError.Some? { return; }
      bodyPartError := Some(reason);
    }

    method MarkEnds()
      requires Valid()
      modifies bodyParts
      ensures EndsMarked(old(Views(bodyParts)), Views(bodyParts))
    {
      if |bodyParts| > 0 {
        bodyParts[0].hasInitialBoundary := true;
        bodyParts[|bodyParts| - 1].hasFinalBoundary := true;
      }
    }

    // -------------------------------------------------------------- into memory

    method EncodeBodyStream(bodyPart: BodyPart) returns (result: Result<Bytes>)
      modifies bodyPart.bodyStream
      ensures match result
        case Success(data) => data == old(bodyPart.bodyStream.rest) && |data| == bodyPart.bodyContentLength
        case Failure(error) =>
          if error.UnexpectedInputStreamLength? then
            error.bytesExpected == bodyPart.bodyContentLength != error.bytesRead == |old(bodyPart.bodyStream.rest)|
          else error.InputStreamReadFailed? && bodyPart.bodyStream.streamError == Some(error.code)
    {
      var inputStream := bodyPart.bodyStream;
      var encoded: Bytes := [];
      while true
        invariant old(inputStream.rest) == encoded + inputStream.rest
        decreases |inputStream.rest|
      {
        var available := inputStream.HasBytesAvailable();
        if !available { break; }
        var buffer := new byte[STREAM_BUFFER_SIZE](_ => 0);
        var bytesRead := inputStream.Read(buffer, STREAM_BUFFER_SIZE);
        if inputStream.streamError.Some? { return Failure(InputStreamReadFailed(inputStream.streamError.value)); }
        if bytesRead > 0 {
          encoded := encoded + buffer[..bytesRead];
        } else {
          break;
        }
      }
      assert inputStream.rest == [];
      if |encoded| != bodyPart.bodyContentLength {
        return Failure(UnexpectedInputStreamLength(bodyPart.bodyContentLength, |encoded|));
      }
      return Success(encoded);
    }

    method EncodeBodyPart(bodyPart: BodyPart) returns (result: Result<Bytes>)
      modifies bodyPart.bodyStream
      ensures result.Success? ==>
        old(LengthKept(bodyPart.View())) && result.value == EncodedPart(old(bodyPart.View()).marked, boundary)
      ensures result.Failure? ==>
        if result.error.UnexpectedInputStreamLength? then
          && old(!LengthKept(bodyPart.View()))
          && result.error == UnexpectedInputStreamLength(bodyPart.bodyContentLength, |old(bodyPart.bodyStream.rest)|)
        else result.error.InputStreamReadFailed? && bodyPart.bodyStream.streamError == Some(result.error.code)
    {
      var encoded := BoundaryData(if bodyPart.hasInitialBoundary then Initial else Encapsulated, boundary);
      encoded := encoded + EncodedHeaders(bodyPart.headers);
      var bodyStreamData := EncodeBodyStream(bodyPart);
      if bodyStreamData.Failure? { return bodyStreamData; }
      encoded := encoded + bodyStreamData.value;
      if bodyPart.hasFinalBoundary {
        encoded := encoded + BoundaryData(Final, boundary);
      }
      return Success(encoded);
    }

    method Encode() returns (result: Result<Bytes>)
      requires Valid()
      modifies bodyParts, Streams(bodyParts)
      ensures bodyPartError.Some? ==> result == Failure(BodyPartInvalid(bodyPartError.value))
      ensures bodyPartError.None? ==>
        || result == EncodeOutcome(old(Views(bodyParts)), boundary)
        || (result.Failure? && StreamFailed(result.error, bodyParts))
    {
      hide Views, StreamFailed;
      if bodyPartError.Some? { return Failure(BodyPartInvalid(bodyPartError.value)); }
      ghost var before := Views(bodyParts);
      MarkEnds();
      ghost var sources := Views(bodyParts);
      result := EncodeBodyParts();
      MarkedOutcome(before, sources, boundary);
    }

    /** The loop of encode over the body parts. */
    method EncodeBodyParts() returns (result: Result<Bytes>)
      requires Valid()
      modifies Streams(bodyParts)
      ensures result.Success? ==>
        && FirstMismatch(old(Views(bodyParts))).None?
        && result.value == Assembled(MarkedOf(old(Views(bodyParts))), boundary)
      ensures result.Failure? && !StreamFailed(result.error, bodyParts) ==>
        var at := FirstMismatch(old(Views(bodyParts)));
        at.Some? && result == WrongLength(old(Views(bodyParts))[at.value])
    {
      hide EncodedPart, Assembled, FirstMismatch, Views;
      var encoded: Bytes := [];
      ghost var sources := Views(bodyParts);
      NothingAssembled(boundary);
      for i := 0 to |bodyParts|
        invariant forall k :: i <= k < |bodyParts| ==> bodyParts[k].View() == sources[k]
        invariant forall k :: 0 <= k < i ==> LengthKept(sources[k])
        invariant encoded == Assembled(MarkedOf(sources[..i]), boundary)
      {
        var encodedData := EncodeBodyPart(bodyParts[i]);
        if encodedData.Failure? {
          assert bodyParts[i] in bodyParts;
          return encodedData;
        }
        encoded := encoded + encodedData.value;
        OneMore(sources, i, boundary);
      }
      assert sources[..|bodyParts|] == sources;
      return Success(encoded);
    }

    // -------------------------------------------------------------- through an output stream

    method WriteBuffer(data: Bytes, outputStream: OutputStream) returns (result: Result<()>)
      modifies outputStream
      ensures old(outputStream.written) <= outputStream.written && (old(outputStream.refused) ==> outputStream.refused)
      ensures result.Success? ==> outputStream.refused || outputStream.written == old(outputStream.written) + data
      ensures result.Failure? ==> result.error.OutputStreamWriteFailed? && outputStream.streamError == Some(result.error.code)
    {
      var buffer := data;
      var bytesToWrite := |buffer|;
      while bytesToWrite > 0
        invariant 0 <= bytesToWrite <= |buffer| && (bytesToWrite > 0 ==> bytesToWrite == |buffer|)
        invariant old(outputStream.written) <= outputStream.written && (old(outputStream.refused) ==> outputStream.refused)
        invariant old(outputStream.written) + data
               == outputStream.written + (if bytesToWrite > 0 then buffer else [])
      {
        var space := outputStream.HasSpaceAvailable();
        if !space { break; }
        var bytesWritten := outputStream.Write(buffer, bytesToWrite);
        if outputStream.streamError.Some? { return Failure(OutputStreamWriteFailed(outputStream.streamError.value)); }
        bytesToWrite := bytesToWrite - bytesWritten;
        if bytesToWrite > 0 {
          buffer := buffer[bytesWritten..];
        }
      }
      return Success(());
    }

    method WriteBodyStream(bodyPart: BodyPart, outputStream: OutputStream) returns (result: Result<()>)
      modifies bodyPart.bodyStream, outputStream
      ensures old(outputStream.written) <= outputStream.written && (old(outputStream.refused) ==> outputStream.refused)
      ensures result.Success? ==>
        outputStream.refused || outputStream.written == old(outputStream.written) + Clipped(old(bodyPart.View())).part.body
      ensures result.Failure? ==> WriteFailure(result.error, bodyPart, outputStream)
    {
      hide Clipped, Front;
      var inputStream := bodyPart.bodyStream;
      var bytesLeftToRead := bodyPart.bodyContentLength;
      ghost var target := old(outputStream.written) + Clipped(old(bodyPart.View())).part.body;
      ClippedBody(bodyPart.View());
      while true
        invariant 0 <= bytesLeftToRead
        invariant old(outputStream.written) <= outputStream.written && (old(outputStream.refused) ==> outputStream.refused)
        invariant outputStream.refused || target == outputStream.written + Front(inputStream.rest, bytesLeftToRead)
        decreases |inputStream.rest|
      {
        var available := inputStream.HasBytesAvailable();
        if !available || bytesLeftToRead <= 0 { break; }
        var bufferSize := if STREAM_BUFFER_SIZE <= bytesLeftToRead then STREAM_BUFFER_SIZE else bytesLeftToRead;
        var buffer := new byte[bufferSize](_ => 0);
        ghost var rest, start := inputStream.rest, outputStream.written;
        var bytesRead := inputStream.Read(buffer, bufferSize);
        if inputStream.streamError.Some? { return Failure(InputStreamReadFailed(inputStream.streamError.value)); }
        if bytesRead > 0 {
          var data := buffer[..];
          if |data| != bytesRead {
            data := data[..bytesRead];
          }
          assert data == buffer[..bytesRead] && rest == data + inputStream.rest;
          var written := WriteBuffer(data, outputStream);
          if written.Failure? { return written; }
          FrontOfSum(start, data, inputStream.rest, bytesLeftToRead);
          bytesLeftToRead := bytesLeftToRead - bytesRead;
        } else {
          break;
        }
      }
      NothingInFront(inputStream.rest, bytesLeftToRead);
      return Success(());
    }

    method WriteBodyPart(bodyPart: BodyPart, outputStream: OutputStream) returns (result: Result<()>)
      modifies bodyPart.bodyStream, outputStream
      ensures old(outputStream.written) <= outputStream.written && (old(outputStream.refused) ==> outputStream.refused)
      ensures result.Success? ==>
        outputStream.refused
        || outputStream.written == old(outputStream.written) + EncodedPart(Clipped(old(bodyPart.View())), boundary)
      ensures result.Failure? ==> WriteFailure(result.error, bodyPart, outputStream)
    {
      hide Clipped, EncodedPart, BoundaryData, EncodedHeaders;
      ghost var start, s := outputStream.written, bodyPart.View();
      ghost var clipped := Clipped(s);
      ClippedKeeps(s);
      PartInOrder(clipped, boundary);
      var initialData := BoundaryData(if bodyPart.hasInitialBoundary then Initial else Encapsulated, boundary);
      result := WriteBuffer(initialData, outputStream);
      if result.Failure? { return; }
      result := WriteBuffer(EncodedHeaders(bodyPart.headers), outputStream);
      if result.Failure? { return; }
      assert outputStream.refused || outputStream.written == start + (initialData + EncodedHeaders(bodyPart.headers));
      result := WriteBodyStream(bodyPart, outputStream);
      if result.Failure? { return; }
      assert outputStream.refused || outputStream.written == start + ToBody(clipped, boundary);
      if bodyPart.hasFinalBoundary {
        result := WriteBuffer(BoundaryData(Final, boundary), outputStream);
      }
    }

    /** Whether there is a file and the URL names one are given, as is the stream to it, or null if there is none. */
    method WriteEncodedData(fileExists: bool, isFileURL: bool, outputStream: OutputStream?)
      returns (result: Result<()>)
      requires Valid()
      modifies bodyParts, Streams(bodyParts), outputStream
      ensures var refused := Refusal(bodyPartError, fileExists, isFileURL, outputStream != null);
              refused.Some? ==>
                && result == Failure(refused.value) && Views(bodyParts) == old(Views(bodyParts))
                && (outputStream != null ==> outputStream.written == old(outputStream.written))
      ensures Refusal(bodyPartError, fileExists, isFileURL, outputStream != null).None? && result.Success? ==>
        || outputStream.refused
        || outputStream.written
           == old(outputStream.written) + Assembled(Mark(ClippedAll(old(Views(bodyParts)))), boundary)
      ensures Refusal(bodyPartError, fileExists, isFileURL, outputStream != null).None? && result.Failure? ==>
        || StreamFailed(result.error, bodyParts)
        || (result.error.OutputStreamWriteFailed? && outputStream.streamError == Some(result.error.code))
    {
      hide Views, StreamFailed;
      if bodyPartError.Some? { return Failure(BodyPartInvalid(bodyPartError.value)); }
      if fileExists { return Failure(OutputStreamFileAlreadyExists); }
      if !isFileURL { return Failure(OutputStreamURLInvalid); }
      if outputStream == null { return Failure(OutputStreamCreationFailed); }
      ghost var before := Views(bodyParts);
      MarkEnds();
      MarkClipped(before, Views(bodyParts));
      result := WriteBodyParts(outputStream);
    }

    /** The loop of writeEncodedData over the body parts. */
    method WriteBodyParts(outputStream: OutputStream) returns (result: Result<()>)
      requires Valid()
      modifies Streams(bodyParts), outputStream
      ensures result.Success? ==>
        || outputStream.refused
        || outputStream.written == old(outputStream.written) + Assembled(ClippedAll(old(Views(bodyParts))), boundary)
      ensures result.Failure? ==>
        || StreamFailed(result.error, bodyParts)
        || (result.error.OutputStreamWriteFailed? && outputStream.streamError == Some(result.error.code))
    {
      hide Clipped, EncodedPart, Assembled, Views;
      ghost var sources, start := Views(bodyParts), outputStream.written;
      ghost var done: Bytes := [];
      NothingAssembled(boundary);
      for i := 0 to |bodyParts|
        invariant forall k :: i <= k < |bodyParts| ==> bodyParts[k].View() == sources[k]
        invariant done == Assembled(ClippedAll(sources[..i]), boundary)
        invariant outputStream.refused || outputStream.written == start + done
      {
        ghost var part := EncodedPart(Clipped(sources[i]), boundary);
        result := WriteBodyPart(bodyParts[i], outputStream);
        if result.Failure? {
          assert bodyParts[i] in bodyParts;
          return;
        }
        assert start + (done + part) == start + done + part;
        done := done + part;
        OneMoreClipped(sources, i, boundary);
      }
      assert sources[..|bodyParts|] == sources;
      return Success(());
    }
  }

  /** The first reason not to begin writing at all. */
  function Refusal(bodyPartError: Option<nat>, fileExists: bool, isFileURL: bool, created: bool): Option<EncodingError> {
    if bodyPartError.Some? then Some(BodyPartInvalid(bodyPartError.value))
    else if fileExists then Some(OutputStreamFileAlreadyExists)
    else if !isFileURL then Some(OutputStreamURLInvalid)
    else if !created then Some(OutputStreamCreationFailed)
    else None
  }

  /** The error kept from appending comes before an existing file, that before another URL, that before no stream. */
  lemma RefusedFirst(bodyPartError: Option<nat>, fileExists: bool, isFileURL: bool, created: bool)
    ensures var refusal := Refusal(bodyPartError, fileExists, isFileURL, created);
            && (refusal.Some? && refusal.value.BodyPartInvalid? <==> bodyPartError.Some?)
            && (bodyPartError.Some? ==> refusal == Some(BodyPartInvalid(bodyPartError.value)))
            && (refusal == Some(OutputStreamFileAlreadyExists) <==> bodyPartError.None? && fileExists)
            && (refusal == Some(OutputStreamURLInvalid) <==> bodyPartError.None? && !fileExists && !isFileURL)
            && (refusal == Some(OutputStreamCreationFailed)
                <==> bodyPartError.None? && !fileExists && isFileURL && !created)
            && (refusal == None <==> bodyPartError.None? && !fileExists && isFileURL && created)
  {
  }

  ghost predicate WriteFailure(error: EncodingError, bodyPart: BodyPart, outputStream: OutputStream)
    reads bodyPart.bodyStream, outputStream
  {
    || (error.InputStreamReadFailed? && bodyPart.bodyStream.streamError == Some(error.code))
    || (error.OutputStreamWriteFailed? && outputStream.streamError == Some(error.code))
  }

  function Front(s: Bytes, n: nat): Bytes {
    if n <= |s| then s[..n] else s
  }

  lemma FrontOfSum(start: Bytes, a: Bytes, b: Bytes, n: nat)
    requires |a| <= n
    ensures start + Front(a + b, n) == start + a + Front(b, n - |a|)
  {
    assert Front(a + b, n) == a + Front(b, n - |a|);
  }

  lemma NothingInFront(s: Bytes, n: nat)
    requires s == [] || n == 0
    ensures Front(s, n) == []
  {
  }

  lemma ClippedBody(s: Source)
    ensures Clipped(s).part.body == Front(s.marked.part.body, s.declared)
  {
  }

  /** An encoded part up to the end of its body. */
  function ToBody(m: Marked, boundary: Bytes): Bytes {
    BoundaryData(if m.initial then Initial else Encapsulated, boundary) + EncodedHeaders(m.part.headers) + m.part.body
  }

  lemma PartInOrder(m: Marked, boundary: Bytes)
    ensures EncodedPart(m, boundary) == ToBody(m, boundary) + (if m.final then BoundaryData(Final, boundary) else [])
  {
  }

  lemma ClippedKeeps(s: Source)
    ensures Clipped(s).part.headers == s.marked.part.headers
    ensures Clipped(s).initial == s.marked.initial && Clipped(s).final == s.marked.final
  {
  }
}
