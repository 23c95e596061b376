/** How the two ways of encoding a form compare, and what a reader gets from a form that was appended part by part. */
module MultipartLaws {
  import opened Multipart
  import opened MultipartReading
  import opened Options

  /**
   Encoding into memory succeeds exactly when every stream has its declared length; writing through a stream
   gives the same bytes then.
   */
  lemma BothWaysAgree(sources: seq<Source>, boundary: Bytes)
    ensures EncodeOutcome(sources, boundary).Success? <==> forall s <- sources :: LengthKept(s)
    ensures EncodeOutcome(sources, boundary).Success? ==>
      EncodeOutcome(sources, boundary).value == Assembled(Mark(ClippedAll(sources)), boundary)
  {
    var at := FirstMismatch(sources);
    if at.Some? {
      assert sources[at.value] in sources;
    } else {
      forall i | 0 <= i < |sources| ensures Clipped(sources[i]) == sources[i].marked {
        assert LengthKept(sources[i]);
      }
      assert ClippedAll(sources) == MarkedOf(sources);
    }
  }

  /** The same parts, some with shorter bodies. */
  predicate Shortened(short: seq<Marked>, full: seq<Marked>) {
    && |short| == |full|
    && forall i :: 0 <= i < |full| ==>
      && |short[i].part.body| <= |full[i].part.body|
      && short[i] == full[i].(part := full[i].part.(body := short[i].part.body))
  }

  lemma {:induction false} ShortenedForm(short: seq<Marked>, full: seq<Marked>, boundary: Bytes)
    requires Shortened(short, full)
    ensures |Assembled(short, boundary)| <= |Assembled(full, boundary)|
    ensures (exists i :: 0 <= i < |full| && |short[i].part.body| < |full[i].part.body|) ==>
      |Assembled(short, boundary)| < |Assembled(full, boundary)|
  {
    hide BoundaryData, EncodedHeaders;
    if short != [] {
      var s, f := short[1..], full[1..];
      ShortenedForm(s, f, boundary);
      forall i | 0 < i < |full| && |short[i].part.body| < |full[i].part.body|
        ensures |Assembled(s, boundary)| < |Assembled(f, boundary)|
      {
        var k := i - 1;
        assert |s[k].part.body| < |f[k].part.body|;
      }
    }
  }

  /**
   Writing through a stream never checks lengths: it writes the whole bodies exactly when none is longer than
   declared.
   */
  lemma WritesWholeBodies(sources: seq<Source>, boundary: Bytes)
    ensures Assembled(Mark(ClippedAll(sources)), boundary) == Assembled(Mark(MarkedOf(sources)), boundary)
       <==> forall s <- sources :: |s.marked.part.body| <= s.declared
  {
    hide Assembled, Mark, Clipped;
    if forall s <- sources :: |s.marked.part.body| <= s.declared {
      forall i | 0 <= i < |sources| ensures Clipped(sources[i]) == sources[i].marked {
        assert |sources[i].marked.part.body| <= sources[i].declared;
        NotClipped(sources[i]);
      }
      assert ClippedAll(sources) == MarkedOf(sources);
    } else {
      var s :| s in sources && |s.marked.part.body| > s.declared;
      var i :| 0 <= i < |sources| && sources[i] == s;
      ClippedIsShortened(sources, i);
      ShortenedForm(Mark(ClippedAll(sources)), Mark(MarkedOf(sources)), boundary);
    }
  }

  lemma NotClipped(s: Source)
    requires |s.marked.part.body| <= s.declared
    ensures Clipped(s) == s.marked
  {
  }

  lemma ClippedIsShortened(sources: seq<Source>, i: nat)
    requires i < |sources| && |sources[i].marked.part.body| > sources[i].declared
    ensures var short, full := Mark(ClippedAll(sources)), Mark(MarkedOf(sources));
            Shortened(short, full) && |short[i].part.body| < |full[i].part.body|
  {
  }

  /** Streams with bytes left over make encoding into memory fail, and are cut without a word when written. */
  lemma LongStreamIsCut(part: Part, declared: nat, boundary: Bytes)
    requires declared < |part.body|
    ensures var sources := [Source(Marked(part, false, false), declared)];
            && EncodeOutcome(sources, boundary) == Failure(UnexpectedInputStreamLength(declared, |part.body|))
            && Assembled(Mark(ClippedAll(sources)), boundary) == Encoded([part.(body := part.body[..declared])], boundary)
  {
    var s := Source(Marked(part, false, false), declared);
    assert !LengthKept(s) && [s][0] == s;
    assert ClippedAll([s]) == Unmarked([part.(body := part.body[..declared])]);
  }

  // ---------------------------------------------------------------- forms appended part by part

  function Appended(parts: seq<Part>): seq<Source> {
    seq(|parts|, i requires 0 <= i < |parts| => Source(Marked(parts[i], false, false), |parts[i].body|))
  }

  /**
   A fresh form encodes, either way, to bytes from which a reader gets its parts back exactly when they are
   recoverable.
   */
  lemma AppendedRoundTrip(parts: seq<Part>, boundary: Bytes)
    ensures EncodeOutcome(Appended(parts), boundary) == Success(Encoded(parts, boundary))
    ensures Assembled(Mark(ClippedAll(Appended(parts))), boundary) == Encoded(parts, boundary)
    ensures Read(Encoded(parts, boundary), boundary) == Some(parts)
       <==> parts != [] && forall p <- parts :: Recoverable(p, boundary)
  {
    BothWaysAgree(Appended(parts), boundary);
    assert MarkedOf(Appended(parts)) == Unmarked(parts);
    RoundTrip(parts, boundary);
  }

  lemma FreeWithoutCR(d: Bytes)
    requires CR !in d
    ensures !Occurs(CRLF, d)
  {
    forall i | 0 <= i <= |d| ensures !(CRLF <= d[i..]) {
      if i < |d| { assert d[i..][0] == d[i] != CR; }
    }
  }

  /** Headers made from names without a CR can be read back. */
  lemma ContentHeadersReadable(name: Bytes, fileName: Option<Bytes>, mimeType: Option<Bytes>, body: Bytes)
    requires CR !in name && (fileName.Some? ==> CR !in fileName.value) && (mimeType.Some? ==> CR !in mimeType.value)
    ensures Readable(Part(ContentHeaders(name, fileName, mimeType), body))
  {
    var headers := ContentHeaders(name, fileName, mimeType);
    forall h <- headers ensures ReadableHeader(h) {
      var a, b, c, d := "Content-Disposition", "Content-Type", "form-data; name=\"", "; filename=\"";
      AsciiText(a);
      AsciiText(b);
      AsciiText(c);
      AsciiText(d);
      FreeWithoutCR(HeaderLine(h));
    }
  }

  lemma AsciiText(text: string)
    requires forall c <- text :: 32 as char <= c < 128 as char && c != ':'
    ensures CR !in Ascii(text) && COLON !in Ascii(text)
  {
    forall i | 0 <= i < |text| ensures Ascii(text)[i] != CR && Ascii(text)[i] != COLON {
      assert text[i] in text;
    }
  }

  /** The first stream of a wrong length is the one told of, with the length declared for it and its own. */
  lemma LengthError(sources: seq<Source>, boundary: Bytes, i: nat)
    requires i < |sources| && |sources[i].marked.part.body| != sources[i].declared
    requires forall k | 0 <= k < i :: |sources[k].marked.part.body| == sources[k].declared
    ensures EncodeOutcome(sources, boundary)
         == Failure(UnexpectedInputStreamLength(sources[i].declared, |sources[i].marked.part.body|))
  {
    var at := FirstMismatch(sources);
    assert !LengthKept(sources[i]);
    assert at == Some(i);
  }
}
