/** The headers of an appended part say which name, file name and type it was appended with. */
module ContentDisposition {
  import opened Options
  import opened Multipart

  // ---------------------------------------------------------------- a reader

  /** What follows a quoted text, and the text. */
  function Quoted(s: Bytes): Option<(Bytes, Bytes)> {
    if s == [] then None
    else if s[0] == 34 then Some(([], s[1..]))
    else
      var rest := Quoted(s[1..]);
      if rest.None? then None else Some(([s[0]] + rest.value.0, rest.value.1))
  }

  /** The text behind a word that has to come first. */
  function Behind(word: string, s: Bytes): Option<Bytes> {
    if word == "" then Some(s)
    else if s == [] || s[0] != word[0] as int then None
    else Behind(word[1..], s[1..])
  }

  /** The form of RFC 7578, section 4.2: a name and, for files, a file name. */
  function ReadDisposition(s: Bytes): Option<(Bytes, Option<Bytes>)> {
    var text := Behind("form-data; name=\"", s);
    if text.None? || Quoted(text.value).None? then None
    else
      var (name, rest) := Quoted(text.value).value;
      if rest == [] then Some((name, None))
      else
        var more := Behind("; filename=\"", rest);
        if more.None? || Quoted(more.value).None? || Quoted(more.value).value.1 != [] then None
        else Some((name, Some(Quoted(more.value).value.0)))
  }

  // ---------------------------------------------------------------- reading what was written

  lemma {:induction false} BehindWritten(word: string, s: Bytes)
    requires forall c <- word :: c < 128 as char
    ensures Behind(word, Ascii(word) + s) == Some(s)
    decreases |word|
  {
    var t := Ascii(word) + s;
    if word == "" {
      assert t == s;
    } else {
      assert word[0] in word && t[0] == word[0] as int;
      assert t[1..] == Ascii(word[1..]) + s by {
        assert forall i | 0 <= i < |word| - 1 :: word[1..][i] == word[i + 1] && word[i + 1] in word;
        assert Ascii(word)[1..] == Ascii(word[1..]);
      }
      assert forall c <- word[1..] :: c in word;
      BehindWritten(word[1..], s);
    }
  }

  /** A quoted text is read up to its first quote. */
  lemma {:induction false} QuotedWritten(text: Bytes, s: Bytes)
    requires QUOTE !in text
    ensures Quoted(text + [QUOTE] + s) == Some((text, s))
    decreases |text|
  {
    var t := text + [QUOTE] + s;
    if text == [] {
      assert t[1..] == s;
    } else {
      assert t[1..] == text[1..] + [QUOTE] + s && t[0] == text[0] && text[0] in text;
      QuotedWritten(text[1..], s);
      assert [text[0]] + text[1..] == text;
    }
  }

  lemma {:induction false} QuotedHasNoQuote(s: Bytes)
    requires Quoted(s).Some?
    ensures QUOTE !in Quoted(s).value.0
    decreases |s|
  {
    if s[0] != 34 { QuotedHasNoQuote(s[1..]); }
  }

  /** A text that can be told from what follows it. */
  predicate Plain(text: Bytes) {
    QUOTE !in text
  }

  lemma DispositionWritten(name: Bytes, fileName: Option<Bytes>, mimeType: Option<Bytes>)
    requires Plain(name) && (fileName.Some? ==> Plain(fileName.value))
    ensures ReadDisposition(ContentHeaders(name, fileName, mimeType)[0].value) == Some((name, fileName))
  {
    hide Ascii, Behind, Quoted;
    var a, b := "form-data; name=\"", "; filename=\"";
    var file: Bytes := if fileName.Some? then Ascii(b) + fileName.value + [QUOTE] else [];
    var value := ContentHeaders(name, fileName, mimeType)[0].value;
    assert value == Ascii(a) + (name + [QUOTE] + file);
    BehindWritten(a, name + [QUOTE] + file);
    QuotedWritten(name, file);
    if fileName.Some? {
      assert file == Ascii(b) + (fileName.value + [QUOTE] + []);
      BehindWritten(b, fileName.value + [QUOTE] + []);
      QuotedWritten(fileName.value, []);
      assert file != [];
    }
  }

  /**
   The first header, Content-Disposition, reads back as the name and the file name exactly when neither holds a quote;
   a second one, Content-Type, is there exactly when a type is given, and holds it.
   */
  lemma HeadersReadBack(name: Bytes, fileName: Option<Bytes>, mimeType: Option<Bytes>)
    ensures var headers := ContentHeaders(name, fileName, mimeType);
            && |headers| == (if mimeType.Some? then 2 else 1)
            && headers[0].name == Ascii("Content-Disposition")
            && (ReadDisposition(headers[0].value) == Some((name, fileName))
                <==> Plain(name) && (fileName.Some? ==> Plain(fileName.value)))
            && (mimeType.Some? ==> headers[1] == Header(Ascii("Content-Type"), mimeType.value))
  {
    var value := ContentHeaders(name, fileName, mimeType)[0].value;
    if Plain(name) && (fileName.Some? ==> Plain(fileName.value)) {
      DispositionWritten(name, fileName, mimeType);
    } else if ReadDisposition(value) == Some((name, fileName)) {
      var text := Behind("form-data; name=\"", value).value;
      QuotedHasNoQuote(text);
      var rest := Quoted(text).value.1;
      if rest != [] { QuotedHasNoQuote(Behind("; filename=\"", rest).value); }
    }
  }

  /** Different names, file names and types without quotes give different headers. */
  lemma HeadersDiffer(name: Bytes, fileName: Option<Bytes>, mimeType: Option<Bytes>,
                      name': Bytes, fileName': Option<Bytes>, mimeType': Option<Bytes>)
    requires Plain(name) && (fileName.Some? ==> Plain(fileName.value))
    requires Plain(name') && (fileName'.Some? ==> Plain(fileName'.value))
    requires ContentHeaders(name, fileName, mimeType) == ContentHeaders(name', fileName', mimeType')
    ensures name == name' && fileName == fileName' && mimeType == mimeType'
  {
    HeadersReadBack(name, fileName, mimeType);
    HeadersReadBack(name', fileName', mimeType');
  }

  /** With a quote they need not: a name can pass for a name and a file name. */
  lemma QuoteIsAmbiguous(name: Bytes, fileName: Bytes)
    ensures ContentHeaders(name + Ascii("\"; filename=\"") + fileName, None, None)
         == ContentHeaders(name, Some(fileName), None)
  {
    var quoted, plain := "\"; filename=\"", "; filename=\"";
    assert Ascii(quoted) == [QUOTE] + Ascii(plain) by {
      assert quoted[0] == '"' && forall i | 0 <= i < |plain| :: quoted[i + 1] == plain[i];
    }
    var a, b := ContentHeaders(name + Ascii(quoted) + fileName, None, None), ContentHeaders(name, Some(fileName), None);
    assert a[0].value == b[0].value;
    assert a == [a[0]] && b == [b[0]];
  }
}
