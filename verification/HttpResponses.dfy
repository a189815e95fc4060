/**
  Whole responses as a server writes them (section 3 to section 7 of RFC 9112), from their names, values, numbers and
  bodies: `HttpText.Read` gives back exactly what was written, however the body is framed.
 */
module HttpResponses {
  import opened Bytes
  import opened Characters
  import opened HttpText
  import opened HttpFraming
  import BuildOutput
  import JournalFormat
  import Utf8

  // ---------------------------------------------------------------- text that is read as it is

  lemma ValidIsLossy(s: Text)
    requires Utf8.Valid(s)
    ensures LossyText(s) == s
  {
    BuildOutput.LossyKeepsValid(s);
    BuildOutput.DecodeIsLossy(s);
  }

  lemma {:induction false} PlainIsValid(s: Text)
    requires forall b <- s :: b < 0x80
    ensures Utf8.Valid(s)
  {
    assert Utf8.Valid([]);
    assert forall i :: 0 <= i < |s| ==> s[i] in s;
    JournalFormat.AsciiIsValid(s, []);
    Unit(s);
  }

  lemma FirstCharacter(a: Text) returns (n: nat)
    requires a != [] && Utf8.Valid(a)
    ensures 1 <= n <= |a| && Utf8.WellFormed(a[..n]) && Utf8.Valid(a[n..])
  {
    n :| 1 <= n <= |a| && Utf8.WellFormed(a[..n]) && Utf8.Valid(a[n..]);
  }

  lemma {:induction false} ValidJoin(a: Text, b: Text)
    requires Utf8.Valid(a) && Utf8.Valid(b)
    ensures Utf8.Valid(a + b)
    decreases |a|
  {
    hide Utf8.Valid, Utf8.WellFormed;
    if a == [] {
      Unit(b);
    } else {
      var n := FirstCharacter(a);
      ValidJoin(a[n..], b);
      BuildOutput.ValidPrepend(a[..n], a[n..] + b);
      assert a[..n] + a[n..] == a;
      Assoc(a[..n], a[n..], b);
    }
  }

  // ---------------------------------------------------------------- header fields

  /** Spaces and tabs. */
  predicate Padding(s: Text) {
    forall b <- s :: b == SPACE || b == TAB
  }

  /** A field: its name and value, and the white space around the value. */
  datatype Field = Field(header: Header, before: Text, after: Text)

  function FieldText(f: Field): Text {
    f.header.name + [COLON] + (f.before + f.header.value + f.after)
  }

  ghost predicate FieldOk(f: Field) {
    && COLON !in f.header.name && Trimmed(f.header.name) && Trimmed(f.header.value)
    && Padding(f.before) && Padding(f.after)
    && Utf8.Valid(f.header.name) && Utf8.Valid(f.header.value)
    && IsLine(FieldText(f)) && |FieldText(f)| < MAX_HEADER_BYTES
  }

  lemma PaddingIsWhite(s: Text)
    requires Padding(s)
    ensures AllWhite(s)
  {
    forall i | 0 <= i < |s| ensures White(s[i]) { assert s[i] in s; }
  }

  /** A field that is written is read as its name and its value. */
  lemma FieldReads(f: Field)
    requires FieldOk(f)
    ensures HeaderOf(FieldText(f)) == Some(f.header)
    ensures LossyText(FieldText(f)) == FieldText(f) && FieldText(f) != []
  {
    var name, rest := f.header.name, f.before + f.header.value + f.after;
    var raw := FieldText(f);
    JournalFormat.FindAfter(name, COLON, rest);
    assert raw[..|name|] == name && raw[|name| + 1..] == rest;
    PaddingIsWhite(f.before);
    PaddingIsWhite(f.after);
    TrimPadded(f.before, f.header.value, f.after);
    Unit(name);
    TrimPadded([], name, []);
    hide Trim, LossyText, Utf8.Valid;
    FieldIsValid(f);
    ValidIsLossy(raw);
  }

  lemma FieldIsValid(f: Field)
    requires FieldOk(f)
    ensures Utf8.Valid(FieldText(f))
  {
    hide Utf8.Valid;
    PlainIsValid(f.before);
    PlainIsValid(f.after);
    PlainIsValid([COLON]);
    ValidJoin(f.before, f.header.value);
    ValidJoin(f.before + f.header.value, f.after);
    ValidJoin(f.header.name, [COLON]);
    ValidJoin(f.header.name + [COLON], f.before + f.header.value + f.after);
  }

  function FieldTexts(fs: seq<Field>): seq<Text> {
    if fs == [] then [] else [FieldText(fs[0])] + FieldTexts(fs[1..])
  }

  function HeadersOf(fs: seq<Field>): seq<Header> {
    if fs == [] then [] else [fs[0].header] + HeadersOf(fs[1..])
  }

  /** The bytes of the fields without their line ends. */
  function FieldsSize(fs: seq<Field>): nat {
    if fs == [] then 0 else |FieldText(fs[0])| + FieldsSize(fs[1..])
  }

  lemma {:induction false} FieldsRead(fs: seq<Field>)
    requires forall f <- fs :: FieldOk(f)
    ensures HeaderLines(FieldTexts(fs), HeadersOf(fs)) && HeadSize(FieldTexts(fs)) == FieldsSize(fs)
    decreases |fs|
  {
    hide HeaderOf, LossyText, FieldText, IsLine;
    if fs != [] {
      var raws, hs := FieldTexts(fs), HeadersOf(fs);
      assert fs[0] in fs && forall f <- fs[1..] :: f in fs;
      FieldsRead(fs[1..]);
      FieldReads(fs[0]);
      assert raws[1..] == FieldTexts(fs[1..]);
      forall i | 0 <= i < |raws| ensures HeaderLine(raws[i], hs[i]) {
        if i > 0 { assert HeaderLine(raws[1..][i - 1], HeadersOf(fs[1..])[i - 1]); }
      }
    }
  }

  // ---------------------------------------------------------------- the status line

  /** Version, code, and whatever reason. */
  function StatusText(version: Text, code: nat, reason: Option<Text>): Text {
    version + [SPACE] + (DecimalText(code) + (if reason.Some? then [SPACE] + reason.value else []))
  }

  ghost predicate StatusOk(version: Text, code: nat, reason: Option<Text>) {
    && version in {Ascii("HTTP/1.1"), Ascii("HTTP/1.0")} && 100 <= code < 600
    && (reason.Some? ==> Utf8.Valid(reason.value))
    && IsLine(StatusText(version, code, reason)) && |StatusText(version, code, reason)| < MAX_HEADER_BYTES
  }

  lemma DecimalReads(n: nat, limit: nat)
    requires n < limit
    ensures DecimalSize(DecimalText(n), limit) == Some(n)
    ensures forall b <- DecimalText(n) :: 48 <= b <= 57
  {
    JournalFormat.DecimalRoundTrip(n);
    var d := DecimalText(n);
    assert d[0] != 43;
  }

  /** The code of a status line is the number it writes. */
  lemma StatusReads(version: Text, code: nat, reason: Option<Text>)
    requires StatusOk(version, code, reason)
    ensures Status(StatusText(version, code, reason)) == Some(code)
    ensures LossyText(StatusText(version, code, reason)) == StatusText(version, code, reason)
  {
    var d := DecimalText(code);
    var after := if reason.Some? then [SPACE] + reason.value else [];
    var line, rest := StatusText(version, code, reason), d + after;
    assert SPACE !in version;
    JournalFormat.FindAfter(version, SPACE, rest);
    assert line[..|version|] == version && line[|version| + 1..] == rest;
    DecimalReads(code, 0x1_0000);
    assert SPACE !in d;
    FindCode(d, reason);
    assert rest[..|d|] == d;
    hide LossyText, Utf8.Valid, DecimalSize, DecimalText;
    StatusIsValid(version, code, reason);
    ValidIsLossy(line);
  }

  lemma FindCode(d: Text, reason: Option<Text>)
    requires SPACE !in d
    ensures Find(d + (if reason.Some? then [SPACE] + reason.value else []), SPACE) == |d|
  {
    match reason
    case Some(v) =>
      JournalFormat.FindAfter(d, SPACE, v);
      Assoc(d, [SPACE], v);
    case None =>
      Unit(d);
      NotFound(d, SPACE);
  }

  lemma {:induction false} NotFound(s: Text, b: Byte)
    requires b !in s
    ensures Find(s, b) == |s|
  {
    if s != [] {
      assert s[0] in s && forall x <- s[1..] :: x in s;
      NotFound(s[1..], b);
    }
  }

  lemma StatusIsValid(version: Text, code: nat, reason: Option<Text>)
    requires StatusOk(version, code, reason)
    ensures Utf8.Valid(StatusText(version, code, reason))
  {
    assert forall b <- version :: b < 0x80;
    assert forall b <- DecimalText(code) :: b < 0x80;
    hide Utf8.Valid, DecimalText;
    PlainIsValid(version);
    PlainIsValid([SPACE]);
    PlainIsValid(DecimalText(code));
    PlainIsValid([]);
    var after := if reason.Some? then [SPACE] + reason.value else [];
    if reason.Some? { ValidJoin([SPACE], reason.value); }
    ValidJoin(DecimalText(code), after);
    ValidJoin(version, [SPACE]);
    ValidJoin(version + [SPACE], DecimalText(code) + after);
  }

  // ---------------------------------------------------------------- what the fields ask for

  /** Equal but for the case of ASCII letters. */
  predicate SameLetters(a: Text, b: Text) {
    |a| == |b| && forall i :: 0 <= i < |a| ==>
      a[i] == b[i] || (65 <= a[i] <= 90 && b[i] == a[i] + 32) || (65 <= b[i] <= 90 && a[i] == b[i] + 32)
  }

  lemma SameNameIff(a: Text, b: Text)
    ensures SameName(a, b) <==> SameLetters(a, b)
  {
    var x, y := LowerText(a), LowerText(b);
    if x == y {
      forall i | 0 <= i < |a| ensures LowerByte(a[i]) == LowerByte(b[i]) {
        assert x[i] == y[i];
      }
    }
  }

  /** The value of the first field of that name, in any case of its letters. */
  ghost predicate HasField(headers: seq<Header>, name: Text, value: Text) {
    exists i :: 0 <= i < |headers| && SameLetters(headers[i].name, name) && headers[i].value == value
      && forall j :: 0 <= j < i ==> !SameLetters(headers[j].name, name)
  }

  ghost predicate HasNo(headers: seq<Header>, name: Text) {
    forall i :: 0 <= i < |headers| ==> !SameLetters(headers[i].name, name)
  }

  lemma {:induction false} LookupIff(headers: seq<Header>, name: Text, value: Text)
    ensures Lookup(headers, name) == Some(value) <==> HasField(headers, name, value)
    ensures Lookup(headers, name) == None <==> HasNo(headers, name)
    decreases |headers|
  {
    hide SameName, SameLetters;
    if headers != [] {
      SameNameIff(headers[0].name, name);
      var rest := headers[1..];
      LookupIff(rest, name, value);
      assert forall i :: 0 < i < |headers| ==> headers[i] == rest[i - 1];
      if HasField(rest, name, value) && !SameName(headers[0].name, name) {
        var i :| 0 <= i < |rest| && SameLetters(rest[i].name, name) && rest[i].value == value
                 && forall j :: 0 <= j < i ==> !SameLetters(rest[j].name, name);
        assert headers[i + 1] == rest[i];
      }
      if HasField(headers, name, value) && !SameName(headers[0].name, name) {
        var i :| 0 <= i < |headers| && SameLetters(headers[i].name, name) && headers[i].value == value
                 && forall j :: 0 <= j < i ==> !SameLetters(headers[j].name, name);
        assert rest[i - 1] == headers[i] && forall j :: 0 <= j < i - 1 ==> rest[j] == headers[j + 1];
      }
    }
  }

  /** The word stands somewhere in the text, in any case of its letters. */
  ghost predicate Mentions(s: Text, word: Text) {
    exists i :: StandsAt(s, word, i)
  }

  predicate StandsAt(s: Text, word: Text, i: int) {
    0 <= i && i + |word| <= |s| && SameLetters(s[i..i + |word|], word)
  }

  lemma {:induction false} ContainsIff(s: Text, word: Text)
    ensures Contains(s, word) <==> exists i :: 0 <= i <= |s| && word <= s[i..]
    decreases |s|
  {
    assert s[0..] == s;
    if s != [] {
      ContainsIff(s[1..], word);
      forall i | 0 <= i <= |s[1..]| ensures s[1..][i..] == s[i + 1..] {}
      if exists i :: 0 <= i <= |s| && word <= s[i..] {
        var i :| 0 <= i <= |s| && word <= s[i..];
        if i > 0 { assert s[1..][i - 1..] == s[i..]; }
      }
      if i :| 0 <= i <= |s[1..]| && word <= s[1..][i..] {
        assert word <= s[i + 1..];
      }
    }
  }

  lemma StandsIff(s: Text, word: Text, i: nat)
    requires LowerText(word) == word && i + |word| <= |s|
    ensures word <= LowerText(s)[i..] <==> StandsAt(s, word, i)
  {
    var l, n := LowerText(s), |word|;
    var part := s[i..i + n];
    SameNameIff(part, word);
    assert LowerText(part) == l[i..i + n] && l[i..][..n] == l[i..i + n];
  }

  lemma MentionsIff(s: Text, word: Text)
    requires LowerText(word) == word
    ensures Contains(LowerText(s), word) <==> Mentions(s, word)
  {
    var l, n := LowerText(s), |word|;
    ContainsIff(l, word);
    forall i | 0 <= i && i + n <= |s| ensures word <= l[i..] <==> StandsAt(s, word, i) { StandsIff(s, word, i); }
    hide SameLetters;
    if Contains(l, word) {
      var i :| 0 <= i <= |l| && word <= l[i..];
      assert StandsAt(s, word, i);
    }
    if Mentions(s, word) {
      var i :| StandsAt(s, word, i);
      assert word <= l[i..];
    }
  }

  /** Answers to HEAD and answers with these codes have no body. */
  predicate Bodiless(status: nat, headOnly: bool) {
    headOnly || status in {204, 304} || status < 200
  }

  ghost predicate AsksForChunks(headers: seq<Header>) {
    exists v :: HasField(headers, Ascii("Transfer-Encoding"), v) && Mentions(v, Ascii("chunked"))
  }

  lemma AsksIff(headers: seq<Header>)
    ensures var asked := Lookup(headers, Ascii("Transfer-Encoding"));
            AsksForChunks(headers) <==> asked.Some? && Contains(LowerText(asked.value), Ascii("chunked"))
  {
    var te := Ascii("Transfer-Encoding");
    assert LowerText(Ascii("chunked")) == Ascii("chunked");
    forall v ensures Lookup(headers, te) == Some(v) <==> HasField(headers, te, v) { LookupIff(headers, te, v); }
    forall v ensures Contains(LowerText(v), Ascii("chunked")) <==> Mentions(v, Ascii("chunked")) {
      MentionsIff(v, Ascii("chunked"));
    }
    hide Lookup, HasField, Mentions, Contains;
  }

  /** What a response's code and fields say about its body. */
  lemma FramingIs(status: nat, headers: seq<Header>, headOnly: bool, length: Text)
    requires status >= 100
    ensures var framing := FramingOf(status, headers, headOnly);
            && (framing == NoBody <==> Bodiless(status, headOnly))
            && (framing == Framing.Chunked <==> !Bodiless(status, headOnly) && AsksForChunks(headers))
            && (framing == Length(length) <==> !Bodiless(status, headOnly) && !AsksForChunks(headers)
                                               && HasField(headers, Ascii("Content-Length"), length))
            && (framing == ToEnd <==> !Bodiless(status, headOnly) && !AsksForChunks(headers)
                                      && HasNo(headers, Ascii("Content-Length")))
  {
    AsksIff(headers);
    LookupIff(headers, Ascii("Content-Length"), length);
    hide Lookup, HasField, Contains, HasNo, AsksForChunks;
  }

  // ---------------------------------------------------------------- whole responses

  /** What stands in front of a body. */
  datatype Head = Head(version: Text, code: nat, reason: Option<Text>, fields: seq<Field>)

  ghost predicate HeadOk(h: Head) {
    && StatusOk(h.version, h.code, h.reason)
    && (forall f <- h.fields :: FieldOk(f)) && FieldsSize(h.fields) <= MAX_HEADER_BYTES
  }

  function Written(h: Head, rest: Text): Text {
    StatusText(h.version, h.code, h.reason) + (CRLF + (HeadText(FieldTexts(h.fields)) + rest))
  }

  /** The head is read as its code and its fields, and they frame what follows. */
  lemma HeadReads(h: Head, rest: Text, maxBody: nat, headOnly: bool, end: End)
    requires HeadOk(h)
    ensures Read(Written(h, rest), maxBody, headOnly, end)
         == match Body(rest, FramingOf(h.code, HeadersOf(h.fields), headOnly), maxBody, end)
            case Ok(b) => Ok(Response(h.code, HeadersOf(h.fields), b))
            case Err(e) => Err(e)
            case Unsettled => Unsettled
  {
    StatusReads(h.version, h.code, h.reason);
    FieldsRead(h.fields);
    hide Read, Body, FramingOf, LossyText, Status, StatusText, HeaderLines;
    ResponseReadsBack(StatusText(h.version, h.code, h.reason), h.code, FieldTexts(h.fields), HeadersOf(h.fields), rest,
                      maxBody, headOnly, end);
  }

  /** A body as it is sent in chunks, with the last chunk and the trailers. */
  datatype Chunking = Chunking(chunks: seq<Chunk>, last: Text, trailers: seq<Text>)

  ghost predicate ChunkingOk(c: Chunking) {
    (forall x <- c.chunks :: IsChunk(x)) && SizeLine(c.last, 0) && forall t <- c.trailers :: IsTrailer(t)
  }

  function ChunkingText(c: Chunking, rest: Text): Text {
    ChunksText(c.chunks) + (c.last + (CRLF + (TrailersText(c.trailers) + rest)))
  }

  /** The bytes are this response in chunks, whatever follows it. */
  ghost predicate InChunks(s: Text, response: Response, headOnly: bool) {
    exists h, c, rest :: IsChunked(s, response, headOnly, h, c, rest)
  }

  ghost predicate IsChunked(s: Text, response: Response, headOnly: bool, h: Head, c: Chunking, rest: Text) {
    && HeadOk(h) && ChunkingOk(c) && s == Written(h, ChunkingText(c, rest))
    && response == Response(h.code, HeadersOf(h.fields), DataOf(c.chunks))
    && !Bodiless(h.code, headOnly) && AsksForChunks(response.headers)
  }

  /** The bytes are this response with the length of its body in decimal, whatever follows it. */
  ghost predicate WithLength(s: Text, response: Response, headOnly: bool) {
    exists h, rest :: IsSized(s, response, headOnly, h, rest)
  }

  ghost predicate IsSized(s: Text, response: Response, headOnly: bool, h: Head, rest: Text) {
    && HeadOk(h) && s == Written(h, response.body + rest)
    && response == Response(h.code, HeadersOf(h.fields), response.body) && |response.body| < USIZE
    && !Bodiless(h.code, headOnly) && !AsksForChunks(response.headers)
    && HasField(response.headers, Ascii("Content-Length"), DecimalText(|response.body|))
  }

  /** The bytes are this response, and its body ends with the connection. */
  ghost predicate ToTheEnd(s: Text, response: Response, headOnly: bool) {
    exists h :: IsOpen(s, response, headOnly, h)
  }

  ghost predicate IsOpen(s: Text, response: Response, headOnly: bool, h: Head) {
    && HeadOk(h) && s == Written(h, response.body)
    && response == Response(h.code, HeadersOf(h.fields), response.body)
    && !Bodiless(h.code, headOnly) && !AsksForChunks(response.headers)
    && HasNo(response.headers, Ascii("Content-Length"))
  }

  /** The bytes are this response, which has no body, whatever follows it. */
  ghost predicate Alone(s: Text, response: Response, headOnly: bool) {
    exists h, rest :: IsAlone(s, response, headOnly, h, rest)
  }

  ghost predicate IsAlone(s: Text, response: Response, headOnly: bool, h: Head, rest: Text) {
    && HeadOk(h) && s == Written(h, rest)
    && response == Response(h.code, HeadersOf(h.fields), []) && Bodiless(h.code, headOnly)
  }

  /** However a body is divided, it comes back whole, or is refused for its size alone. */
  lemma ChunkedResponseReadsBack(s: Text, sent: Response, maxBody: nat, headOnly: bool, end: End)
    requires 2 * maxBody < USIZE && InChunks(s, sent, headOnly)
    ensures Read(s, maxBody, headOnly, end) == if |sent.body| <= maxBody then Ok(sent) else Err(TooLarge)
  {
    var h, c, rest :| IsChunked(s, sent, headOnly, h, c, rest);
    HeadReads(h, ChunkingText(c, rest), maxBody, headOnly, end);
    FramingIs(h.code, sent.headers, headOnly, []);
    hide Read, Chunks, SizeLine, FramingOf, AsksForChunks, Written;
    ChunkedReadsBack(c.chunks, c.last, c.trailers, rest, 0, maxBody, end);
  }

  lemma SizedResponseReadsBack(s: Text, sent: Response, maxBody: nat, headOnly: bool, end: End)
    requires WithLength(s, sent, headOnly)
    ensures Read(s, maxBody, headOnly, end) == if |sent.body| <= maxBody then Ok(sent) else Err(TooLarge)
  {
    var h, rest :| IsSized(s, sent, headOnly, h, rest);
    var n := DecimalText(|sent.body|);
    HeadReads(h, sent.body + rest, maxBody, headOnly, end);
    FramingIs(h.code, sent.headers, headOnly, n);
    DecimalReads(|sent.body|, USIZE);
    hide Read, FramingOf, AsksForChunks, Written, DecimalSize;
    LengthReadsBack(sent.body, n, rest, maxBody, end);
  }

  lemma OpenResponseReadsBack(s: Text, sent: Response, maxBody: nat, headOnly: bool, end: End)
    requires ToTheEnd(s, sent, headOnly)
    ensures Read(s, maxBody, headOnly, end)
         == if |sent.body| > maxBody then Err(TooLarge) else if end.Eof? then Ok(sent) else Err(Io)
  {
    var h :| IsOpen(s, sent, headOnly, h);
    HeadReads(h, sent.body, maxBody, headOnly, end);
    FramingIs(h.code, sent.headers, headOnly, []);
    hide Read, AsksForChunks, Written, FramingOf, HasNo;
  }

  lemma AloneReadsBack(s: Text, sent: Response, maxBody: nat, headOnly: bool, end: End)
    requires Alone(s, sent, headOnly)
    ensures Read(s, maxBody, headOnly, end) == Ok(sent)
  {
    var h, rest :| IsAlone(s, sent, headOnly, h, rest);
    HeadReads(h, rest, maxBody, headOnly, end);
    FramingIs(h.code, sent.headers, headOnly, []);
    hide Read, AsksForChunks, Written, FramingOf;
  }
}
