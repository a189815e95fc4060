/**
  Each framing of section 6.3 and section 7.1 of RFC 9112, both ways: what is sent so is what the reader returns, and
  whatever it returns was sent so. Everything else is refused.
 */
module HttpFraming {
  import opened Bytes
  import opened HttpText
  import BuildOutput
  import JournalFormat

  // ---------------------------------------------------------------- lines

  /** A line: no CRLF in it. */
  ghost predicate IsLine(s: Text) {
    forall i :: 0 <= i && i + 1 < |s| ==> !(s[i] == CR && s[i + 1] == LF)
  }

  lemma {:induction false} FindCrlfAfter(line: Text, rest: Text)
    requires IsLine(line)
    ensures FindCrlf(line + (CRLF + rest)) == |line|
    decreases |line|
  {
    var s := line + (CRLF + rest);
    if line == [] {
      Unit(CRLF + rest);
      assert s[0] == CR && s[1] == LF;
    } else {
      FindCrlfAfter(line[1..], rest);
      assert s[1..] == line[1..] + (CRLF + rest);
      assert s[0] == line[0] && (|line| > 1 ==> s[1] == line[1]);
    }
  }

  lemma LineReadsBack(line: Text, rest: Text, max: nat, end: End)
    requires IsLine(line) && |line| < max
    ensures Line(line + (CRLF + rest), max, end) == Ok((line, rest))
  {
    hide FindCrlf;
    FindCrlfAfter(line, rest);
    var s := line + (CRLF + rest);
    Split(line, CRLF + rest);
    Split(CRLF, rest);
    DropDrop(s, |line|, 2);
  }

  /** What is read as a line is one, with its end behind it. */
  lemma LineIff(s: Text, line: Text, rest: Text, max: nat, end: End)
    ensures Line(s, max, end) == Ok((line, rest)) <==> IsLine(line) && |line| < max && s == line + (CRLF + rest)
  {
    if Line(s, max, end) == Ok((line, rest)) {
      var i := FindCrlf(s);
      assert s[i..i + 2] == CRLF;
      assert s == s[..i] + (s[i..i + 2] + s[i + 2..]);
    }
    if IsLine(line) && |line| < max && s == line + (CRLF + rest) {
      LineReadsBack(line, rest, max, end);
    }
  }

  lemma ExactlyReadsBack(data: Text, rest: Text, max: nat, end: End)
    ensures Exactly(data + rest, |data|, max, end) == if |data| <= max then Ok((data, rest)) else Err(TooLarge)
  {
    Split(data, rest);
  }

  // ---------------------------------------------------------------- chunk sizes

  /** A chunk as sent: its data, and the line that says its size. */
  datatype Chunk = Chunk(data: Text, line: Text)

  ghost predicate SizeLine(line: Text, size: nat) {
    IsLine(line) && |line| < MAX_SIZE_LINE && ChunkSize(line) == Some(size)
  }

  /** A hexadecimal number, in digits of either case, with leading zeros, and with a plus sign or without. */
  predicate WritesSize(s: Text, v: nat) {
    var d := if s != [] && s[0] == 43 then s[1..] else s;
    d != [] && v < USIZE && v < JournalFormat.Pow16(|d|) && JournalFormat.LowerAll(d) == JournalFormat.Hex(v, |d|)
  }

  lemma HexSizeIff(s: Text, v: nat)
    ensures HexSize(s) == Some(v) <==> WritesSize(s, v)
  {
    var d := if s != [] && s[0] == 43 then s[1..] else s;
    JournalFormat.HexNumberIff(d, v);
    hide JournalFormat.HexNumber, JournalFormat.Hex, JournalFormat.LowerAll, JournalFormat.Pow16;
  }

  /** A size with white space around it, and an extension behind its semicolon. */
  ghost predicate SizeStands(line: Text, v: nat, before: Text, num: Text, after: Text, ext: Text) {
    && AllWhite(before) && Trimmed(num) && AllWhite(after) && (ext == [] || ext[0] == SEMICOLON)
    && line == before + num + after + ext && SEMICOLON !in num && WritesSize(num, v)
  }

  lemma WhiteIsNoSemicolon(s: Text)
    requires AllWhite(s)
    ensures SEMICOLON !in s
  {
  }

  lemma SizeIff(raw: Text, v: nat)
    ensures ChunkSize(raw) == Some(v) <==>
            exists before: Text, num: Text, after: Text, ext: Text ::
              SizeStands(LossyText(raw), v, before, num, after, ext)
  {
    hide LossyText, HexSize, WritesSize, AllWhite, Trimmed, Trim;
    var line := LossyText(raw);
    var i := Find(line, SEMICOLON);
    if ChunkSize(raw) == Some(v) {
      var before, after := TrimParts(line[..i]);
      var num := Trim(line[..i]);
      HexSizeIff(num, v);
      assert forall j :: 0 <= j < |num| ==> num[j] == line[|before| + j];
      assert line == line[..i] + line[i..];
      assert SizeStands(line, v, before, num, after, line[i..]);
    }
    if before: Text, num: Text, after: Text, ext: Text :| SizeStands(line, v, before, num, after, ext) {
      WhiteIsNoSemicolon(before);
      WhiteIsNoSemicolon(after);
      var front := before + num + after;
      assert forall j :: 0 <= j < |front| ==> front[j] in before || front[j] in num || front[j] in after;
      FoundBehind(front, ext);
      Split(front, ext);
      TrimPadded(before, num, after);
      HexSizeIff(num, v);
    }
  }

  predicate HexDigits(s: Text) {
    s != [] && forall i :: 0 <= i < |s| ==> JournalFormat.HexValue(s[i]).Some?
  }

  /** A size in hex digits, and an extension right behind it. */
  ghost predicate Sizes(digits: Text, ext: Text, size: nat) {
    && HexDigits(digits)
    && JournalFormat.HexNumber(digits) == Some(size)
    && size < USIZE
    && (ext == [] || ext[0] == SEMICOLON)
    && IsLine(digits + ext)
    && |digits + ext| < MAX_SIZE_LINE
  }

  lemma {:induction false} AsciiFirst(a: Text, t: Text)
    requires forall i :: 0 <= i < |a| ==> a[i] < 0x80
    ensures LossyText(a + t) == a + LossyText(t)
    decreases |a|
  {
    hide LossyText;
    if a == [] {
      Unit(t);
      Unit(LossyText(t));
    } else {
      AsciiFirst(a[1..], t);
      var s := a + t;
      assert s[0] == a[0] && s[1..] == a[1..] + t;
      AsciiStep(s);
      Assoc([a[0]], a[1..], LossyText(t));
      assert [a[0]] + a[1..] == a;
    }
  }

  lemma AsciiStep(s: Text)
    requires s != [] && s[0] < 0x80
    ensures LossyText(s) == [s[0]] + LossyText(s[1..])
  {
    var r := BuildOutput.Decode(s[1..]);
    assert s[..1] == [s[0]];
    assert BuildOutput.Decode(s) == ([s[0]] + r.0, r.1);
    Assoc([s[0]], r.0, BuildOutput.Flush(r.1));
  }

  lemma LossyEmpty()
    ensures LossyText([]) == []
  {
  }

  lemma {:induction false} FoundBehind(digits: Text, more: Text)
    requires (forall i :: 0 <= i < |digits| ==> digits[i] != SEMICOLON) && (more == [] || more[0] == SEMICOLON)
    ensures Find(digits + more, SEMICOLON) == |digits|
    decreases |digits|
  {
    if digits == [] {
      Unit(more);
    } else {
      FoundBehind(digits[1..], more);
      assert (digits + more)[0] == digits[0] && (digits + more)[1..] == digits[1..] + more;
    }
  }

  /** In front of the extension's semicolon stand exactly the digits. */
  lemma SizeIsInFront(digits: Text, ext: Text, size: nat)
    requires Sizes(digits, ext, size)
    ensures var line := LossyText(digits + ext);
            Find(line, SEMICOLON) == |digits| <= |line| && line[..|digits|] == digits
  {
    hide JournalFormat.HexNumber, BuildOutput.Decode, LossyText;
    assert forall i :: 0 <= i < |digits| ==> digits[i] < 0x80 && digits[i] != SEMICOLON;
    AsciiFirst(digits, ext);
    if ext == [] {
      LossyEmpty();
    } else {
      AsciiFirst([ext[0]], ext[1..]);
      assert [ext[0]] + ext[1..] == ext;
    }
    FoundBehind(digits, LossyText(ext));
    Split(digits, LossyText(ext));
  }

  /** The size is read from in front of the extension. */
  lemma SizeReadsBack(digits: Text, ext: Text, size: nat)
    requires Sizes(digits, ext, size)
    ensures SizeLine(digits + ext, size)
  {
    SizeIsInFront(digits, ext, size);
    assert digits != [] && digits[0] != 43 && !White(digits[0]) && !White(digits[|digits| - 1]);
    hide JournalFormat.HexNumber, LossyText;
    Unit(digits);
    TrimPadded([], digits, []);
  }

  // ---------------------------------------------------------------- the chunked body

  ghost predicate IsChunk(c: Chunk) {
    c.data != [] && SizeLine(c.line, |c.data|)
  }

  function ChunkText(c: Chunk): Text {
    c.line + (CRLF + (c.data + CRLF))
  }

  function ChunksText(cs: seq<Chunk>): Text {
    if cs == [] then [] else ChunkText(cs[0]) + ChunksText(cs[1..])
  }

  function DataOf(cs: seq<Chunk>): Text {
    if cs == [] then [] else cs[0].data + DataOf(cs[1..])
  }

  /** The trailer section: its lines and the blank line. */
  function TrailersText(ts: seq<Text>): Text {
    if ts == [] then CRLF else ts[0] + (CRLF + TrailersText(ts[1..]))
  }

  ghost predicate IsTrailer(t: Text) {
    t != [] && IsLine(t) && |t| < MAX_HEADER_BYTES
  }

  /** A non-empty line is a non-empty text, whatever its bytes. */
  lemma LossyNonEmpty(s: Text)
    requires s != []
    ensures LossyText(s) != []
  {
    hide BuildOutput.Flush;
    if BuildOutput.Decode(s).0 == [] {
      DecodeKeepsSomething(s);
    }
  }

  lemma DecodeKeepsSomething(s: Text)
    requires s != []
    ensures BuildOutput.Decode(s).0 != [] || BuildOutput.Flush(BuildOutput.Decode(s).1) != []
  {
  }

  lemma {:induction false} TrailersReadBack(ts: seq<Text>, rest: Text, end: End)
    requires forall t <- ts :: IsTrailer(t)
    ensures Trailers(TrailersText(ts) + rest, end) == Ok(rest)
    decreases |ts|
  {
    hide Line, LossyText;
    if ts == [] {
      Unit(CRLF + rest);
      LineReadsBack([], rest, MAX_HEADER_BYTES, end);
      LossyEmpty();
    } else {
      var t, more := ts[0], TrailersText(ts[1..]) + rest;
      assert ts[0] in ts;
      TrailersReadBack(ts[1..], rest, end);
      LineReadsBack(t, more, MAX_HEADER_BYTES, end);
      LossyNonEmpty(t);
      Assoc(t, CRLF + TrailersText(ts[1..]), rest);
      Assoc(CRLF, TrailersText(ts[1..]), rest);
    }
  }

  lemma ChunkDataReadsBack(data: Text, rest: Text, maxBody: nat, end: End)
    requires |data| <= maxBody
    ensures ChunkData(data + (CRLF + rest), |data|, maxBody, end) == Ok((data, rest))
  {
    hide Exactly;
    ExactlyReadsBack(data, CRLF + rest, maxBody, end);
    ExactlyReadsBack(CRLF, rest, 2, end);
  }

  /** One chunk in front of anything: counted, or refused by its size alone. */
  lemma ChunkReadsBack(c: Chunk, rest: Text, got: nat, maxBody: nat, end: End)
    requires IsChunk(c) && got <= maxBody && 2 * maxBody < USIZE
    ensures Chunks(ChunkText(c) + rest, got, maxBody, end)
         == if got + |c.data| > maxBody then Err(TooLarge)
            else Before(c.data, Chunks(rest, got + |c.data|, maxBody, end))
  {
    hide Line, ChunkSize, ChunkData, Trailers;
    var head := c.line;
    var after := c.data + (CRLF + rest);
    assert ChunkText(c) + rest == head + (CRLF + after) by {
      Assoc(head, CRLF + (c.data + CRLF), rest);
      Assoc(CRLF, c.data + CRLF, rest);
      Assoc(c.data, CRLF, rest);
    }
    LineReadsBack(head, after, MAX_SIZE_LINE, end);
    if got + |c.data| <= maxBody {
      ChunkDataReadsBack(c.data, rest, maxBody, end);
    } else if got + |c.data| >= USIZE {
      TooLongForItself(c.data, CRLF + rest, maxBody, end);
    }
  }

  /** A size that makes the machine's sum wrap is refused by the next check. */
  lemma TooLongForItself(data: Text, rest: Text, maxBody: nat, end: End)
    requires |data| > maxBody
    ensures ChunkData(data + rest, |data|, maxBody, end) == Err(TooLarge)
  {
  }

  /**
    Any division of a body into chunks, with any extensions and trailers, gives that body back when it is within the
    limit, and `TooLarge` otherwise, whatever follows.
   */
  lemma {:induction false} ChunkedReadsBack(cs: seq<Chunk>, last: Text, ts: seq<Text>, rest: Text, got: nat,
                                            maxBody: nat, end: End)
    requires 2 * maxBody < USIZE
    requires forall c <- cs :: IsChunk(c)
    requires forall t <- ts :: IsTrailer(t)
    requires SizeLine(last, 0) && got <= maxBody
    ensures Chunks(ChunksText(cs) + (last + (CRLF + (TrailersText(ts) + rest))), got, maxBody, end)
         == if got + |DataOf(cs)| <= maxBody then Ok(DataOf(cs)) else Err(TooLarge)
    decreases |cs|
  {
    hide Line, ChunkSize, ChunkData, Trailers, ChunkText, TrailersText;
    var tail := last + (CRLF + (TrailersText(ts) + rest));
    if cs == [] {
      Unit(tail);
      LineReadsBack(last, TrailersText(ts) + rest, MAX_SIZE_LINE, end);
      TrailersReadBack(ts, rest, end);
    } else {
      hide Chunks;
      var c := cs[0];
      assert c in cs;
      Assoc(ChunkText(c), ChunksText(cs[1..]), tail);
      ChunkReadsBack(c, ChunksText(cs[1..]) + tail, got, maxBody, end);
      if got + |c.data| <= maxBody {
        ChunkedReadsBack(cs[1..], last, ts, rest, got + |c.data|, maxBody, end);
      }
    }
  }

  // ---------------------------------------------------------------- what is accepted was sent so

  /** Trailers that were accepted, and what stands behind their blank line. */
  lemma {:induction false} TrailersAre(s: Text, end: End) returns (ts: seq<Text>)
    requires Trailers(s, end).Ok?
    ensures (forall t <- ts :: IsTrailer(t)) && s == TrailersText(ts) + Trailers(s, end).value
    decreases |s|
  {
    hide LossyText, FindCrlf, Line;
    var (raw, rest) := Line(s, MAX_HEADER_BYTES, end).value;
    LineIff(s, raw, rest, MAX_HEADER_BYTES, end);
    if LossyText(raw) == [] {
      ts := [];
      if raw != [] { LossyNonEmpty(raw); }
      Unit(CRLF + rest);
    } else {
      var more := TrailersAre(rest, end);
      ts := [raw] + more;
      if raw == [] { LossyEmpty(); }
      assert ts[1..] == more;
      Assoc(CRLF, TrailersText(more), Trailers(s, end).value);
      Assoc(raw, CRLF + TrailersText(more), Trailers(s, end).value);
    }
  }

  /** What a chunk was: its data, and the CRLF behind it. */
  lemma ChunkDataIs(s: Text, size: nat, maxBody: nat, end: End)
    requires ChunkData(s, size, maxBody, end).Ok?
    ensures var (data, after) := ChunkData(s, size, maxBody, end).value;
            |data| == size <= maxBody && s == data + (CRLF + after)
  {
    var rest := s[size..];
    assert s == s[..size] + rest && rest == rest[..2] + rest[2..];
  }

  /** A body in chunks, from its first chunk to the end of its trailers. */
  ghost predicate SentInChunks(s: Text, cs: seq<Chunk>, last: Text, ts: seq<Text>, rest: Text) {
    && (forall c <- cs :: IsChunk(c)) && SizeLine(last, 0) && (forall t <- ts :: IsTrailer(t))
    && s == ChunksText(cs) + (last + (CRLF + (TrailersText(ts) + rest)))
  }

  lemma SentMore(c: Chunk, s: Text, cs: seq<Chunk>, last: Text, ts: seq<Text>, rest: Text)
    requires IsChunk(c) && SentInChunks(s, cs, last, ts, rest)
    ensures SentInChunks(ChunkText(c) + s, [c] + cs, last, ts, rest) && DataOf([c] + cs) == c.data + DataOf(cs)
  {
    hide IsChunk, SizeLine, IsTrailer, ChunkText, TrailersText;
    assert ([c] + cs)[1..] == cs;
    Assoc(ChunkText(c), ChunksText(cs), last + (CRLF + (TrailersText(ts) + rest)));
  }

  lemma SentLast(line: Text, ts: seq<Text>, rest: Text)
    requires SizeLine(line, 0) && forall t <- ts :: IsTrailer(t)
    ensures SentInChunks(line + (CRLF + (TrailersText(ts) + rest)), [], line, ts, rest) && DataOf([]) == []
  {
    hide SizeLine, IsTrailer, TrailersText;
    Unit(line + (CRLF + (TrailersText(ts) + rest)));
  }

  lemma FirstChunk(s: Text, got: nat, maxBody: nat, end: End) returns (c: Chunk, after: Text)
    requires Chunks(s, got, maxBody, end).Ok?
    ensures c.data == [] ==> SizeLine(c.line, 0) && s == c.line + (CRLF + after) && Trailers(after, end).Ok?
                             && Chunks(s, got, maxBody, end).value == []
    ensures c.data != [] ==>
              && IsChunk(c) && |c.data| <= maxBody && s == ChunkText(c) + after
              && (got + |c.data|) % USIZE <= maxBody && Chunks(after, got + |c.data|, maxBody, end).Ok?
              && Chunks(s, got, maxBody, end).value == c.data + Chunks(after, got + |c.data|, maxBody, end).value
    ensures |after| < |s|
  {
    hide Line, ChunkSize, ChunkData, Trailers;
    var (raw, rest) := Line(s, MAX_SIZE_LINE, end).value;
    LineIff(s, raw, rest, MAX_SIZE_LINE, end);
    var size := ChunkSize(raw).value;
    if size == 0 {
      c, after := Chunk([], raw), rest;
    } else {
      ChunkDataIs(rest, size, maxBody, end);
      var (data, more) := ChunkData(rest, size, maxBody, end).value;
      c, after := Chunk(data, raw), more;
      Assoc(data, CRLF, more);
      Assoc(CRLF, data + CRLF, more);
      Assoc(raw, CRLF + (data + CRLF), more);
    }
  }

  lemma {:induction false} ChunksAre(s: Text, got: nat, maxBody: nat, end: End)
    returns (cs: seq<Chunk>, last: Text, ts: seq<Text>, rest: Text)
    requires 2 * maxBody < USIZE && got <= maxBody && Chunks(s, got, maxBody, end).Ok?
    ensures SentInChunks(s, cs, last, ts, rest)
    ensures DataOf(cs) == Chunks(s, got, maxBody, end).value && got + |DataOf(cs)| <= maxBody
    decreases |s|
  {
    hide *;
    var c, after := FirstChunk(s, got, maxBody, end);
    if c.data == [] {
      cs, last := [], c.line;
      ts := TrailersAre(after, end);
      rest := Trailers(after, end).value;
      SentLast(last, ts, rest);
    } else {
      Unwrapped(got, |c.data|, maxBody);
      var more: seq<Chunk>;
      more, last, ts, rest := ChunksAre(after, got + |c.data|, maxBody, end);
      cs := [c] + more;
      SentMore(c, after, more, last, ts, rest);
    }
  }

  lemma Unwrapped(got: nat, n: nat, maxBody: nat)
    requires got <= maxBody && n <= maxBody && 2 * maxBody < USIZE && (got + n) % USIZE <= maxBody
    ensures got + n <= maxBody
  {
  }

  /**
    A chunked body is accepted exactly when it is whole chunks, each with its size in front and CRLF behind, a last
    one, and trailers, and its data is within the limit; and then its data is the body.
   */
  lemma ChunksIff(s: Text, body: Text, maxBody: nat, end: End)
    requires 2 * maxBody < USIZE
    ensures Chunks(s, 0, maxBody, end) == Ok(body) <==>
            && |body| <= maxBody
            && exists cs: seq<Chunk>, last: Text, ts: seq<Text>, rest: Text ::
                 SentInChunks(s, cs, last, ts, rest) && DataOf(cs) == body
  {
    hide Chunks, ChunksText, TrailersText, IsTrailer, IsChunk, SizeLine;
    if Chunks(s, 0, maxBody, end) == Ok(body) {
      var cs, last, ts, rest := ChunksAre(s, 0, maxBody, end);
    }
    if cs: seq<Chunk>, last: Text, ts: seq<Text>, rest: Text :|
         SentInChunks(s, cs, last, ts, rest) && DataOf(cs) == body {
      ChunkedReadsBack(cs, last, ts, rest, 0, maxBody, end);
    }
  }

  // ---------------------------------------------------------------- the other framings, and the bound

  lemma LengthReadsBack(body: Text, text: Text, rest: Text, maxBody: nat, end: End)
    requires DecimalSize(text, USIZE) == Some(|body|)
    ensures Body(body + rest, Length(text), maxBody, end)
         == if |body| <= maxBody then Ok(body) else Err(TooLarge)
  {
    hide DecimalSize;
    ExactlyReadsBack(body, rest, maxBody, end);
  }

  lemma {:induction false} ChunksBounded(s: Text, got: nat, maxBody: nat, end: End)
    requires got <= maxBody
    ensures var r := Chunks(s, got, maxBody, end);
            r.Ok? ==> got + |r.value| <= maxBody || maxBody + maxBody >= USIZE
    decreases |s|
  {
    hide Line, ChunkSize, ChunkData, Trailers;
    var l := Line(s, MAX_SIZE_LINE, end);
    if l.Ok? {
      var (raw, rest) := l.value;
      var size := ChunkSize(raw);
      if size.Some? && size.value > 0 && (got + size.value) % USIZE <= maxBody {
        var d := ChunkData(rest, size.value, maxBody, end);
        if d.Ok? {
          assert size.value <= maxBody by { ChunkWithin(rest, size.value, maxBody, end); }
          if maxBody + maxBody < USIZE {
            assert got + size.value <= maxBody;
            ChunksBounded(d.value.1, got + size.value, maxBody, end);
          }
        }
      }
    }
  }

  lemma ChunkWithin(s: Text, size: nat, maxBody: nat, end: End)
    requires ChunkData(s, size, maxBody, end).Ok?
    ensures size <= maxBody
  {
  }

  /** No framing returns more than the limit; the wrapping sum cannot be fooled while the limit is below 2^63. */
  lemma BodyBounded(s: Text, framing: Framing, maxBody: nat, end: End)
    requires 2 * maxBody < USIZE
    ensures var r := Body(s, framing, maxBody, end); r.Ok? ==> |r.value| <= maxBody
  {
    hide Chunks, DecimalSize;
    ChunksBounded(s, 0, maxBody, end);
  }

  // ---------------------------------------------------------------- the head in front of a body

  /** A header line the reader accepts, and the header it stands for. */
  ghost predicate HeaderLine(raw: Text, h: Header) {
    raw != [] && IsLine(raw) && |raw| < MAX_HEADER_BYTES && HeaderOf(LossyText(raw)) == Some(h)
  }

  ghost predicate HeaderLines(raws: seq<Text>, hs: seq<Header>) {
    |raws| == |hs| && forall i :: 0 <= i < |raws| ==> HeaderLine(raws[i], hs[i])
  }

  /** Header lines and the blank line, laid out like trailers. */
  function HeadText(raws: seq<Text>): Text {
    TrailersText(raws)
  }

  /** The bytes of header text the reader counts. */
  function HeadSize(raws: seq<Text>): nat {
    if raws == [] then 0 else |LossyText(raws[0])| + HeadSize(raws[1..])
  }

  lemma {:induction false} HeadersReadBack(raws: seq<Text>, hs: seq<Header>, rest: Text, used: nat, end: End)
    requires HeaderLines(raws, hs)
    ensures Headers(HeadText(raws) + rest, used, end)
         == if raws == [] || used + HeadSize(raws) <= MAX_HEADER_BYTES then Ok((hs, rest)) else Err(Malformed)
    decreases |raws|
  {
    hide Line, LossyText, HeaderOf;
    if raws == [] {
      Unit(CRLF + rest);
      LineReadsBack([], rest, MAX_HEADER_BYTES, end);
      LossyEmpty();
    } else {
      var raw, more := raws[0], HeadText(raws[1..]) + rest;
      assert HeaderLine(raws[0], hs[0]);
      assert HeaderLines(raws[1..], hs[1..]);
      HeadersReadBack(raws[1..], hs[1..], rest, used + |LossyText(raw)|, end);
      LineReadsBack(raw, more, MAX_HEADER_BYTES, end);
      LossyNonEmpty(raw);
      Assoc(raw, CRLF + HeadText(raws[1..]), rest);
      Assoc(CRLF, HeadText(raws[1..]), rest);
      assert [hs[0]] + hs[1..] == hs;
      if raws[1..] == [] { assert HeadSize(raws[1..]) == 0; }
    }
  }

  /** The whole response: the head decides the framing, and the framing reads the body. */
  lemma ResponseReadsBack(line: Text, status: nat, raws: seq<Text>, hs: seq<Header>, rest: Text,
                          maxBody: nat, headOnly: bool, end: End)
    requires IsLine(line) && |line| < MAX_HEADER_BYTES && Status(LossyText(line)) == Some(status)
    requires HeaderLines(raws, hs) && HeadSize(raws) <= MAX_HEADER_BYTES
    ensures var body := Body(rest, FramingOf(status, hs, headOnly), maxBody, end);
            Read(line + (CRLF + (HeadText(raws) + rest)), maxBody, headOnly, end)
            == match body
               case Ok(b) => Ok(Response(status, hs, b))
               case Err(e) => Err(e)
               case Unsettled => Unsettled
  {
    hide Line, LossyText, Status, Headers, Body, FramingOf, HeadText;
    LineReadsBack(line, HeadText(raws) + rest, MAX_HEADER_BYTES, end);
    HeadersReadBack(raws, hs, rest, 0, end);
  }

  /** Headers that were accepted, line by line, and what stands behind their blank line. */
  lemma {:induction false} HeadersAre(s: Text, used: nat, end: End) returns (raws: seq<Text>)
    requires Headers(s, used, end).Ok?
    ensures var (hs, rest) := Headers(s, used, end).value;
            && HeaderLines(raws, hs) && s == HeadText(raws) + rest
            && (raws == [] || used + HeadSize(raws) <= MAX_HEADER_BYTES)
    decreases |s|
  {
    hide LossyText, FindCrlf, Line, HeaderOf;
    var (raw, after) := Line(s, MAX_HEADER_BYTES, end).value;
    LineIff(s, raw, after, MAX_HEADER_BYTES, end);
    if LossyText(raw) == [] {
      raws := [];
      if raw != [] { LossyNonEmpty(raw); }
      Unit(CRLF + after);
    } else {
      if raw == [] { LossyEmpty(); }
      var h := HeaderOf(LossyText(raw)).value;
      var (hs, rest) := Headers(after, used + |LossyText(raw)|, end).value;
      var more := HeadersAre(after, used + |LossyText(raw)|, end);
      raws := [raw] + more;
      assert raws[1..] == more;
      HeaderLinesMore(raw, h, more, hs);
      Assoc(CRLF, HeadText(more), rest);
      Assoc(raw, CRLF + HeadText(more), rest);
      if more == [] { assert HeadSize(more) == 0; }
    }
  }

  lemma HeaderLinesMore(raw: Text, h: Header, raws: seq<Text>, hs: seq<Header>)
    requires HeaderLine(raw, h) && HeaderLines(raws, hs)
    ensures HeaderLines([raw] + raws, [h] + hs)
  {
    hide HeaderLine;
  }

  /** A status line, header lines within the limit, a blank line, and then a body. */
  ghost predicate IsHead(s: Text, line: Text, status: nat, raws: seq<Text>, hs: seq<Header>, rest: Text) {
    && IsLine(line) && |line| < MAX_HEADER_BYTES && Status(LossyText(line)) == Some(status)
    && HeaderLines(raws, hs) && HeadSize(raws) <= MAX_HEADER_BYTES
    && s == line + (CRLF + (HeadText(raws) + rest))
  }

  /** The body that a framing cuts out of what stands behind the head. */
  ghost predicate BodyIs(framing: Framing, rest: Text, body: Text, maxBody: nat, end: End) {
    match framing
    case NoBody => body == []
    case Chunked =>
      && |body| <= maxBody
      && exists cs: seq<Chunk>, last: Text, ts: seq<Text>, more: Text ::
           SentInChunks(rest, cs, last, ts, more) && DataOf(cs) == body
    case Length(text) => |body| <= maxBody && DecimalSize(text, USIZE) == Some(|body|) && body <= rest
    case ToEnd => |body| <= maxBody && end.Eof? && body == rest
  }

  lemma BodyIff(rest: Text, framing: Framing, body: Text, maxBody: nat, end: End)
    requires 2 * maxBody < USIZE
    ensures Body(rest, framing, maxBody, end) == Ok(body) <==> BodyIs(framing, rest, body, maxBody, end)
  {
    hide Chunks, DecimalSize, SentInChunks;
    ChunksIff(rest, body, maxBody, end);
    assert body <= rest <==> |body| <= |rest| && rest[..|body|] == body;
    if framing.Length? && body <= rest {
      assert rest == body + rest[|body|..];
    }
  }

  /** The bytes are a head of this code and these headers, and this body in the framing they say. */
  ghost predicate SentAs(s: Text, r: Response, maxBody: nat, headOnly: bool, end: End) {
    exists line: Text, raws: seq<Text>, rest: Text ::
      && IsHead(s, line, r.status, raws, r.headers, rest)
      && BodyIs(FramingOf(r.status, r.headers, headOnly), rest, r.body, maxBody, end)
  }

  /**
    A response is accepted exactly when the bytes are a head, and a body that its framing cuts out; and then it is
    that response. Everything else is refused.
   */
  lemma ReadIff(s: Text, r: Response, maxBody: nat, headOnly: bool, end: End)
    requires 2 * maxBody < USIZE
    ensures Read(s, maxBody, headOnly, end) == Ok(r) <==> SentAs(s, r, maxBody, headOnly, end)
  {
    hide Line, LossyText, Status, Headers, Body, FramingOf, HeadText, HeaderLines, HeadSize, BodyIs, IsLine;
    if Read(s, maxBody, headOnly, end) == Ok(r) {
      var (line, after) := Line(s, MAX_HEADER_BYTES, end).value;
      LineIff(s, line, after, MAX_HEADER_BYTES, end);
      var (hs, rest) := Headers(after, 0, end).value;
      var raws := HeadersAre(after, 0, end);
      if raws == [] { NoSize(); }
      BodyIff(rest, FramingOf(r.status, hs, headOnly), r.body, maxBody, end);
      assert IsHead(s, line, r.status, raws, r.headers, rest);
    }
    if SentAs(s, r, maxBody, headOnly, end) {
      var line: Text, raws: seq<Text>, rest: Text :|
        && IsHead(s, line, r.status, raws, r.headers, rest)
        && BodyIs(FramingOf(r.status, r.headers, headOnly), rest, r.body, maxBody, end);
      ResponseReadsBack(line, r.status, raws, r.headers, rest, maxBody, headOnly, end);
      BodyIff(rest, FramingOf(r.status, r.headers, headOnly), r.body, maxBody, end);
    }
  }

  lemma NoSize()
    ensures HeadSize([]) == 0
  {
  }

  // ---------------------------------------------------------------- what a line says

  /** A text with white space around it. */
  ghost predicate Stands(s: Text, t: Text) {
    Trimmed(t) && exists before: Text, after: Text :: AllWhite(before) && AllWhite(after) && s == before + t + after
  }

  lemma TrimIff(s: Text, t: Text)
    ensures Trim(s) == t <==> Stands(s, t)
  {
    hide Trim, AllWhite, Trimmed;
    if Trim(s) == t {
      var before, after := TrimParts(s);
    }
    if Stands(s, t) {
      var before: Text, after: Text :| AllWhite(before) && AllWhite(after) && s == before + t + after;
      TrimPadded(before, t, after);
    }
  }

  /** A header line is a name and a value around the first colon; without a colon it is none. */
  lemma HeaderIff(line: Text, h: Header)
    ensures HeaderOf(line) == Some(h) <==>
            exists a: Text, b: Text :: line == a + [COLON] + b && COLON !in a && Stands(a, h.name) && Stands(b, h.value)
    ensures HeaderOf(line) == None <==> COLON !in line
  {
    var k := Find(line, COLON);
    hide Trim, Stands;
    if HeaderOf(line) == Some(h) {
      TrimIff(line[..k], h.name);
      TrimIff(line[k + 1..], h.value);
      assert line == line[..k] + [COLON] + line[k + 1..];
    }
    if a: Text, b: Text :| line == a + [COLON] + b && COLON !in a && Stands(a, h.name) && Stands(b, h.value) {
      JournalFormat.FindAfter(a, COLON, b);
      assert line[..k] == a && line[k + 1..] == b;
      TrimIff(a, h.name);
      TrimIff(b, h.value);
    }
  }

  /** A decimal number below a limit, with zeros in front, and with a plus sign or without. */
  ghost predicate WritesNumber(s: Text, v: nat, limit: nat) {
    var d := if s != [] && s[0] == 43 then s[1..] else s;
    v < limit && d != [] && JournalFormat.WritesDecimal(d, v)
  }

  lemma DecimalSizeIff(s: Text, v: nat, limit: nat)
    ensures DecimalSize(s, limit) == Some(v) <==> WritesNumber(s, v, limit)
  {
    var d := if s != [] && s[0] == 43 then s[1..] else s;
    hide JournalFormat.DecimalNumber, JournalFormat.WritesDecimal;
    if d != [] { JournalFormat.DecimalNumberIff(d, v); }
  }

  /** Version, a space, the code, and nothing or a space and anything. */
  ghost predicate SaysStatus(line: Text, code: nat, version: Text, num: Text, after: Text) {
    && version in {Ascii("HTTP/1.1"), Ascii("HTTP/1.0")} && line == version + [SPACE] + (num + after)
    && SPACE !in num && (after == [] || after[0] == SPACE)
    && 100 <= code < 600 && WritesNumber(num, code, 0x1_0000)
  }

  lemma {:induction false} FoundBefore(num: Text, after: Text)
    requires SPACE !in num && (after == [] || after[0] == SPACE)
    ensures Find(num + after, SPACE) == |num|
    decreases |num|
  {
    if num == [] {
      Unit(after);
    } else {
      assert num[0] in num && forall b <- num[1..] :: b in num;
      FoundBefore(num[1..], after);
      assert (num + after)[0] == num[0] && (num + after)[1..] == num[1..] + after;
    }
  }

  lemma VersionsAre()
    ensures SPACE !in Ascii("HTTP/1.1") && SPACE !in Ascii("HTTP/1.0")
  {
  }

  /** A line around its first space, or whole. */
  lemma UpToSpace(s: Text) returns (front: Text, after: Text)
    ensures front == s[..Find(s, SPACE)] && s == front + after && SPACE !in front && (after == [] || after[0] == SPACE)
  {
    front, after := s[..Find(s, SPACE)], s[Find(s, SPACE)..];
  }

  lemma StatusIsSaid(line: Text) returns (version: Text, num: Text, after: Text)
    requires Status(line).Some?
    ensures SaysStatus(line, Status(line).value, version, num, after)
  {
    hide DecimalSize, WritesNumber, Ascii, Find;
    var a := Find(line, SPACE);
    version := line[..a];
    num, after := UpToSpace(line[a + 1..]);
    AroundAt(line, a);
    DecimalSizeIff(num, Status(line).value, 0x1_0000);
  }

  lemma SaidIsRead(line: Text, code: nat, version: Text, num: Text, after: Text)
    requires SaysStatus(line, code, version, num, after)
    ensures Status(line) == Some(code)
  {
    VersionsAre();
    hide DecimalSize, WritesNumber, Ascii, Find;
    var rest := num + after;
    JournalFormat.FindAfter(version, SPACE, rest);
    Split(version + [SPACE], rest);
    Assoc(version, [SPACE], rest);
    Split(version, [SPACE] + rest);
    FoundBefore(num, after);
    Split(num, after);
    DecimalSizeIff(num, code, 0x1_0000);
  }

  lemma StatusIff(line: Text, code: nat)
    ensures Status(line) == Some(code) <==>
            exists version: Text, num: Text, after: Text :: SaysStatus(line, code, version, num, after)
  {
    hide Status, SaysStatus;
    if Status(line) == Some(code) { var version, num, after := StatusIsSaid(line); }
    if version: Text, num: Text, after: Text :| SaysStatus(line, code, version, num, after) {
      SaidIsRead(line, code, version, num, after);
    }
  }
}
