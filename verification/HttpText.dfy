/**
  HTTP/1.1 responses as deploy-docker/src/http.rs reads them, as a function of all the bytes the peer sends. Where the
  reader's answer would depend on how those bytes arrive, the function says `Unsettled`.
 */
module HttpText {
  import opened Bytes
  import opened Characters
  import BuildOutput
  import JournalFormat

  const MAX_HEADER_BYTES: nat := 16 * 1024
  const MAX_SIZE_LINE: nat := 64
  const USIZE: nat := 0x1_0000_0000_0000_0000

  const CR: Byte := 13
  const LF: Byte := 10
  const CRLF: Text := [13, 10]
  const SPACE: Byte := 32
  const COLON: Byte := 58
  const SEMICOLON: Byte := 59

  datatype Error = Disconnected | Io | Malformed | TooLarge

  /** `Unsettled`: a line's end lies beyond its limit, and whether it is found first depends on the reads. */
  datatype Result<+T> = Ok(value: T) | Err(error: Error) | Unsettled

  /** How the connection ends after the bytes: closed, or a failed read. */
  datatype End = Eof | Broken

  function EndError(end: End): Error {
    if end.Eof? then Disconnected else Io
  }

  // ---------------------------------------------------------------- lines and fixed lengths

  /** Where the first CRLF is, or `|s|`. */
  function FindCrlf(s: Text): (i: nat)
    ensures i == |s| || (i + 2 <= |s| && s[i] == CR && s[i + 1] == LF)
    ensures forall j :: 0 <= j < i && j + 1 < |s| ==> !(s[j] == CR && s[j + 1] == LF)
  {
    if |s| < 2 then |s|
    else if s[0] == CR && s[1] == LF then 0
    else 1 + FindCrlf(s[1..])
  }

  /** `read_line`: the bytes before the first CRLF, and what follows it. */
  function Line(s: Text, max: nat, end: End): (r: Result<(Text, Text)>)
    ensures r.Ok? ==> |r.value.1| + 2 <= |s|
  {
    var i := FindCrlf(s);
    if i < |s| then
      if i < max then Ok((s[..i], s[i + 2..])) else Unsettled
    else Err(if |s| > max then Malformed else EndError(end))
  }

  /** `read_exact_n`. */
  function Exactly(s: Text, n: nat, max: nat, end: End): (r: Result<(Text, Text)>)
    ensures r.Ok? ==> |r.value.0| == n <= max && |r.value.1| + n == |s|
  {
    if n > max then Err(TooLarge)
    else if |s| < n then Err(EndError(end))
    else Ok((s[..n], s[n..]))
  }

  // ---------------------------------------------------------------- text

  /** `String::from_utf8_lossy`. */
  function LossyText(s: Text): Text {
    BuildOutput.Decode(s).0 + BuildOutput.Flush(BuildOutput.Decode(s).1)
  }

  /** `to_ascii_lowercase` on bytes. */
  function LowerByte(b: Byte): Byte {
    LowerChar(b as char) as int
  }

  function LowerText(s: Text): Text {
    seq(|s|, i requires 0 <= i < |s| => LowerByte(s[i]))
  }

  predicate Contains(s: Text, word: Text) {
    word <= s || (s != [] && Contains(s[1..], word))
  }

  /** `usize::from_str_radix(_, 16)`: an optional '+', at least one hex digit, below 2^64. */
  function HexSize(s: Text): Option<nat> {
    var digits := if s != [] && s[0] == 43 then s[1..] else s;
    if digits == [] then None
    else
      match JournalFormat.HexNumber(digits)
      case Some(v) => if v < USIZE then Some(v) else None
      case None => None
  }

  /** `str::parse` of an unsigned decimal below `limit`. */
  function DecimalSize(s: Text, limit: nat): Option<nat> {
    var digits := if s != [] && s[0] == 43 then s[1..] else s;
    if digits == [] then None
    else
      match JournalFormat.DecimalNumber(digits)
      case Some(v) => if v < limit then Some(v) else None
      case None => None
  }

  // ---------------------------------------------------------------- the head

  datatype Header = Header(name: Text, value: Text)

  datatype Response = Response(status: nat, headers: seq<Header>, body: Text)

  /** The status line: a version this client speaks, then a code from 100 to 599. */
  function Status(line: Text): (r: Option<nat>) {
    var a := Find(line, SPACE);
    var version := line[..a];
    if version != Ascii("HTTP/1.1") && version != Ascii("HTTP/1.0") then None
    else if a == |line| then None
    else
      var rest := line[a + 1..];
      match DecimalSize(rest[..Find(rest, SPACE)], 0x1_0000)
      case Some(c) => if 100 <= c < 600 then Some(c) else None
      case None => None
  }

  function HeaderOf(line: Text): (r: Option<Header>) {
    var k := Find(line, COLON);
    if k == |line| then None else Some(Header(Trim(line[..k]), Trim(line[k + 1..])))
  }

  /** The header lines up to the blank one; `used` bytes of header text came before. */
  function Headers(s: Text, used: nat, end: End): (r: Result<(seq<Header>, Text)>)
    ensures r.Ok? ==> |r.value.1| <= |s|
    decreases |s|
  {
    match Line(s, MAX_HEADER_BYTES, end)
    case Unsettled => Unsettled
    case Err(e) => Err(e)
    case Ok((raw, rest)) =>
      var line := LossyText(raw);
      if line == [] then Ok(([], rest))
      else if used + |line| > MAX_HEADER_BYTES then Err(Malformed)
      else
        match HeaderOf(line)
        case None => Err(Malformed)
        case Some(h) =>
          match Headers(rest, used + |line|, end)
          case Ok((hs, after)) => Ok(([h] + hs, after))
          case Err(e) => Err(e)
          case Unsettled => Unsettled
  }

  predicate SameName(a: Text, b: Text) {
    LowerText(a) == LowerText(b)
  }

  /** The first header of that name, whatever its case. */
  function Lookup(headers: seq<Header>, name: Text): Option<Text> {
    if headers == [] then None
    else if SameName(headers[0].name, name) then Some(headers[0].value)
    else Lookup(headers[1..], name)
  }

  // ---------------------------------------------------------------- the body

  datatype Framing = NoBody | Chunked | Length(text: Text) | ToEnd

  function FramingOf(status: nat, headers: seq<Header>, headOnly: bool): Framing {
    if headOnly || status == 204 || status == 304 || 100 <= status < 200 then NoBody
    else
      match Lookup(headers, Ascii("Transfer-Encoding"))
      case Some(v) => if Contains(LowerText(v), Ascii("chunked")) then Chunked else ByLength(headers)
      case None => ByLength(headers)
  }

  function ByLength(headers: seq<Header>): Framing {
    match Lookup(headers, Ascii("Content-Length"))
    case Some(v) => Length(v)
    case None => ToEnd
  }

  /** What stands before the first ';' of a chunk-size line, trimmed, as a hex number. */
  function SizeIn(line: Text): Option<nat> {
    HexSize(Trim(line[..Find(line, SEMICOLON)]))
  }

  function ChunkSize(raw: Text): Option<nat> {
    SizeIn(LossyText(raw))
  }

  /** Trailer lines up to the blank one. */
  function Trailers(s: Text, end: End): (r: Result<Text>)
    decreases |s|
  {
    match Line(s, MAX_HEADER_BYTES, end)
    case Unsettled => Unsettled
    case Err(e) => Err(e)
    case Ok((raw, rest)) => if LossyText(raw) == [] then Ok(rest) else Trailers(rest, end)
  }

  /** One chunk after its size line: the data and its CRLF. */
  function ChunkData(s: Text, size: nat, maxBody: nat, end: End): (r: Result<(Text, Text)>)
    ensures r.Ok? ==> |r.value.0| == size && |r.value.1| <= |s|
  {
    match Exactly(s, size, maxBody, end)
    case Unsettled => Unsettled
    case Err(e) => Err(e)
    case Ok((data, rest)) =>
      match Exactly(rest, 2, 2, end)
      case Unsettled => Unsettled
      case Err(e) => Err(e)
      case Ok((crlf, after)) => if crlf == CRLF then Ok((data, after)) else Err(Malformed)
  }

  /** The chunk loop with `got` bytes of body so far. The sum is the machine's, which wraps. */
  function Chunks(s: Text, got: nat, maxBody: nat, end: End): (r: Result<Text>)
    decreases |s|
  {
    match Line(s, MAX_SIZE_LINE, end)
    case Unsettled => Unsettled
    case Err(e) => Err(e)
    case Ok((raw, rest)) =>
      match ChunkSize(raw)
      case None => Err(Malformed)
      case Some(size) =>
        if size == 0 then
          (match Trailers(rest, end) case Ok(_) => Ok([]) case Err(e) => Err(e) case Unsettled => Unsettled)
        else if (got + size) % USIZE > maxBody then Err(TooLarge)
        else
          match ChunkData(rest, size, maxBody, end)
          case Unsettled => Unsettled
          case Err(e) => Err(e)
          case Ok((data, after)) => Before(data, Chunks(after, got + size, maxBody, end))
  }

  function Before(data: Text, r: Result<Text>): Result<Text> {
    match r
    case Ok(more) => Ok(data + more)
    case Err(e) => Err(e)
    case Unsettled => Unsettled
  }

  function Body(s: Text, framing: Framing, maxBody: nat, end: End): (r: Result<Text>) {
    match framing
    case NoBody => Ok([])
    case Chunked => Chunks(s, 0, maxBody, end)
    case Length(text) =>
      (match DecimalSize(text, USIZE)
       case None => Err(Malformed)
       case Some(n) =>
         match Exactly(s, n, maxBody, end)
         case Ok((body, _)) => Ok(body)
         case Err(e) => Err(e)
         case Unsettled => Unsettled)
    case ToEnd => if |s| > maxBody then Err(TooLarge) else if end.Eof? then Ok(s) else Err(Io)
  }

  /** `read_response` on everything the peer sends. */
  function Read(s: Text, maxBody: nat, headOnly: bool, end: End): (r: Result<Response>) {
    match Line(s, MAX_HEADER_BYTES, end)
    case Unsettled => Unsettled
    case Err(e) => Err(e)
    case Ok((raw, afterStatus)) =>
      match Status(LossyText(raw))
      case None => Err(Malformed)
      case Some(status) =>
        match Headers(afterStatus, 0, end)
        case Unsettled => Unsettled
        case Err(e) => Err(e)
        case Ok((headers, rest)) =>
          match Body(rest, FramingOf(status, headers, headOnly), maxBody, end)
          case Unsettled => Unsettled
          case Err(e) => Err(e)
          case Ok(body) => Ok(Response(status, headers, body))
  }
}
