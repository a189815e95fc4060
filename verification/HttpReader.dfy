/** The reader itself (`Reader` and `read_response` in deploy-docker/src/http.rs), fed by reads of any sizes. */
module HttpReader {
  import opened Bytes
  import opened HttpText
  import opened Arrivals
  import HttpFraming
  import HttpResponses
  import HttpLines

  // ---------------------------------------------------------------- what the loops need

  lemma InFront(a: Text, b: Text, i: nat)
    requires i <= |a|
    ensures (a + b)[..i] == a[..i]
  {
  }

  lemma ScanStep(parts: seq<Text>, k: nat, max: nat, end: End)
    requires k <= |parts|
    ensures var buf := Joined(parts[..k]);
            var i := FindCrlf(buf);
            HttpLines.Scan(parts, k, max, end)
            == if i < |buf| then Ok(LossyText(buf[..i])) else if |buf| > max then Err(Malformed)
               else if k == |parts| then Err(EndError(end)) else HttpLines.Scan(parts, k + 1, max, end)
  {
    hide FindCrlf, LossyText, Joined;
  }

  lemma NothingPending()
    ensures Joined([]) == []
  {
  }

  /** A CRLF found in what was read is the first of all; one not found starts no earlier than the last byte read. */
  lemma {:induction false} FindInPrefix(a: Text, b: Text)
    ensures FindCrlf(a) < |a| ==> FindCrlf(a + b) == FindCrlf(a)
    ensures FindCrlf(a) == |a| ==> FindCrlf(a + b) == |a + b| || FindCrlf(a + b) + 1 >= |a|
    decreases |a|
  {
    if |a| >= 2 && !(a[0] == CR && a[1] == LF) {
      FindInPrefix(a[1..], b);
      assert (a + b)[1..] == a[1..] + b;
    }
  }

  function WithHeaders(hs: seq<Header>, r: Result<(seq<Header>, Text)>): Result<(seq<Header>, Text)> {
    match r
    case Ok((more, rest)) => Ok((hs + more, rest))
    case Err(e) => Err(e)
    case Unsettled => Unsettled
  }

  lemma WithNone(r: Result<(seq<Header>, Text)>)
    ensures WithHeaders([], r) == r
  {
    if r.Ok? { assert [] + r.value.0 == r.value.0; }
  }

  /** One turn of the header loop, with the headers read so far in front. */
  lemma HeadersStep(hs: seq<Header>, s: Text, used: nat, end: End)
    ensures WithHeaders(hs, Headers(s, used, end)) ==
            match Line(s, MAX_HEADER_BYTES, end)
            case Unsettled => Unsettled
            case Err(e) => Err(e)
            case Ok((raw, rest)) =>
              var line := LossyText(raw);
              if line == [] then Ok((hs, rest))
              else if used + |line| > MAX_HEADER_BYTES then Err(Malformed)
              else
                match HeaderOf(line)
                case None => Err(Malformed)
                case Some(h) => WithHeaders(hs + [h], Headers(rest, used + |line|, end))
  {
    hide Line, LossyText, HeaderOf;
    assert hs + [] == hs;
    var l := Line(s, MAX_HEADER_BYTES, end);
    if l.Ok? && HeaderOf(LossyText(l.value.0)).Some? {
      var h := HeaderOf(LossyText(l.value.0)).value;
      var r := Headers(l.value.1, used + |LossyText(l.value.0)|, end);
      if r.Ok? { assert hs + ([h] + r.value.0) == hs + [h] + r.value.0; }
    }
  }

  lemma TrailersStep(s: Text, end: End)
    ensures Trailers(s, end) ==
            match Line(s, MAX_HEADER_BYTES, end)
            case Unsettled => Unsettled
            case Err(e) => Err(e)
            case Ok((raw, rest)) => if LossyText(raw) == [] then Ok(rest) else Trailers(rest, end)
  {
    hide Line, LossyText;
  }

  lemma BeforeNone(r: Result<Text>)
    ensures Before([], r) == r
  {
    if r.Ok? { Unit(r.value); }
  }

  lemma BeforeBefore(a: Text, b: Text, r: Result<Text>)
    ensures Before(a, Before(b, r)) == Before(a + b, r)
  {
    if r.Ok? { Assoc(a, b, r.value); }
  }

  /** One turn of the chunk loop, with the body read so far in front. */
  lemma ChunksStep(body: Text, s: Text, maxBody: nat, end: End)
    ensures Before(body, Chunks(s, |body|, maxBody, end)) ==
            match Line(s, MAX_SIZE_LINE, end)
            case Unsettled => Unsettled
            case Err(e) => Err(e)
            case Ok((raw, rest)) =>
              match SizeIn(LossyText(raw))
              case None => Err(Malformed)
              case Some(size) =>
                if size == 0 then
                  match Trailers(rest, end) case Ok(_) => Ok(body) case Err(e) => Err(e) case Unsettled => Unsettled
                else if (|body| + size) % USIZE > maxBody then Err(TooLarge)
                else
                  match ChunkData(rest, size, maxBody, end)
                  case Unsettled => Unsettled
                  case Err(e) => Err(e)
                  case Ok((data, after)) => Before(body, Before(data, Chunks(after, |body| + size, maxBody, end)))
  {
    hide Line, LossyText, Trailers, ChunkData, HexSize, Trim;
    Unit(body);
  }

  lemma ChunkDataStep(s: Text, size: nat, maxBody: nat, end: End)
    ensures ChunkData(s, size, maxBody, end) ==
            match Exactly(s, size, maxBody, end)
            case Unsettled => Unsettled
            case Err(e) => Err(e)
            case Ok((data, rest)) =>
              match Exactly(rest, 2, 2, end)
              case Unsettled => Unsettled
              case Err(e) => Err(e)
              case Ok((crlf, after)) => if crlf == CRLF then Ok((data, after)) else Err(Malformed)
    ensures Exactly(s, size, maxBody, end).Ok? ==> size <= maxBody
    ensures !Exactly(s, size, maxBody, end).Unsettled?
  {
  }

  lemma ExactlyWithin(s: Text, n: nat, maxBody: nat, end: End)
    ensures var r := Exactly(s, n, maxBody, end); !r.Unsettled? && (r.Ok? ==> |r.value.0| <= maxBody)
  {
  }

  // ---------------------------------------------------------------- the reader

  /** A buffered reader; `pending` are the reads still to come, and `end` is what comes after them. */
  class Reader {
    var buf: Text
    var pos: nat
    var eof: bool
    var pending: seq<Text>
    const end: End

    constructor (arrivals: seq<Text>, end: End)
      ensures Valid() && Rest() == Joined(arrivals) && this.end == end && buf == []
    {
      buf, pos, eof, pending := [], 0, false, arrivals;
      this.end := end;
      new;
      Unit(Joined(arrivals));
    }

    ghost predicate Valid()
      reads this
    {
      pos <= |buf| && (eof ==> pending == [])
    }

    /** All the bytes not yet taken, read or not. */
    ghost function Rest(): Text
      requires Valid()
      reads this
    {
      buf[pos..] + Joined(pending)
    }

    /** `fill`: one more read. `Ok(false)` at the end of the stream. */
    method Fill() returns (r: Result<bool>)
      requires Valid()
      modifies this
      ensures Valid() && Rest() == old(Rest()) && pos == old(pos) && !r.Unsettled?
      ensures r == Ok(true) ==> old(pending) != [] && pending == old(pending)[1..]
      ensures r == Ok(true) ==> Avail() == old(Avail()) + old(pending)[0]
      ensures r != Ok(true) ==> old(pending) == [] && pending == [] && buf == old(buf)
      ensures r == Ok(false) ==> end.Eof?
      ensures r.Err? ==> end.Broken? && r.error == Io
    {
      if eof { return if end.Eof? then Ok(false) else Err(Io); }
      if pending == [] {
        eof := true;
        return if end.Eof? then Ok(false) else Err(Io);
      }
      assert (buf + pending[0])[pos..] == buf[pos..] + pending[0];
      Assoc(buf[pos..], pending[0], Joined(pending[1..]));
      buf, pending := buf + pending[0], pending[1..];
      return Ok(true);
    }

    function Avail(): Text
      requires Valid()
      reads this
    {
      buf[pos..]
    }

    method Take(n: nat) returns (v: Text)
      requires Valid() && n <= |Avail()|
      modifies this`pos
      ensures Valid() && v == old(Rest())[..n] && |v| == n && Rest() == old(Rest())[n..]
    {
      v := buf[pos..pos + n];
      assert Rest() == v + (buf[pos + n..] + Joined(pending)) by {
        DropDrop(buf, pos, n);
        assert buf[pos..] == v + buf[pos + n..];
        Assoc(v, buf[pos + n..], Joined(pending));
      }
      Split(v, buf[pos + n..] + Joined(pending));
      pos := pos + n;
    }

    /** `read_line`: what it finds does not depend on the reads unless the line's end is beyond the limit. */
    method ReadLine(max: nat) returns (r: Result<Text>)
      requires Valid()
      modifies this
      ensures Valid() && !r.Unsettled?
      ensures match Line(old(Rest()), max, end)
              case Ok((line, rest)) => r == Ok(LossyText(line)) && Rest() == rest
              case Err(e) => r == Err(e)
              case Unsettled => r.Ok? || r.error == Malformed
      ensures r.Ok? ==> |Rest()| + 2 <= |old(Rest())|
      ensures r == HttpLines.Scan([old(Avail())] + old(pending), 1, max, end)
    {
      ghost var parts := [Avail()] + pending;
      ghost var k := 1;
      assert parts[..1] == [Avail()] && parts[1..] == pending;
      JoinedAlone(Avail());
      hide FindCrlf, LossyText, Joined, HttpLines.Scan;
      while true
        invariant Valid() && Rest() == old(Rest())
        invariant k <= |parts| && parts[k..] == pending && Avail() == Joined(parts[..k])
        invariant HttpLines.Scan(parts, 1, max, end) == HttpLines.Scan(parts, k, max, end)
        decreases |pending|
      {
        FindInPrefix(Avail(), Joined(pending));
        ScanStep(parts, k, max, end);
        var i := FindCrlf(Avail());
        if i < |Avail()| {
          var line := LossyText(Avail()[..i]);
          InFront(Avail(), Joined(pending), i);
          var taken := Take(i + 2);
          return Ok(line);
        }
        if |Avail()| > max { return Err(Malformed); }
        if pending != [] {
          JoinedMore(parts, k);
        }
        var more := Fill();
        if more.Err? || !more.value {
          NothingPending();
          Unit(Avail());
          return if more.Err? then Err(more.error) else Err(Disconnected);
        }
        assert parts[k + 1..] == parts[k..][1..];
        k := k + 1;
      }
    }

    /** `read_exact_n`. */
    method ReadExactly(n: nat, max: nat) returns (r: Result<Text>)
      requires Valid()
      modifies this
      ensures Valid() && !r.Unsettled?
      ensures match Exactly(old(Rest()), n, max, end)
              case Ok((data, rest)) => r == Ok(data) && Rest() == rest
              case Err(e) => r == Err(e)
              case Unsettled => true
      ensures r.Ok? ==> |Rest()| + n == |old(Rest())|
    {
      hide Joined;
      if n > max { return Err(TooLarge); }
      while |Avail()| < n
        invariant Valid() && Rest() == old(Rest())
        decreases |pending|
      {
        var more := Fill();
        if more.Err? || !more.value {
          NothingPending();
          Unit(Avail());
          return if more.Err? then Err(more.error) else Err(Disconnected);
        }
      }
      var data := Take(n);
      return Ok(data);
    }

    /** The header loop of `read_response`. */
    method ReadHeaders() returns (r: Result<seq<Header>>)
      requires Valid()
      modifies this
      ensures Valid() && !r.Unsettled?
      ensures match Headers(old(Rest()), 0, end)
              case Ok((hs, rest)) => r == Ok(hs) && Rest() == rest
              case Err(e) => r == Err(e)
              case Unsettled => true
    {
      hide Line, LossyText, HeaderOf, Headers, WithHeaders, Joined;
      var headers: seq<Header> := [];
      var used: nat := 0;
      ghost var spec := Headers(Rest(), 0, end);
      WithNone(spec);
      while true
        invariant Valid()
        invariant spec.Unsettled? || spec == WithHeaders(headers, Headers(Rest(), used, end))
        decreases |Rest()|
      {
        HeadersStep(headers, Rest(), used, end);
        var line := ReadLine(MAX_HEADER_BYTES);
        if line.Err? { return Err(line.error); }
        if line.value == [] { return Ok(headers); }
        used := used + |line.value|;
        if used > MAX_HEADER_BYTES { return Err(Malformed); }
        match HeaderOf(line.value) {
          case None => return Err(Malformed);
          case Some(h) => headers := headers + [h];
        }
      }
    }

    /** The trailer loop. */
    method ReadTrailers() returns (r: Result<()>)
      requires Valid()
      modifies this
      ensures Valid() && !r.Unsettled?
      ensures match Trailers(old(Rest()), end)
              case Ok(rest) => r.Ok? && Rest() == rest
              case Err(e) => r == Err(e)
              case Unsettled => true
    {
      hide Line, LossyText, Trailers, Joined;
      ghost var spec := Trailers(Rest(), end);
      while true
        invariant Valid()
        invariant spec.Unsettled? || spec == Trailers(Rest(), end)
        decreases |Rest()|
      {
        TrailersStep(Rest(), end);
        var line := ReadLine(MAX_HEADER_BYTES);
        if line.Err? { return Err(line.error); }
        if line.value == [] { return Ok(()); }
      }
    }

    /** The chunk loop. The sum of what was read and the next size is the machine's, which wraps. */
    method ReadChunks(maxBody: nat) returns (r: Result<Text>)
      requires Valid()
      modifies this
      ensures Valid() && !r.Unsettled?
      ensures var spec := Chunks(old(Rest()), 0, maxBody, end); spec.Unsettled? || r == spec
      ensures r.Ok? && 2 * maxBody < USIZE ==> |r.value| <= maxBody
    {
      hide Line, LossyText, SizeIn, Chunks, ChunkData, Trailers, Exactly, Before, Joined;
      var body: Text := [];
      ghost var spec := Chunks(Rest(), 0, maxBody, end);
      BeforeNone(spec);
      while true
        invariant Valid() && (2 * maxBody < USIZE ==> |body| <= maxBody)
        invariant spec.Unsettled? || spec == Before(body, Chunks(Rest(), |body|, maxBody, end))
        decreases |Rest()|
      {
        ChunksStep(body, Rest(), maxBody, end);
        var line := ReadLine(MAX_SIZE_LINE);
        if line.Err? { return Err(line.error); }
        match SizeIn(line.value) {
          case None => return Err(Malformed);
          case Some(size) =>
            if size == 0 {
              var t := ReadTrailers();
              if t.Err? { return Err(t.error); }
              return Ok(body);
            }
            if (|body| + size) % USIZE > maxBody { return Err(TooLarge); }
            ChunkDataStep(Rest(), size, maxBody, end);
            var data := ReadExactly(size, maxBody);
            if data.Err? { return Err(data.error); }
            var crlf := ReadExactly(2, 2);
            if crlf.Err? { return Err(crlf.error); }
            if crlf.value != CRLF { return Err(Malformed); }
            BeforeBefore(body, data.value, Chunks(Rest(), |body| + size, maxBody, end));
            body := body + data.value;
        }
      }
    }

    /** A body without framing runs to the end of the stream. */
    method ReadToEnd(maxBody: nat) returns (r: Result<Text>)
      requires Valid()
      modifies this
      ensures Valid() && r == Body(old(Rest()), ToEnd, maxBody, end)
    {
      hide Joined;
      while true
        invariant Valid() && Rest() == old(Rest())
        decreases |pending|
      {
        if |Avail()| > maxBody { return Err(TooLarge); }
        var more := Fill();
        if more.Err? || !more.value {
          NothingPending();
          Unit(Avail());
          if more.Err? { return Err(more.error); }
          break;
        }
      }
      var body := Take(|Avail()|);
      return Ok(body);
    }

    /** The status line, the headers, and the body as they frame it. */
    method ReadAll(maxBody: nat, headOnly: bool) returns (r: Result<Response>)
      requires Valid()
      modifies this
      ensures !r.Unsettled?
      ensures var spec := Read(old(Rest()), maxBody, headOnly, end); spec.Unsettled? || r == spec
      ensures r.Ok? && 2 * maxBody < USIZE ==> |r.value.body| <= maxBody
    {
      hide Line, LossyText, Status, Headers, Chunks, Trailers, Exactly, FramingOf, Joined, DecimalSize;
      var line := ReadLine(MAX_HEADER_BYTES);
      if line.Err? { return Err(line.error); }
      match Status(line.value) {
        case None => return Err(Malformed);
        case Some(status) =>
          var headers := ReadHeaders();
          if headers.Err? { return Err(headers.error); }
          var framing := FramingOf(status, headers.value, headOnly);
          var body: Result<Text>;
          match framing {
            case NoBody => body := Ok([]);
            case Chunked => body := ReadChunks(maxBody);
            case Length(text) =>
              match DecimalSize(text, USIZE) {
                case None => return Err(Malformed);
                case Some(n) =>
                  ExactlyWithin(Rest(), n, maxBody, end);
                  body := ReadExactly(n, maxBody);
              }
            case ToEnd => body := ReadToEnd(maxBody);
          }
          if body.Err? { return Err(body.error); }
          return Ok(Response(status, headers.value, body.value));
      }
    }
  }

  lemma WrittenAreRead(s: Text, maxBody: nat, headOnly: bool, end: End)
    ensures forall sent ::
              (2 * maxBody < USIZE && HttpResponses.InChunks(s, sent, headOnly))
              || HttpResponses.WithLength(s, sent, headOnly) ==>
                Read(s, maxBody, headOnly, end) == if |sent.body| <= maxBody then Ok(sent) else Err(TooLarge)
    ensures forall sent :: HttpResponses.ToTheEnd(s, sent, headOnly) ==>
              Read(s, maxBody, headOnly, end)
              == if |sent.body| > maxBody then Err(TooLarge) else if end.Eof? then Ok(sent) else Err(Io)
    ensures forall sent :: HttpResponses.Alone(s, sent, headOnly) ==> Read(s, maxBody, headOnly, end) == Ok(sent)
  {
    hide *;
    forall sent | 2 * maxBody < USIZE && HttpResponses.InChunks(s, sent, headOnly)
      ensures Read(s, maxBody, headOnly, end) == if |sent.body| <= maxBody then Ok(sent) else Err(TooLarge)
    {
      HttpResponses.ChunkedResponseReadsBack(s, sent, maxBody, headOnly, end);
    }
    forall sent | HttpResponses.WithLength(s, sent, headOnly)
      ensures Read(s, maxBody, headOnly, end) == if |sent.body| <= maxBody then Ok(sent) else Err(TooLarge)
    {
      HttpResponses.SizedResponseReadsBack(s, sent, maxBody, headOnly, end);
    }
    forall sent | HttpResponses.ToTheEnd(s, sent, headOnly)
      ensures Read(s, maxBody, headOnly, end)
           == if |sent.body| > maxBody then Err(TooLarge) else if end.Eof? then Ok(sent) else Err(Io)
    {
      HttpResponses.OpenResponseReadsBack(s, sent, maxBody, headOnly, end);
    }
    forall sent | HttpResponses.Alone(s, sent, headOnly) ensures Read(s, maxBody, headOnly, end) == Ok(sent) {
      HttpResponses.AloneReadsBack(s, sent, maxBody, headOnly, end);
    }
  }

  /**
    `read_response`. Its result is the one `Read` gives for all the bytes together, so it does not depend on how they
    were cut into reads, unless a line runs past its limit. A response that a server writes, with a length, in chunks,
    without either or without a body, is returned as exactly its code, its fields and its body, or refused for the size
    of its body alone; with a limit below 2^63 no more than the limit is ever returned, and only what was sent so.
   */
  method ReadResponse(arrivals: seq<Text>, end: End, maxBody: nat, headOnly: bool) returns (r: Result<Response>)
    ensures !r.Unsettled?
    ensures var spec := Read(Joined(arrivals), maxBody, headOnly, end); spec.Unsettled? || r == spec
    ensures 2 * maxBody < USIZE && r.Ok? ==> |r.value.body| <= maxBody
    ensures 2 * maxBody < USIZE && !Read(Joined(arrivals), maxBody, headOnly, end).Unsettled? ==>
              forall sent :: r == Ok(sent) <==> HttpFraming.SentAs(Joined(arrivals), sent, maxBody, headOnly, end)
    ensures forall sent ::
              (2 * maxBody < USIZE && HttpResponses.InChunks(Joined(arrivals), sent, headOnly))
              || HttpResponses.WithLength(Joined(arrivals), sent, headOnly) ==>
                r == if |sent.body| <= maxBody then Ok(sent) else Err(TooLarge)
    ensures forall sent :: HttpResponses.ToTheEnd(Joined(arrivals), sent, headOnly) ==>
              r == if |sent.body| > maxBody then Err(TooLarge) else if end.Eof? then Ok(sent) else Err(Io)
    ensures forall sent :: HttpResponses.Alone(Joined(arrivals), sent, headOnly) ==> r == Ok(sent)
  {
    hide Joined, Read, HttpResponses.InChunks, HttpResponses.WithLength, HttpResponses.ToTheEnd, HttpResponses.Alone,
         HttpFraming.SentAs;
    if 2 * maxBody < USIZE {
      forall sent
        ensures Read(Joined(arrivals), maxBody, headOnly, end) == Ok(sent) <==>
                HttpFraming.SentAs(Joined(arrivals), sent, maxBody, headOnly, end)
      {
        HttpFraming.ReadIff(Joined(arrivals), sent, maxBody, headOnly, end);
      }
    }
    var reader := new Reader(arrivals, end);
    r := reader.ReadAll(maxBody, headOnly);
    WrittenAreRead(Joined(arrivals), maxBody, headOnly, end);
  }
}
