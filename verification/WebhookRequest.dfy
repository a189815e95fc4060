/**
  The bounded request reader of the webhook listener (deploy-git/src/webhook.rs): what it makes of all the bytes of a
  connection, and exactly when that does not depend on how they arrive.
 */
module WebhookRequest {
  import opened Bytes
  import opened HttpText
  import opened Arrivals
  import BuildOutput

  const MAX_HEAD: nat := 16 * 1024
  const MAX_BODY: nat := 256 * 1024
  const MAX_READ: nat := 4096

  const SLASH: Byte := 47

  datatype Request = Request(verb: Text, path: Text, headers: seq<Header>, body: Text)

  datatype Reply = Accepted(request: Request) | TooMuch | BadRequest

  // ---------------------------------------------------------------- the head

  predicate BlankAt(s: Text, j: nat) {
    j + 4 <= |s| && s[j] == CR && s[j + 1] == LF && s[j + 2] == CR && s[j + 3] == LF
  }

  /** Where the first blank line starts, or the end. */
  function FindBlank(s: Text): (i: nat)
    ensures i <= |s| && (i < |s| ==> BlankAt(s, i))
    ensures forall j :: 0 <= j < i ==> !BlankAt(s, j)
  {
    if |s| < 4 then |s|
    else if BlankAt(s, 0) then 0
    else
      var i := FindBlank(s[1..]);
      assert forall j :: 1 <= j <= i && BlankAt(s, j) ==> BlankAt(s[1..], j - 1);
      1 + i
  }

  function HeaderLines(s: Text): Option<seq<Header>>
    decreases |s|
  {
    var i := FindCrlf(s);
    match HeaderOf(s[..i])
    case None => None
    case Some(h) =>
      if i == |s| then Some([h])
      else
        match HeaderLines(s[i + 2..])
        case None => None
        case Some(rest) => Some([h] + rest)
  }

  datatype Head = Head(verb: Text, path: Text, headers: seq<Header>)

  /** `verb path HTTP/1.`: the three first parts between spaces; a part that is missing is empty, and refused. */
  function FirstLine(line: Text): Option<(Text, Text)> {
    var a := Find(line, SPACE);
    if a == 0 || a == |line| then None
    else
      var rest := line[a + 1..];
      var b := Find(rest, SPACE);
      if b == |rest| || !([SLASH] <= rest[..b]) then None
      else
        var last := rest[b + 1..];
        if Ascii("HTTP/1.") <= last[..Find(last, SPACE)] then Some((line[..a], rest[..b])) else None
  }

  /** The first line, and the header lines after it. */
  function ParseHead(head: Text): Option<Head> {
    var i := FindCrlf(head);
    if !BuildOutput.FromUtf8(head).Fine? then None
    else
      match FirstLine(head[..i])
      case None => None
      case Some((verb, path)) =>
        if i == |head| then Some(Head(verb, path, []))
        else
          match HeaderLines(head[i + 2..])
          case None => None
          case Some(hs) => Some(Head(verb, path, hs))
  }

  function TransferEncoding(): Text {
    Ascii("Transfer-Encoding")
  }

  function ContentLength(): Text {
    Ascii("Content-Length")
  }

  datatype Declared = Sized(head: Head, n: nat) | Refused(reply: Reply)

  /** How long the body is said to be: chunked bodies are not taken, and no length is none. */
  function DeclaredLength(head: Text): Declared {
    match ParseHead(head)
    case None => Refused(BadRequest)
    case Some(h) =>
      if Lookup(h.headers, TransferEncoding()).Some? then Refused(BadRequest)
      else
        match Lookup(h.headers, ContentLength())
        case None => Sized(h, 0)
        case Some(v) =>
          match DecimalSize(v, USIZE)
          case None => Refused(BadRequest)
          case Some(n) => if n > MAX_BODY then Refused(TooMuch) else Sized(h, n)
  }

  lemma DeclaredIsBounded(head: Text)
    ensures var d := DeclaredLength(head);
            (d.Sized? ==> d.n <= MAX_BODY) && (d.Refused? ==> !d.reply.Accepted?)
  {
    hide ParseHead, Lookup, TransferEncoding, ContentLength, DecimalSize;
  }

  // ---------------------------------------------------------------- all the bytes of the connection

  /** The declared number of bytes after the blank line, or the refusal. */
  function AfterHead(head: Text, rest: Text): Reply {
    match DeclaredLength(head)
    case Refused(r) => r
    case Sized(h, n) =>
      if |rest| < n then BadRequest else Accepted(Request(h.verb, h.path, h.headers, rest[..n]))
  }

  function Whole(bytes: Text): Reply {
    var i := FindBlank(bytes);
    if i == |bytes| then (if |bytes| > MAX_HEAD then TooMuch else BadRequest)
    else if i > MAX_HEAD then TooMuch
    else AfterHead(bytes[..i], bytes[i + 4..])
  }

  // ---------------------------------------------------------------- the reads

  /** Some read ends beyond the limit with the blank line not yet complete. */
  ghost predicate Overruns(parts: seq<Text>) {
    var bytes := Joined(parts);
    exists k :: 0 <= k <= |parts| && MAX_HEAD < |Joined(parts[..k])| < FindBlank(bytes) + 4
  }

  /** A part of the bytes shows their blank line exactly when it has all four bytes of it. */
  lemma BlankInPrefix(a: Text, b: Text)
    ensures var i := FindBlank(a + b);
            if i + 4 <= |a| then FindBlank(a) == i else FindBlank(a) == |a|
  {
    var i, j := FindBlank(a + b), FindBlank(a);
    assert forall k :: 0 <= k && k + 4 <= |a| ==> (BlankAt(a, k) <==> BlankAt(a + b, k));
    hide FindBlank;
  }

  method ReadRequest(parts: seq<Text>) returns (r: Reply)
    requires Reads(parts, MAX_READ)
    ensures r == if Overruns(parts) then TooMuch else Whole(Joined(parts))
  {
    ghost var bytes := Joined(parts);
    ghost var i := FindBlank(bytes);
    hide FindBlank, DeclaredLength, Joined, Reads;
    var buf: Text, k, end := [], 0, 0;
    JoinedNone(parts);
    while true
      invariant k <= |parts| && buf == Joined(parts[..k])
      invariant forall m :: 0 <= m < k ==> |Joined(parts[..m])| < i + 4 && !(MAX_HEAD < |Joined(parts[..m])|)
      decreases |parts| - k
    {
      JoinedSplit(parts, k);
      BlankInPrefix(buf, Joined(parts[k..]));
      end := FindBlank(buf);
      if end < |buf| {
        BlankIsThere(buf);
        break;
      }
      if |buf| > MAX_HEAD {
        BlankIsThere(bytes);
        Beyond(parts, k);
        return TooMuch;
      }
      if k == |parts| {
        assert parts[..k] == parts;
        BlankIsThere(bytes);
        return BadRequest;
      }
      JoinedMore(parts, k);
      buf, k := buf + parts[k], k + 1;
    }
    BlankIsThere(buf);
    NoOverrun(parts, k, i);
    Split(buf, Joined(parts[k..]));
    assert bytes[..end] == buf[..end];
    assert bytes[end + 4..] == buf[end + 4..] + Joined(parts[k..]);
    BlankIsThere(bytes);
    if end > MAX_HEAD {
      return TooMuch;
    }
    match DeclaredLength(buf[..end]) {
      case Refused(reply) => return reply;
      case Sized(h, n) =>
        var ok, body := ReadBody(buf[end + 4..], n, parts, k);
        r := if ok then Accepted(Request(h.verb, h.path, h.headers, body)) else BadRequest;
    }
  }

  lemma BlankIsThere(s: Text)
    ensures FindBlank(s) <= |s| && (FindBlank(s) < |s| ==> FindBlank(s) + 4 <= |s|)
  {
  }

  /** The loop gave up at read `k`: the limit was passed with no blank line in what was read. */
  lemma Beyond(parts: seq<Text>, k: nat)
    requires k <= |parts| && MAX_HEAD < |Joined(parts[..k])|
    requires FindBlank(Joined(parts)) + 4 > |Joined(parts[..k])|
    ensures Overruns(parts)
  {
  }

  /** The loop found the blank line at read `k` without ever passing the limit before it. */
  lemma NoOverrun(parts: seq<Text>, k: nat, i: nat)
    requires k <= |parts| && i == FindBlank(Joined(parts)) && i + 4 <= |Joined(parts[..k])|
    requires forall m :: 0 <= m < k ==> !(MAX_HEAD < |Joined(parts[..m])|)
    ensures !Overruns(parts)
  {
    hide FindBlank;
    forall m | k <= m <= |parts| ensures |Joined(parts[..m])| >= |Joined(parts[..k])| {
      JoinedSplit(parts[..m], k);
      assert parts[..m][..k] == parts[..k];
    }
  }

  /** What followed the blank line in the buffer, cut or filled up to the declared length. */
  method ReadBody(start: Text, n: nat, parts: seq<Text>, from: nat) returns (ok: bool, body: Text)
    requires from <= |parts|
    ensures var all := start + Joined(parts[from..]);
            (ok <==> n <= |all|) && (ok ==> body == all[..n])
  {
    var k := from;
    body := if |start| > n then start[..n] else start;
    ghost var all := start + Joined(parts[from..]);
    while |body| < n
      invariant from <= k <= |parts| && |body| <= n
      invariant |body| < n ==> all == body + Joined(parts[k..])
      invariant body <= all
      decreases |parts| - k
    {
      if k == |parts| {
        return false, body;
      }
      var room := n - |body|;
      var part := parts[k];
      assert parts[k..][1..] == parts[k + 1..];
      Assoc(body, part, Joined(parts[k + 1..]));
      if |part| > room {
        assert body + part[..room] <= body + part;
        part := part[..room];
      }
      body, k := body + part, k + 1;
    }
    ok := true;
  }

  // ---------------------------------------------------------------- when the reads do not matter

  /** The blank line starts in the last three bytes the limit allows. */
  predicate AtTheEdge(bytes: Text) {
    var i := FindBlank(bytes);
    i < |bytes| && MAX_HEAD - 3 < i <= MAX_HEAD
  }

  /** Away from the edge the reply is a function of the bytes. */
  lemma ReadsDoNotMatter(parts: seq<Text>)
    requires !AtTheEdge(Joined(parts))
    ensures Overruns(parts) ==> Whole(Joined(parts)) == TooMuch
  {
    var bytes := Joined(parts);
    if Overruns(parts) {
      var k :| 0 <= k <= |parts| && MAX_HEAD < |Joined(parts[..k])| < FindBlank(bytes) + 4;
      JoinedSplit(parts, k);
    }
  }

  /** Reads that stop one byte short of the blank line's end: at the edge they are refused. */
  lemma StopsShort(bytes: Text) returns (parts: seq<Text>)
    requires AtTheEdge(bytes)
    ensures Reads(parts, MAX_READ) && Joined(parts) == bytes && Overruns(parts)
  {
    var n := FindBlank(bytes) + 3;
    var first, second := Pieces(bytes[..n], MAX_READ), Pieces(bytes[n..], MAX_READ);
    parts := first + second;
    JoinedTwo(first, second);
    assert bytes[..n] + bytes[n..] == bytes;
    assert parts[..|first|] == first;
    assert |Joined(parts[..|first|])| == n;
  }

  /** Reads that stop at the limit and then take the whole blank line. */
  lemma StopsAtTheLimit(bytes: Text) returns (parts: seq<Text>)
    requires AtTheEdge(bytes)
    ensures Reads(parts, MAX_READ) && Joined(parts) == bytes && !Overruns(parts)
  {
    var m := FindBlank(bytes) + 4;
    BlankIsThere(bytes);
    hide FindBlank, Joined;
    var a, b := Pieces(bytes[..MAX_HEAD], MAX_READ), Pieces(bytes[m..], MAX_READ);
    var middle := bytes[MAX_HEAD..m];
    parts := a + ([middle] + b);
    JoinedTwo(a, [middle] + b);
    JoinedTwo([middle], b);
    JoinedAlone(middle);
    assert bytes[..MAX_HEAD] + (middle + bytes[m..]) == bytes;
    forall k | 0 <= k <= |parts| ensures !(MAX_HEAD < |Joined(parts[..k])| < m) {
      NothingBetween(a, middle, b, k);
    }
  }

  ghost function ReplyTo(parts: seq<Text>): Reply {
    if Overruns(parts) then TooMuch else Whole(Joined(parts))
  }

  /** The bytes arrive in these reads. */
  ghost predicate Bring(parts: seq<Text>, bytes: Text) {
    Reads(parts, MAX_READ) && Joined(parts) == bytes
  }

  /** At the edge only the declared length can make the request too large. */
  lemma TooMuchIsDeclared(bytes: Text)
    requires AtTheEdge(bytes)
    ensures Whole(bytes) == TooMuch <==> DeclaredLength(bytes[..FindBlank(bytes)]) == Refused(TooMuch)
  {
    hide DeclaredLength, FindBlank;
  }

  /**
    The reply to given bytes is the same for all ways they may arrive exactly when the header block does not end in
    the last three bytes the limit allows, or the head declares a body beyond the limit.
   */
  lemma ReplyIsOneIff(bytes: Text)
    ensures (forall a, b :: Bring(a, bytes) && Bring(b, bytes) ==> ReplyTo(a) == ReplyTo(b))
       <==> !AtTheEdge(bytes) || DeclaredLength(bytes[..FindBlank(bytes)]) == Refused(TooMuch)
  {
    hide AtTheEdge, Whole, Overruns, Reads, DeclaredLength, FindBlank;
    if AtTheEdge(bytes) {
      TooMuchIsDeclared(bytes);
      var a := StopsShort(bytes);
      var b := StopsAtTheLimit(bytes);
      assert Bring(a, bytes) && Bring(b, bytes);
      assert ReplyTo(a) == TooMuch && ReplyTo(b) == Whole(bytes);
    } else {
      forall a, b | Bring(a, bytes) && Bring(b, bytes) ensures ReplyTo(a) == ReplyTo(b) {
        ReadsDoNotMatter(a);
        ReadsDoNotMatter(b);
      }
    }
  }

  /** What is accepted is within the limits, and its body is the declared bytes after the blank line. */
  lemma AcceptedIsBounded(parts: seq<Text>)
    requires ReplyTo(parts).Accepted?
    ensures var bytes, q := Joined(parts), ReplyTo(parts).request;
            var i := FindBlank(bytes);
            && i <= MAX_HEAD && i + 4 + |q.body| <= |bytes| && |q.body| <= MAX_BODY
            && q.body == bytes[i + 4..i + 4 + |q.body|]
            && DeclaredLength(bytes[..i]) == Sized(Head(q.verb, q.path, q.headers), |q.body|)
  {
    hide FindBlank, DeclaredLength, Joined, Overruns;
    var bytes := Joined(parts);
    BlankIsThere(bytes);
    DeclaredIsBounded(bytes[..FindBlank(bytes)]);
  }
}
