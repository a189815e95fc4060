/** Which bytes the webhook listener takes for a request, and which request that is: exactly, in both directions. */
module WebhookAccepted {
  import opened Bytes
  import opened HttpText
  import opened WebhookRequest
  import BuildOutput
  import HttpFraming
  import HttpResponses
  import JournalFormat
  import Utf8

  // ---------------------------------------------------------------- the head

  /** Lines with CRLF between them. */
  function JoinedLines(raws: seq<Text>): Text {
    if raws == [] then [] else if |raws| == 1 then raws[0] else raws[0] + (CRLF + JoinedLines(raws[1..]))
  }

  ghost predicate AreHeaders(raws: seq<Text>, hs: seq<Header>) {
    && |raws| == |hs|
    && forall i :: 0 <= i < |raws| ==> HttpFraming.IsLine(raws[i]) && HeaderOf(raws[i]) == Some(hs[i])
  }

  lemma {:induction false} NoCrlf(s: Text)
    requires HttpFraming.IsLine(s)
    ensures FindCrlf(s) == |s|
  {
  }

  lemma CutAtCrlf(s: Text)
    requires FindCrlf(s) < |s|
    ensures HttpFraming.IsLine(s[..FindCrlf(s)]) && s == s[..FindCrlf(s)] + (CRLF + s[FindCrlf(s) + 2..])
  {
    hide FindCrlf;
    HttpFraming.LineIff(s, s[..FindCrlf(s)], s[FindCrlf(s) + 2..], |s| + 1, Eof);
  }

  lemma CutAt(line: Text, rest: Text)
    requires HttpFraming.IsLine(line)
    ensures var s := line + (CRLF + rest);
            FindCrlf(s) == |line| < |s| && s[..|line|] == line && s[|line| + 2..] == rest
  {
    HttpFraming.FindCrlfAfter(line, rest);
    Split(line, CRLF + rest);
    Split(CRLF, rest);
    DropDrop(line + (CRLF + rest), |line|, 2);
  }

  lemma {:induction false} LinesRead(raws: seq<Text>, hs: seq<Header>)
    requires raws != [] && AreHeaders(raws, hs)
    ensures HeaderLines(JoinedLines(raws)) == Some(hs)
    decreases |raws|
  {
    hide HeaderOf, HttpFraming.IsLine, FindCrlf;
    var s := JoinedLines(raws);
    if |raws| == 1 {
      NoCrlf(s);
      assert s[..|s|] == s && [hs[0]] == hs;
    } else {
      LinesRead(raws[1..], hs[1..]);
      CutAt(raws[0], JoinedLines(raws[1..]));
      assert [hs[0]] + hs[1..] == hs;
    }
  }

  lemma {:induction false} LinesAre(s: Text) returns (raws: seq<Text>)
    requires HeaderLines(s).Some?
    ensures raws != [] && AreHeaders(raws, HeaderLines(s).value) && JoinedLines(raws) == s
    decreases |s|
  {
    hide HeaderOf, FindCrlf;
    var i := FindCrlf(s);
    var h := HeaderOf(s[..i]).value;
    if i == |s| {
      assert s[..i] == s;
      raws := [s];
    } else {
      CutAtCrlf(s);
      var more := LinesAre(s[i + 2..]);
      raws := [s[..i]] + more;
      assert raws[1..] == more;
      MoreHeaders(s[..i], h, more, HeaderLines(s[i + 2..]).value);
    }
  }

  lemma MoreHeaders(raw: Text, h: Header, raws: seq<Text>, hs: seq<Header>)
    requires HttpFraming.IsLine(raw) && HeaderOf(raw) == Some(h) && AreHeaders(raws, hs)
    ensures AreHeaders([raw] + raws, [h] + hs)
  {
    hide HeaderOf, HttpFraming.IsLine;
  }

  /** `verb path HTTP/1.x`, and anything more behind another space. */
  ghost predicate Asks(line: Text, verb: Text, path: Text) {
    && verb != [] && SPACE !in verb && SPACE !in path && [SLASH] <= path
    && exists version: Text, after: Text ::
         && line == verb + [SPACE] + (path + [SPACE] + (version + after)) && SPACE !in version
         && Ascii("HTTP/1.") <= version && (after == [] || after[0] == SPACE)
  }

  /** A text around its first space. */
  lemma AtSpace(a: Text, rest: Text)
    requires SPACE !in a
    ensures var s := a + [SPACE] + rest;
            Find(s, SPACE) == |a| < |s| && s[..|a|] == a && s[|a| + 1..] == rest
  {
    JournalFormat.FindAfter(a, SPACE, rest);
    Split(a + [SPACE], rest);
    Assoc(a, [SPACE], rest);
    Split(a, [SPACE] + rest);
  }

  lemma Around(s: Text)
    requires Find(s, SPACE) < |s|
    ensures s == s[..Find(s, SPACE)] + [SPACE] + s[Find(s, SPACE) + 1..] && SPACE !in s[..Find(s, SPACE)]
  {
    var k := Find(s, SPACE);
    AroundAt(s, k);
    hide Find;
  }

  lemma LineIsAsked(line: Text)
    requires FirstLine(line).Some?
    ensures Asks(line, FirstLine(line).value.0, FirstLine(line).value.1)
  {
    FirstLineParts(line);
    hide *;
    var a := Find(line, SPACE);
    var rest := line[a + 1..];
    var b := Find(rest, SPACE);
    var last := rest[b + 1..];
    var c := Find(last, SPACE);
    Around(line);
    Around(rest);
    VersionIs(last);
    AsksIs(line, line[..a], rest[..b], last[..c], last[c..]);
  }

  lemma AsksIs(line: Text, verb: Text, path: Text, version: Text, after: Text)
    requires verb != [] && SPACE !in verb && SPACE !in path && [SLASH] <= path && SPACE !in version
    requires line == verb + [SPACE] + (path + [SPACE] + (version + after))
    requires Ascii("HTTP/1.") <= version && (after == [] || after[0] == SPACE)
    ensures Asks(line, verb, path)
  {
    hide Ascii;
  }

  lemma FirstLineParts(line: Text)
    requires FirstLine(line).Some?
    ensures var a := Find(line, SPACE);
            && 0 < a < |line|
            && var rest := line[a + 1..];
               var b := Find(rest, SPACE);
               && b < |rest| && [SLASH] <= rest[..b] && FirstLine(line) == Some((line[..a], rest[..b]))
               && Ascii("HTTP/1.") <= rest[b + 1..][..Find(rest[b + 1..], SPACE)]
  {
    hide Ascii, Find;
  }

  lemma VersionIs(last: Text)
    ensures var c := Find(last, SPACE);
            SPACE !in last[..c] && (last[c..] == [] || last[c..][0] == SPACE) && last == last[..c] + last[c..]
  {
  }

  lemma AskedIsRead(line: Text, verb: Text, path: Text)
    requires Asks(line, verb, path)
    ensures FirstLine(line) == Some((verb, path))
  {
    hide Ascii, Find;
    var version: Text, after: Text :|
      && line == verb + [SPACE] + (path + [SPACE] + (version + after)) && SPACE !in version
      && Ascii("HTTP/1.") <= version && (after == [] || after[0] == SPACE);
    AtSpace(verb, path + [SPACE] + (version + after));
    AtSpace(path, version + after);
    HttpFraming.FoundBefore(version, after);
    Split(version, after);
  }

  lemma FirstLineIff(line: Text, verb: Text, path: Text)
    ensures FirstLine(line) == Some((verb, path)) <==> Asks(line, verb, path)
  {
    hide FirstLine, Asks;
    if FirstLine(line) == Some((verb, path)) { LineIsAsked(line); }
    if Asks(line, verb, path) { AskedIsRead(line, verb, path); }
  }

  /** A request line, and headers each on its line. */
  ghost predicate IsHead(head: Text, h: Head) {
    && Utf8.Valid(head)
    && exists line: Text, raws: seq<Text> ::
         && HttpFraming.IsLine(line) && Asks(line, h.verb, h.path) && AreHeaders(raws, h.headers)
         && head == if raws == [] then line else line + (CRLF + JoinedLines(raws))
  }

  lemma ParseHeadIff(head: Text, h: Head)
    ensures ParseHead(head) == Some(h) <==> IsHead(head, h)
  {
    hide FindCrlf, HeaderLines, FirstLine, Asks, AreHeaders, BuildOutput.FromUtf8, Utf8.Valid, JoinedLines;
    BuildOutput.FineIsValid(head);
    var i := FindCrlf(head);
    FirstLineIff(head[..i], h.verb, h.path);
    if ParseHead(head) == Some(h) {
      if i == |head| {
        assert head[..i] == head;
        WholeIsLine(head);
        NoHeaders(h.headers);
      } else {
        var raws := LinesAre(head[i + 2..]);
        CutAtCrlf(head);
        assert HttpFraming.IsLine(head[..i]) && AreHeaders(raws, h.headers);
      }
    }
    if IsHead(head, h) {
      var line: Text, raws: seq<Text> :|
        && HttpFraming.IsLine(line) && Asks(line, h.verb, h.path) && AreHeaders(raws, h.headers)
        && head == if raws == [] then line else line + (CRLF + JoinedLines(raws));
      if raws == [] {
        NoCrlf(line);
        NoHeaders(h.headers);
        assert head[..i] == head;
      } else {
        CutAt(line, JoinedLines(raws));
        LinesRead(raws, h.headers);
      }
    }
  }

  lemma WholeIsLine(s: Text)
    requires FindCrlf(s) == |s|
    ensures HttpFraming.IsLine(s)
  {
  }

  lemma NoHeaders(hs: seq<Header>)
    ensures AreHeaders([], hs) <==> hs == []
  {
  }

  // ---------------------------------------------------------------- the whole request

  /** The number of body bytes that the headers declare, or none of them does. */
  ghost predicate Declares(headers: seq<Header>, n: nat) {
    && HttpResponses.HasNo(headers, Ascii("Transfer-Encoding"))
    && if HttpResponses.HasNo(headers, Ascii("Content-Length")) then n == 0
       else exists v: Text ::
         HttpResponses.HasField(headers, Ascii("Content-Length"), v) && HttpFraming.WritesNumber(v, n, USIZE)
  }

  lemma DeclaresIff(h: Head, n: nat)
    ensures var te, cl := Lookup(h.headers, TransferEncoding()), Lookup(h.headers, ContentLength());
            Declares(h.headers, n) <==> te.None? && if cl.None? then n == 0 else DecimalSize(cl.value, USIZE) == Some(n)
  {
    hide Lookup, HttpResponses.HasField, HttpResponses.HasNo, DecimalSize, HttpFraming.WritesNumber, Ascii;
    var cl := Lookup(h.headers, Ascii("Content-Length"));
    HttpResponses.LookupIff(h.headers, Ascii("Transfer-Encoding"), []);
    HttpResponses.LookupIff(h.headers, Ascii("Content-Length"), if cl.Some? then cl.value else []);
    if cl.Some? {
      HttpFraming.DecimalSizeIff(cl.value, n, USIZE);
      if v: Text :| HttpResponses.HasField(h.headers, Ascii("Content-Length"), v)
                    && HttpFraming.WritesNumber(v, n, USIZE) {
        HttpResponses.LookupIff(h.headers, Ascii("Content-Length"), v);
      }
    }
  }

  /** The head is what stands in front of the first blank line. */
  ghost predicate Heads(bytes: Text, head: Text, rest: Text) {
    bytes == head + (CRLF + CRLF + rest) && forall j :: 0 <= j < |head| ==> !BlankAt(bytes, j)
  }

  lemma FourBytes(s: Text, n: nat)
    requires BlankAt(s, n)
    ensures n + 4 <= |s| && s[n..n + 4] == CRLF + CRLF
  {
  }

  lemma BlankFound(bytes: Text)
    requires FindBlank(bytes) < |bytes|
    ensures BlankAt(bytes, FindBlank(bytes)) && forall j :: 0 <= j < FindBlank(bytes) ==> !BlankAt(bytes, j)
  {
  }

  lemma BlankIsCut(bytes: Text, n: nat)
    requires FindBlank(bytes) == n < |bytes|
    ensures n + 4 <= |bytes| && Heads(bytes, bytes[..n], bytes[n + 4..])
  {
    BlankFound(bytes);
    hide FindBlank, BlankAt;
    FourBytes(bytes, n);
    CutTwice(bytes, n, 4);
  }

  lemma CutIsBlank(bytes: Text, head: Text, rest: Text)
    requires Heads(bytes, head, rest)
    ensures FindBlank(bytes) == |head| && |head| + 4 <= |bytes| && bytes[..|head|] == head
    ensures bytes[|head| + 4..] == rest
  {
    hide FindBlank;
    var n := |head|;
    Split(head, CRLF + CRLF + rest);
    Split(CRLF + CRLF, rest);
    DropDrop(bytes, n, 4);
    assert forall k :: 0 <= k < 4 ==> bytes[n + k] == (CRLF + CRLF)[k];
    assert BlankAt(bytes, n);
  }

  lemma BlankIff(bytes: Text, head: Text, rest: Text)
    ensures Heads(bytes, head, rest) <==>
            && FindBlank(bytes) == |head| && |head| + 4 <= |bytes|
            && bytes[..|head|] == head && bytes[|head| + 4..] == rest
  {
    hide FindBlank, Heads;
    if Heads(bytes, head, rest) { CutIsBlank(bytes, head, rest); }
    if FindBlank(bytes) == |head| && |head| + 4 <= |bytes| && bytes[..|head|] == head && bytes[|head| + 4..] == rest {
      BlankIsCut(bytes, |head|);
    }
  }

  ghost predicate IsRequest(bytes: Text, request: Request, head: Text, rest: Text) {
    && Heads(bytes, head, rest) && |head| <= MAX_HEAD
    && IsHead(head, Head(request.verb, request.path, request.headers))
    && Declares(request.headers, |request.body|) && |request.body| <= MAX_BODY && request.body <= rest
  }

  lemma DeclaredIff(head: Text, h: Head, n: nat)
    ensures DeclaredLength(head) == Sized(h, n) <==> IsHead(head, h) && Declares(h.headers, n) && n <= MAX_BODY
  {
    hide ParseHead, Lookup, IsHead, Declares, DecimalSize, TransferEncoding, ContentLength;
    ParseHeadIff(head, h);
    DeclaresIff(h, n);
  }

  lemma AfterHeadIff(head: Text, rest: Text, request: Request)
    ensures var h := Head(request.verb, request.path, request.headers);
            AfterHead(head, rest) == Accepted(request) <==>
            DeclaredLength(head) == Sized(h, |request.body|) && request.body <= rest
  {
    DeclaredIsBounded(head);
    hide DeclaredLength;
    if request.body <= rest { assert rest[..|request.body|] == request.body; }
  }

  /**
    The bytes are taken for a request exactly when they are one: a head within its limit and in front of the first
    blank line, no transfer coding, and at least as many bytes behind it as its headers declare, within the limit. It
    has that verb, path, headers and body.
   */
  lemma AcceptedIff(bytes: Text, request: Request)
    ensures Whole(bytes) == Accepted(request) <==>
            exists head: Text, rest: Text :: IsRequest(bytes, request, head, rest)
  {
    hide FindBlank, AfterHead, DeclaredLength, IsHead, Declares, Heads;
    var h := Head(request.verb, request.path, request.headers);
    var i := FindBlank(bytes);
    if Whole(bytes) == Accepted(request) {
      BlankIsThere(bytes);
      var head, rest := bytes[..i], bytes[i + 4..];
      BlankIff(bytes, head, rest);
      AfterHeadIff(head, rest, request);
      DeclaredIff(head, h, |request.body|);
      assert IsRequest(bytes, request, head, rest);
    }
    if head: Text, rest: Text :| IsRequest(bytes, request, head, rest) {
      BlankIff(bytes, head, rest);
      BlankIsThere(bytes);
      AfterHeadIff(head, rest, request);
      DeclaredIff(head, h, |request.body|);
    }
  }

  /** Too much is a head beyond its limit, ended or not, or a declared body beyond its own. */
  lemma TooMuchIff(bytes: Text)
    ensures Whole(bytes) == TooMuch <==>
            || (FindBlank(bytes) > MAX_HEAD)
            || exists head: Text, rest: Text, h: Head, n: nat ::
                 Heads(bytes, head, rest) && IsHead(head, h) && Declares(h.headers, n) && n > MAX_BODY
  {
    hide FindBlank, IsHead, Declares, Heads, ParseHead, Lookup, DecimalSize, TransferEncoding, ContentLength;
    var i := FindBlank(bytes);
    BlankIsThere(bytes);
    if Whole(bytes) == TooMuch && i <= MAX_HEAD {
      var head, rest := bytes[..i], bytes[i + 4..];
      BlankIff(bytes, head, rest);
      var h := ParseHead(head).value;
      var n := DecimalSize(Lookup(h.headers, ContentLength()).value, USIZE).value;
      ParseHeadIff(head, h);
      DeclaresIff(h, n);
    }
    if head: Text, rest: Text, h: Head, n: nat :|
         Heads(bytes, head, rest) && IsHead(head, h) && Declares(h.headers, n) && n > MAX_BODY {
      BlankIff(bytes, head, rest);
      ParseHeadIff(head, h);
      DeclaresIff(h, n);
    }
  }
}
