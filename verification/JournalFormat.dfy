/**
  The journal file's line format (deploy/src/journal_format.rs): each line is the CRC-32 of its body in eight hex
  digits, a tab, the body and a newline; the first line is the header. A tail without a newline is a torn write.
 */
module JournalFormat {
  import opened Bytes
  import opened Checksum
  import BuildOutput
  import Utf8

  const MAGIC: Text := Ascii("harpoon-journal")
  const HEADER_KIND: Text := Ascii("header")
  const FILE_VERSION: nat := 1
  const HEADER_BODY: Text := HEADER_KIND + [TAB] + (MAGIC + [TAB] + [49])

  // ---------------------------------------------------------------- the frame

  function HexDigit(d: nat): (b: Byte)
    requires d < 16
  {
    if d < 10 then 48 + d else 87 + d
  }

  function HexValue(b: Byte): (d: Option<nat>)
    ensures d.Some? ==> d.value < 16
  {
    if 48 <= b <= 57 then Some(b - 48)
    else if 97 <= b <= 102 then Some(b - 87)
    else if 65 <= b <= 70 then Some(b - 55)
    else None
  }

  /** `{:0width x}` of a number that fits. */
  function Hex(v: nat, width: nat): (r: Text)
    ensures |r| == width
    ensures forall i :: 0 <= i < width ==> 48 <= r[i] <= 57 || 97 <= r[i] <= 102
  {
    if width == 0 then [] else Hex(v / 16, width - 1) + [HexDigit(v % 16)]
  }

  /** `from_str_radix(_, 16)` on a text with no sign. */
  function HexNumber(s: Text): (r: Option<nat>) {
    if s == [] then Some(0)
    else
      match (HexNumber(s[..|s| - 1]), HexValue(s[|s| - 1]))
      case (Some(v), Some(d)) => Some(16 * v + d)
      case _ => None
  }

  /** The checksum field: eight characters that `u32::from_str_radix` reads, which allows one leading '+'. */
  function ChecksumField(s: Text): (r: Option<nat>) {
    if |s| != 8 then None
    else if s[0] == 43 then HexNumber(s[1..])
    else HexNumber(s)
  }

  function Frame(body: Text): (line: Text) {
    Hex(Crc32(body), 8) + [TAB] + body
  }

  // ---------------------------------------------------------------- one line

  datatype Line = Header(version: nat) | Record(body: Text)

  datatype FormatError =
    | Corrupt(line: nat)
    | BadHeader
    | UnsupportedVersion(version: nat)

  datatype Result<+T> = Ok(value: T) | Err(error: FormatError)

  /** What stands before the first tab. */
  function Kind(body: Text): Text {
    body[..Find(body, TAB)]
  }

  /** `str::parse::<u32>`: an optional '+', then at least one decimal digit, below 2^32. */
  function DecimalNumber(s: Text): (r: Option<nat>) {
    if s == [] then Some(0)
    else
      var d := s[|s| - 1];
      match DecimalNumber(s[..|s| - 1])
      case Some(v) => if 48 <= d <= 57 then Some(10 * v + (d - 48)) else None
      case None => None
  }

  function ParseU32(s: Text): (r: Option<nat>) {
    var digits := if s != [] && s[0] == 43 then s[1..] else s;
    if digits == [] then None
    else
      match DecimalNumber(digits)
      case Some(v) => if v < 0x1_0000_0000 then Some(v) else None
      case None => None
  }

  /** The header's fields: its kind, the magic word and the version, and nothing else. */
  function DecodeHeader(body: Text): (r: Option<nat>) {
    var a := Find(body, TAB);
    if a == |body| then None
    else
      var rest := body[a + 1..];
      var b := Find(rest, TAB);
      if b == |rest| || rest[..b] != MAGIC || TAB in rest[b + 1..] then None
      else ParseU32(rest[b + 1..])
  }

  /** Decode one line: the checksum first, then the kind. */
  function DecodeLine(text: Text): (r: Option<Line>) {
    var t := Find(text, TAB);
    if t == |text| then None
    else
      var body := text[t + 1..];
      if ChecksumField(text[..t]) != Some(Crc32(body)) then None
      else if Kind(body) == HEADER_KIND then
        (match DecodeHeader(body)
         case Some(v) => Some(Header(v))
         case None => None)
      else Some(Record(body))
  }

  function HeaderLine(): Text {
    Frame(HEADER_BODY)
  }

  // ---------------------------------------------------------------- the whole file

  datatype Recovered = Recovered(records: seq<Text>, validLen: nat, torn: nat, hasHeader: bool)

  /** What the `n`-th line adds: a record, or (the first line only) the header. */
  function ReadLine(line: Text, n: nat): (r: Result<seq<Text>>) {
    if !BuildOutput.FromUtf8(line).Fine? then Err(Corrupt(n))
    else
      match DecodeLine(line)
      case None => Err(if n == 1 then BadHeader else Corrupt(n))
      case Some(Header(v)) =>
        if n > 1 then Err(Corrupt(n)) else if v != FILE_VERSION then Err(UnsupportedVersion(v)) else Ok([])
      case Some(Record(body)) =>
        if n == 1 then Err(BadHeader) else Ok([body])
  }

  /** Put what was read before position `pos` in front of what the rest of the file gives. */
  function Then(records: seq<Text>, pos: nat, hasHeader: bool, r: Result<Recovered>): (s: Result<Recovered>)
  {
    match r
    case Ok(x) => Ok(Recovered(records + x.records, pos + x.validLen, x.torn, hasHeader || x.hasHeader))
    case Err(e) => Err(e)
  }

  /** The lines from the `n`-th on (the first is number 1). */
  function Scan(bytes: Text, n: nat): (r: Result<Recovered>)
    requires n >= 1
    ensures r.Ok? ==> r.value.validLen + r.value.torn == |bytes|
    decreases |bytes|
  {
    var len := Find(bytes, NEWLINE);
    if len == |bytes| then Ok(Recovered([], 0, |bytes|, false))
    else
      match ReadLine(bytes[..len], n)
      case Err(e) => Err(e)
      case Ok(rs) => Then(rs, len + 1, n == 1, Scan(bytes[len + 1..], n + 1))
  }

  /** What `recover` finds in a file. */
  function Recover(bytes: Text): (r: Result<Recovered>)
    ensures r.Ok? ==> r.value.validLen + r.value.torn == |bytes|
  {
    Scan(bytes, 1)
  }

  // ---------------------------------------------------------------- what the writer writes

  /** A body the engine encodes: UTF-8 text on one line whose kind is not the header's. */
  ghost predicate IsBody(body: Text) {
    && NEWLINE !in body
    && Kind(body) != HEADER_KIND
    && Utf8.Valid(body)
  }

  function Written(line: Text): Text {
    line + [NEWLINE]
  }

  function Lines(records: seq<Text>): Text {
    if records == [] then [] else Written(Frame(records[0])) + Lines(records[1..])
  }

  function HeaderText(): Text {
    Written(HeaderLine())
  }

  // ---------------------------------------------------------------- recovery as the loop that does it

  /** `recover`: walk the lines, stop at the first one that has no newline. */
  method RecoverFile(bytes: Text) returns (r: Result<Recovered>)
    ensures r == Recover(bytes)
  {
    hide ReadLine, Find, Scan, Then;
    var records: seq<Text> := [];
    var pos, n, hasHeader := 0, 0, false;
    assert bytes[0..] == bytes;
    ThenStart(Recover(bytes));
    while pos < |bytes|
      invariant pos <= |bytes| && (hasHeader <==> n > 0)
      invariant Recover(bytes) == Then(records, pos, hasHeader, Scan(bytes[pos..], n + 1))
    {
      var rest := bytes[pos..];
      var len := Find(rest, NEWLINE);
      ScanStep(rest, n + 1);
      if len == |rest| {
        ThenTorn(records, pos, hasHeader, |rest|);
        return Ok(Recovered(records, pos, |bytes| - pos, hasHeader));
      }
      n := n + 1;
      match ReadLine(rest[..len], n) {
        case Err(e) =>
          ThenErr(records, pos, hasHeader, e);
          return Err(e);
        case Ok(rs) =>
          ThenThen(records, pos, hasHeader, rs, len + 1, n == 1, Scan(rest[len + 1..], n + 1));
          records := records + rs;
          hasHeader := hasHeader || n == 1;
      }
      assert rest[len + 1..] == bytes[pos + len + 1..];
      pos := pos + len + 1;
    }
    assert bytes[pos..] == [];
    ScanStep([], n + 1);
    ThenTorn(records, pos, hasHeader, 0);
    return Ok(Recovered(records, pos, 0, hasHeader));
  }

  lemma ScanStep(bytes: Text, n: nat)
    requires n >= 1
    ensures var len := Find(bytes, NEWLINE);
            Scan(bytes, n) ==
            if len == |bytes| then Ok(Recovered([], 0, |bytes|, false))
            else match ReadLine(bytes[..len], n)
                 case Err(e) => Err(e)
                 case Ok(rs) => Then(rs, len + 1, n == 1, Scan(bytes[len + 1..], n + 1))
  {
  }

  lemma ThenStart(r: Result<Recovered>)
    ensures Then([], 0, false, r) == r
  {
    if r.Ok? { assert [] + r.value.records == r.value.records; }
  }

  lemma ThenErr(a: seq<Text>, p: nat, g: bool, e: FormatError)
    ensures Then(a, p, g, Err(e)) == Err(e)
  {
  }

  lemma ThenThen(a: seq<Text>, p: nat, g: bool, b: seq<Text>, q: nat, h: bool, r: Result<Recovered>)
    ensures Then(a, p, g, Then(b, q, h, r)) == Then(a + b, p + q, g || h, r)
  {
    if r.Ok? { assert a + (b + r.value.records) == (a + b) + r.value.records; }
  }

  lemma ThenTorn(a: seq<Text>, p: nat, g: bool, torn: nat)
    ensures Then(a, p, g, Ok(Recovered([], 0, torn, false))) == Ok(Recovered(a, p, torn, g))
  {
    assert a + [] == a;
  }

  // ---------------------------------------------------------------- the frame round trip

  function Pow16(n: nat): (p: nat)
    ensures p >= 1
  {
    if n == 0 then 1 else 16 * Pow16(n - 1)
  }

  lemma {:induction false} HexRoundTrip(v: nat, width: nat)
    requires v < Pow16(width)
    ensures HexNumber(Hex(v, width)) == Some(v)
  {
    if width > 0 {
      hide HexNumber, HexDigit, HexValue;
      DivBelow(v, Pow16(width - 1));
      HexDigitValue(v % 16);
      HexRoundTrip(v / 16, width - 1);
      HexNumberAppend(Hex(v / 16, width - 1), HexDigit(v % 16));
    }
  }

  lemma DivBelow(v: nat, p: nat)
    requires v < 16 * p
    ensures v / 16 < p && 16 * (v / 16) + v % 16 == v
  {
  }

  lemma HexDigitValue(d: nat)
    requires d < 16
    ensures HexValue(HexDigit(d)) == Some(d)
  {
  }

  lemma HexNumberAppend(h: Text, d: Byte)
    requires HexNumber(h).Some? && HexValue(d).Some?
    ensures HexNumber(h + [d]) == Some(16 * HexNumber(h).value + HexValue(d).value)
  {
    assert (h + [d])[..|h + [d]| - 1] == h;
  }

  function LowerHex(b: Byte): Byte {
    if 65 <= b <= 70 then b + 32 else b
  }

  function LowerAll(s: Text): (r: Text)
    ensures |r| == |s|
  {
    seq(|s|, i requires 0 <= i < |s| => LowerHex(s[i]))
  }

  lemma DigitIff(b: Byte, d: nat)
    ensures HexValue(b) == Some(d) <==> d < 16 && LowerHex(b) == HexDigit(d)
  {
  }

  lemma HexNumberStep(s: Text, v: nat)
    requires s != []
    ensures HexNumber(s) == Some(v) <==>
            HexNumber(s[..|s| - 1]) == Some(v / 16) && HexValue(s[|s| - 1]) == Some(v % 16)
  {
  }

  lemma HexStep(s: Text, v: nat)
    requires s != []
    ensures LowerAll(s) == Hex(v, |s|) <==>
            LowerAll(s[..|s| - 1]) == Hex(v / 16, |s| - 1) && LowerHex(s[|s| - 1]) == HexDigit(v % 16)
  {
    var front := s[..|s| - 1];
    assert LowerAll(s) == LowerAll(front) + [LowerHex(s[|s| - 1])];
    assert Hex(v, |s|) == Hex(v / 16, |s| - 1) + [HexDigit(v % 16)];
    assert (LowerAll(front) + [LowerHex(s[|s| - 1])])[..|s| - 1] == LowerAll(front);
    assert (Hex(v / 16, |s| - 1) + [HexDigit(v % 16)])[..|s| - 1] == Hex(v / 16, |s| - 1);
    hide Hex, LowerAll, LowerHex, HexDigit;
  }

  lemma PowStep(n: nat, v: nat)
    ensures v < Pow16(n + 1) <==> v / 16 < Pow16(n)
  {
  }

  /** Hexadecimal digits stand for the number whose writing they are, but for the case of the letters. */
  lemma {:induction false} HexNumberIff(s: Text, v: nat)
    ensures HexNumber(s) == Some(v) <==> v < Pow16(|s|) && LowerAll(s) == Hex(v, |s|)
  {
    if s != [] {
      hide *;
      HexNumberIff(s[..|s| - 1], v / 16);
      HexNumberStep(s, v);
      HexStep(s, v);
      PowStep(|s| - 1, v);
      DigitIff(s[|s| - 1], v % 16);
    }
  }

  lemma ChecksumRoundTrip(body: Text)
    ensures ChecksumField(Hex(Crc32(body), 8)) == Some(Crc32(body))
  {
    assert Pow16(8) == 0x1_0000_0000 by { assert Pow16(4) == 0x1_0000; assert Pow16(8) == 0x1_0000 * Pow16(4); }
    HexRoundTrip(Crc32(body), 8);
  }

  lemma {:induction false} FindAfter(a: Text, b: Byte, c: Text)
    requires b !in a
    ensures Find(a + [b] + c, b) == |a|
  {
    var s := a + [b] + c;
    assert s[|a|] == b;
    assert forall j :: 0 <= j < |a| ==> s[j] == a[j];
  }

  /** A framed record is read back as itself. */
  lemma FrameRoundTrip(body: Text)
    requires Kind(body) != HEADER_KIND
    ensures DecodeLine(Frame(body)) == Some(Record(body))
  {
    FrameParts(body);
  }

  lemma FrameParts(body: Text)
    ensures var line := Frame(body);
            && Find(line, TAB) == 8 < |line|
            && line[9..] == body
            && ChecksumField(line[..8]) == Some(Crc32(body))
  {
    hide Crc32, ChecksumField, Find;
    var crc := Hex(Crc32(body), 8);
    ChecksumRoundTrip(body);
    assert TAB !in crc;
    hide Hex;
    FindAfter(crc, TAB, body);
    Split(crc + [TAB], body);
    Assoc(crc, [TAB], body);
    Split(crc, [TAB] + body);
  }

  lemma HeaderRoundTrip()
    ensures DecodeLine(HeaderLine()) == Some(Header(FILE_VERSION))
  {
    hide Crc32, Hex, HexNumber, ChecksumField, Frame, ParseU32, Find, Ascii, DecodeHeader;
    FrameParts(HEADER_BODY);
    HeaderFields();
    DecodeHeaderFields(MAGIC, [49]);
    FindAfter(HEADER_KIND, TAB, MAGIC + [TAB] + [49]);
    KindOf(HEADER_KIND, MAGIC + [TAB] + [49]);
  }

  lemma KindOf(kind: Text, rest: Text)
    requires TAB !in kind
    ensures Kind(kind + [TAB] + rest) == kind
  {
    FindAfter(kind, TAB, rest);
  }

  lemma HeaderFields()
    ensures TAB !in HEADER_KIND && TAB !in MAGIC && TAB !in [49]
    ensures ParseU32([49]) == Some(FILE_VERSION)
  {
    assert [49][..0] == [];
  }

  lemma HeaderIsPlain(version: Text)
    requires forall b <- version :: 48 <= b <= 57
    ensures var body := HEADER_KIND + [TAB] + (MAGIC + [TAB] + version);
            NEWLINE !in body && forall i :: 0 <= i < |body| ==> body[i] < 0x80
  {
    assert forall b <- HEADER_KIND :: b != NEWLINE && b < 0x80;
    assert forall b <- MAGIC :: b != NEWLINE && b < 0x80;
    hide HEADER_KIND, MAGIC;
    var body := HEADER_KIND + [TAB] + (MAGIC + [TAB] + version);
    forall i | 0 <= i < |body| ensures body[i] != NEWLINE && body[i] < 0x80 {
      assert body[i] in HEADER_KIND || body[i] in MAGIC || body[i] in version || body[i] == TAB;
    }
  }

  lemma DecodeHeaderFields(magic: Text, version: Text)
    requires magic == MAGIC && TAB !in magic && TAB !in HEADER_KIND && TAB !in version
    ensures DecodeHeader(HEADER_KIND + [TAB] + (magic + [TAB] + version)) == ParseU32(version)
  {
    var rest := magic + [TAB] + version;
    var body := HEADER_KIND + [TAB] + rest;
    FindAfter(HEADER_KIND, TAB, rest);
    FindAfter(magic, TAB, version);
    assert body[|HEADER_KIND| + 1..] == rest;
    assert rest[..|magic|] == magic && rest[|magic| + 1..] == version;
  }

  /** A number written in decimal is read back. */
  lemma {:induction false} DecimalRoundTrip(n: nat)
    ensures DecimalNumber(DecimalText(n)) == Some(n)
  {
    var r := DecimalText(n);
    if n >= 10 {
      DecimalRoundTrip(n / 10);
      assert r[..|r| - 1] == DecimalText(n / 10);
    } else {
      assert r[..|r| - 1] == [];
    }
  }

  function Zeros(k: nat): (r: Text)
    ensures |r| == k && forall i :: 0 <= i < k ==> r[i] == 48
  {
    if k == 0 then [] else Zeros(k - 1) + [48]
  }

  lemma DecimalStep(d: Text, v: nat)
    requires d != []
    ensures DecimalNumber(d) == Some(v) <==>
            DecimalNumber(d[..|d| - 1]) == Some(v / 10) && d[|d| - 1] == 48 + v % 10
  {
  }

  ghost predicate WritesDecimal(d: Text, v: nat) {
    exists k: nat :: d == Zeros(k) + DecimalText(v)
  }

  lemma DecimalTextStep(v: nat)
    ensures v < 10 ==> DecimalText(v) == [48 + v]
    ensures v >= 10 ==> DecimalText(v) == DecimalText(v / 10) + [48 + v % 10]
  {
  }

  lemma OneDigit(last: Byte, v: nat)
    ensures WritesDecimal([last], v) <==> v < 10 && last == 48 + v
  {
    DecimalTextStep(v);
    hide DecimalText;
    if k: nat :| [last] == Zeros(k) + DecimalText(v) {
      assert k == 0 && Zeros(0) == [];
      assert [last] == DecimalText(v);
    }
    if v < 10 && last == 48 + v {
      assert [last] == Zeros(0) + DecimalText(v);
    }
  }

  lemma DigitMore(front: Text, last: Byte, v: nat)
    requires WritesDecimal(front, v / 10) && last == 48 + v % 10
    ensures WritesDecimal(front + [last], v)
  {
    DecimalTextStep(v);
    DecimalTextStep(v / 10);
    var k: nat :| front == Zeros(k) + DecimalText(v / 10);
    hide DecimalText;
    if v < 10 {
      assert front + [last] == Zeros(k + 1) + DecimalText(v);
    } else {
      Assoc(Zeros(k), DecimalText(v / 10), [last]);
    }
  }

  lemma DigitLess(front: Text, last: Byte, v: nat)
    requires WritesDecimal(front + [last], v) && front != []
    ensures WritesDecimal(front, v / 10) && last == 48 + v % 10
  {
    DecimalTextStep(v);
    DecimalTextStep(v / 10);
    var k: nat :| front + [last] == Zeros(k) + DecimalText(v);
    hide DecimalText;
    Split(front, [last]);
    if v < 10 {
      Split(Zeros(k), [48 + v]);
      assert front == Zeros(k) == Zeros(k - 1) + DecimalText(v / 10);
    } else {
      Assoc(Zeros(k), DecimalText(v / 10), [48 + v % 10]);
      Split(Zeros(k) + DecimalText(v / 10), [48 + v % 10]);
      assert |front| == |Zeros(k) + DecimalText(v / 10)|;
    }
  }

  /** Decimal digits stand for the number whose writing they are, but for zeros in front. */
  lemma {:induction false} DecimalNumberIff(d: Text, v: nat)
    requires d != []
    ensures DecimalNumber(d) == Some(v) <==> WritesDecimal(d, v)
    decreases |d|
  {
    hide *;
    var front, last := d[..|d| - 1], d[|d| - 1];
    DecimalStep(d, v);
    assert d == front + [last];
    if front == [] {
      EmptyIsZero();
      OneDigit(last, v);
    } else {
      DecimalNumberIff(front, v / 10);
      if WritesDecimal(d, v) { DigitLess(front, last, v); }
      if WritesDecimal(front, v / 10) && last == 48 + v % 10 { DigitMore(front, last, v); }
    }
  }

  lemma EmptyIsZero()
    ensures DecimalNumber([]) == Some(0)
  {
  }

  // ---------------------------------------------------------------- lines are whole or torn, never mixed up

  lemma {:induction false} AsciiIsValid(a: Text, t: Text)
    requires Utf8.Valid(t) && forall i :: 0 <= i < |a| ==> a[i] < 0x80
    ensures Utf8.Valid(a + t)
  {
    if a == [] {
      Unit(t);
    } else {
      var c, rest := [a[0]], a[1..];
      AsciiIsValid(rest, t);
      assert Utf8.WellFormed(c);
      hide Utf8.Valid, Utf8.WellFormed;
      BuildOutput.ValidPrepend(c, rest + t);
      assert c + rest == a;
      Assoc(c, rest, t);
    }
  }

  lemma FrameIsText(body: Text)
    requires Utf8.Valid(body) && NEWLINE !in body
    ensures BuildOutput.FromUtf8(Frame(body)).Fine? && NEWLINE !in Frame(body)
  {
    var crc := Hex(Crc32(body), 8);
    AsciiIsValid(crc + [TAB], body);
    BuildOutput.FineIsValid(Frame(body));
  }

  lemma HeaderIsText()
    ensures BuildOutput.FromUtf8(HeaderLine()).Fine? && NEWLINE !in HeaderLine()
  {
    assert Utf8.Valid([]);
    hide Frame, Utf8.Valid, BuildOutput.FromUtf8;
    HeaderIsPlain([49]);
    AsciiIsValid(HEADER_BODY, []);
    Unit(HEADER_BODY);
    FrameIsText(HEADER_BODY);
  }

  /** A line in front of anything is read first. */
  lemma ScanLine(line: Text, rest: Text)
    requires NEWLINE !in line
    ensures var bytes := Written(line) + rest;
            && Find(bytes, NEWLINE) == |line| < |bytes|
            && bytes[..|line|] == line && bytes[|line| + 1..] == rest
  {
    FindAfter(line, NEWLINE, rest);
  }

  lemma ScanTorn(t: Text, n: nat)
    requires n >= 1 && NEWLINE !in t
    ensures Scan(t, n) == Ok(Recovered([], 0, |t|, false))
  {
    assert Find(t, NEWLINE) == |t|;
  }

  lemma ScanOne(body: Text, rest: Text, n: nat)
    requires n >= 2 && IsBody(body)
    ensures var line := Written(Frame(body));
            Scan(line + rest, n) == Then([body], |line|, false, Scan(rest, n + 1))
  {
    hide Frame, Find, ReadLine;
    ReadRecord(body, n);
    ScanLine(Frame(body), rest);
  }

  lemma ReadRecord(body: Text, n: nat)
    requires n >= 2 && IsBody(body)
    ensures ReadLine(Frame(body), n) == Ok([body]) && NEWLINE !in Frame(body)
  {
    hide Frame, DecodeLine, Find, Utf8.Valid, BuildOutput.FromUtf8;
    FrameRoundTrip(body);
    FrameIsText(body);
  }

  /** Whole records in front of anything are read first. */
  lemma {:induction false} ScanOver(records: seq<Text>, rest: Text, n: nat)
    requires n >= 2 && forall r <- records :: IsBody(r)
    ensures Scan(Lines(records) + rest, n)
         == Then(records, |Lines(records)|, false, Scan(rest, n + |records|))
    decreases |records|
  {
    hide Scan, Frame, Find, Then, IsBody;
    if records == [] {
      Unit(rest);
      ThenStart(Scan(rest, n));
    } else {
      ScanOver(records[1..], rest, n + 1);
      assert records[0] in records;
      ScanOne(records[0], Lines(records[1..]) + rest, n);
      Assoc(Written(Frame(records[0])), Lines(records[1..]), rest);
      ThenThen([records[0]], |Written(Frame(records[0]))|, false, records[1..], |Lines(records[1..])|, false,
               Scan(rest, n + |records|));
      assert [records[0]] + records[1..] == records;
    }
  }

  lemma ScanLines(records: seq<Text>, t: Text, n: nat)
    requires n >= 2 && NEWLINE !in t && forall r <- records :: IsBody(r)
    ensures Scan(Lines(records) + t, n) == Ok(Recovered(records, |Lines(records)|, |t|, false))
  {
    ScanOver(records, t, n);
    ScanTorn(t, n + |records|);
    ThenTorn(records, |Lines(records)|, false, |t|);
  }

  lemma ReadHeader()
    ensures ReadLine(HeaderLine(), 1) == Ok([]) && NEWLINE !in HeaderLine()
  {
    hide Frame, DecodeLine, Find, Utf8.Valid, BuildOutput.FromUtf8;
    HeaderRoundTrip();
    HeaderIsText();
  }

  /** The file a writer leaves: header, whole records, and a tail without a newline. Recovery returns those records. */
  lemma RecoverImage(records: seq<Text>, t: Text)
    requires NEWLINE !in t && forall r <- records :: IsBody(r)
    ensures Recover(HeaderText() + Lines(records) + t)
         == Ok(Recovered(records, |HeaderText()| + |Lines(records)|, |t|, true))
  {
    hide HeaderLine, ReadLine, Find, Lines;
    ReadHeader();
    ScanLines(records, t, 2);
    ScanLine(HeaderLine(), Lines(records) + t);
    Assoc(HeaderText(), Lines(records), t);
    assert [] + records == records;
  }

  /** A header that never got its newline is an empty journal, whatever part of it is there. */
  lemma RecoverTornHeader(p: Text)
    requires p < HeaderText()
    ensures Recover(p) == Ok(Recovered([], 0, |p|, false))
  {
    HeaderIsText();
    RecoverTorn(p, HeaderLine());
  }

  lemma RecoverTorn(p: Text, line: Text)
    requires NEWLINE !in line && p < Written(line)
    ensures Recover(p) == Ok(Recovered([], 0, |p|, false))
    ensures NEWLINE !in p
  {
    assert forall i :: 0 <= i < |p| ==> p[i] == line[i];
    assert Find(p, NEWLINE) == |p|;
  }

  lemma {:induction false} LinesAppend(records: seq<Text>, r: Text)
    ensures Lines(records + [r]) == Lines(records) + Written(Frame(r))
  {
    if records == [] {
      assert records + [r] == [r] && [r][1..] == [];
      Unit(Written(Frame(r)));
    } else {
      LinesAppend(records[1..], r);
      assert (records + [r])[1..] == records[1..] + [r];
      Assoc(Written(Frame(records[0])), Lines(records[1..]), Written(Frame(r)));
    }
  }
}
