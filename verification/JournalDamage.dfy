/**
  What recovery refuses. A committed line that was damaged, a second header, a header of another version and a first
  line that is no header each stop it with an error (deploy/src/journal_format.rs:607-657): nothing is skipped.
 */
module JournalDamage {
  import opened Bytes
  import opened Checksum
  import opened JournalFormat
  import Utf8
  import BuildOutput

  // ---------------------------------------------------------------- which lines are records

  /** The texts that the checksum field is read from: eight digits, or a plus sign and seven. */
  predicate Writes(f: Text, v: nat) {
    && |f| == 8
    && (LowerAll(f) == Hex(v, 8) || (f[0] == 43 && v < 0x1000_0000 && LowerAll(f[1..]) == Hex(v, 7)))
  }

  lemma FieldIff(f: Text, v: nat)
    requires v < 0x1_0000_0000
    ensures ChecksumField(f) == Some(v) <==> Writes(f, v)
  {
    assert Pow16(4) == 0x1_0000 && Pow16(7) == 0x1000 * Pow16(4) && Pow16(8) == 0x1_0000 * Pow16(4);
    if |f| == 8 {
      HexNumberIff(f, v);
      HexNumberIff(f[1..], v);
      hide HexNumber, Pow16;
      if f[0] == 43 {
        assert LowerAll(f)[0] == 43 && Hex(v, 8)[0] != 43;
      }
    }
  }

  /** A line is read as a record exactly when its first field writes the checksum of the rest, and that is no header. */
  lemma RecordIff(text: Text, body: Text)
    ensures DecodeLine(text) == Some(Record(body)) <==>
            && Kind(body) != HEADER_KIND
            && exists f: Text :: Writes(f, Crc32(body)) && text == f + [TAB] + body
  {
    hide Crc32, Hex, Kind, HEADER_KIND, DecodeHeader, ChecksumField;
    if DecodeLine(text) == Some(Record(body)) {
      var f := text[..Find(text, TAB)];
      FieldIff(f, Crc32(body));
      assert text == f + [TAB] + body;
    }
    if f: Text :| Writes(f, Crc32(body)) && text == f + [TAB] + body {
      FieldIff(f, Crc32(body));
      WritesHasNoTab(f, Crc32(body));
      FindAfter(f, TAB, body);
      assert text[..8] == f && text[9..] == body;
    }
  }

  /** A line after the first is taken for a record exactly when it is text and reads as one; it is refused otherwise. */
  lemma LineIff(line: Text, n: nat, body: Text)
    requires n >= 2
    ensures ReadLine(line, n) == Ok([body]) <==>
            && Utf8.Valid(line) && Kind(body) != HEADER_KIND
            && exists f: Text :: Writes(f, Crc32(body)) && line == f + [TAB] + body
    ensures ReadLine(line, n) == Err(Corrupt(n)) || exists b: Text :: ReadLine(line, n) == Ok([b])
  {
    RecordIff(line, body);
    BuildOutput.FineIsValid(line);
    hide DecodeLine, BuildOutput.FromUtf8, Utf8.Valid, Writes, Kind, HEADER_KIND, Crc32;
  }

  lemma WritesHasNoTab(f: Text, v: nat)
    requires Writes(f, v)
    ensures TAB !in f
  {
    forall i | 0 <= i < |f| ensures f[i] != TAB {
      assert LowerAll(f)[i] == LowerHex(f[i]);
      if i > 0 { assert LowerAll(f[1..])[i - 1] == LowerHex(f[i]); }
    }
  }

  // ---------------------------------------------------------------- what recovery refuses

  /** An error in a committed line is the error of the file, whatever stands behind it. */
  lemma RefusedAt(records: seq<Text>, line: Text, rest: Text)
    requires NEWLINE !in line && (forall r <- records :: IsBody(r))
    requires ReadLine(line, |records| + 2).Err?
    ensures Recover(HeaderText() + Lines(records) + Written(line) + rest)
         == Err(ReadLine(line, |records| + 2).error)
  {
    hide HeaderLine, ReadLine, Find, Lines, IsBody, Scan, Then;
    var tail := Written(line) + rest;
    ReadHeader();
    ScanLine(HeaderLine(), Lines(records) + tail);
    ScanStep(HeaderText() + (Lines(records) + tail), 1);
    ScanOver(records, tail, 2);
    ScanLine(line, rest);
    ScanStep(tail, |records| + 2);
    ThenErr(records, |Lines(records)|, false, ReadLine(line, |records| + 2).error);
    ThenErr([], |HeaderText()|, true, ReadLine(line, |records| + 2).error);
    Group4(HeaderText(), Lines(records), Written(line), rest);
  }

  /** A line whose checksum is another one's is no line at all. */
  lemma NotItsChecksum(was: Text, body: Text)
    requires Crc32(was) != Crc32(body)
    ensures DecodeLine(Hex(Crc32(was), 8) + [TAB] + body) == None
  {
    hide Crc32;
    var f := Hex(Crc32(was), 8);
    ChecksumRoundTrip(was);
    FindAfter(f, TAB, body);
    assert (f + [TAB] + body)[..8] == f && (f + [TAB] + body)[9..] == body;
  }

  /**
    Damage to up to four bytes in a row of a committed record stops recovery at that record's line. (A new line break
    is not in this: it makes two lines of one.)
   */
  lemma DamageIsFound(records: seq<Text>, was: Text, body: Text, rest: Text)
    requires (forall r <- records :: IsBody(r)) && Damaged(was, body) && NEWLINE !in body
    ensures Recover(HeaderText() + Lines(records) + Written(Hex(Crc32(was), 8) + [TAB] + body) + rest)
         == Err(Corrupt(|records| + 2))
  {
    ChecksumFindsDamage(was, body);
    NotItsChecksum(was, body);
    hide *;
    assert NEWLINE !in Hex(Crc32(was), 8);
    RefusedLine(Hex(Crc32(was), 8) + [TAB] + body, |records| + 2);
    RefusedAt(records, Hex(Crc32(was), 8) + [TAB] + body, rest);
  }

  lemma RefusedLine(line: Text, n: nat)
    requires n >= 2 && DecodeLine(line) == None
    ensures ReadLine(line, n) == Err(Corrupt(n))
  {
    hide DecodeLine;
  }

  lemma SecondHeader(records: seq<Text>, rest: Text)
    requires forall r <- records :: IsBody(r)
    ensures Recover(HeaderText() + Lines(records) + HeaderText() + rest) == Err(Corrupt(|records| + 2))
  {
    hide Recover, Lines, DecodeLine, HeaderLine, IsBody;
    HeaderRoundTrip();
    HeaderIsText();
    RefusedAt(records, HeaderLine(), rest);
  }

  function HeaderOf(version: nat): Text {
    HEADER_KIND + [TAB] + (MAGIC + [TAB] + DecimalText(version))
  }

  lemma VersionReads(v: nat)
    requires v < 0x1_0000_0000
    ensures ParseU32(DecimalText(v)) == Some(v)
  {
    hide DecimalNumber;
    DecimalRoundTrip(v);
  }

  lemma HeaderReads(v: nat)
    requires v < 0x1_0000_0000
    ensures DecodeLine(Frame(HeaderOf(v))) == Some(Header(v))
  {
    hide Crc32, Hex, HexNumber, ChecksumField, Frame, ParseU32, Find, Ascii, DecodeHeader, DecimalText;
    FrameParts(HeaderOf(v));
    HeaderFields();
    VersionReads(v);
    DecodeHeaderFields(MAGIC, DecimalText(v));
    FindAfter(HEADER_KIND, TAB, MAGIC + [TAB] + DecimalText(v));
    KindOf(HEADER_KIND, MAGIC + [TAB] + DecimalText(v));
  }

  /** A file begins with a header of this version, or it is refused. */
  lemma OtherVersion(v: nat, rest: Text)
    requires v < 0x1_0000_0000 && v != FILE_VERSION
    ensures Recover(Written(Frame(HeaderOf(v))) + rest) == Err(UnsupportedVersion(v))
  {
    hide Frame, Find, DecodeLine, Scan, BuildOutput.FromUtf8, HeaderOf;
    HeaderReads(v);
    HeaderOfIsText(v);
    ScanLine(Frame(HeaderOf(v)), rest);
    ScanStep(Written(Frame(HeaderOf(v))) + rest, 1);
  }

  lemma HeaderOfIs(v: nat)
    ensures HeaderOf(v) == HEADER_KIND + [TAB] + (MAGIC + [TAB] + DecimalText(v))
  {
  }

  lemma HeaderOfIsText(v: nat)
    ensures BuildOutput.FromUtf8(Frame(HeaderOf(v))).Fine? && NEWLINE !in Frame(HeaderOf(v))
  {
    assert Utf8.Valid([]);
    HeaderIsPlain(DecimalText(v));
    hide *;
    HeaderOfIs(v);
    AsciiIsValid(HeaderOf(v), []);
    Unit(HeaderOf(v));
    FrameIsText(HeaderOf(v));
  }

  lemma RecordIsNoHeader(body: Text, rest: Text)
    requires IsBody(body)
    ensures Recover(Written(Frame(body)) + rest) == Err(BadHeader)
  {
    hide Frame, Find, DecodeLine, Scan, BuildOutput.FromUtf8, Utf8.Valid;
    FrameRoundTrip(body);
    FrameIsText(body);
    ScanLine(Frame(body), rest);
    ScanStep(Written(Frame(body)) + rest, 1);
  }
}
