/** Every spelling of a value is read as that value, with exactly its length, unless it nests too deep. */
module JsonReads {
  import opened Bytes
  import opened JsonText
  import opened JsonGrammar
  import BuildOutput
  import JournalFormat
  import Utf8

  // ---------------------------------------------------------------- strings

  lemma TwoDigits(n: nat, a: nat, b: nat)
    requires b < 64
    ensures n == 64 * a + b <==> n / 64 == a && n % 64 == b
  {
  }

  lemma EncodedIsWellFormed(cp: nat)
    requires cp < 0x110000 && !(0xD800 <= cp < 0xE000)
    ensures Utf8.WellFormed(EncodeUtf8(cp)) && Utf8.CodePoint(EncodeUtf8(cp)) == cp
  {
    TwoDigits(cp, cp / 64, cp % 64);
    TwoDigits(cp / 64, cp / 4096, cp / 64 % 64);
    TwoDigits(cp / 4096, cp / 262144, cp / 4096 % 64);
  }

  lemma FourAreEncoded(c: Text)
    requires Utf8.WellFormed(c) && |c| == 4
    ensures var cp := Utf8.CodePoint(c); 0x10000 <= cp < 0x110000 && c == EncodeUtf8(cp)
  {
    var cp := Utf8.CodePoint(c);
    var top := 64 * Utf8.Payload(c[0], 0xF0) + Utf8.Payload(c[1], 0x80);
    var high := 64 * top + Utf8.Payload(c[2], 0x80);
    TwoDigits(top, Utf8.Payload(c[0], 0xF0), Utf8.Payload(c[1], 0x80));
    TwoDigits(high, top, Utf8.Payload(c[2], 0x80));
    TwoDigits(cp, high, Utf8.Payload(c[3], 0x80));
    assert cp / 4096 == high / 64 && cp / 262144 == top / 64;
    assert c == [c[0], c[1], c[2], c[3]];
  }

  lemma WellFormedIsEncoded(c: Text)
    requires Utf8.WellFormed(c)
    ensures var cp := Utf8.CodePoint(c);
            cp < 0x110000 && !(0xD800 <= cp < 0xE000) && c == EncodeUtf8(cp)
  {
    var cp := Utf8.CodePoint(c);
    if |c| == 1 {
      assert c == [c[0]];
    } else if |c| == 2 {
      TwoDigits(cp, Utf8.Payload(c[0], 0xC0), Utf8.Payload(c[1], 0x80));
      assert c == [c[0], c[1]];
    } else if |c| == 3 {
      var high := 64 * Utf8.Payload(c[0], 0xE0) + Utf8.Payload(c[1], 0x80);
      TwoDigits(high, Utf8.Payload(c[0], 0xE0), Utf8.Payload(c[1], 0x80));
      TwoDigits(cp, high, Utf8.Payload(c[2], 0x80));
      assert cp / 4096 == high / 64;
      assert c == [c[0], c[1], c[2]];
    } else {
      FourAreEncoded(c);
    }
  }

  /** What is encoded is the one well-formed sequence of that scalar value. */
  lemma EncodedIff(c: Text, cp: nat)
    ensures cp < 0x110000 && !(0xD800 <= cp < 0xE000) && c == EncodeUtf8(cp) <==>
            Utf8.WellFormed(c) && Utf8.CodePoint(c) == cp
  {
    hide EncodeUtf8, Utf8.CodePoint, Utf8.WellFormed;
    if cp < 0x110000 && !(0xD800 <= cp < 0xE000) && c == EncodeUtf8(cp) {
      EncodedIsWellFormed(cp);
    }
    if Utf8.WellFormed(c) && Utf8.CodePoint(c) == cp {
      WellFormedIsEncoded(c);
    }
  }

  lemma Hex4Iff(s: Text, v: nat)
    ensures Hex4(s) == Ok(v) <==> |s| >= 4 && Writes4(s[..4], v)
  {
    if |s| >= 4 {
      assert JournalFormat.Pow16(3) == 0x1000 && JournalFormat.Pow16(4) == 0x1_0000;
      assert s[1..4] == s[..4][1..];
      JournalFormat.HexNumberIff(s[1..4], v);
      JournalFormat.HexNumberIff(s[..4], v);
      hide JournalFormat.HexNumber, JournalFormat.Pow16, JournalFormat.Hex, JournalFormat.LowerAll;
    }
  }

  lemma UnicodeOne(s: Text, cp: nat)
    requires |s| >= 4 && Hex4(s) == Ok(cp) && cp < 0x1_0000 && !(0xD800 <= cp < 0xE000)
    ensures UnicodeEscape(s) == Ok((EncodeUtf8(cp), 4))
  {
    hide Hex4, EncodeUtf8;
  }

  lemma UnicodePair(s: Text, high: nat, low: nat)
    requires |s| >= 10 && Hex4(s) == Ok(high) && 0xD800 <= high < 0xDC00
    requires s[4] == BACKSLASH && s[5] == 117 && Hex4(s[6..]) == Ok(low) && 0xDC00 <= low < 0xE000
    ensures UnicodeEscape(s) == Ok((EncodeUtf8(0x10000 + (high - 0xD800) * 0x400 + (low - 0xDC00)), 10))
  {
    hide Hex4, EncodeUtf8;
  }

  lemma HexReads(d: Text, v: nat, t: Text)
    requires Writes4(d, v)
    ensures |d| == 4 && v < 0x1_0000 && Hex4(d + t) == Ok(v)
  {
    DigitsAreFour(d, v);
    CodeIsBelow(d, v);
    hide Hex4, Writes4;
    Split(d, t);
    Hex4Iff(d + t, v);
  }

  lemma PairReads(first: Text, high: nat, second: Text, low: nat, t: Text)
    requires Writes4(first, high) && 0xD800 <= high < 0xDC00 && Writes4(second, low) && 0xDC00 <= low < 0xE000
    ensures |first| == |second| == 4
    ensures UnicodeEscape(first + ([BACKSLASH, 117] + (second + t)))
         == Ok((EncodeUtf8(0x10000 + (high - 0xD800) * 0x400 + (low - 0xDC00)), 10))
  {
    hide *;
    var rest := [BACKSLASH, 117] + (second + t);
    HexReads(first, high, rest);
    HexReads(second, low, t);
    var s := first + rest;
    assert s[4] == BACKSLASH && s[5] == 117;
    assert s[6..] == second + t;
    UnicodePair(s, high, low);
  }

  /** What follows the backslash of a part. */
  lemma PartIs(p: Part)
    requires GoodPart(p) && !p.Raw?
    ensures |PartText(p)| >= 2 && PartText(p)[0] == BACKSLASH
    ensures p.Short? ==> PartText(p)[1..] == [p.letter]
    ensures p.Code? ==>
              && PartText(p)[1..] == [117] + p.digits && Writes4(p.digits, p.cp) && !(0xD800 <= p.cp < 0xE000)
              && p.cp < 0x11_0000 && PartMeans(p) == EncodeUtf8(p.cp)
    ensures p.Pair? ==>
              && PartText(p)[1..] == [117] + (p.first + ([BACKSLASH, 117] + p.second))
              && Writes4(p.first, p.high) && 0xD800 <= p.high < 0xDC00
              && Writes4(p.second, p.low) && 0xDC00 <= p.low < 0xE000
              && PartMeans(p) == EncodeUtf8(0x10000 + (p.high - 0xD800) * 0x400 + (p.low - 0xDC00))
  {
    if p.Code? { CodeIsBelow(p.digits, p.cp); }
    hide Writes4, EncodeUtf8;
  }

  lemma ShortReads(p: Part, t: Text)
    requires p.Short? && GoodPart(p)
    ensures EscapeSequence([p.letter] + t) == Ok((PartMeans(p), 1))
  {
    hide UnicodeEscape;
  }

  /** An escape is read as what it stands for, whatever stands behind it. */
  lemma EscapeReads(p: Part, t: Text)
    requires GoodPart(p) && !p.Raw?
    ensures |PartText(p)| >= 2 && PartText(p)[0] == BACKSLASH
    ensures EscapeSequence(PartText(p)[1..] + t) == Ok((PartMeans(p), |PartText(p)| - 1))
  {
    hide *;
    PartIs(p);
    match p
    case Short(letter) => ShortReads(p, t);
    case Code(digits, cp) =>
      HexReads(digits, cp, t);
      UnicodeOne(digits + t, cp);
      EscapeUnicode(digits + t);
      Assoc([117], digits, t);
    case Pair(first, high, second, low) =>
      PairReads(first, high, second, low, t);
      EscapeUnicode(first + ([BACKSLASH, 117] + (second + t)));
      Assoc([BACKSLASH, 117], second, t);
      Assoc(first, [BACKSLASH, 117] + second, t);
      Assoc([117], first + ([BACKSLASH, 117] + second), t);
  }

  lemma EscapeUnicode(s: Text)
    ensures var r := UnicodeEscape(s);
            EscapeSequence([117] + s) == if r.Err? then Err else Ok((r.value.0, 1 + r.value.1))
  {
    hide UnicodeEscape;
    assert ([117] + s)[1..] == s;
  }

  lemma CodeIsBelow(d: Text, v: nat)
    requires Writes4(d, v)
    ensures v < 0x1_0000
  {
  }

  lemma DigitsAreFour(d: Text, v: nat)
    requires Writes4(d, v)
    ensures |d| == 4
  {
  }

  lemma PartReads(p: Part, t: Text)
    requires GoodPart(p)
    ensures StringBody(PartText(p) + t) == After(PartMeans(p), |PartText(p)|, StringBody(t))
  {
    var s := PartText(p) + t;
    if p.Raw? {
      hide EscapeSequence;
      Split([p.b], t);
    } else {
      EscapeReads(p, t);
      hide EscapeSequence, PartMeans, PartText, GoodPart;
      var n := |PartText(p)| - 1;
      assert s[1..] == PartText(p)[1..] + t;
      assert s[1..][n..] == t;
      assert s[1 + n..] == t;
    }
  }

  lemma PartsStep(parts: seq<Part>)
    requires GoodParts(parts) && parts != []
    ensures GoodPart(parts[0]) && GoodParts(parts[1..])
    ensures PartsText(parts) == PartText(parts[0]) + PartsText(parts[1..])
    ensures PartsMean(parts) == PartMeans(parts[0]) + PartsMean(parts[1..])
  {
    hide GoodPart, PartText, PartMeans;
  }

  lemma NoParts(parts: seq<Part>, post: Text)
    requires parts == []
    ensures StringBody(PartsText(parts) + ([QUOTE] + post)) == Ok((PartsMean(parts), |PartsText(parts)| + 1))
  {
    Unit([QUOTE] + post);
  }

  lemma AfterOk(a: Text, n: nat, b: Text, m: nat)
    ensures After(a, n, Ok((b, m))) == Ok((a + b, n + m))
  {
  }

  lemma {:induction false} PartsRead(parts: seq<Part>, post: Text)
    requires GoodParts(parts)
    ensures StringBody(PartsText(parts) + ([QUOTE] + post)) == Ok((PartsMean(parts), |PartsText(parts)| + 1))
    decreases |parts|
  {
    hide *;
    if parts == [] {
      NoParts(parts, post);
    } else {
      PartsStep(parts);
      PartsRead(parts[1..], post);
      PartReads(parts[0], PartsText(parts[1..]) + ([QUOTE] + post));
      AfterOk(PartMeans(parts[0]), |PartText(parts[0])|, PartsMean(parts[1..]), |PartsText(parts[1..])| + 1);
      Assoc(PartText(parts[0]), PartsText(parts[1..]), [QUOTE] + post);
    }
  }

  lemma QuotedReads(parts: seq<Part>, post: Text)
    requires GoodText(parts)
    ensures StringValue(QuotedText(parts) + post) == Ok((PartsMean(parts), |QuotedText(parts)|))
  {
    hide StringBody, PartsText, PartsMean, BuildOutput.FromUtf8, Utf8.Valid, GoodParts;
    PartsRead(parts, post);
    BuildOutput.FineIsValid(PartsMean(parts));
    var s := QuotedText(parts) + post;
    assert s[1..] == PartsText(parts) + ([QUOTE] + post);
  }

  lemma UnicodeIsPart(s: Text) returns (p: Part)
    requires UnicodeEscape(s).Ok?
    ensures var (c, n) := UnicodeEscape(s).value;
            GoodPart(p) && PartText(p) == [BACKSLASH, 117] + s[..n] && PartMeans(p) == c
  {
    hide Hex4, Writes4, EncodeUtf8;
    var hi := Hex4(s).value;
    Hex4Iff(s, hi);
    if 0xD800 <= hi < 0xDC00 {
      var lo := Hex4(s[6..]).value;
      Hex4Iff(s[6..], lo);
      assert s[6..][..4] == s[6..10];
      p := Pair(s[..4], hi, s[6..10], lo);
      assert s[..10] == s[..4] + ([BACKSLASH, 117] + s[6..10]);
    } else {
      p := Code(s[..4], hi);
      CodeIsBelow(s[..4], hi);
    }
  }

  /** What an accepted escape was. */
  lemma EscapeIsPart(s: Text) returns (p: Part)
    requires EscapeSequence(s).Ok?
    ensures var (c, n) := EscapeSequence(s).value;
            GoodPart(p) && PartText(p) == [BACKSLASH] + s[..n] && PartMeans(p) == c
  {
    hide UnicodeEscape, GoodPart, PartMeans;
    if s[0] != 117 {
      p := ShortIsPart(s);
    } else {
      p := UnicodeIsPart(s[1..]);
      hide PartText;
      var n := UnicodeEscape(s[1..]).value.1;
      assert [BACKSLASH, 117] + s[1..][..n] == [BACKSLASH] + s[..1 + n];
    }
  }

  lemma ShortIsPart(s: Text) returns (p: Part)
    requires s != [] && s[0] != 117 && EscapeSequence(s).Ok?
    ensures var (c, n) := EscapeSequence(s).value;
            GoodPart(p) && PartText(p) == [BACKSLASH] + s[..n] && PartMeans(p) == c
  {
    p := Short(s[0]);
  }

  /** What an accepted string was, up to and with its closing quote. */
  lemma FirstPart(s: Text) returns (p: Part)
    requires StringBody(s).Ok? && s[0] != QUOTE
    ensures var k := |PartText(p)|;
            && GoodPart(p) && 1 <= k <= |s| && PartText(p) == s[..k] && StringBody(s[k..]).Ok?
            && StringBody(s).value == (PartMeans(p) + StringBody(s[k..]).value.0, k + StringBody(s[k..]).value.1)
  {
    if s[0] == BACKSLASH {
      BodyEscape(s);
      hide *;
      p := EscapeIsPart(s[1..]);
      Cut(s, 1, EscapeSequence(s[1..]).value.1);
      assert s[..1] == [BACKSLASH];
    } else {
      p := Raw(s[0]);
    }
  }

  lemma BodyEscape(s: Text)
    requires StringBody(s).Ok? && s[0] == BACKSLASH
    ensures EscapeSequence(s[1..]).Ok?
    ensures var (c, n) := EscapeSequence(s[1..]).value;
            && 1 + n <= |s| && StringBody(s[1 + n..]).Ok?
            && StringBody(s).value == (c + StringBody(s[1 + n..]).value.0, 1 + n + StringBody(s[1 + n..]).value.1)
  {
    hide EscapeSequence;
  }

  lemma PartsWith(p: Part, more: seq<Part>)
    requires GoodPart(p) && GoodParts(more)
    ensures GoodParts([p] + more) && PartsText([p] + more) == PartText(p) + PartsText(more)
    ensures PartsMean([p] + more) == PartMeans(p) + PartsMean(more)
  {
    hide GoodPart, PartMeans, PartText;
    assert ([p] + more)[1..] == more;
  }

  lemma {:induction false} BodyIsParts(s: Text) returns (parts: seq<Part>)
    requires StringBody(s).Ok?
    ensures var (o, n) := StringBody(s).value;
            GoodParts(parts) && s[..n] == PartsText(parts) + [QUOTE] && PartsMean(parts) == o
    decreases |s|
  {
    if s[0] == QUOTE {
      parts := [];
    } else {
      hide *;
      var p := FirstPart(s);
      var k := |PartText(p)|;
      var more := BodyIsParts(s[k..]);
      parts := [p] + more;
      PartsWith(p, more);
      var n := StringBody(s[k..]).value.1;
      Cut(s, k, n);
      Assoc(s[..k], PartsText(more), [QUOTE]);
    }
  }

  lemma StringIsQuoted(s: Text) returns (parts: seq<Part>)
    requires StringValue(s).Ok?
    ensures var (o, n) := StringValue(s).value;
            GoodText(parts) && s[..n] == QuotedText(parts) && PartsMean(parts) == o
  {
    hide StringBody, BuildOutput.FromUtf8, Utf8.Valid, PartsText, PartsMean, GoodParts;
    parts := BodyIsParts(s[1..]);
    var (o, n) := StringBody(s[1..]).value;
    BuildOutput.FineIsValid(o);
    assert s[..1 + n] == [QUOTE] + s[1..][..n];
  }

  // ---------------------------------------------------------------- numbers

  lemma {:induction false} DigitsOf(d: Text, post: Text)
    requires AllDigits(d) && (post == [] || !Digit(post[0]))
    ensures Digits(d + post) == |d|
    decreases |d|
  {
    if d == [] {
      Unit(post);
    } else {
      DigitsOf(d[1..], post);
      assert (d + post)[1..] == d[1..] + post;
    }
  }

  /** A number moved by some places. */
  function Moved(n: nat, places: nat): real {
    n as real * Pow10(places)
  }

  lemma MovedOne(n: nat, places: nat)
    ensures Moved(n, places + 1) == 10.0 * Moved(n, places) && Moved(n, 0) == n as real
  {
    assert Pow10(places + 1) == 10.0 * Pow10(places);
    TenTimes(n as real, Pow10(places));
  }

  lemma {:induction false} DigitsJoined(a: Text, b: Text)
    requires AllDigits(a) && AllDigits(b)
    ensures AllDigits(a + b)
    ensures DigitsValue(a + b) as real == Moved(DigitsValue(a), |b|) + DigitsValue(b) as real
    decreases |b|
  {
    assert AllDigits(a + b);
    if b == [] {
      Unit(a);
      MovedOne(DigitsValue(a), 0);
    } else {
      var front := b[..|b| - 1];
      DigitsStep(a + b);
      DigitsStep(b);
      assert (a + b)[..|a + b| - 1] == a + front;
      hide DigitsValue, Moved, Digit;
      DigitsJoined(a, front);
      MovedOne(DigitsValue(a), |front|);
    }
  }

  lemma DigitsStep(s: Text)
    requires s != [] && AllDigits(s)
    ensures DigitsValue(s) == 10 * DigitsValue(s[..|s| - 1]) + (s[|s| - 1] as int - 48)
  {
  }

  lemma TenTimes(x: real, p: real)
    ensures x * (10.0 * p) == 10.0 * (x * p)
  {
  }

  lemma {:induction false} Pow10Add(m: nat, n: nat)
    ensures Pow10(m + n) == Pow10(m) * Pow10(n)
  {
    if m > 0 {
      Pow10Add(m - 1, n);
    }
  }

  lemma Cancels(p: real, q: real, r: real)
    requires q > 0.0 && r > 0.0 && p == q * r
    ensures p > 0.0 && 1.0 / r * p == q && 1.0 / p * r == 1.0 / q
  {
    assert 1.0 / r * (r * q) == (1.0 / r * r) * q;
    assert (1.0 / p * r) * q == 1.0 / p * (q * r);
  }

  lemma ScaleIs(e: int)
    ensures e >= 0 ==> Scale(e) == Pow10(e)
    ensures e < 0 ==> Scale(e) == 1.0 / Pow10(-e)
  {
    hide Pow10;
  }

  lemma ScaleMoves(e: int, k: nat)
    ensures Scale(e - k) * Pow10(k) == Scale(e)
  {
    hide *;
    ScaleIs(e);
    ScaleIs(e - k);
    if e - k >= 0 {
      Pow10Add(e - k, k);
    } else if e >= 0 {
      Pow10Add(e, k - e);
      Cancels(Pow10(k), Pow10(e), Pow10(k - e));
    } else {
      Pow10Add(-e, k);
      Cancels(Pow10(k - e), Pow10(-e), Pow10(k));
    }
  }

  lemma Distributes(w: real, f: real, p: real, a: real, b: real)
    requires p > 0.0 && a * p == b
    ensures (w + f / p) * b == (w * p + f) * a
  {
    assert (w + f / p) * p == w * p + f;
    assert (w + f / p) * (p * a) == ((w + f / p) * p) * a;
  }

  /** Digits behind a point. */
  function Behind(f: Text): real
    requires AllDigits(f)
  {
    DigitsValue(f) as real / Pow10(|f|)
  }

  /** The parser's sum and the numeral's meaning are one number. */
  lemma MagnitudeIs(whole: Text, fraction: Text, power: Power)
    requires GoodNumeral(whole, fraction, power)
    ensures Magnitude(DigitsValue(whole), Behind(fraction), Scale(PowerOf(power)))
         == NumeralMeans(whole, fraction, power)
  {
    hide DigitsValue, Pow10, Scale, PowerOf;
    DigitsJoined(whole, fraction);
    ScaleMoves(PowerOf(power), |fraction|);
    Distributes(DigitsValue(whole) as real, DigitsValue(fraction) as real, Pow10(|fraction|),
                Scale(PowerOf(power) - |fraction|), Scale(PowerOf(power)));
  }

  lemma FractionReads(f: Text, post: Text)
    requires AllDigits(f) && (post == [] || (!Digit(post[0]) && post[0] != 46))
    ensures Fraction(FractionText(f) + post) == Ok((Behind(f), |FractionText(f)|))
  {
    if f == [] {
      Unit(post);
      assert Pow10(0) == 1.0;
    } else {
      DigitsOf(f, post);
      hide Digits, DigitsValue, Pow10;
      assert FractionText(f) + post == [46] + (f + post);
      assert ([46] + (f + post))[1..] == f + post;
      Split(f, post);
    }
  }

  lemma ExponentOf(s: Text, k: nat)
    requires s != [] && s[0] in {69, 101} && 1 <= k <= 2 && k < |s|
    requires k == 2 <==> s[1] == 43 || s[1] == 45
    requires Digits(s[k..]) > 0
    ensures var d := Digits(s[k..]);
            var p := Pow10(DigitsValue(s[k..][..d]));
            Exponent(s) == Ok((if s[1] == 45 then 1.0 / p else p, k + d))
  {
    hide Digits, DigitsValue, Pow10;
  }

  /** How a power lies in what is read. */
  lemma PowerLies(p: Power, post: Text)
    requires p.Power? && GoodPower(p)
    ensures var s, k := PowerText(p) + post, 1 + |p.sign|;
            && s[0] == p.mark && s[k..] == p.digits + post && k < |s| && 1 <= k <= 2
            && (k == 2 <==> s[1] == 43 || s[1] == 45) && (s[1] == 45 <==> p.sign == [45])
            && |PowerText(p)| == k + |p.digits| && (p.digits + post)[..|p.digits|] == p.digits
  {
    var s := PowerText(p) + post;
    Assoc([p.mark], p.sign + p.digits, post);
    Assoc(p.sign, p.digits, post);
    Split([p.mark] + p.sign, p.digits + post);
    Assoc([p.mark], p.sign, p.digits + post);
    assert p.sign == [] ==> s[1] == p.digits[0] && Digit(p.digits[0]);
    assert p.sign != [] ==> s[1] == p.sign[0];
  }

  lemma PowerIs(p: Power)
    requires p.Power? && GoodPower(p)
    ensures p.mark in {69, 101} && p.digits != [] && AllDigits(p.digits)
    ensures forall i :: 0 <= i < |p.digits| ==> Digit(p.digits[i])
    ensures Scale(PowerOf(p)) == if p.sign == [45] then 1.0 / Pow10(DigitsValue(p.digits))
                                 else Pow10(DigitsValue(p.digits))
  {
    hide DigitsValue, Digit;
    PowerZero(DigitsValue(p.digits));
    hide Pow10;
  }

  lemma EndsNoDigit(post: Text)
    requires Ends(post)
    ensures post == [] || !Digit(post[0])
    ensures Exponent(post) == Ok((Scale(PowerOf(NoPower)), 0)) && PowerText(NoPower) == []
  {
    assert Pow10(0) == 1.0;
  }

  lemma ExponentReads(p: Power, post: Text)
    requires GoodPower(p) && Ends(post)
    ensures Exponent(PowerText(p) + post) == Ok((Scale(PowerOf(p)), |PowerText(p)|))
  {
    hide *;
    EndsNoDigit(post);
    if p.NoPower? {
      Unit(post);
    } else {
      PowerIs(p);
      PowerLies(p, post);
      DigitsOf(p.digits, post);
      ExponentOf(PowerText(p) + post, 1 + |p.sign|);
    }
  }

  lemma PowerZero(n: nat)
    ensures Scale(n) == Pow10(n) && Scale(0 - n) == 1.0 / Pow10(n)
  {
    assert Pow10(0) == 1.0;
  }

  lemma UnsignedOf(s: Text, f: real, a: nat, e: real, b: nat)
    requires Digits(s) > 0 && Fraction(s[Digits(s)..]) == Ok((f, a))
    requires a <= |s| - Digits(s) && Exponent(s[Digits(s) + a..]) == Ok((e, b))
    ensures var x := Magnitude(DigitsValue(s[..Digits(s)]), f, e);
            Unsigned(s) == if x >= FiniteLimit() then Err else Ok((x, Digits(s) + a + b))
  {
    hide Digits, DigitsValue, FiniteLimit, Fraction, Exponent, Magnitude;
  }

  lemma ThreeParts(a: Text, b: Text, c: Text, post: Text)
    ensures var s := a + (b + (c + post));
            && s == a + (b + c) + post && s[..|a|] == a && s[|a|..] == b + (c + post)
            && s[|a| + |b|..] == c + post && |s| == |a| + |b| + |c| + |post|
  {
    Assoc(b, c, post);
    Assoc(a, b + c, post);
    Split(a, b + (c + post));
    Split(b, c + post);
    DropDrop(a + (b + (c + post)), |a|, |b|);
  }

  lemma UnsignedReads(whole: Text, fraction: Text, power: Power, post: Text)
    requires GoodNumeral(whole, fraction, power) && Ends(post)
    requires NumeralMeans(whole, fraction, power) < FiniteLimit()
    ensures var t := whole + (FractionText(fraction) + PowerText(power));
            Unsigned(t + post) == Ok((NumeralMeans(whole, fraction, power), |t|))
  {
    hide *;
    var f, e := FractionText(fraction), PowerText(power);
    var s := whole + (f + (e + post));
    IsGood(whole, fraction, power);
    TextsStart(fraction, power, post);
    FractionReads(fraction, e + post);
    ExponentReads(power, post);
    DigitsOf(whole, f + (e + post));
    MagnitudeIs(whole, fraction, power);
    ThreeParts(whole, f, e, post);
    UnsignedOf(s, Behind(fraction), |f|, Scale(PowerOf(power)), |e|);
  }

  lemma IsGood(whole: Text, fraction: Text, power: Power)
    requires GoodNumeral(whole, fraction, power)
    ensures whole != [] && AllDigits(whole) && AllDigits(fraction) && GoodPower(power)
    ensures forall i :: 0 <= i < |fraction| ==> Digit(fraction[i])
    ensures forall i :: 0 <= i < |whole| ==> Digit(whole[i])
  {
  }

  /** No part of a numeral begins as the one before it goes on. */
  lemma TextsStart(fraction: Text, power: Power, post: Text)
    requires GoodPower(power) && Ends(post)
    ensures var e := PowerText(power) + post;
            && (e == [] || (!Digit(e[0]) && e[0] != 46))
            && (FractionText(fraction) + e == [] || !Digit((FractionText(fraction) + e)[0]))
  {
    if power.NoPower? { Unit(post); }
    if fraction == [] { Unit(PowerText(power) + post); }
  }

  lemma NumeralReads(negative: bool, whole: Text, fraction: Text, power: Power, post: Text)
    requires GoodNumeral(whole, fraction, power) && Ends(post)
    requires NumeralMeans(whole, fraction, power) < FiniteLimit()
    ensures var x := NumeralMeans(whole, fraction, power);
            var t := NumeralText(negative, whole, fraction, power);
            t != [] && Number(t + post) == Ok((if negative then -x else x, |t|)) && (t[0] == MINUS || Digit(t[0]))
  {
    var u := whole + (FractionText(fraction) + PowerText(power));
    hide *;
    IsGood(whole, fraction, power);
    UnsignedReads(whole, fraction, power, post);
    assert u[0] == whole[0];
    DigitIsNoSign(whole[0]);
    NumeralStarts(negative, u, post);
    if negative {
      NegativeIs(whole, fraction, power);
    } else {
      PositiveIs(whole, fraction, power);
    }
  }

  lemma DigitIsNoSign(b: Byte)
    requires Digit(b)
    ensures b != MINUS
  {
  }

  lemma NegativeIs(whole: Text, fraction: Text, power: Power)
    ensures NumeralText(true, whole, fraction, power)
         == [MINUS] + (whole + (FractionText(fraction) + PowerText(power)))
  {
  }

  lemma PositiveIs(whole: Text, fraction: Text, power: Power)
    ensures NumeralText(false, whole, fraction, power) == whole + (FractionText(fraction) + PowerText(power))
  {
    Unit(whole + (FractionText(fraction) + PowerText(power)));
  }

  lemma NumeralStarts(negative: bool, u: Text, post: Text)
    requires u != [] && u[0] != MINUS
    ensures var r := Unsigned(u + post);
            && (negative ==> Number([MINUS] + u + post)
                             == if r.Err? then Err else Ok((-r.value.0, 1 + r.value.1)))
            && (!negative ==> Number(u + post) == r)
  {
    hide Unsigned;
    Assoc([MINUS], u, post);
    Split([MINUS], u + post);
  }

  /** What an accepted fraction was. */
  lemma FractionIs(s: Text) returns (f: Text)
    requires Fraction(s).Ok?
    ensures var (x, n) := Fraction(s).value;
            AllDigits(f) && s[..n] == FractionText(f) && x == Behind(f)
  {
    if s == [] || s[0] != 46 {
      f := [];
      assert Pow10(0) == 1.0;
    } else {
      f := s[1..][..Digits(s[1..])];
      assert s[..1 + |f|] == [46] + f;
    }
  }

  lemma ExponentIs(s: Text) returns (p: Power)
    requires Exponent(s).Ok?
    ensures var (x, n) := Exponent(s).value;
            GoodPower(p) && s[..n] == PowerText(p) && x == Scale(PowerOf(p))
  {
    if s == [] || (s[0] != 101 && s[0] != 69) {
      p := NoPower;
      assert Pow10(0) == 1.0;
    } else {
      var k := if |s| > 1 && (s[1] == 43 || s[1] == 45) then 2 else 1;
      var d := s[k..][..Digits(s[k..])];
      p := Power(s[0], s[1..k], d);
      assert k == 2 ==> s[1..k] == [s[1]];
      assert s[..k + |d|] == [s[0]] + (s[1..k] + d);
      hide Digits, DigitsValue;
      PowerZero(DigitsValue(d));
    }
  }

  lemma UnsignedParts(s: Text)
    requires Unsigned(s).Ok?
    ensures var d := Digits(s);
            && d > 0 && AllDigits(s[..d]) && Fraction(s[d..]).Ok?
            && var a := Fraction(s[d..]).value.1;
               a <= |s| - d && Exponent(s[d + a..]).Ok? && Exponent(s[d + a..]).value.1 <= |s| - d - a
  {
    hide DigitsValue, FiniteLimit, Fraction, Exponent, Magnitude;
  }

  lemma UnsignedIs(s: Text) returns (whole: Text, fraction: Text, power: Power)
    requires Unsigned(s).Ok?
    ensures var (x, n) := Unsigned(s).value;
            && GoodNumeral(whole, fraction, power) && x == NumeralMeans(whole, fraction, power) < FiniteLimit()
            && s[..n] == whole + (FractionText(fraction) + PowerText(power))
  {
    hide *;
    UnsignedParts(s);
    var d := Digits(s);
    whole := s[..d];
    var (f, a) := Fraction(s[d..]).value;
    var (e, b) := Exponent(s[d + a..]).value;
    fraction := FractionIs(s[d..]);
    power := ExponentIs(s[d + a..]);
    NumeralIsGood(whole, fraction, power);
    IsGood(whole, fraction, power);
    UnsignedOf(s, f, a, e, b);
    MagnitudeIs(whole, fraction, power);
    Cut(s, d, a);
    Cut(s, d + a, b);
    Assoc(s[..d], s[d..][..a], s[d + a..][..b]);
  }

  lemma NumeralIsGood(whole: Text, fraction: Text, power: Power)
    requires whole != [] && AllDigits(whole) && AllDigits(fraction) && GoodPower(power)
    ensures GoodNumeral(whole, fraction, power)
  {
  }

  lemma NumberIsNumeral(s: Text) returns (negative: bool, whole: Text, fraction: Text, power: Power)
    requires Number(s).Ok?
    ensures var (x, n) := Number(s).value;
            && GoodNumeral(whole, fraction, power) && NumeralMeans(whole, fraction, power) < FiniteLimit()
            && x == (if negative then -NumeralMeans(whole, fraction, power) else NumeralMeans(whole, fraction, power))
            && s[..n] == NumeralText(negative, whole, fraction, power)
  {
    hide Unsigned, NumeralMeans, FiniteLimit, FractionText, PowerText, GoodNumeral;
    negative := s != [] && s[0] == MINUS;
    if negative {
      whole, fraction, power := UnsignedIs(s[1..]);
      Cut(s, 1, Unsigned(s[1..]).value.1);
      assert s[..1] == [MINUS];
    } else {
      whole, fraction, power := UnsignedIs(s);
      Unit(s[..Unsigned(s).value.1]);
    }
  }

  // ---------------------------------------------------------------- blanks

  lemma {:induction false} BlanksAre(b: Text, post: Text)
    requires Blank(b) && (post == [] || post[0] !in {32, 9, 10, 13})
    ensures Blanks(b + post) == |b|
    decreases |b|
  {
    if b == [] {
      Unit(post);
    } else {
      BlanksAre(b[1..], post);
      assert (b + post)[1..] == b[1..] + post;
    }
  }

  lemma {:induction false} BlanksAreBlank(s: Text)
    ensures Blank(s[..Blanks(s)]) && (Skip(s) == [] || Skip(s)[0] !in {32, 9, 10, 13})
  {
    if s != [] && s[0] in {32, 9, 10, 13} {
      BlanksAreBlank(s[1..]);
      assert s[..Blanks(s)] == [s[0]] + s[1..][..Blanks(s[1..])];
      assert Skip(s) == Skip(s[1..]);
    }
  }

  lemma SkipOnce(s: Text)
    ensures Blanks(Skip(s)) == 0 && Skip(s)[0..] == Skip(s)
  {
    BlanksAreBlank(s);
  }

  // ---------------------------------------------------------------- the loops

  lemma ItemStep(s: Text, depth: nat)
    ensures var a := Blanks(s);
            var r := Value(s[a..], depth + 1);
            OneItem(s, depth) == if r.Err? then Err
                                 else Ok((r.value.0, a + r.value.1 + Blanks(s[a + r.value.1..])))
  {
    hide Value, Blanks;
  }

  /** Blanks before an item belong to it. */
  lemma ItemAfterBlanks(s: Text, depth: nat)
    ensures var r := OneItem(Skip(s), depth);
            OneItem(s, depth) == if r.Err? then Err else Ok((r.value.0, Blanks(s) + r.value.1))
  {
    SkipOnce(s);
    ItemStep(s, depth);
    ItemStep(Skip(s), depth);
    hide Value, OneItem;
    var r := Value(Skip(s), depth + 1);
    if r.Ok? {
      DropDrop(s, Blanks(s), r.value.1);
    }
  }

  lemma ItemsStep(s: Text, depth: nat)
    ensures var r := OneItem(s, depth);
            Items(s, depth)
            == if r.Err? || r.value.1 == |s| then Err
               else if s[r.value.1] == COMMA
               then AddItem(r.value.0, r.value.1 + 1, Items(s[r.value.1 + 1..], depth))
               else if s[r.value.1] == CLOSE_BRACKET then Ok(([r.value.0], r.value.1 + 1)) else Err
  {
    hide OneItem;
  }

  lemma ItemsAfterBlanks(s: Text, depth: nat)
    ensures var r := Items(Skip(s), depth);
            Items(s, depth) == if r.Err? then Err else Ok((r.value.0, Blanks(s) + r.value.1))
  {
    ItemAfterBlanks(s, depth);
    ItemsStep(s, depth);
    ItemsStep(Skip(s), depth);
    hide OneItem, Items, Blanks;
    var r := OneItem(Skip(s), depth);
    if r.Ok? && r.value.1 < |Skip(s)| {
      DropDrop(s, Blanks(s), r.value.1 + 1);
    }
  }

  /** What is inside decides what the whole is. */
  lemma ArrayOpens(t: Text, depth: nat)
    ensures Value([OPEN_BRACKET] + t, depth)
         == if depth > MAX_DEPTH then Err
            else if Skip(t) != [] && Skip(t)[0] == CLOSE_BRACKET then Ok((Arr([]), 2 + Blanks(t)))
            else match Items(t, depth) case Err => Err case Ok((v, n)) => Ok((Arr(v), 1 + n))
  {
    ItemsAfterBlanks(t, depth);
    hide Items, Members, StringValue, Number, Blanks;
    Split([OPEN_BRACKET], t);
    var s := [OPEN_BRACKET] + t;
    assert s[1..] == t && s[1 + Blanks(t)..] == Skip(t);
  }

  lemma MemberStep(s: Text, depth: nat)
    ensures var a := Blanks(s);
            var r := StringValue(s[a..]);
            OneMember(s, depth)
            == if r.Err? then Err
               else
                 var c := a + r.value.1 + Blanks(s[a + r.value.1..]);
                 if c == |s| || s[c] != COLON then Err
                 else
                   var v := OneItem(s[c + 1..], depth);
                   if v.Err? then Err else Ok((Member(r.value.0, v.value.0), c + 1 + v.value.1))
  {
    hide OneItem, StringValue, Blanks;
  }

  lemma MemberOf(s: Text, depth: nat, a: nat, key: Text, n: nat, b: nat)
    requires Blanks(s) == a && StringValue(s[a..]) == Ok((key, n)) && a + n <= |s| && Blanks(s[a + n..]) == b
    requires a + n + b < |s| && s[a + n + b] == COLON
    ensures var v := OneItem(s[a + n + b + 1..], depth);
            (OneMember(s, depth)
             == if v.Err? then Err else Ok((Member(key, v.value.0), a + n + b + 1 + v.value.1)))
  {
    MemberStep(s, depth);
    hide *;
  }

  lemma SkipIs(s: Text)
    ensures Skip(s) == s[Blanks(s)..]
  {
  }

  lemma NoMember(s: Text, depth: nat, a: nat, n: nat, b: nat)
    requires Blanks(s) == a
    requires StringValue(s[a..]).Ok? ==>
               && StringValue(s[a..]).value.1 == n && a + n <= |s| && Blanks(s[a + n..]) == b
               && (a + n + b == |s| || s[a + n + b] != COLON)
    ensures OneMember(s, depth) == Err
  {
    MemberStep(s, depth);
    hide *;
  }

  lemma MemberAfterBlanks(s: Text, depth: nat)
    ensures var r := OneMember(Skip(s), depth);
            OneMember(s, depth) == if r.Err? then Err else Ok((r.value.0, Blanks(s) + r.value.1))
  {
    hide *;
    SkipOnce(s);
    SkipIs(s);
    var a, t := Blanks(s), Skip(s);
    if StringValue(t).Err? {
      NoMember(s, depth, a, 0, 0);
      NoMember(t, depth, 0, 0, 0);
    } else {
      var (key, n) := StringValue(t).value;
      var b := Blanks(t[n..]);
      DropDrop(s, a, n);
      assert t[0 + n..] == t[n..];
      if n + b < |t| && t[n + b] == COLON {
        DropDrop(s, a, n + b + 1);
        MemberOf(s, depth, a, key, n, b);
        MemberOf(t, depth, 0, key, n, b);
      } else {
        NoMember(s, depth, a, n, b);
        NoMember(t, depth, 0, n, b);
      }
    }
  }

  lemma MembersStep(s: Text, depth: nat)
    ensures var r := OneMember(s, depth);
            Members(s, depth)
            == if r.Err? || r.value.1 == |s| then Err
               else if s[r.value.1] == COMMA
               then AddItem(r.value.0, r.value.1 + 1, Members(s[r.value.1 + 1..], depth))
               else if s[r.value.1] == CLOSE_BRACE then Ok(([r.value.0], r.value.1 + 1)) else Err
  {
    hide OneMember;
  }

  lemma MembersAfterBlanks(s: Text, depth: nat)
    ensures var r := Members(Skip(s), depth);
            Members(s, depth) == if r.Err? then Err else Ok((r.value.0, Blanks(s) + r.value.1))
  {
    MemberAfterBlanks(s, depth);
    MembersStep(s, depth);
    MembersStep(Skip(s), depth);
    hide OneMember, Members, Blanks;
    var r := OneMember(Skip(s), depth);
    if r.Ok? && r.value.1 < |Skip(s)| {
      DropDrop(s, Blanks(s), r.value.1 + 1);
    }
  }

  /** What is inside decides what the whole is. */
  lemma ObjectOpens(t: Text, depth: nat)
    ensures Value([OPEN_BRACE] + t, depth)
         == if depth > MAX_DEPTH then Err
            else if Skip(t) != [] && Skip(t)[0] == CLOSE_BRACE then Ok((Obj([]), 2 + Blanks(t)))
            else match Members(t, depth) case Err => Err case Ok((v, n)) => Ok((Obj(v), 1 + n))
  {
    MembersAfterBlanks(t, depth);
    hide Items, Members, StringValue, Number, Blanks;
    Split([OPEN_BRACE], t);
    var s := [OPEN_BRACE] + t;
    assert s[1..] == t && s[1 + Blanks(t)..] == Skip(t);
  }

  /** The expected result of reading something `height` deep at `depth`. */
  function Expected<T>(v: T, n: nat, depth: nat, height: nat): Result<(T, nat)> {
    if depth + height <= MAX_DEPTH then Ok((v, n)) else Err
  }

  lemma ExpectedIs<T>(v: T, n: nat, depth: nat, h: nat)
    ensures Expected(v, n, depth, h) == if depth + h <= MAX_DEPTH then Ok((v, n)) else Err
  {
  }

  lemma Marks()
    ensures COMMA != CLOSE_BRACKET && COMMA != CLOSE_BRACE
    ensures COLON !in {32, 9, 10, 13} && QUOTE !in {32, 9, 10, 13, CLOSE_BRACE}
  {
  }

  // ---------------------------------------------------------------- every spelling is read

  lemma SpelledStarts(t: Spelling)
    requires Good(t)
    ensures TextOf(t) != [] && TextOf(t)[0] !in {32, 9, 10, 13, COMMA, COLON, CLOSE_BRACKET, CLOSE_BRACE}
  {
    hide NumeralMeans, FiniteLimit, PartsText, SpacedTexts, FieldTexts, GoodParts, PartsMean;
    if t.Numeral? {
      assert t.whole != [] && Digit(t.whole[0]);
      assert !t.negative ==> TextOf(t)[0] == t.whole[0];
    }
  }

  lemma WordReads(v: Json, post: Text, depth: nat)
    requires v.Null? || v.Bool?
    ensures Value(SpelledWord(v) + post, depth) == Expected(v, |SpelledWord(v)|, depth, 0)
  {
    var s := SpelledWord(v) + post;
    assert SpelledWord(v) <= s;
    hide StringValue, Items, Members, Number;
  }

  lemma NumeralIs(t: Spelling)
    requires t.Numeral? && Good(t)
    ensures GoodNumeral(t.whole, t.fraction, t.power) && NumeralMeans(t.whole, t.fraction, t.power) < FiniteLimit()
    ensures TextOf(t) == NumeralText(t.negative, t.whole, t.fraction, t.power)
    ensures var x := NumeralMeans(t.whole, t.fraction, t.power);
            Means(t) == Num(if t.negative then -x else x) && Height(Means(t)) == 0
  {
    hide GoodNumeral, NumeralMeans, NumeralText, FiniteLimit;
  }

  lemma NumberValueIs(s: Text, depth: nat)
    requires s != [] && (s[0] == MINUS || Digit(s[0]))
    ensures Value(s, depth) == if depth > MAX_DEPTH || Number(s).Err? then Err
                               else Ok((Num(Number(s).value.0), Number(s).value.1))
  {
    hide Number, StringValue, Items, Members;
  }

  lemma NumberValueReads(t: Spelling, post: Text, depth: nat)
    requires t.Numeral? && Good(t) && Ends(post)
    ensures Value(TextOf(t) + post, depth) == Expected(Means(t), |TextOf(t)|, depth, Height(Means(t)))
  {
    hide *;
    NumeralIs(t);
    NumeralReads(t.negative, t.whole, t.fraction, t.power, post);
    NumberValueIs(TextOf(t) + post, depth);
    ExpectedIs(Means(t), |TextOf(t)|, depth, 0);
  }

  lemma StringValueReads(parts: seq<Part>, post: Text, depth: nat)
    requires GoodText(parts)
    ensures Value(QuotedText(parts) + post, depth)
         == Expected(Str(PartsMean(parts)), |QuotedText(parts)|, depth, 0)
  {
    QuotedReads(parts, post);
    hide PartsText, PartsMean, StringValue, Number, Items, Members, GoodText, GoodParts;
  }

  lemma {:induction false} SpelledReads(t: Spelling, post: Text, depth: nat)
    requires Good(t) && Ends(post)
    ensures Value(TextOf(t) + post, depth) == Expected(Means(t), |TextOf(t)|, depth, Height(Means(t)))
    decreases t, 2
  {
    hide Value, GoodNumeral, NumeralMeans, NumeralText, FiniteLimit, QuotedText, GoodText, GoodParts, PartsMean;
    match t
    case Word(v) => WordReads(v, post, depth);
    case Numeral(_, _, _, _) => NumberValueReads(t, post, depth);
    case Quoted(parts) => StringValueReads(parts, post, depth);
    case Listed(gap, items) => ListedReads(gap, items, post, depth);
    case Braced(gap, fields) => BracedReads(gap, fields, post, depth);
  }

  lemma {:induction false} ListedReads(gap: Text, items: seq<Spaced>, post: Text, depth: nat)
    requires Blank(gap) && (items != [] ==> gap == []) && GoodItems(items)
    ensures var text := [OPEN_BRACKET] + (gap + SpacedTexts(items)) + [CLOSE_BRACKET];
            (Value(text + post, depth)
             == Expected(Arr(ItemsMean(items)), |text|, depth, ItemsHeight(ItemsMean(items))))
    decreases items, 1
  {
    hide Value, Items, GoodSpaced, SpacedText, Means, Height;
    var inner := gap + SpacedTexts(items);
    var t := inner + ([CLOSE_BRACKET] + post);
    Group4([OPEN_BRACKET], inner, [CLOSE_BRACKET], post);
    ArrayOpens(t, depth);
    if items == [] {
      Unit(gap);
      BlanksAre(gap, [CLOSE_BRACKET] + post);
      Split(gap, [CLOSE_BRACKET] + post);
    } else {
      Unit(SpacedTexts(items));
      ItemsStart(items, [CLOSE_BRACKET] + post);
      ItemsRead(items, post, depth);
    }
  }

  /** The first item's text, behind its blanks, closes nothing. */
  lemma ItemsStart(items: seq<Spaced>, rest: Text)
    requires items != [] && GoodItems(items)
    ensures var t := SpacedTexts(items) + rest;
            Skip(t) != [] && Skip(t)[0] != CLOSE_BRACKET
  {
    hide *;
    ItemsUnfold(items);
    var i := items[0];
    SpacedIs(i);
    SpelledStarts(i.s);
    var w := TextOf(i.s) + i.after;
    Assoc(i.before, TextOf(i.s), i.after);
    assert w[0] == TextOf(i.s)[0];
    var more := if |items| == 1 then rest else [COMMA] + SpacedTexts(items[1..]) + rest;
    if |items| > 1 {
      Assoc(SpacedText(i), [COMMA], SpacedTexts(items[1..]));
      Assoc(SpacedText(i), [COMMA] + SpacedTexts(items[1..]), rest);
    }
    Assoc(i.before, w, more);
    StartsWith(i.before, w, more);
  }

  /** Behind blanks, what comes first is what is not blank. */
  lemma StartsWith(before: Text, w: Text, more: Text)
    requires Blank(before) && w != [] && w[0] !in {32, 9, 10, 13}
    ensures var t := before + (w + more);
            Skip(t) != [] && Skip(t)[0] == w[0]
  {
    BlanksAre(before, w + more);
    Split(before, w + more);
  }

  predicate Closes(rest: Text) {
    rest != [] && rest[0] in {COMMA, CLOSE_BRACKET, CLOSE_BRACE}
  }

  lemma SpacedIs(i: Spaced)
    requires GoodSpaced(i)
    ensures Blank(i.before) && Good(i.s) && Blank(i.after) && SpacedText(i) == i.before + TextOf(i.s) + i.after
  {
    hide Good, TextOf, Blank;
  }

  lemma AfterEnds(after: Text, rest: Text)
    requires Blank(after) && Closes(rest)
    ensures Ends(after + rest) && rest[0] !in {32, 9, 10, 13}
  {
    if after == [] { Unit(rest); }
  }

  lemma {:induction false} ItemReads(i: Spaced, rest: Text, depth: nat)
    requires GoodSpaced(i) && Good(i.s) && Closes(rest)
    ensures OneItem(SpacedText(i) + rest, depth)
         == Expected(Means(i.s), |SpacedText(i)|, depth, 1 + Height(Means(i.s)))
    decreases i, 2
  {
    hide *;
    SpacedIs(i);
    var w, h := TextOf(i.s), Height(Means(i.s));
    AfterEnds(i.after, rest);
    SpelledReads(i.s, i.after + rest, depth + 1);
    SpelledStarts(i.s);
    Group4(i.before, w, i.after, rest);
    var s := i.before + (w + (i.after + rest));
    Split(i.before, w + (i.after + rest));
    Split(w, i.after + rest);
    BlanksAre(i.before, w + (i.after + rest));
    BlanksAre(i.after, rest);
    DropDrop(s, |i.before|, |w|);
    ItemStep(s, depth);
    ExpectedIs(Means(i.s), |w|, depth + 1, h);
    ExpectedIs(Means(i.s), |SpacedText(i)|, depth, 1 + h);
  }

  lemma ItemsUnfold(items: seq<Spaced>)
    requires items != [] && GoodItems(items)
    ensures GoodSpaced(items[0]) && Good(items[0].s) && GoodItems(items[1..])
    ensures SpacedTexts(items) == if |items| == 1 then SpacedText(items[0])
                                  else SpacedText(items[0]) + [COMMA] + SpacedTexts(items[1..])
    ensures ItemsMean(items) == [Means(items[0].s)] + ItemsMean(items[1..])
    ensures |items| == 1 ==> ItemsMean(items[1..]) == []
  {
    hide SpacedText, Means, Good, Blank;
    assert GoodSpaced(items[0]);
  }

  lemma ItemsHeights(v: Json, vs: seq<Json>)
    ensures ItemsHeight([v] + vs) == Max(1 + Height(v), ItemsHeight(vs)) && ItemsHeight([]) == 0
  {
    hide Height;
    assert ([v] + vs)[1..] == vs;
  }

  lemma {:induction false} ItemsRead(items: seq<Spaced>, post: Text, depth: nat)
    requires items != [] && GoodItems(items)
    ensures Items(SpacedTexts(items) + ([CLOSE_BRACKET] + post), depth)
         == Expected(ItemsMean(items), |SpacedTexts(items)| + 1, depth, ItemsHeight(ItemsMean(items)))
    decreases items, 0
  {
    hide *;
    Marks();
    ItemsUnfold(items);
    ItemsHeights(Means(items[0].s), ItemsMean(items[1..]));
    var i := items[0];
    var w := SpacedText(i);
    if |items| == 1 {
      ClosesIs([CLOSE_BRACKET] + post);
      ItemReads(i, [CLOSE_BRACKET] + post, depth);
      ItemsStep(w + ([CLOSE_BRACKET] + post), depth);
      Split(w, [CLOSE_BRACKET] + post);
      assert (w + ([CLOSE_BRACKET] + post))[|w|] == CLOSE_BRACKET;
      LastExpected(Means(i.s), |w|, depth, 1 + Height(Means(i.s)));
    } else {
      var more := SpacedTexts(items[1..]) + ([CLOSE_BRACKET] + post);
      Group4(w, [COMMA], SpacedTexts(items[1..]), [CLOSE_BRACKET] + post);
      ClosesIs([COMMA] + more);
      ItemReads(i, [COMMA] + more, depth);
      ItemsRead(items[1..], post, depth);
      ItemsStep(w + ([COMMA] + more), depth);
      Split(w, [COMMA] + more);
      Split([COMMA], more);
      DropDrop(w + ([COMMA] + more), |w|, 1);
      MoreExpected(Means(i.s), |w|, depth, 1 + Height(Means(i.s)), ItemsMean(items[1..]), |SpacedTexts(items[1..])| + 1,
                   ItemsHeight(ItemsMean(items[1..])));
    }
  }

  lemma ClosesIs(rest: Text)
    ensures Closes(rest) <==> rest != [] && rest[0] in {COMMA, CLOSE_BRACKET, CLOSE_BRACE}
  {
  }

  lemma LastExpected<T>(v: T, n: nat, depth: nat, h: nat)
    ensures var r := Expected(v, n, depth, h);
            Expected([v], n + 1, depth, Max(h, 0)) == if r.Err? then Err else Ok(([r.value.0], r.value.1 + 1))
    ensures [v] + [] == [v]
    ensures Expected(v, n, depth, h).Ok? ==> Expected(v, n, depth, h).value == (v, n)
  {
  }

  lemma MoreExpected<T>(v: T, n: nat, depth: nat, h: nat, vs: seq<T>, m: nat, g: nat)
    ensures var r := Expected(v, n, depth, h);
            (Expected([v] + vs, n + 1 + m, depth, Max(h, g))
             == if r.Err? then Err else AddItem(v, n + 1, Expected(vs, m, depth, g)))
    ensures Expected(v, n, depth, h).Ok? ==> Expected(v, n, depth, h).value == (v, n)
  {
  }

  lemma {:induction false} BracedReads(gap: Text, fields: seq<Field>, post: Text, depth: nat)
    requires Blank(gap) && (fields != [] ==> gap == []) && GoodFields(fields)
    ensures var text := [OPEN_BRACE] + (gap + FieldTexts(fields)) + [CLOSE_BRACE];
            (Value(text + post, depth)
             == Expected(Obj(FieldsMean(fields)), |text|, depth, MembersHeight(FieldsMean(fields))))
    decreases fields, 1
  {
    hide Value, Members, GoodField, FieldText, FieldMeans, Height;
    var inner := gap + FieldTexts(fields);
    var t := inner + ([CLOSE_BRACE] + post);
    Group4([OPEN_BRACE], inner, [CLOSE_BRACE], post);
    ObjectOpens(t, depth);
    if fields == [] {
      Unit(gap);
      BlanksAre(gap, [CLOSE_BRACE] + post);
      Split(gap, [CLOSE_BRACE] + post);
    } else {
      Unit(FieldTexts(fields));
      FieldsStart(fields, [CLOSE_BRACE] + post);
      FieldsRead(fields, post, depth);
    }
  }

  lemma FieldsStart(fields: seq<Field>, rest: Text)
    requires fields != [] && GoodFields(fields)
    ensures var t := FieldTexts(fields) + rest;
            Skip(t) != [] && Skip(t)[0] != CLOSE_BRACE
  {
    hide *;
    Marks();
    FieldsUnfold(fields);
    var f := fields[0];
    var more := if |fields| == 1 then rest else [COMMA] + FieldTexts(fields[1..]) + rest;
    FieldIs(f);
    FieldLies(f, more);
    QuoteStarts(f.key);
    if |fields| > 1 {
      Assoc(FieldText(f), [COMMA], FieldTexts(fields[1..]));
      Assoc(FieldText(f), [COMMA] + FieldTexts(fields[1..]), rest);
    }
    StartsWith(f.before, QuotedText(f.key), f.between + ([COLON] + (SpacedText(f.value) + more)));
  }

  /** How a field lies in what is read. */
  lemma FieldLies(f: Field, rest: Text)
    requires GoodField(f)
    ensures var q, s := QuotedText(f.key), FieldText(f) + rest;
            var a, tail := |f.before|, [COLON] + (SpacedText(f.value) + rest);
            && s == f.before + (q + (f.between + tail))
            && s[a..] == q + (f.between + tail) && s[a + |q|..] == f.between + tail
            && a + |q| + |f.between| < |s| && s[a + |q| + |f.between|] == COLON
            && s[a + |q| + |f.between| + 1..] == SpacedText(f.value) + rest
            && |FieldText(f)| == a + |q| + |f.between| + 1 + |SpacedText(f.value)|
  {
    hide QuotedText, SpacedText, GoodSpaced, GoodText;
    var q, v := QuotedText(f.key), SpacedText(f.value);
    var tail := [COLON] + (v + rest);
    Group4(f.before + q, f.between, [COLON], v);
    Assoc(f.before + q, f.between + ([COLON] + v), rest);
    Assoc(f.between, [COLON] + v, rest);
    Assoc([COLON], v, rest);
    Assoc(f.before, q, f.between + tail);
    var s := f.before + (q + (f.between + tail));
    Split(f.before, q + (f.between + tail));
    Split(q, f.between + tail);
    Split(f.between, tail);
    Split([COLON], v + rest);
    DropDrop(s, |f.before|, |q|);
    DropDrop(s, |f.before| + |q|, |f.between|);
    DropDrop(s, |f.before| + |q| + |f.between|, 1);
  }

  lemma {:induction false} FieldReads(f: Field, rest: Text, depth: nat)
    requires GoodField(f) && Closes(rest)
    ensures OneMember(FieldText(f) + rest, depth)
         == Expected(FieldMeans(f), |FieldText(f)|, depth, 1 + Height(FieldMeans(f).value))
    decreases f, 2
  {
    hide *;
    Marks();
    FieldIs(f);
    FieldLies(f, rest);
    QuoteStarts(f.key);
    var q, s := QuotedText(f.key), FieldText(f) + rest;
    var tail := [COLON] + (SpacedText(f.value) + rest);
    assert (q + (f.between + tail))[0] == q[0];
    BlanksAre(f.before, q + (f.between + tail));
    QuotedReads(f.key, f.between + tail);
    BlanksAre(f.between, tail);
    ItemReads(f.value, rest, depth);
    MemberOf(s, depth, |f.before|, PartsMean(f.key), |q|, |f.between|);
    FieldExpected(f, |SpacedText(f.value)|, |FieldText(f)| - |SpacedText(f.value)|, depth);
  }

  lemma FieldIs(f: Field)
    requires GoodField(f)
    ensures Blank(f.before) && GoodText(f.key) && GoodParts(f.key) && Blank(f.between) && GoodSpaced(f.value)
    ensures Good(f.value.s) && FieldMeans(f) == Member(PartsMean(f.key), Means(f.value.s))
  {
    hide Good, Means, Blank, GoodParts, PartsMean;
  }

  lemma QuoteStarts(parts: seq<Part>)
    ensures QuotedText(parts) != [] && QuotedText(parts)[0] == QUOTE
  {
  }

  lemma FieldExpected(f: Field, n: nat, k: nat, depth: nat)
    requires GoodField(f) && Good(f.value.s)
    ensures var h := 1 + Height(FieldMeans(f).value);
            var v := Expected(Means(f.value.s), n, depth, 1 + Height(Means(f.value.s)));
            && Expected(FieldMeans(f), k + n, depth, h)
               == (if v.Err? then Err else Ok((FieldMeans(f), k + n)))
            && (v.Ok? ==> v.value == (Means(f.value.s), n))
  {
    hide Good, Means, GoodText, GoodParts, PartsMean, Height;
  }

  lemma FieldsUnfold(fields: seq<Field>)
    requires fields != [] && GoodFields(fields)
    ensures GoodField(fields[0]) && GoodFields(fields[1..])
    ensures FieldTexts(fields) == if |fields| == 1 then FieldText(fields[0])
                                  else FieldText(fields[0]) + [COMMA] + FieldTexts(fields[1..])
    ensures FieldsMean(fields) == [FieldMeans(fields[0])] + FieldsMean(fields[1..])
    ensures |fields| == 1 ==> FieldsMean(fields[1..]) == []
  {
    hide FieldText, FieldMeans, GoodField;
  }

  lemma MembersHeights(m: Member, ms: seq<Member>)
    ensures MembersHeight([m] + ms) == Max(1 + Height(m.value), MembersHeight(ms)) && MembersHeight([]) == 0
  {
    hide Height;
    assert ([m] + ms)[1..] == ms;
  }

  lemma {:induction false} FieldsRead(fields: seq<Field>, post: Text, depth: nat)
    requires fields != [] && GoodFields(fields)
    ensures Members(FieldTexts(fields) + ([CLOSE_BRACE] + post), depth)
         == Expected(FieldsMean(fields), |FieldTexts(fields)| + 1, depth, MembersHeight(FieldsMean(fields)))
    decreases fields, 0
  {
    hide *;
    Marks();
    FieldsUnfold(fields);
    MembersHeights(FieldMeans(fields[0]), FieldsMean(fields[1..]));
    var f := fields[0];
    var w := FieldText(f);
    if |fields| == 1 {
      ClosesIs([CLOSE_BRACE] + post);
      FieldReads(f, [CLOSE_BRACE] + post, depth);
      MembersStep(w + ([CLOSE_BRACE] + post), depth);
      Split(w, [CLOSE_BRACE] + post);
      assert (w + ([CLOSE_BRACE] + post))[|w|] == CLOSE_BRACE;
      LastExpected(FieldMeans(f), |w|, depth, 1 + Height(FieldMeans(f).value));
    } else {
      var more := FieldTexts(fields[1..]) + ([CLOSE_BRACE] + post);
      Group4(w, [COMMA], FieldTexts(fields[1..]), [CLOSE_BRACE] + post);
      ClosesIs([COMMA] + more);
      FieldReads(f, [COMMA] + more, depth);
      FieldsRead(fields[1..], post, depth);
      MembersStep(w + ([COMMA] + more), depth);
      Split(w, [COMMA] + more);
      Split([COMMA], more);
      DropDrop(w + ([COMMA] + more), |w|, 1);
      MoreExpected(FieldMeans(f), |w|, depth, 1 + Height(FieldMeans(f).value), FieldsMean(fields[1..]),
                   |FieldTexts(fields[1..])| + 1, MembersHeight(FieldsMean(fields[1..])));
    }
  }
}
