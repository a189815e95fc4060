/**
  What JSON is (RFC 8259), as the ways to spell a value: its text and its meaning, without any parser. The parser takes
  a little more than the standard: leading zeros, and a plus sign for the first digit of an escape.
 */
module JsonGrammar {
  import opened Bytes
  import opened JsonText
  import BuildOutput
  import JournalFormat
  import Utf8

  // ---------------------------------------------------------------- spellings

  /** A part of a string: a byte as it is, a short escape, a code point in four digits, or a surrogate pair. */
  datatype Part =
    | Raw(b: Byte)
    | Short(letter: Byte)
    | Code(digits: Text, cp: nat)
    | Pair(first: Text, high: nat, second: Text, low: nat)

  datatype Power =
    | NoPower
    | Power(mark: Byte, sign: Text, digits: Text)

  datatype Spelling =
    | Word(v: Json)
    | Numeral(negative: bool, whole: Text, fraction: Text, power: Power)
    | Quoted(parts: seq<Part>)
    | Listed(gap: Text, items: seq<Spaced>)
    | Braced(gap: Text, fields: seq<Field>)

  datatype Spaced = Spaced(before: Text, s: Spelling, after: Text)

  datatype Field = Field(before: Text, key: seq<Part>, between: Text, value: Spaced)

  /** The short escapes of section 7. */
  function ShortMeans(letter: Byte): Option<Byte> {
    match letter
    case 34 => Some(34)
    case 92 => Some(92)
    case 47 => Some(47)
    case 98 => Some(8)
    case 102 => Some(12)
    case 110 => Some(10)
    case 114 => Some(13)
    case 116 => Some(9)
    case _ => None
  }

  /** Four hexadecimal digits, or a plus sign and three, which the standard does not have. */
  predicate Writes4(d: Text, v: nat) {
    && |d| == 4
    && if d[0] == 43 then v < 0x1000 && JournalFormat.LowerAll(d[1..]) == JournalFormat.Hex(v, 3)
       else v < 0x1_0000 && JournalFormat.LowerAll(d) == JournalFormat.Hex(v, 4)
  }

  predicate GoodPart(p: Part) {
    match p
    case Raw(b) => b >= 0x20 && b != QUOTE && b != BACKSLASH
    case Short(letter) => ShortMeans(letter).Some?
    case Code(digits, cp) => Writes4(digits, cp) && !(0xD800 <= cp < 0xE000)
    case Pair(first, high, second, low) =>
      Writes4(first, high) && 0xD800 <= high < 0xDC00 && Writes4(second, low) && 0xDC00 <= low < 0xE000
  }

  function PartText(p: Part): Text {
    match p
    case Raw(b) => [b]
    case Short(letter) => [BACKSLASH, letter]
    case Code(digits, cp) => [BACKSLASH, 117] + digits
    case Pair(first, high, second, low) => [BACKSLASH, 117] + (first + ([BACKSLASH, 117] + second))
  }

  function PartMeans(p: Part): Text
    requires GoodPart(p)
  {
    match p
    case Raw(b) => [b]
    case Short(letter) => [ShortMeans(letter).value]
    case Code(digits, cp) => EncodeUtf8(cp)
    case Pair(first, high, second, low) => EncodeUtf8(0x10000 + (high - 0xD800) * 0x400 + (low - 0xDC00))
  }

  predicate GoodParts(parts: seq<Part>) {
    forall i :: 0 <= i < |parts| ==> GoodPart(parts[i])
  }

  function PartsText(parts: seq<Part>): Text {
    if parts == [] then [] else PartText(parts[0]) + PartsText(parts[1..])
  }

  function PartsMean(parts: seq<Part>): Text
    requires GoodParts(parts)
  {
    if parts == [] then [] else PartMeans(parts[0]) + PartsMean(parts[1..])
  }

  predicate AllDigits(d: Text) {
    forall i :: 0 <= i < |d| ==> Digit(d[i])
  }

  predicate GoodPower(p: Power) {
    p.Power? ==> p.mark in {69, 101} && p.sign in {[], [43], [45]} && p.digits != [] && AllDigits(p.digits)
  }

  function PowerText(p: Power): Text {
    match p
    case NoPower => []
    case Power(mark, sign, digits) => [mark] + (sign + digits)
  }

  function PowerOf(p: Power): int
    requires GoodPower(p)
  {
    match p
    case NoPower => 0
    case Power(mark, sign, digits) =>
      var n: int := DigitsValue(digits);
      if sign == [45] then -n else n
  }

  function FractionText(f: Text): Text {
    if f == [] then [] else [46] + f
  }

  /** Ten to a power. */
  function Scale(e: int): real {
    if e >= 0 then Pow10(e) else 1.0 / Pow10(-e)
  }

  predicate GoodNumeral(whole: Text, fraction: Text, power: Power) {
    whole != [] && AllDigits(whole) && AllDigits(fraction) && GoodPower(power)
  }

  /** All the digits as one number, moved by the power and by the digits behind the point. */
  function NumeralMeans(whole: Text, fraction: Text, power: Power): real
    requires GoodNumeral(whole, fraction, power)
  {
    assert forall i :: 0 <= i < |whole + fraction| ==> Digit((whole + fraction)[i]);
    DigitsValue(whole + fraction) as real * Scale(PowerOf(power) - |fraction|)
  }

  predicate Blank(s: Text) {
    forall i :: 0 <= i < |s| ==> s[i] in {32, 9, 10, 13}
  }

  ghost predicate GoodText(parts: seq<Part>) {
    GoodParts(parts) && Utf8.Valid(PartsMean(parts))
  }

  ghost predicate Good(t: Spelling)
    decreases t, 1
  {
    match t
    case Word(v) => v.Null? || v.Bool?
    case Numeral(negative, whole, fraction, power) =>
      GoodNumeral(whole, fraction, power) && NumeralMeans(whole, fraction, power) < FiniteLimit()
    case Quoted(parts) => GoodText(parts)
    case Listed(gap, items) => Blank(gap) && (items != [] ==> gap == []) && GoodItems(items)
    case Braced(gap, fields) => Blank(gap) && (fields != [] ==> gap == []) && GoodFields(fields)
  }

  ghost predicate GoodSpaced(i: Spaced)
    decreases i, 0
  {
    Blank(i.before) && Good(i.s) && Blank(i.after)
  }

  ghost predicate GoodField(f: Field)
    decreases f, 0
  {
    Blank(f.before) && GoodText(f.key) && Blank(f.between) && GoodSpaced(f.value)
  }

  ghost predicate GoodItems(items: seq<Spaced>)
    decreases items, 0
  {
    items == [] || (GoodSpaced(items[0]) && GoodItems(items[1..]))
  }

  ghost predicate GoodFields(fields: seq<Field>)
    decreases fields, 0
  {
    fields == [] || (GoodField(fields[0]) && GoodFields(fields[1..]))
  }

  function SpelledWord(v: Json): Text
    requires v.Null? || v.Bool?
  {
    if v.Null? then Ascii("null") else if v.b then Ascii("true") else Ascii("false")
  }

  function QuotedText(parts: seq<Part>): Text {
    [QUOTE] + PartsText(parts) + [QUOTE]
  }

  function NumeralText(negative: bool, whole: Text, fraction: Text, power: Power): Text {
    (if negative then [MINUS] else []) + (whole + (FractionText(fraction) + PowerText(power)))
  }

  ghost function TextOf(t: Spelling): Text
    requires Good(t)
    decreases t, 1
  {
    match t
    case Word(v) => SpelledWord(v)
    case Numeral(negative, whole, fraction, power) => NumeralText(negative, whole, fraction, power)
    case Quoted(parts) => QuotedText(parts)
    case Listed(gap, items) => [OPEN_BRACKET] + (gap + SpacedTexts(items)) + [CLOSE_BRACKET]
    case Braced(gap, fields) => [OPEN_BRACE] + (gap + FieldTexts(fields)) + [CLOSE_BRACE]
  }

  ghost function SpacedText(i: Spaced): Text
    requires GoodSpaced(i)
    decreases i, 0
  {
    i.before + TextOf(i.s) + i.after
  }

  ghost function FieldText(f: Field): Text
    requires GoodField(f)
    decreases f, 0
  {
    f.before + QuotedText(f.key) + f.between + [COLON] + SpacedText(f.value)
  }

  ghost function SpacedTexts(items: seq<Spaced>): Text
    requires GoodItems(items)
    decreases items, 0
  {
    if items == [] then []
    else if |items| == 1 then SpacedText(items[0])
    else SpacedText(items[0]) + [COMMA] + SpacedTexts(items[1..])
  }

  ghost function FieldTexts(fields: seq<Field>): Text
    requires GoodFields(fields)
    decreases fields, 0
  {
    if fields == [] then []
    else if |fields| == 1 then FieldText(fields[0])
    else FieldText(fields[0]) + [COMMA] + FieldTexts(fields[1..])
  }

  ghost function Means(t: Spelling): Json
    requires Good(t)
    decreases t, 1
  {
    match t
    case Word(v) => v
    case Numeral(negative, whole, fraction, power) =>
      var x := NumeralMeans(whole, fraction, power);
      Num(if negative then -x else x)
    case Quoted(parts) => Str(PartsMean(parts))
    case Listed(gap, items) => Arr(ItemsMean(items))
    case Braced(gap, fields) => Obj(FieldsMean(fields))
  }

  ghost function ItemsMean(items: seq<Spaced>): seq<Json>
    requires GoodItems(items)
    decreases items, 0
  {
    if items == [] then []
    else
      assert GoodSpaced(items[0]);
      [Means(items[0].s)] + ItemsMean(items[1..])
  }

  ghost function FieldMeans(f: Field): Member
    requires GoodField(f)
    decreases f, 0
  {
    assert GoodSpaced(f.value);
    Member(PartsMean(f.key), Means(f.value.s))
  }

  ghost function FieldsMean(fields: seq<Field>): seq<Member>
    requires GoodFields(fields)
    decreases fields, 0
  {
    if fields == [] then [] else [FieldMeans(fields[0])] + FieldsMean(fields[1..])
  }

  /** What may stand behind a value: nothing, a blank, or what separates or closes. */
  predicate Ends(post: Text) {
    post == [] || post[0] in {32, 9, 10, 13, COMMA, CLOSE_BRACKET, CLOSE_BRACE}
  }
}
