/**
  JSON as deploy-docker/src/json.rs prints and reads it: what the printer writes and what the parser accepts, as
  functions on UTF-8 text. Numbers are exact; the rounding of a binary double is not modelled.
 */
module JsonText {
  import opened Bytes
  import BuildOutput
  import JournalFormat

  const MAX_DEPTH: nat := 32
  /** The printer writes an integer below this as one. */
  const INTEGER_LIMIT: int := 9_000_000_000_000_000

  datatype Json =
    | Null
    | Bool(b: bool)
    | Num(v: real)
    | Str(s: Text)
    | Arr(items: seq<Json>)
    | Obj(members: seq<Member>)

  datatype Member = Member(key: Text, value: Json)

  datatype Result<+T> = Ok(value: T) | Err

  const QUOTE: Byte := 34
  const COMMA: Byte := 44
  const MINUS: Byte := 45
  const COLON: Byte := 58
  const OPEN_BRACKET: Byte := 91
  const BACKSLASH: Byte := 92
  const CLOSE_BRACKET: Byte := 93
  const OPEN_BRACE: Byte := 123
  const CLOSE_BRACE: Byte := 125

  // ---------------------------------------------------------------- printing

  /** `write_str` on one byte; the bytes of a character beyond ASCII are copied. */
  function EscapeByte(b: Byte): Text {
    if b == QUOTE then [BACKSLASH, QUOTE]
    else if b == BACKSLASH then [BACKSLASH, BACKSLASH]
    else if b == 10 then [BACKSLASH, 110]
    else if b == 13 then [BACKSLASH, 114]
    else if b == 9 then [BACKSLASH, 116]
    else if b < 0x20 then [BACKSLASH, 117] + JournalFormat.Hex(b, 4)
    else [b]
  }

  function Escape(s: Text): Text {
    if s == [] then [] else EscapeByte(s[0]) + Escape(s[1..])
  }

  function StringText(s: Text): Text {
    [QUOTE] + Escape(s) + [QUOTE]
  }

  function IntegerText(n: int): Text {
    if n < 0 then [MINUS] + DecimalText(-n) else DecimalText(n)
  }

  /** Values whose numbers the printer writes as integers. */
  predicate Printable(v: Json) {
    match v
    case Num(x) => x.Floor as real == x && -INTEGER_LIMIT < x.Floor < INTEGER_LIMIT
    case Str(s) => BuildOutput.FromUtf8(s).Fine?
    case Arr(items) => forall x <- items :: Printable(x)
    case Obj(members) => forall m <- members :: BuildOutput.FromUtf8(m.key).Fine? && Printable(m.value)
    case _ => true
  }

  function ToJson(v: Json): Text
    requires Printable(v)
    decreases v, 1
  {
    match v
    case Null => Ascii("null")
    case Bool(b) => if b then Ascii("true") else Ascii("false")
    case Num(x) => IntegerText(x.Floor)
    case Str(s) => StringText(s)
    case Arr(items) => [OPEN_BRACKET] + ItemsText(items) + [CLOSE_BRACKET]
    case Obj(members) => [OPEN_BRACE] + MembersText(members) + [CLOSE_BRACE]
  }

  function ItemsText(items: seq<Json>): Text
    requires forall x <- items :: Printable(x)
    decreases items, 0
  {
    if items == [] then []
    else if |items| == 1 then ToJson(items[0])
    else ToJson(items[0]) + [COMMA] + ItemsText(items[1..])
  }

  predicate PrintableMember(m: Member) {
    BuildOutput.FromUtf8(m.key).Fine? && Printable(m.value)
  }

  function MemberText(m: Member): Text
    requires PrintableMember(m)
    decreases m, 0
  {
    StringText(m.key) + [COLON] + ToJson(m.value)
  }

  function MembersText(members: seq<Member>): Text
    requires forall m <- members :: PrintableMember(m)
    decreases members, 0
  {
    if members == [] then []
    else if |members| == 1 then MemberText(members[0])
    else MemberText(members[0]) + [COMMA] + MembersText(members[1..])
  }

  // ---------------------------------------------------------------- reading: a value, and how many bytes it takes

  /** `ws`: how many blanks, tabs and line ends `s` starts with. */
  function Blanks(s: Text): (n: nat)
    ensures n <= |s|
  {
    if s != [] && s[0] in {32, 9, 10, 13} then 1 + Blanks(s[1..]) else 0
  }

  function Skip(s: Text): (r: Text)
    ensures |r| == |s| - Blanks(s)
  {
    s[Blanks(s)..]
  }

  predicate Digit(b: Byte) {
    48 <= b <= 57
  }

  /** How many digits `s` starts with. */
  function Digits(s: Text): (n: nat)
    ensures n <= |s| && forall i :: 0 <= i < n ==> Digit(s[i])
    ensures n < |s| ==> !Digit(s[n])
  {
    if s == [] || !Digit(s[0]) then 0 else 1 + Digits(s[1..])
  }

  function DigitsValue(s: Text): nat
    requires forall i :: 0 <= i < |s| ==> Digit(s[i])
  {
    if s == [] then 0
    else
      assert Digit(s[|s| - 1]);
      var d: int := s[|s| - 1];
      10 * DigitsValue(s[..|s| - 1]) + (d - 48)
  }

  function Pow10(n: nat): (r: real)
    ensures r >= 1.0
  {
    if n == 0 then 1.0 else 10.0 * Pow10(n - 1)
  }

  function Pow2(n: nat): (r: real) {
    if n == 0 then 1.0 else 2.0 * Pow2(n - 1)
  }

  /** Beyond this a decimal rounds to an infinite double and is refused. */
  function FiniteLimit(): real {
    Pow2(1024) - Pow2(970)
  }

  /** The fraction part: none, or a point and at least one digit. */
  function Fraction(s: Text): (r: Result<(real, nat)>)
    ensures r.Ok? ==> r.value.1 <= |s|
  {
    if s == [] || s[0] != 46 then Ok((0.0, 0))
    else
      var d := Digits(s[1..]);
      if d == 0 then Err else Ok((DigitsValue(s[1..][..d]) as real / Pow10(d), 1 + d))
  }

  /** The exponent part as a factor: none is 1. */
  function Exponent(s: Text): (r: Result<(real, nat)>)
    ensures r.Ok? ==> r.value.1 <= |s|
  {
    if s == [] || (s[0] != 101 && s[0] != 69) then Ok((1.0, 0))
    else
      var k := if |s| > 1 && (s[1] == 43 || s[1] == 45) then 2 else 1;
      var d := Digits(s[k..]);
      if d == 0 then Err
      else
        var p := Pow10(DigitsValue(s[k..][..d]));
        Ok((if s[1] == 45 then 1.0 / p else p, k + d))
  }

  function Magnitude(whole: nat, fraction: real, factor: real): real {
    (whole as real + fraction) * factor
  }

  /** Digits, fraction and exponent; only the value can be too large. */
  function Unsigned(s: Text): (r: Result<(real, nat)>)
    ensures r.Ok? ==> 1 <= r.value.1 <= |s|
  {
    var d := Digits(s);
    if d == 0 then Err
    else
      match Fraction(s[d..])
      case Err => Err
      case Ok((f, a)) =>
        match Exponent(s[d + a..])
        case Err => Err
        case Ok((e, b)) =>
          var x := Magnitude(DigitsValue(s[..d]), f, e);
          if x >= FiniteLimit() then Err else Ok((x, d + a + b))
  }

  /** A number and its length. */
  function Number(s: Text): (r: Result<(real, nat)>)
    ensures r.Ok? ==> 1 <= r.value.1 <= |s|
  {
    if s != [] && s[0] == MINUS then
      (match Unsigned(s[1..]) case Err => Err case Ok((x, n)) => Ok((-x, 1 + n)))
    else Unsigned(s)
  }

  // ---------------------------------------------------------------- strings

  /** `hex4`: four characters that `from_str_radix` reads, which allows one leading '+'. */
  function Hex4(s: Text): (r: Result<nat>)
    ensures r.Ok? ==> |s| >= 4
  {
    if |s| < 4 then Err
    else
      match JournalFormat.HexNumber(if s[0] == 43 then s[1..4] else s[..4])
      case Some(v) => Ok(v)
      case None => Err
  }

  /** UTF-8 of one scalar value. */
  function EncodeUtf8(cp: nat): Text
    requires cp < 0x110000
  {
    if cp < 0x80 then [cp]
    else if cp < 0x800 then [0xC0 + cp / 64, 0x80 + cp % 64]
    else if cp < 0x10000 then [0xE0 + cp / 4096, 0x80 + cp / 64 % 64, 0x80 + cp % 64]
    else [0xF0 + cp / 262144, 0x80 + cp / 4096 % 64, 0x80 + cp / 64 % 64, 0x80 + cp % 64]
  }

  /** What follows `\u`: one code unit, or a surrogate pair. */
  function UnicodeEscape(s: Text): (r: Result<(Text, nat)>)
    ensures r.Ok? ==> r.value.1 <= |s|
  {
    match Hex4(s)
    case Err => Err
    case Ok(hi) =>
      if 0xD800 <= hi < 0xDC00 then
        if |s| < 6 || s[4] != BACKSLASH || s[5] != 117 then Err
        else
          match Hex4(s[6..])
          case Err => Err
          case Ok(lo) =>
            if !(0xDC00 <= lo < 0xE000) then Err
            else Ok((EncodeUtf8(0x10000 + (hi - 0xD800) * 1024 + (lo - 0xDC00)), 10))
      else if 0xDC00 <= hi < 0xE000 || hi >= 0x110000 then Err
      else Ok((EncodeUtf8(hi), 4))
  }

  /** What follows a backslash. */
  function EscapeSequence(s: Text): (r: Result<(Text, nat)>)
    ensures r.Ok? ==> r.value.1 <= |s|
  {
    if s == [] then Err
    else if s[0] in {34, 92, 47} then Ok(([s[0]], 1))
    else if s[0] == 98 then Ok(([8], 1))
    else if s[0] == 102 then Ok(([12], 1))
    else if s[0] == 110 then Ok(([10], 1))
    else if s[0] == 114 then Ok(([13], 1))
    else if s[0] == 116 then Ok(([9], 1))
    else if s[0] == 117 then
      (match UnicodeEscape(s[1..]) case Err => Err case Ok((c, n)) => Ok((c, 1 + n)))
    else Err
  }

  /** From inside a string to after its closing quote. */
  function StringBody(s: Text): (r: Result<(Text, nat)>)
    ensures r.Ok? ==> 1 <= r.value.1 <= |s|
    decreases |s|
  {
    if s == [] then Err
    else if s[0] == QUOTE then Ok(([], 1))
    else if s[0] == BACKSLASH then
      (match EscapeSequence(s[1..])
       case Err => Err
       case Ok((c, n)) => After(c, 1 + n, StringBody(s[1 + n..])))
    else if s[0] < 0x20 then Err
    else After([s[0]], 1, StringBody(s[1..]))
  }

  function After(c: Text, k: nat, r: Result<(Text, nat)>): Result<(Text, nat)> {
    match r
    case Err => Err
    case Ok((o, n)) => Ok((c + o, k + n))
  }

  function StringValue(s: Text): (r: Result<(Text, nat)>)
    ensures r.Ok? ==> 1 <= r.value.1 <= |s|
  {
    if s == [] || s[0] != QUOTE then Err
    else
      match StringBody(s[1..])
      case Err => Err
      case Ok((o, n)) => if BuildOutput.FromUtf8(o).Fine? then Ok((o, 1 + n)) else Err
  }

  // ---------------------------------------------------------------- values

  function Literal(s: Text, word: Text, v: Json): (r: Result<(Json, nat)>)
    ensures r.Ok? ==> r.value.1 <= |s|
  {
    if word <= s then Ok((v, |word|)) else Err
  }

  /** A value at `depth`, and its length. */
  function Value(s: Text, depth: nat): (r: Result<(Json, nat)>)
    ensures r.Ok? ==> 1 <= r.value.1 <= |s|
    decreases |s|, 1
  {
    if depth > MAX_DEPTH || s == [] then Err
    else if s[0] == 110 then Literal(s, Ascii("null"), Null)
    else if s[0] == 116 then Literal(s, Ascii("true"), Bool(true))
    else if s[0] == 102 then Literal(s, Ascii("false"), Bool(false))
    else if s[0] == QUOTE then
      (match StringValue(s) case Err => Err case Ok((o, n)) => Ok((Str(o), n)))
    else if s[0] == OPEN_BRACKET then ArrayValue(s, depth)
    else if s[0] == OPEN_BRACE then ObjectValue(s, depth)
    else if s[0] == MINUS || Digit(s[0]) then
      (match Number(s) case Err => Err case Ok((x, n)) => Ok((Num(x), n)))
    else Err
  }

  /** `[`, and either `]` or the elements. */
  function ArrayValue(s: Text, depth: nat): (r: Result<(Json, nat)>)
    requires s != [] && s[0] == OPEN_BRACKET
    ensures r.Ok? ==> 1 <= r.value.1 <= |s|
    decreases |s|, 0
  {
    var k := 1 + Blanks(s[1..]);
    if k < |s| && s[k] == CLOSE_BRACKET then Ok((Arr([]), k + 1))
    else (match Items(s[k..], depth) case Err => Err case Ok((vs, n)) => Ok((Arr(vs), k + n)))
  }

  /** `{`, and either `}` or the members. */
  function ObjectValue(s: Text, depth: nat): (r: Result<(Json, nat)>)
    requires s != [] && s[0] == OPEN_BRACE
    ensures r.Ok? ==> 1 <= r.value.1 <= |s|
    decreases |s|, 0
  {
    var k := 1 + Blanks(s[1..]);
    if k < |s| && s[k] == CLOSE_BRACE then Ok((Obj([]), k + 1))
    else (match Members(s[k..], depth) case Err => Err case Ok((ms, n)) => Ok((Obj(ms), k + n)))
  }

  /** An element of an array with the blanks around it. */
  function OneItem(s: Text, depth: nat): (r: Result<(Json, nat)>)
    ensures r.Ok? ==> 1 <= r.value.1 <= |s|
    decreases |s|, 2
  {
    var a := Blanks(s);
    match Value(s[a..], depth + 1)
    case Err => Err
    case Ok((v, n)) => Ok((v, a + n + Blanks(s[a + n..])))
  }

  /** The loop of an array: a value, then ',' and on, or ']'. */
  function Items(s: Text, depth: nat): (r: Result<(seq<Json>, nat)>)
    ensures r.Ok? ==> 1 <= r.value.1 <= |s|
    decreases |s|, 3
  {
    match OneItem(s, depth)
    case Err => Err
    case Ok((v, n)) =>
      if n == |s| then Err
      else if s[n] == COMMA then AddItem(v, n + 1, Items(s[n + 1..], depth))
      else if s[n] == CLOSE_BRACKET then Ok(([v], n + 1))
      else Err
  }

  function AddItem<T>(v: T, k: nat, r: Result<(seq<T>, nat)>): Result<(seq<T>, nat)> {
    match r
    case Err => Err
    case Ok((vs, n)) => Ok(([v] + vs, k + n))
  }

  /** A key, ':' and its value, with the blanks around them. */
  function OneMember(s: Text, depth: nat): (r: Result<(Member, nat)>)
    ensures r.Ok? ==> 1 <= r.value.1 <= |s|
    decreases |s|, 2
  {
    var a := Blanks(s);
    match StringValue(s[a..])
    case Err => Err
    case Ok((k, n)) =>
      var c := a + n + Blanks(s[a + n..]);
      if c == |s| || s[c] != COLON then Err
      else
        match OneItem(s[c + 1..], depth)
        case Err => Err
        case Ok((v, m)) => Ok((Member(k, v), c + 1 + m))
  }

  function Members(s: Text, depth: nat): (r: Result<(seq<Member>, nat)>)
    ensures r.Ok? ==> 1 <= r.value.1 <= |s|
    decreases |s|, 3
  {
    match OneMember(s, depth)
    case Err => Err
    case Ok((m, n)) =>
      if n == |s| then Err
      else if s[n] == COMMA then AddItem(m, n + 1, Members(s[n + 1..], depth))
      else if s[n] == CLOSE_BRACE then Ok(([m], n + 1))
      else Err
  }

  /** `Json::parse`: one value with blanks around it and nothing else. */
  function Parse(text: Text): Result<Json> {
    match Value(Skip(text), 0)
    case Err => Err
    case Ok((v, n)) => if Skip(Skip(text)[n..]) == [] then Ok(v) else Err
  }

  /** How deep a value nests: an empty array or object adds nothing. */
  function Height(v: Json): nat
    decreases v, 1
  {
    match v
    case Arr(items) => ItemsHeight(items)
    case Obj(members) => MembersHeight(members)
    case _ => 0
  }

  function ItemsHeight(items: seq<Json>): nat
    decreases items, 0
  {
    if items == [] then 0 else Max(1 + Height(items[0]), ItemsHeight(items[1..]))
  }

  function MembersHeight(members: seq<Member>): nat
    decreases members, 0
  {
    if members == [] then 0 else Max(1 + Height(members[0].value), MembersHeight(members[1..]))
  }
}
