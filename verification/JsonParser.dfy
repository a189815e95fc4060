/** The parser as a cursor over the bytes (`P` in deploy-docker/src/json.rs), and the printer as it appends. */
module JsonParser {
  import opened Bytes
  import opened JsonText
  import BuildOutput
  import JournalFormat

  // ---------------------------------------------------------------- the loops' bookkeeping

  /** A method's result agrees with what the text says: the same value and that many bytes on, or both refuse. */
  ghost predicate Reads<T(!new)>(r: Result<T>, spec: Result<(T, nat)>, from: nat, to: nat) {
    match spec
    case Err => r.Err?
    case Ok((v, n)) => r == Ok(v) && to == from + n
  }

  function ToNum(r: Result<(real, nat)>): Result<(Json, nat)> {
    match r
    case Err => Err
    case Ok((x, n)) => Ok((Num(x), n))
  }

  lemma AfterNothing(r: Result<(Text, nat)>)
    ensures After([], 0, r) == r
  {
    if r.Ok? { Unit(r.value.0); }
  }

  lemma AfterErr(a: Text, k: nat)
    ensures After(a, k, Err) == Err
  {
  }

  lemma AfterQuote(a: Text, k: nat)
    ensures After(a, k, Ok(([], 1))) == Ok((a, k + 1))
  {
    Unit(a);
  }

  /** `StringBody`, one byte or escape at a time. */
  lemma BodyStep(s: Text)
    ensures StringBody(s) ==
            if s == [] then Err
            else if s[0] == QUOTE then Ok(([], 1))
            else if s[0] == BACKSLASH then
              match EscapeSequence(s[1..])
              case Err => Err
              case Ok((c, n)) => After(c, 1 + n, StringBody(s[1 + n..]))
            else if s[0] < 0x20 then Err
            else After([s[0]], 1, StringBody(s[1..]))
  {
    hide EscapeSequence;
  }

  lemma AfterAfter(a: Text, k: nat, c: Text, n: nat, r: Result<(Text, nat)>)
    ensures After(a, k, After(c, n, r)) == After(a + c, k + n, r)
  {
    if r.Ok? { Assoc(a, c, r.value.0); }
  }

  lemma NotAString(s: Text)
    requires s == [] || s[0] != QUOTE
    ensures StringValue(s) == Err
  {
  }

  /** Elements already read in front of what the rest of the loop reads. */
  function AddAll<T>(v: seq<T>, k: nat, r: Result<(seq<T>, nat)>): Result<(seq<T>, nat)> {
    match r
    case Err => Err
    case Ok((vs, n)) => Ok((v + vs, k + n))
  }

  lemma AddNone<T>(r: Result<(seq<T>, nat)>)
    ensures AddAll([], 0, r) == r
  {
    if r.Ok? { assert [] + r.value.0 == r.value.0; }
  }

  lemma AddErr<T>(v: seq<T>, k: nat)
    ensures AddAll(v, k, Err) == Err
  {
  }

  lemma AddLast<T>(v: seq<T>, k: nat, x: T, n: nat)
    ensures AddAll(v, k, Ok(([x], n))) == Ok((v + [x], k + n))
  {
  }

  lemma AddAdd<T>(v: seq<T>, k: nat, x: T, n: nat, r: Result<(seq<T>, nat)>)
    ensures AddAll(v, k, AddItem(x, n, r)) == AddAll(v + [x], k + n, r)
  {
    if r.Ok? { assert v + ([x] + r.value.0) == v + [x] + r.value.0; }
  }

  lemma ItemsStep(s: Text, depth: nat)
    ensures Items(s, depth) ==
            match OneItem(s, depth)
            case Err => Err
            case Ok((v, n)) =>
              if n == |s| then Err
              else if s[n] == COMMA then AddItem(v, n + 1, Items(s[n + 1..], depth))
              else if s[n] == CLOSE_BRACKET then Ok(([v], n + 1))
              else Err
  {
    hide OneItem;
  }

  lemma MembersStep(s: Text, depth: nat)
    ensures Members(s, depth) ==
            match OneMember(s, depth)
            case Err => Err
            case Ok((m, n)) =>
              if n == |s| then Err
              else if s[n] == COMMA then AddItem(m, n + 1, Members(s[n + 1..], depth))
              else if s[n] == CLOSE_BRACE then Ok(([m], n + 1))
              else Err
  {
    hide OneMember;
  }

  // ---------------------------------------------------------------- the cursor

  class P {
    const b: Text
    var i: nat

    constructor (b: Text)
      ensures this.b == b && i == 0
    {
      this.b, i := b, 0;
    }

    /** What is left to read. */
    ghost function Left(): Text
      requires i <= |b|
      reads this
    {
      b[i..]
    }

    method Ws()
      requires i <= |b|
      modifies this
      ensures old(i) <= i <= |b| && i == old(i) + Blanks(old(Left()))
    {
      while i < |b| && b[i] in {32, 9, 10, 13}
        invariant old(i) <= i <= |b|
        invariant Blanks(old(Left())) == i - old(i) + Blanks(Left())
        decreases |b| - i
      {
        DropDrop(b, i, 1);
        i := i + 1;
      }
    }

    method Eat(c: Byte) returns (ok: bool)
      requires i <= |b|
      modifies this
      ensures ok <==> (old(i) < |b| && b[old(i)] == c)
      ensures i == if ok then old(i) + 1 else old(i)
    {
      ok := i < |b| && b[i] == c;
      if ok { i := i + 1; }
    }

    method Lit(word: Text, v: Json) returns (r: Result<Json>)
      requires i <= |b|
      modifies this
      ensures Reads(r, Literal(old(Left()), word, v), old(i), i) && i <= |b|
    {
      if word <= b[i..] {
        i := i + |word|;
        return Ok(v);
      }
      return Err;
    }

    method DigitRun() returns (any: bool)
      requires i <= |b|
      modifies this
      ensures i == old(i) + Digits(old(Left())) <= |b| && (any <==> i > old(i))
    {
      var s := i;
      while i < |b| && Digit(b[i])
        invariant s <= i <= |b|
        invariant Digits(old(Left())) == i - s + Digits(Left())
        decreases |b| - i
      {
        DropDrop(b, i, 1);
        i := i + 1;
      }
      any := i > s;
    }

    /** The fraction part of a number, if there is one. */
    method FractionPart() returns (r: Result<real>)
      requires i <= |b|
      modifies this
      ensures Reads(r, Fraction(old(Left())), old(i), i) && i <= |b|
    {
      hide Digits, DigitsValue, Pow10;
      ghost var at := i;
      if i < |b| && b[i] == 46 {
        i := i + 1;
        var from := i;
        DropDrop(b, at, 1);
        var any := DigitRun();
        if !any { return Err; }
        assert b[from..][..i - from] == b[from..i];
        return Ok(DigitsValue(b[from..i]) as real / Pow10(i - from));
      }
      return Ok(0.0);
    }

    /** The exponent part as a factor, if there is one. */
    method ExponentPart() returns (r: Result<real>)
      requires i <= |b|
      modifies this
      ensures Reads(r, Exponent(old(Left())), old(i), i) && i <= |b|
    {
      hide Digits, DigitsValue, Pow10;
      ghost var at := i;
      if i < |b| && (b[i] == 101 || b[i] == 69) {
        i := i + 1;
        var negative := i < |b| && b[i] == 45;
        if i < |b| && (b[i] == 43 || b[i] == 45) { i := i + 1; }
        DropDrop(b, at, i - at);
        var p := Power();
        if p.Err? { return Err; }
        return Ok(if negative then 1.0 / p.value else p.value);
      }
      return Ok(1.0);
    }

    /** Ten to the digits that come next. */
    method Power() returns (r: Result<real>)
      requires i <= |b|
      modifies this
      ensures i == old(i) + Digits(old(Left())) <= |b|
      ensures var s := old(Left());
              r == if Digits(s) == 0 then Err else Ok(Pow10(DigitsValue(s[..Digits(s)])))
    {
      hide Digits, DigitsValue, Pow10;
      var from := i;
      var any := DigitRun();
      if !any { return Err; }
      assert b[from..][..i - from] == b[from..i];
      r := Ok(Pow10(DigitsValue(b[from..i])));
    }

    /** After the sign. */
    method UnsignedValue() returns (r: Result<real>)
      requires i <= |b|
      modifies this
      ensures Reads(r, Unsigned(old(Left())), old(i), i) && i <= |b|
    {
      hide Digits, DigitsValue, FiniteLimit, Magnitude, Fraction, Exponent;
      var whole := i;
      var any := DigitRun();
      if !any { return Err; }
      var d := b[whole..i];
      assert b[whole..][..i - whole] == d;
      DropDrop(b, whole, i - whole);
      var f := FractionPart();
      if f.Err? { return Err; }
      DropDrop(b, whole, i - whole);
      var e := ExponentPart();
      if e.Err? { return Err; }
      var x := Magnitude(DigitsValue(d), f.value, e.value);
      return if x >= FiniteLimit() then Err else Ok(x);
    }

    method NumberValue() returns (r: Result<Json>)
      requires i <= |b|
      modifies this
      ensures Reads(r, ToNum(Number(old(Left()))), old(i), i)
      ensures i <= |b|
    {
      hide Unsigned;
      var negative := i < |b| && b[i] == MINUS;
      if negative {
        DropDrop(b, i, 1);
        i := i + 1;
      }
      var x := UnsignedValue();
      if x.Err? { return Err; }
      return Ok(Num(if negative then -x.value else x.value));
    }

    method HexDigits4() returns (r: Result<nat>)
      requires i <= |b|
      modifies this
      ensures r == Hex4(old(Left())) && i == if r.Ok? then old(i) + 4 else old(i)
      ensures i <= |b|
    {
      if i + 4 > |b| { return Err; }
      var h := b[i..i + 4];
      assert h == b[i..][..4] && h[1..] == b[i..][1..4];
      match JournalFormat.HexNumber(if h[0] == 43 then h[1..] else h) {
        case None => return Err;
        case Some(v) =>
          i := i + 4;
          return Ok(v);
      }
    }

    /** After a backslash: the character the escape stands for. */
    method Escaped() returns (r: Result<Text>)
      requires i <= |b|
      modifies this
      ensures Reads(r, EscapeSequence(old(Left())), old(i), i)
      ensures i <= |b|
    {
      hide Hex4;
      if i == |b| { return Err; }
      var c := b[i];
      ghost var at := i;
      i := i + 1;
      DropDrop(b, at, 1);
      if c in {34, 92, 47} { return Ok([c]); }
      if c == 98 { return Ok([8]); }
      if c == 102 { return Ok([12]); }
      if c == 110 { return Ok([10]); }
      if c == 114 { return Ok([13]); }
      if c == 116 { return Ok([9]); }
      if c != 117 { return Err; }
      var hi := HexDigits4();
      if hi.Err? { return Err; }
      if 0xD800 <= hi.value < 0xDC00 {
        if i + 2 > |b| || b[i] != BACKSLASH || b[i + 1] != 117 { return Err; }
        i := i + 2;
        DropDrop(b, at + 1, 6);
        var lo := HexDigits4();
        if lo.Err? || !(0xDC00 <= lo.value < 0xE000) { return Err; }
        return Ok(EncodeUtf8(0x10000 + (hi.value - 0xD800) * 1024 + (lo.value - 0xDC00)));
      }
      if 0xDC00 <= hi.value < 0xE000 || hi.value >= 0x110000 { return Err; }
      return Ok(EncodeUtf8(hi.value));
    }

    /** A string from its opening quote on. */
    method StringLiteral() returns (r: Result<Text>)
      requires i <= |b|
      modifies this
      ensures Reads(r, StringValue(old(Left())), old(i), i)
      ensures i <= |b|
    {
      hide BuildOutput.FromUtf8, StringBody;
      ghost var at := i;
      var ok := Eat(QUOTE);
      if !ok { return Err; }
      DropDrop(b, at, 1);
      r := StringRest();
      if r.Ok? && !BuildOutput.FromUtf8(r.value).Fine? { return Err; }
    }

    /** From inside a string to after its closing quote. */
    method StringRest() returns (r: Result<Text>)
      requires i <= |b|
      modifies this
      ensures Reads(r, StringBody(old(Left())), old(i), i)
      ensures i <= |b|
    {
      hide EscapeSequence, StringBody, After;
      ghost var at := i;
      var out: Text := [];
      AfterNothing(StringBody(b[at..]));
      while true
        invariant at <= i <= |b|
        invariant StringBody(b[at..]) == After(out, i - at, StringBody(Left()))
        decreases |b| - i
      {
        BodyStep(Left());
        ghost var was := i;
        if i == |b| || b[i] < 0x20 {
          AfterErr(out, i - at);
          return Err;
        }
        var c := b[i];
        i := i + 1;
        DropDrop(b, was, 1);
        if c == QUOTE {
          AfterQuote(out, was - at);
          return Ok(out);
        }
        var piece := [c];
        if c == BACKSLASH {
          var e := Escaped();
          if e.Err? {
            AfterErr(out, was - at);
            return Err;
          }
          piece := e.value;
        }
        DropDrop(b, was, i - was);
        AfterAfter(out, was - at, piece, i - was, StringBody(Left()));
        out := out + piece;
      }
    }

    /** `value`: one value; `depth` counts the arrays and objects around it. */
    method ValueAt(depth: nat) returns (r: Result<Json>)
      requires i <= |b|
      modifies this
      ensures Reads(r, Value(old(Left()), depth), old(i), i) && i <= |b|
      decreases |b| - i, 2
    {
      hide Literal, StringValue, Number, ArrayValue, ObjectValue;
      if depth > MAX_DEPTH || i == |b| { return Err; }
      var c := b[i];
      if c == 110 { r := Lit(Ascii("null"), Null); }
      else if c == 116 { r := Lit(Ascii("true"), Bool(true)); }
      else if c == 102 { r := Lit(Ascii("false"), Bool(false)); }
      else if c == QUOTE {
        var s := StringLiteral();
        r := if s.Ok? then Ok(Str(s.value)) else Err;
      }
      else if c == OPEN_BRACKET { r := ArrayAt(depth); }
      else if c == OPEN_BRACE { r := ObjectAt(depth); }
      else if c == MINUS || Digit(c) { r := NumberValue(); }
      else { r := Err; }
    }

    /** The array that starts here. */
    method ArrayAt(depth: nat) returns (r: Result<Json>)
      requires i < |b| && b[i] == OPEN_BRACKET
      modifies this
      ensures Reads(r, ArrayValue(b[old(i)..], depth), old(i), i) && i <= |b|
      decreases |b| - i, 1
    {
      hide Items, Blanks;
      ghost var at := i;
      i := i + 1;
      DropDrop(b, at, 1);
      Ws();
      DropDrop(b, at, i - at);
      if i < |b| && b[i] == CLOSE_BRACKET {
        i := i + 1;
        return Ok(Arr([]));
      }
      var v := Array(depth);
      r := if v.Ok? then Ok(Arr(v.value)) else Err;
    }

    /** The object that starts here. */
    method ObjectAt(depth: nat) returns (r: Result<Json>)
      requires i < |b| && b[i] == OPEN_BRACE
      modifies this
      ensures Reads(r, ObjectValue(b[old(i)..], depth), old(i), i) && i <= |b|
      decreases |b| - i, 1
    {
      hide Members, Blanks;
      ghost var at := i;
      i := i + 1;
      DropDrop(b, at, 1);
      Ws();
      DropDrop(b, at, i - at);
      if i < |b| && b[i] == CLOSE_BRACE {
        i := i + 1;
        return Ok(Obj([]));
      }
      var m := Object(depth);
      r := if m.Ok? then Ok(Obj(m.value)) else Err;
    }

    /** A value with the blanks around it. */
    method Element(depth: nat) returns (r: Result<Json>)
      requires i <= |b|
      modifies this
      ensures Reads(r, OneItem(old(Left()), depth), old(i), i) && i <= |b|
      decreases |b| - i, 3
    {
      hide Value, Blanks;
      ghost var at := i;
      Ws();
      DropDrop(b, at, i - at);
      r := ValueAt(depth + 1);
      if r.Err? { return; }
      DropDrop(b, at, i - at);
      Ws();
    }

    /** The array loop. */
    method Array(depth: nat) returns (r: Result<seq<Json>>)
      requires i <= |b|
      modifies this
      ensures Reads(r, Items(old(Left()), depth), old(i), i) && i <= |b|
      decreases |b| - i, 4
    {
      hide OneItem, Items, AddAll;
      ghost var at := i;
      var v: seq<Json> := [];
      AddNone(Items(Left(), depth));
      while true
        invariant at <= i <= |b|
        invariant Items(b[at..], depth) == AddAll(v, i - at, Items(Left(), depth))
        decreases |b| - i
      {
        ItemsStep(Left(), depth);
        ghost var was := i;
        var e := Element(depth);
        if e.Err? {
          AddErr(v, was - at);
          return Err;
        }
        DropDrop(b, was, i - was);
        if i == |b| {
          AddErr(v, was - at);
          return Err;
        }
        if b[i] == COMMA {
          i := i + 1;
          DropDrop(b, was, i - was);
          AddAdd(v, was - at, e.value, i - was, Items(Left(), depth));
          v := v + [e.value];
        } else if b[i] == CLOSE_BRACKET {
          i := i + 1;
          AddLast(v, was - at, e.value, i - was);
          return Ok(v + [e.value]);
        } else {
          AddErr(v, was - at);
          return Err;
        }
      }
    }

    /** Blanks and a key. */
    method Key() returns (r: Result<Text>)
      requires i <= |b|
      modifies this
      ensures i <= |b| && (r.Ok? ==> old(i) < i)
      ensures var s := old(Left());
              match StringValue(s[Blanks(s)..])
              case Err => r == Err
              case Ok((k, n)) => r == Ok(k) && i == old(i) + Blanks(s) + n
    {
      hide StringValue, Blanks;
      ghost var at := i;
      Ws();
      DropDrop(b, at, i - at);
      ghost var t := Left();
      assert t == old(Left())[Blanks(old(Left()))..];
      if i == |b| || b[i] != QUOTE {
        NotAString(t);
        return Err;
      }
      r := StringLiteral();
    }

    /** Blanks and the colon of a member whose key took `n` bytes from `at`. */
    method Colon(ghost at: nat, ghost n: nat) returns (ok: bool)
      requires at + n == i <= |b|
      modifies this
      ensures old(i) <= i <= |b|
      ensures var s := b[at..];
              var c := n + Blanks(s[n..]);
              (ok <==> c < |s| && s[c] == COLON) && (ok ==> i == at + c + 1)
    {
      hide Blanks;
      DropDrop(b, at, n);
      Ws();
      ok := Eat(COLON);
    }

    /** A key, ':' and a value, with the blanks around them. */
    method KeyValue(depth: nat) returns (r: Result<Member>)
      requires i <= |b|
      modifies this
      ensures Reads(r, OneMember(old(Left()), depth), old(i), i) && i <= |b|
      decreases |b| - i, 4
    {
      hide OneItem, StringValue, Blanks;
      ghost var at := i;
      var k := Key();
      if k.Err? { return Err; }
      var ok := Colon(at, i - at);
      if !ok { return Err; }
      DropDrop(b, at, i - at);
      var v := Element(depth);
      if v.Err? { return Err; }
      return Ok(Member(k.value, v.value));
    }

    /** The object loop. */
    method Object(depth: nat) returns (r: Result<seq<Member>>)
      requires i <= |b|
      modifies this
      ensures Reads(r, Members(old(Left()), depth), old(i), i) && i <= |b|
      decreases |b| - i, 5
    {
      hide OneMember, Members, AddAll;
      ghost var at := i;
      var m: seq<Member> := [];
      AddNone(Members(Left(), depth));
      while true
        invariant at <= i <= |b|
        invariant Members(b[at..], depth) == AddAll(m, i - at, Members(Left(), depth))
        decreases |b| - i
      {
        MembersStep(Left(), depth);
        ghost var was := i;
        var e := KeyValue(depth);
        if e.Err? {
          AddErr(m, was - at);
          return Err;
        }
        DropDrop(b, was, i - was);
        if i == |b| {
          AddErr(m, was - at);
          return Err;
        }
        if b[i] == COMMA {
          i := i + 1;
          DropDrop(b, was, i - was);
          AddAdd(m, was - at, e.value, i - was, Members(Left(), depth));
          m := m + [e.value];
        } else if b[i] == CLOSE_BRACE {
          i := i + 1;
          AddLast(m, was - at, e.value, i - was);
          return Ok(m + [e.value]);
        } else {
          AddErr(m, was - at);
          return Err;
        }
      }
    }
  }

  /** `Json::parse`. */
  method ParseText(text: Text) returns (r: Result<Json>)
    ensures r == Parse(text)
  {
    hide Value, Blanks;
    var p := new P(text);
    assert text[0..] == text;
    p.Ws();
    ghost var at := p.i;
    var v := p.ValueAt(0);
    if v.Err? { return Err; }
    DropDrop(text, at, p.i - at);
    ghost var end := p.i;
    p.Ws();
    DropDrop(text, end, p.i - end);
    if p.i != |text| { return Err; }
    return v;
  }

  // ---------------------------------------------------------------- the printer

  /** What the array loop still has to write before element `i`: its comma, unless it is the first, and the rest. */
  ghost function ItemsFrom(items: seq<Json>, i: nat): Text
    requires i <= |items| && forall x <- items :: Printable(x)
  {
    if i == |items| then [] else if i == 0 then ItemsText(items) else [COMMA] + ItemsText(items[i..])
  }

  lemma ItemsFromStart(items: seq<Json>)
    requires forall x <- items :: Printable(x)
    ensures ItemsFrom(items, 0) == ItemsText(items)
  {
  }

  lemma ItemsFromEnd(items: seq<Json>)
    requires forall x <- items :: Printable(x)
    ensures ItemsFrom(items, |items|) == []
  {
  }

  lemma ItemsFromStep(items: seq<Json>, i: nat)
    requires i < |items| && forall x <- items :: Printable(x)
    ensures items[i] in items
    ensures ItemsFrom(items, i)
         == (if i > 0 then [COMMA] else []) + (ToJson(items[i]) + ItemsFrom(items, i + 1))
  {
    hide ToJson, Printable;
    var rest := items[i..];
    assert items[0..] == items && rest[1..] == items[i + 1..];
    var w := ToJson(items[i]);
    Unit(w);
    Unit(w + ItemsFrom(items, i + 1));
    if i + 1 < |items| { Assoc(w, [COMMA], ItemsText(items[i + 1..])); }
  }

  ghost function MembersFrom(members: seq<Member>, i: nat): Text
    requires i <= |members| && forall m <- members :: PrintableMember(m)
  {
    if i == |members| then [] else if i == 0 then MembersText(members) else [COMMA] + MembersText(members[i..])
  }

  lemma MembersFromStart(members: seq<Member>)
    requires forall m <- members :: PrintableMember(m)
    ensures MembersFrom(members, 0) == MembersText(members)
  {
  }

  lemma MembersFromEnd(members: seq<Member>)
    requires forall m <- members :: PrintableMember(m)
    ensures MembersFrom(members, |members|) == []
  {
  }

  lemma MembersFromStep(members: seq<Member>, i: nat)
    requires i < |members| && forall m <- members :: PrintableMember(m)
    ensures members[i] in members
    ensures MembersFrom(members, i)
         == (if i > 0 then [COMMA] else []) + (MemberText(members[i]) + MembersFrom(members, i + 1))
  {
    hide MemberText, PrintableMember;
    var rest := members[i..];
    assert members[0..] == members && rest[1..] == members[i + 1..];
    var w := MemberText(members[i]);
    Unit(w);
    Unit(w + MembersFrom(members, i + 1));
    if i + 1 < |members| { Assoc(w, [COMMA], MembersText(members[i + 1..])); }
  }

  /** `write`: the printer appends to the text it is given. */
  method Write(v: Json, out: Text) returns (r: Text)
    requires Printable(v)
    ensures r == out + ToJson(v)
    decreases v, 1
  {
    hide ItemsText, MembersText, StringText, IntegerText, BuildOutput.FromUtf8;
    match v {
      case Null => r := out + Ascii("null");
      case Bool(b) => r := out + Ascii(if b then "true" else "false");
      case Num(x) => r := out + IntegerText(x.Floor);
      case Str(s) => r := WriteString(s, out);
      case Arr(items) =>
        r := WriteItems(items, out + [OPEN_BRACKET]);
        r := r + [CLOSE_BRACKET];
        Group4(out, [OPEN_BRACKET], ItemsText(items), [CLOSE_BRACKET]);
        Assoc([OPEN_BRACKET], ItemsText(items), [CLOSE_BRACKET]);
      case Obj(members) =>
        r := WriteMembers(members, out + [OPEN_BRACE]);
        r := r + [CLOSE_BRACE];
        Group4(out, [OPEN_BRACE], MembersText(members), [CLOSE_BRACE]);
        Assoc([OPEN_BRACE], MembersText(members), [CLOSE_BRACE]);
    }
  }

  /** The elements of an array, a comma before each but the first. */
  method WriteItems(items: seq<Json>, out: Text) returns (r: Text)
    requires forall x <- items :: Printable(x)
    ensures r == out + ItemsText(items)
    decreases items, 0
  {
    hide ItemsText, Printable, ToJson, ItemsFrom;
    r := out;
    ItemsFromStart(items);
    for i := 0 to |items|
      invariant r + ItemsFrom(items, i) == out + ItemsText(items)
    {
      ItemsFromStep(items, i);
      ghost var before := r;
      if i > 0 { r := r + [COMMA]; } else { Unit(r); }
      ghost var mid := r;
      r := Write(items[i], r);
      Assoc(before, if i > 0 then [COMMA] else [], ToJson(items[i]) + ItemsFrom(items, i + 1));
      Assoc(mid, ToJson(items[i]), ItemsFrom(items, i + 1));
    }
    ItemsFromEnd(items);
    Unit(r);
  }

  /** The members of an object, a comma before each but the first. */
  method WriteMembers(members: seq<Member>, out: Text) returns (r: Text)
    requires forall m <- members :: PrintableMember(m)
    ensures r == out + MembersText(members)
    decreases members, 0
  {
    hide MembersText, MembersFrom;
    r := out;
    MembersFromStart(members);
    for i := 0 to |members|
      invariant r + MembersFrom(members, i) == out + MembersText(members)
    {
      MembersFromStep(members, i);
      ghost var before := r;
      if i > 0 { r := r + [COMMA]; } else { Unit(r); }
      ghost var mid := r;
      r := WriteMember(members[i], r);
      Assoc(before, if i > 0 then [COMMA] else [], MemberText(members[i]) + MembersFrom(members, i + 1));
      Assoc(mid, MemberText(members[i]), MembersFrom(members, i + 1));
    }
    MembersFromEnd(members);
    Unit(r);
  }

  method WriteMember(m: Member, out: Text) returns (r: Text)
    requires PrintableMember(m)
    ensures r == out + MemberText(m)
    decreases m, 0
  {
    hide StringText, ToJson, Printable, BuildOutput.FromUtf8;
    r := WriteString(m.key, out);
    r := r + [COLON];
    r := Write(m.value, r);
    Group4(out, StringText(m.key), [COLON], ToJson(m.value));
    Assoc(StringText(m.key), [COLON], ToJson(m.value));
  }

  /** `write_str`. */
  method WriteString(s: Text, out: Text) returns (r: Text)
    ensures r == out + StringText(s)
  {
    hide EscapeByte;
    r := out + [QUOTE];
    for i := 0 to |s|
      invariant r + Escape(s[i..]) == out + [QUOTE] + Escape(s)
    {
      assert s[i..][1..] == s[i + 1..];
      Assoc(r, EscapeByte(s[i]), Escape(s[i + 1..]));
      r := r + EscapeByte(s[i]);
    }
    Unit(r);
    Assoc(out, [QUOTE], Escape(s));
    r := r + [QUOTE];
    Assoc(out, [QUOTE] + Escape(s), [QUOTE]);
  }
}
