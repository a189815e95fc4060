/** What the printer writes, the parser reads back, and it refuses exactly what nests too deep. */
module JsonRoundTrip {
  import opened Bytes
  import opened JsonText
  import opened JsonGrammar
  import opened JsonReads
  import opened JsonAccepted
  import BuildOutput
  import JournalFormat
  import Utf8

  // ---------------------------------------------------------------- strings

  /** How the printer spells one byte. */
  function PartOf(b: Byte): Part {
    if b == QUOTE || b == BACKSLASH then Short(b)
    else if b == 10 then Short(110)
    else if b == 13 then Short(114)
    else if b == 9 then Short(116)
    else if b < 0x20 then Code(JournalFormat.Hex(b, 4), b)
    else Raw(b)
  }

  function PartsOf(s: Text): seq<Part> {
    if s == [] then [] else [PartOf(s[0])] + PartsOf(s[1..])
  }

  lemma HexIsLower(b: Byte)
    ensures Writes4(JournalFormat.Hex(b, 4), b)
  {
    var h := JournalFormat.Hex(b, 4);
    hide JournalFormat.Hex;
    assert JournalFormat.LowerAll(h) == h;
  }

  lemma PartOfIs(b: Byte)
    ensures GoodPart(PartOf(b)) && PartText(PartOf(b)) == EscapeByte(b) && PartMeans(PartOf(b)) == [b]
  {
    HexIsLower(b);
    hide JournalFormat.Hex, Writes4;
  }

  lemma {:induction false} PartsOfIs(s: Text)
    ensures GoodParts(PartsOf(s)) && PartsText(PartsOf(s)) == Escape(s) && PartsMean(PartsOf(s)) == s
    decreases |s|
  {
    if s != [] {
      PartsOfIs(s[1..]);
      PartOfIs(s[0]);
      hide PartOf, GoodPart, PartText, PartMeans, EscapeByte;
      assert PartsOf(s)[1..] == PartsOf(s[1..]);
      assert [s[0]] + s[1..] == s;
    }
  }

  lemma QuotedOfIs(s: Text)
    requires BuildOutput.FromUtf8(s).Fine?
    ensures GoodText(PartsOf(s)) && QuotedText(PartsOf(s)) == StringText(s) && PartsMean(PartsOf(s)) == s
  {
    PartsOfIs(s);
    BuildOutput.FineIsValid(s);
    hide BuildOutput.FromUtf8, Utf8.Valid, PartsOf, PartsText, PartsMean, GoodParts, Escape;
  }

  lemma StringReadsBack(s: Text, post: Text)
    requires BuildOutput.FromUtf8(s).Fine?
    ensures StringValue(StringText(s) + post) == Ok((s, |StringText(s)|))
  {
    hide *;
    QuotedOfIs(s);
    QuotedReads(PartsOf(s), post);
  }

  // ---------------------------------------------------------------- numbers

  lemma {:induction false} DecimalReadsBack(n: nat)
    ensures DigitsValue(DecimalText(n)) == n
  {
    var r := DecimalText(n);
    if n >= 10 {
      DecimalReadsBack(n / 10);
      assert r[..|r| - 1] == DecimalText(n / 10);
    } else {
      assert r[..|r| - 1] == [];
    }
  }

  lemma {:induction false} Pow2Add(a: nat, b: nat)
    ensures Pow2(a + b) == Pow2(a) * Pow2(b)
  {
    if a > 0 { Pow2Add(a - 1, b); }
  }

  lemma {:induction false} Pow2AtLeast1(a: nat)
    ensures Pow2(a) >= 1.0
  {
    if a > 0 { Pow2AtLeast1(a - 1); }
  }

  /** Every integer the printer writes is well below the largest double. */
  lemma IntegersAreFinite()
    ensures FiniteLimit() > INTEGER_LIMIT as real
  {
    hide Pow2;
    Pow2Add(54, 970);
    Pow2AtLeast1(970);
    assert Pow2(54) == 18014398509481984.0 by { Pow2Of54(); }
    var p := Pow2(970);
    assert 18014398509481984.0 * p - p == 18014398509481983.0 * p;
  }

  lemma Pow2Of54()
    ensures Pow2(54) == 18014398509481984.0
  {
    assert Pow2(9) == 512.0 by { assert Pow2(3) == 8.0; Pow2Add(3, 6); Pow2Add(3, 3); }
    hide Pow2;
    Pow2Add(9, 9);
    Pow2Add(18, 9);
    Pow2Add(27, 27);
  }

  lemma IntegerIs(n: int)
    requires -INTEGER_LIMIT < n < INTEGER_LIMIT
    ensures var d := DecimalText(if n < 0 then -n else n);
            && GoodNumeral(d, [], NoPower) && NumeralText(n < 0, d, [], NoPower) == IntegerText(n)
            && NumeralMeans(d, [], NoPower) == (if n < 0 then -n else n) as real
            && NumeralMeans(d, [], NoPower) < FiniteLimit()
  {
    hide DigitsValue, FiniteLimit;
    var m: nat := if n < 0 then -n else n;
    var d := DecimalText(m);
    IntegersAreFinite();
    DecimalReadsBack(m);
    Unit(d);
    assert Pow10(0) == 1.0;
    hide DecimalText;
    Unit([]);
  }

  lemma NumberReadsBack(n: int, post: Text)
    requires -INTEGER_LIMIT < n < INTEGER_LIMIT && Ends(post)
    ensures Number(IntegerText(n) + post) == Ok((n as real, |IntegerText(n)|))
  {
    hide *;
    IntegerIs(n);
    NumeralReads(n < 0, DecimalText(if n < 0 then -n else n), [], NoPower, post);
  }

  // ---------------------------------------------------------------- values

  /** How the printer spells a value: no blanks, no power, no fraction. */
  function SpellingOf(v: Json): Spelling
    requires Printable(v)
    decreases v, 1
  {
    match v
    case Null => Word(v)
    case Bool(b) => Word(v)
    case Num(x) => Numeral(x.Floor < 0, DecimalText(if x.Floor < 0 then -x.Floor else x.Floor), [], NoPower)
    case Str(s) => Quoted(PartsOf(s))
    case Arr(items) => Listed([], ItemsOf(items))
    case Obj(members) => Braced([], FieldsOf(members))
  }

  function ItemsOf(items: seq<Json>): seq<Spaced>
    requires forall x <- items :: Printable(x)
    decreases items, 0
  {
    if items == [] then [] else [Spaced([], SpellingOf(items[0]), [])] + ItemsOf(items[1..])
  }

  function FieldsOf(members: seq<Member>): seq<Field>
    requires forall m <- members :: PrintableMember(m)
    decreases members, 0
  {
    if members == [] then []
    else
      assert PrintableMember(members[0]);
      [Field([], PartsOf(members[0].key), [], Spaced([], SpellingOf(members[0].value), []))] + FieldsOf(members[1..])
  }

  lemma {:induction false} PrintedSpells(v: Json)
    requires Printable(v)
    ensures var t := SpellingOf(v);
            Good(t) && TextOf(t) == ToJson(v) && Means(t) == v
    decreases v, 1
  {
    match v
    case Null =>
    case Bool(b) =>
    case Num(x) =>
      hide FiniteLimit, NumeralMeans, NumeralText, GoodNumeral, DecimalText, IntegerText;
      IntegerIs(x.Floor);
    case Str(s) =>
      QuotedOfIs(s);
      hide GoodText, QuotedText, PartsMean, PartsOf, StringText, GoodParts;
    case Arr(items) =>
      PrintedItems(items);
      ArrIs(items);
      hide *;
      BlankNone();
      ListedIs([], ItemsOf(items));
      Unit(ItemsText(items));
    case Obj(members) =>
      ObjIs(members);
      PrintedFields(members);
      hide *;
      BlankNone();
      BracedIs([], FieldsOf(members));
      Unit(MembersText(members));
  }

  lemma ArrIs(items: seq<Json>)
    requires Printable(Arr(items))
    ensures (forall x <- items :: Printable(x)) && SpellingOf(Arr(items)) == Listed([], ItemsOf(items))
    ensures ToJson(Arr(items)) == [OPEN_BRACKET] + ItemsText(items) + [CLOSE_BRACKET]
  {
    hide ItemsOf, ItemsText;
  }

  lemma ObjIs(members: seq<Member>)
    requires Printable(Obj(members))
    ensures (forall m <- members :: PrintableMember(m)) && SpellingOf(Obj(members)) == Braced([], FieldsOf(members))
    ensures ToJson(Obj(members)) == [OPEN_BRACE] + MembersText(members) + [CLOSE_BRACE]
  {
    hide FieldsOf, MembersText;
  }

  lemma {:induction false} PrintedItems(items: seq<Json>)
    requires forall x <- items :: Printable(x)
    ensures var ts := ItemsOf(items);
            GoodItems(ts) && SpacedTexts(ts) == ItemsText(items) && ItemsMean(ts) == items
    decreases items, 0
  {
    if items == [] {
    } else {
      var v := items[0];
      PrintedSpells(v);
      PrintedItems(items[1..]);
      var i := Spaced([], SpellingOf(v), []);
      var more := ItemsOf(items[1..]);
      assert ItemsOf(items) == [i] + more && (more == [] <==> |items| == 1);
      ItemsTextIs(items);
      hide *;
      BlankNone();
      GoodSpacedIs(i);
      SpacedIs(i);
      Unit(ToJson(v));
      ItemsWith(i, more);
      assert [v] + items[1..] == items;
    }
  }

  lemma ItemsTextIs(items: seq<Json>)
    requires items != [] && forall x <- items :: Printable(x)
    ensures ItemsText(items) == if |items| == 1 then ToJson(items[0])
                                else ToJson(items[0]) + [COMMA] + ItemsText(items[1..])
  {
    hide ToJson, Printable;
  }

  lemma MembersTextIs(members: seq<Member>)
    requires members != [] && forall m <- members :: PrintableMember(m)
    ensures MembersText(members) == if |members| == 1 then MemberText(members[0])
                                    else MemberText(members[0]) + [COMMA] + MembersText(members[1..])
  {
    hide MemberText, PrintableMember;
  }

  lemma PrintableMemberIs(m: Member)
    requires PrintableMember(m)
    ensures Printable(m.value) && BuildOutput.FromUtf8(m.key).Fine?
    ensures MemberText(m) == StringText(m.key) + [COLON] + ToJson(m.value)
  {
    hide Printable, BuildOutput.FromUtf8, StringText, ToJson;
  }

  lemma FieldsOfIs(members: seq<Member>)
    requires members != [] && forall m <- members :: PrintableMember(m)
    ensures Printable(members[0].value)
    ensures var m := members[0];
            (FieldsOf(members)
             == [Field([], PartsOf(m.key), [], Spaced([], SpellingOf(m.value), []))] + FieldsOf(members[1..]))
    ensures FieldsOf([]) == [] && (FieldsOf(members[1..]) == [] <==> |members| == 1)
  {
    assert PrintableMember(members[0]);
    hide Printable, SpellingOf, PartsOf;
  }

  lemma {:induction false} PrintedFields(members: seq<Member>)
    requires forall m <- members :: PrintableMember(m)
    ensures var fs := FieldsOf(members);
            GoodFields(fs) && FieldTexts(fs) == MembersText(members) && FieldsMean(fs) == members
    decreases members, 0
  {
    if members == [] {
    } else {
      hide *;
      var m := members[0];
      assert m in members;
      PrintableMemberIs(m);
      PrintedSpells(m.value);
      PrintedFields(members[1..]);
      FieldsOfIs(members);
      MembersTextIs(members);
      var i := Spaced([], SpellingOf(m.value), []);
      var f := Field([], PartsOf(m.key), [], i);
      QuotedOfIs(m.key);
      BlankNone();
      GoodSpacedIs(i);
      SpacedIs(i);
      Unit(ToJson(m.value));
      GoodFieldIs(f);
      FieldIs(f);
      Unit(StringText(m.key));
      FieldsWith(f, FieldsOf(members[1..]));
      assert [m] + members[1..] == members;
    }
  }

  /** A printed value is read with exactly its length, whatever may follow it, at every depth. */
  lemma ValueReadsBack(v: Json, post: Text, depth: nat)
    requires Printable(v) && Ends(post)
    ensures Value(ToJson(v) + post, depth) == Expected(v, |ToJson(v)|, depth, Height(v))
  {
    hide *;
    PrintedSpells(v);
    SpelledReads(SpellingOf(v), post, depth);
  }

  /**
    The round trip: whatever is printed is read back as itself, escapes, duplicate keys and their order included, if and
    only if it nests no deeper than the parser allows; anything deeper is refused.
   */
  lemma ParsePrints(v: Json)
    requires Printable(v)
    ensures Parse(ToJson(v)) == if Height(v) <= MAX_DEPTH then Ok(v) else Err
  {
    hide *;
    PrintedSpells(v);
    BlankNone();
    Unit(ToJson(v));
    SpellsWithIs(ToJson(v), [], SpellingOf(v), []);
    SpelledIsParsed(ToJson(v), [], SpellingOf(v), []);
  }

  /** Different values are printed differently. */
  lemma PrintingIsInjective(v: Json, w: Json)
    requires Printable(v) && Printable(w) && ToJson(v) == ToJson(w) && Height(v) <= MAX_DEPTH
    ensures v == w
  {
    hide ToJson, Parse;
    ParsePrints(v);
    ParsePrints(w);
  }
}
