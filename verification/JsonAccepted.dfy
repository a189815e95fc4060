/** The parser reads a text as a value exactly when it spells that value and nests no deeper than allowed. */
module JsonAccepted {
  import opened Bytes
  import opened JsonText
  import opened JsonGrammar
  import opened JsonReads

  /** What is read, and how much of the text spells it. */
  ghost predicate Spells(t: Spelling, s: Text, v: Json, n: nat) {
    Good(t) && n <= |s| && s[..n] == TextOf(t) && Means(t) == v
  }

  lemma WordIs(s: Text, depth: nat) returns (t: Spelling)
    requires s != [] && s[0] in {110, 116, 102} && Value(s, depth).Ok?
    ensures var (v, n) := Value(s, depth).value;
            Spells(t, s, v, n) && depth + Height(v) <= MAX_DEPTH
  {
    var (v, n) := Value(s, depth).value;
    t := Word(v);
    assert SpelledWord(v) <= s && n == |SpelledWord(v)|;
  }

  lemma NumberIs(s: Text, depth: nat) returns (t: Spelling)
    requires s != [] && (s[0] == MINUS || Digit(s[0])) && Value(s, depth).Ok?
    ensures var (v, n) := Value(s, depth).value;
            Spells(t, s, v, n) && depth + Height(v) <= MAX_DEPTH
  {
    hide Value, Number, NumeralMeans, NumeralText, FiniteLimit, GoodNumeral;
    NumberValueIs(s, depth);
    var negative, whole, fraction, power := NumberIsNumeral(s);
    t := Numeral(negative, whole, fraction, power);
    NumeralIs(t);
  }

  lemma StringIs(s: Text, depth: nat) returns (t: Spelling)
    requires s != [] && s[0] == QUOTE && Value(s, depth).Ok?
    ensures var (v, n) := Value(s, depth).value;
            Spells(t, s, v, n) && depth + Height(v) <= MAX_DEPTH
  {
    hide StringValue, GoodText, QuotedText, PartsMean, GoodParts;
    var parts := StringIsQuoted(s);
    t := Quoted(parts);
    QuotedIs(parts);
  }

  lemma QuotedIs(parts: seq<Part>)
    requires GoodText(parts)
    ensures GoodParts(parts) && Good(Quoted(parts)) && TextOf(Quoted(parts)) == QuotedText(parts)
    ensures Means(Quoted(parts)) == Str(PartsMean(parts))
  {
    hide QuotedText, PartsMean;
  }

  lemma {:induction false} ValueIs(s: Text, depth: nat) returns (t: Spelling)
    requires Value(s, depth).Ok?
    ensures var (v, n) := Value(s, depth).value;
            Spells(t, s, v, n) && depth + Height(v) <= MAX_DEPTH
    decreases |s|, 1
  {
    assert s != [] && depth <= MAX_DEPTH;
    hide Spells, Height, Items, Members;
    if s[0] in {110, 116, 102} {
      t := WordIs(s, depth);
    } else if s[0] == QUOTE {
      t := StringIs(s, depth);
    } else if s[0] == OPEN_BRACKET {
      t := ArrayIs(s, depth);
    } else if s[0] == OPEN_BRACE {
      t := ObjectIs(s, depth);
    } else {
      t := NumberIs(s, depth);
    }
  }

  lemma ListedIs(gap: Text, items: seq<Spaced>)
    requires Blank(gap) && (items != [] ==> gap == []) && GoodItems(items)
    ensures Good(Listed(gap, items)) && Means(Listed(gap, items)) == Arr(ItemsMean(items))
    ensures TextOf(Listed(gap, items)) == [OPEN_BRACKET] + (gap + SpacedTexts(items)) + [CLOSE_BRACKET]
    ensures Height(Arr(ItemsMean(items))) == ItemsHeight(ItemsMean(items)) && ItemsHeight([]) == 0
  {
    hide GoodItems, SpacedTexts, ItemsMean, Blank;
  }

  lemma NoItems()
    ensures GoodItems([]) && SpacedTexts([]) == [] && ItemsMean([]) == []
  {
  }

  lemma SpellsIs(t: Spelling, s: Text, v: Json, n: nat)
    ensures Spells(t, s, v, n) <==> Good(t) && n <= |s| && s[..n] == TextOf(t) && Means(t) == v
  {
    hide Good, TextOf, Means;
  }

  lemma {:induction false} ArrayIs(s: Text, depth: nat) returns (t: Spelling)
    requires s != [] && s[0] == OPEN_BRACKET && Value(s, depth).Ok?
    ensures var (v, n) := Value(s, depth).value;
            Spells(t, s, v, n) && depth + Height(v) <= MAX_DEPTH
    decreases |s|, 0
  {
    hide *;
    var rest := s[1..];
    assert s == [OPEN_BRACKET] + rest;
    ArrayOpens(rest, depth);
    SkipIs(rest);
    BlanksAreBlank(rest);
    if Skip(rest) != [] && Skip(rest)[0] == CLOSE_BRACKET {
      var gap := rest[..Blanks(rest)];
      t := Listed(gap, []);
      NoItems();
      ListedIs(gap, []);
      Unit(gap);
      Cut(rest, |gap|, 1);
      assert rest[|gap|..][..1] == [CLOSE_BRACKET];
      Cut(s, 1, |gap| + 1);
      assert s[..1] == [OPEN_BRACKET];
      Assoc([OPEN_BRACKET], gap, [CLOSE_BRACKET]);
      SpellsIs(t, s, Arr([]), 2 + |gap|);
    } else {
      var items := ItemsAre(rest, depth);
      var (vs, n) := Items(rest, depth).value;
      t := Listed([], items);
      BlankNone();
      ListedIs([], items);
      Unit(SpacedTexts(items));
      Cut(s, 1, n);
      assert s[..1] == [OPEN_BRACKET];
      Assoc([OPEN_BRACKET], SpacedTexts(items), [CLOSE_BRACKET]);
      SpellsIs(t, s, Arr(vs), 1 + n);
    }
  }

  lemma BlankNone()
    ensures Blank([])
  {
  }

  lemma {:induction false} ItemIs(s: Text, depth: nat) returns (i: Spaced)
    requires OneItem(s, depth).Ok?
    ensures var (v, n) := OneItem(s, depth).value;
            && GoodSpaced(i) && Good(i.s) && n <= |s| && s[..n] == SpacedText(i) && Means(i.s) == v
            && depth + 1 + Height(v) <= MAX_DEPTH
    decreases |s|, 2
  {
    hide *;
    ItemStep(s, depth);
    var a := Blanks(s);
    var t := ValueIs(s[a..], depth + 1);
    var (v, n) := Value(s[a..], depth + 1).value;
    SpellsIs(t, s[a..], v, n);
    var b := Blanks(s[a + n..]);
    i := Spaced(s[..a], t, s[a + n..][..b]);
    BlanksAreBlank(s);
    BlanksAreBlank(s[a + n..]);
    Cut(s, a, n);
    Cut(s, a + n, b);
    GoodSpacedIs(i);
    SpacedIs(i);
  }

  lemma GoodSpacedIs(i: Spaced)
    requires Blank(i.before) && Good(i.s) && Blank(i.after)
    ensures GoodSpaced(i)
  {
    hide Good, Blank;
  }

  lemma ItemsWith(i: Spaced, more: seq<Spaced>)
    requires GoodSpaced(i) && Good(i.s) && GoodItems(more)
    ensures GoodItems([i] + more) && ItemsMean([i] + more) == [Means(i.s)] + ItemsMean(more)
    ensures SpacedTexts([i] + more)
         == if more == [] then SpacedText(i) else SpacedText(i) + [COMMA] + SpacedTexts(more)
  {
    hide SpacedText, Means, Good, Blank, SpacedTexts, ItemsMean, GoodItems;
    assert ([i] + more)[0] == i && ([i] + more)[1..] == more;
    GoodItemsIs([i] + more);
    ItemsUnfold([i] + more);
  }

  lemma GoodItemsIs(items: seq<Spaced>)
    requires items != []
    ensures GoodItems(items) <==> GoodSpaced(items[0]) && GoodItems(items[1..])
  {
    hide GoodSpaced;
  }

  lemma {:induction false} ItemsAre(s: Text, depth: nat) returns (items: seq<Spaced>)
    requires Items(s, depth).Ok?
    ensures var (vs, n) := Items(s, depth).value;
            && items != [] && GoodItems(items) && n <= |s| && s[..n] == SpacedTexts(items) + [CLOSE_BRACKET]
            && ItemsMean(items) == vs && depth + ItemsHeight(vs) <= MAX_DEPTH
    decreases |s|, 3
  {
    hide *;
    Marks();
    ItemsStep(s, depth);
    var i := ItemIs(s, depth);
    var (v, n) := OneItem(s, depth).value;
    if s[n] == COMMA {
      AddedIs(v, n + 1, Items(s[n + 1..], depth));
      var more := ItemsAre(s[n + 1..], depth);
      var (vs, m) := Items(s[n + 1..], depth).value;
      items := [i] + more;
      ItemsWith(i, more);
      ItemsHeights(v, vs);
      MaxIs(1 + Height(v), ItemsHeight(vs));
      Cut(s, n, 1);
      assert s[n..][..1] == [COMMA];
      Cut(s, n + 1, m);
      Assoc(SpacedText(i) + [COMMA], SpacedTexts(more), [CLOSE_BRACKET]);
    } else {
      items := [i] + [];
      NoItems();
      ItemsWith(i, []);
      ItemsHeights(v, []);
      MaxIs(1 + Height(v), ItemsHeight([]));
      assert [v] + [] == [v];
      Cut(s, n, 1);
      assert s[n..][..1] == [CLOSE_BRACKET];
    }
  }

  lemma MaxIs(a: nat, b: nat)
    ensures Max(a, b) == a || Max(a, b) == b
  {
  }

  lemma AddedIs<T>(v: T, k: nat, r: Result<(seq<T>, nat)>)
    ensures AddItem(v, k, r) == if r.Err? then Err else Ok(([v] + r.value.0, k + r.value.1))
  {
  }

  lemma BracedIs(gap: Text, fields: seq<Field>)
    requires Blank(gap) && (fields != [] ==> gap == []) && GoodFields(fields)
    ensures Good(Braced(gap, fields)) && Means(Braced(gap, fields)) == Obj(FieldsMean(fields))
    ensures TextOf(Braced(gap, fields)) == [OPEN_BRACE] + (gap + FieldTexts(fields)) + [CLOSE_BRACE]
    ensures Height(Obj(FieldsMean(fields))) == MembersHeight(FieldsMean(fields)) && MembersHeight([]) == 0
  {
    hide GoodFields, FieldTexts, FieldsMean, Blank;
  }

  lemma NoFields()
    ensures GoodFields([]) && FieldTexts([]) == [] && FieldsMean([]) == []
  {
  }

  lemma {:induction false} ObjectIs(s: Text, depth: nat) returns (t: Spelling)
    requires s != [] && s[0] == OPEN_BRACE && Value(s, depth).Ok?
    ensures var (v, n) := Value(s, depth).value;
            Spells(t, s, v, n) && depth + Height(v) <= MAX_DEPTH
    decreases |s|, 0
  {
    hide *;
    var rest := s[1..];
    assert s == [OPEN_BRACE] + rest;
    ObjectOpens(rest, depth);
    SkipIs(rest);
    BlanksAreBlank(rest);
    if Skip(rest) != [] && Skip(rest)[0] == CLOSE_BRACE {
      var gap := rest[..Blanks(rest)];
      t := Braced(gap, []);
      NoFields();
      BracedIs(gap, []);
      Unit(gap);
      Cut(rest, |gap|, 1);
      assert rest[|gap|..][..1] == [CLOSE_BRACE];
      Cut(s, 1, |gap| + 1);
      assert s[..1] == [OPEN_BRACE];
      Assoc([OPEN_BRACE], gap, [CLOSE_BRACE]);
      SpellsIs(t, s, Obj([]), 2 + |gap|);
    } else {
      var fields := FieldsAre(rest, depth);
      var (ms, n) := Members(rest, depth).value;
      t := Braced([], fields);
      BlankNone();
      BracedIs([], fields);
      Unit(FieldTexts(fields));
      Cut(s, 1, n);
      assert s[..1] == [OPEN_BRACE];
      Assoc([OPEN_BRACE], FieldTexts(fields), [CLOSE_BRACE]);
      SpellsIs(t, s, Obj(ms), 1 + n);
    }
  }

  lemma GoodFieldIs(f: Field)
    requires Blank(f.before) && GoodText(f.key) && Blank(f.between) && GoodSpaced(f.value)
    ensures GoodField(f)
    ensures FieldText(f) == f.before + QuotedText(f.key) + f.between + [COLON] + SpacedText(f.value)
  {
    hide Blank, GoodText, GoodSpaced, QuotedText, SpacedText;
  }

  lemma {:induction false} FieldIsOne(s: Text, depth: nat) returns (f: Field)
    requires OneMember(s, depth).Ok?
    ensures var (m, n) := OneMember(s, depth).value;
            && GoodField(f) && n <= |s| && s[..n] == FieldText(f) && FieldMeans(f) == m
            && depth + 1 + Height(m.value) <= MAX_DEPTH
    decreases |s|, 2
  {
    hide *;
    MemberStep(s, depth);
    var a := Blanks(s);
    var key := StringIsQuoted(s[a..]);
    var (k, n) := StringValue(s[a..]).value;
    var b := Blanks(s[a + n..]);
    var c := a + n + b;
    var i := ItemIs(s[c + 1..], depth);
    var (v, m) := OneItem(s[c + 1..], depth).value;
    f := Field(s[..a], key, s[a + n..][..b], i);
    BlanksAreBlank(s);
    BlanksAreBlank(s[a + n..]);
    GoodFieldIs(f);
    FieldIs(f);
    Cut(s, a, n);
    Cut(s, a + n, b);
    Cut(s, c, 1);
    assert s[c..][..1] == [COLON];
    Cut(s, c + 1, m);
  }

  lemma FieldsWith(f: Field, more: seq<Field>)
    requires GoodField(f) && GoodFields(more)
    ensures GoodFields([f] + more) && FieldsMean([f] + more) == [FieldMeans(f)] + FieldsMean(more)
    ensures FieldTexts([f] + more) == if more == [] then FieldText(f) else FieldText(f) + [COMMA] + FieldTexts(more)
  {
    hide FieldText, FieldMeans, FieldTexts, FieldsMean, GoodFields, GoodField;
    assert ([f] + more)[0] == f && ([f] + more)[1..] == more;
    GoodFieldsIs([f] + more);
    FieldsUnfold([f] + more);
  }

  lemma GoodFieldsIs(fields: seq<Field>)
    requires fields != []
    ensures GoodFields(fields) <==> GoodField(fields[0]) && GoodFields(fields[1..])
  {
    hide GoodField;
  }

  lemma {:induction false} FieldsAre(s: Text, depth: nat) returns (fields: seq<Field>)
    requires Members(s, depth).Ok?
    ensures var (ms, n) := Members(s, depth).value;
            && fields != [] && GoodFields(fields) && n <= |s| && s[..n] == FieldTexts(fields) + [CLOSE_BRACE]
            && FieldsMean(fields) == ms && depth + MembersHeight(ms) <= MAX_DEPTH
    decreases |s|, 3
  {
    hide *;
    Marks();
    MembersStep(s, depth);
    var f := FieldIsOne(s, depth);
    var (v, n) := OneMember(s, depth).value;
    if s[n] == COMMA {
      AddedIs(v, n + 1, Members(s[n + 1..], depth));
      var more := FieldsAre(s[n + 1..], depth);
      var (ms, m) := Members(s[n + 1..], depth).value;
      fields := [f] + more;
      FieldsWith(f, more);
      MembersHeights(v, ms);
      MaxIs(1 + Height(v.value), MembersHeight(ms));
      Cut(s, n, 1);
      assert s[n..][..1] == [COMMA];
      Cut(s, n + 1, m);
      Assoc(FieldText(f) + [COMMA], FieldTexts(more), [CLOSE_BRACE]);
    } else {
      fields := [f] + [];
      NoFields();
      FieldsWith(f, []);
      MembersHeights(v, []);
      MaxIs(1 + Height(v.value), MembersHeight([]));
      assert [v] + [] == [v];
      Cut(s, n, 1);
      assert s[n..][..1] == [CLOSE_BRACE];
    }
  }

  /** A text that spells a value, with blanks around it. */
  ghost predicate SpellsWith(text: Text, before: Text, t: Spelling, after: Text) {
    Blank(before) && Good(t) && Blank(after) && text == before + TextOf(t) + after
  }

  lemma SpelledIsParsed(text: Text, before: Text, t: Spelling, after: Text)
    requires SpellsWith(text, before, t, after)
    ensures Parse(text) == if Height(Means(t)) <= MAX_DEPTH then Ok(Means(t)) else Err
  {
    hide Value, Good, TextOf, Means, Height;
    var w := TextOf(t);
    SpelledStarts(t);
    Assoc(before, w, after);
    BlanksAre(before, w + after);
    Split(before, w + after);
    assert Ends(after);
    SpelledReads(t, after, 0);
    Split(w, after);
    Unit(after);
    BlanksAre(after, []);
  }

  lemma ParsedIsSpelled(text: Text) returns (before: Text, t: Spelling, after: Text)
    requires Parse(text).Ok?
    ensures SpellsWith(text, before, t, after) && Means(t) == Parse(text).value && Height(Means(t)) <= MAX_DEPTH
  {
    hide *;
    ParseStep(text);
    var rest := Skip(text);
    t := ValueIs(rest, 0);
    var (v, n) := Value(rest, 0).value;
    SpellsIs(t, rest, v, n);
    before, after := text[..Blanks(text)], rest[n..];
    BlanksAreBlank(text);
    AllSkipped(after);
    SkipIs(text);
    Rejoined(text, Blanks(text));
    Rejoined(rest, n);
    Assoc(before, rest[..n], after);
    SpellsWithIs(text, before, t, after);
  }

  lemma Rejoined(s: Text, n: nat)
    requires n <= |s|
    ensures s == s[..n] + s[n..]
  {
  }

  lemma SpellsWithIs(text: Text, before: Text, t: Spelling, after: Text)
    requires Blank(before) && Good(t) && Blank(after) && text == before + TextOf(t) + after
    ensures SpellsWith(text, before, t, after)
  {
    hide Blank, Good, TextOf;
  }

  lemma AllSkipped(s: Text)
    requires Skip(s) == []
    ensures Blank(s)
  {
    BlanksAreBlank(s);
    assert s[..|s|] == s;
  }

  lemma ParseStep(text: Text)
    ensures Parse(text).Ok? ==>
              && Value(Skip(text), 0).Ok? && Parse(text).value == Value(Skip(text), 0).value.0
              && Skip(Skip(text)[Value(Skip(text), 0).value.1..]) == []
  {
    hide Value, Skip;
  }

  /**
    The parser reads a text as a value exactly when the text spells the value, blanks around its parts and all, and
    the value nests no deeper than allowed. Everything else is refused.
   */
  lemma ParseIff(text: Text, v: Json)
    ensures Parse(text) == Ok(v) <==>
            && Height(v) <= MAX_DEPTH
            && exists before: Text, t: Spelling, after: Text ::
                 SpellsWith(text, before, t, after) && Means(t) == v
  {
    hide Parse, Good, TextOf, Means, Height;
    if Parse(text) == Ok(v) {
      var before, t, after := ParsedIsSpelled(text);
    }
    if before: Text, t: Spelling, after: Text :| SpellsWith(text, before, t, after) && Means(t) == v {
      SpelledIsParsed(text, before, t, after);
    }
  }
}
