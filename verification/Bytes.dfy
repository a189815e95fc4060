/** Bytes, and the few facts about byte strings that several modules share. */
module Bytes {
  type Byte = b: int | 0 <= b < 256
  type Text = seq<Byte>

  datatype Option<+T> = None | Some(value: T)

  const TAB: Byte := 9
  const NEWLINE: Byte := 10

  function Max(a: nat, b: nat): nat {
    if a < b then b else a
  }

  function AsciiByte(c: char): Byte
    requires c < 128 as char
  {
    c as int
  }

  /** The bytes of an ASCII literal. */
  function Ascii(s: string): (r: Text)
    requires forall i :: 0 <= i < |s| ==> s[i] < 128 as char
    ensures |r| == |s|
  {
    seq(|s|, i requires 0 <= i < |s| => AsciiByte(s[i]))
  }

  /** A number in decimal digits. */
  function DecimalText(n: nat): (r: Text)
    ensures r != [] && forall i :: 0 <= i < |r| ==> 48 <= r[i] <= 57
  {
    if n < 10 then [48 + n] else DecimalText(n / 10) + [48 + n % 10]
  }

  /** The index of the first `b` in `s`, or `|s|`. */
  function Find(s: Text, b: Byte): (r: nat)
    ensures r <= |s|
    ensures forall j :: 0 <= j < r ==> s[j] != b
    ensures r < |s| ==> s[r] == b
  {
    if s == [] || s[0] == b then 0 else 1 + Find(s[1..], b)
  }

  predicate White(b: Byte) {
    b == 32 || 9 <= b <= 13
  }

  function TrimStart(s: Text): Text {
    if s != [] && White(s[0]) then TrimStart(s[1..]) else s
  }

  function TrimEnd(s: Text): Text {
    if s != [] && White(s[|s| - 1]) then TrimEnd(s[..|s| - 1]) else s
  }

  /** `str::trim`, on texts whose white space is ASCII. */
  function Trim(s: Text): Text {
    TrimEnd(TrimStart(s))
  }

  predicate AllWhite(s: Text) {
    forall i :: 0 <= i < |s| ==> White(s[i])
  }

  /** No white space at either end. */
  predicate Trimmed(s: Text) {
    s == [] || (!White(s[0]) && !White(s[|s| - 1]))
  }

  lemma {:induction false} TrimFront(before: Text, s: Text)
    requires AllWhite(before)
    ensures TrimStart(before + s) == TrimStart(s)
    decreases |before|
  {
    if before == [] {
      Unit(s);
    } else {
      TrimFront(before[1..], s);
      assert (before + s)[0] == before[0] && (before + s)[1..] == before[1..] + s;
    }
  }

  lemma {:induction false} TrimBack(s: Text, after: Text)
    requires AllWhite(after)
    ensures TrimEnd(s + after) == TrimEnd(s)
    decreases |after|
  {
    if after == [] {
      Unit(s);
    } else {
      var n := |after| - 1;
      TrimBack(s, after[..n]);
      assert (s + after)[|s + after| - 1] == after[n] && (s + after)[..|s + after| - 1] == s + after[..n];
    }
  }

  /** White space around a text is not part of it. */
  lemma TrimPadded(before: Text, s: Text, after: Text)
    requires AllWhite(before) && Trimmed(s) && AllWhite(after)
    ensures Trim(before + s + after) == s
  {
    Assoc(before, s, after);
    TrimFront(before, s + after);
    if s == [] {
      Unit(after);
      Unit([]);
      TrimFront(after, []);
      assert after + [] == after;
    } else {
      assert (s + after)[0] == s[0];
      TrimBack(s, after);
    }
  }

  lemma {:induction false} TrimStartParts(s: Text) returns (before: Text)
    ensures AllWhite(before) && s == before + TrimStart(s)
    ensures TrimStart(s) == [] || !White(TrimStart(s)[0])
  {
    if s != [] && White(s[0]) {
      var more := TrimStartParts(s[1..]);
      before := [s[0]] + more;
      Assoc([s[0]], more, TrimStart(s));
      assert s == [s[0]] + s[1..];
    } else {
      before := [];
      Unit(s);
    }
  }

  lemma {:induction false} TrimEndParts(s: Text) returns (after: Text)
    ensures AllWhite(after) && s == TrimEnd(s) + after
    ensures TrimEnd(s) == [] || !White(TrimEnd(s)[|TrimEnd(s)| - 1])
  {
    if s != [] && White(s[|s| - 1]) {
      var n := |s| - 1;
      assert TrimEnd(s) == TrimEnd(s[..n]) && s == s[..n] + [s[n]];
      hide TrimEnd, White;
      var more := TrimEndParts(s[..n]);
      after := more + [s[n]];
      Assoc(TrimEnd(s), more, [s[n]]);
    } else {
      after := [];
      Unit(s);
    }
  }

  /** What trimming takes away is white space, and what it leaves has none at its ends. */
  lemma TrimParts(s: Text) returns (before: Text, after: Text)
    ensures AllWhite(before) && AllWhite(after) && Trimmed(Trim(s)) && s == before + Trim(s) + after
  {
    before := TrimStartParts(s);
    after := TrimEndParts(TrimStart(s));
    Assoc(before, Trim(s), after);
    if Trim(s) != [] { assert TrimStart(s)[0] == Trim(s)[0]; }
  }

  /** A text around one of its bytes. */
  lemma AroundAt(s: Text, k: nat)
    requires k < |s|
    ensures s == s[..k] + [s[k]] + s[k + 1..]
  {
  }

  lemma CutTwice(s: Text, k: nat, n: nat)
    requires k + n <= |s|
    ensures s == s[..k] + (s[k..k + n] + s[k + n..])
  {
  }

  /** Two takes side by side are one. */
  lemma Cut(s: Text, n: nat, m: nat)
    requires n + m <= |s|
    ensures s[..n] + s[n..][..m] == s[..n + m]
  {
  }

  lemma Assoc(a: Text, b: Text, c: Text)
    ensures (a + b) + c == a + (b + c)
  {
  }

  lemma Unit(a: Text)
    ensures a + [] == a && [] + a == a
  {
  }

  lemma Split(a: Text, b: Text)
    ensures (a + b)[..|a|] == a && (a + b)[|a|..] == b
  {
  }

  /** Concatenations are grouped to the right. */
  lemma Group4(a: Text, b: Text, c: Text, d: Text)
    ensures a + b + c + d == a + (b + (c + d))
  {
    Assoc(a + b, c, d);
    Assoc(a, b, c + d);
  }

  lemma Group5(a: Text, b: Text, c: Text, d: Text, e: Text)
    ensures a + b + c + d + e == a + (b + (c + d + e))
  {
    Group4(a, b, c, d);
    Assoc(a, b + (c + d), e);
    Assoc(b, c + d, e);
  }

  /** Dropping twice is dropping once. */
  lemma DropDrop(s: Text, n: nat, m: nat)
    requires n + m <= |s|
    ensures s[n..][m..] == s[n + m..]
  {
  }
}
