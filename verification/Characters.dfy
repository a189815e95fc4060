/** Characters and numerals, as several modules read them. */
module Characters {
  function LowerChar(c: char): char {
    if 'A' <= c <= 'Z' then (c as int + 32) as char else c
  }

  function Lower(s: string): (r: string)
    ensures |r| == |s|
  {
    seq(|s|, i requires 0 <= i < |s| => LowerChar(s[i]))
  }

  predicate Numeral(s: string) {
    forall i | 0 <= i < |s| :: '0' <= s[i] <= '9'
  }

  /** What a decimal numeral stands for; nothing at all stands for 0. */
  function Decimal(s: string): nat
    requires Numeral(s)
  {
    if s == "" then 0 else 10 * Decimal(s[..|s| - 1]) + (s[|s| - 1] as int - '0' as int)
  }

  function DigitChar(v: nat): char
    requires v < 10
  {
    "0123456789"[v]
  }

  /** A number in decimal digits. */
  function Digits(n: nat): (r: string)
    ensures r != ""
  {
    if n < 10 then [DigitChar(n)] else Digits(n / 10) + [DigitChar(n % 10)]
  }

  function Zeros(k: nat): (r: string)
    ensures |r| == k && forall i :: 0 <= i < k ==> r[i] == '0'
  {
    if k == 0 then "" else Zeros(k - 1) + "0"
  }

  /** The text is the number's digits, with zeros in front. */
  ghost predicate WritesNumber(d: string, n: nat) {
    exists k: nat :: d == Zeros(k) + Digits(n)
  }

  lemma DigitsStep(n: nat)
    ensures n < 10 ==> Digits(n) == [DigitChar(n)]
    ensures n >= 10 ==> Digits(n) == Digits(n / 10) + [DigitChar(n % 10)]
  {
  }

  lemma DigitIs(c: char, v: nat)
    requires v < 10
    ensures c == DigitChar(v) <==> '0' <= c <= '9' && c as int - '0' as int == v
  {
  }

  lemma NumeralStep(d: string, n: nat)
    requires d != ""
    ensures Numeral(d) && Decimal(d) == n <==>
            && Numeral(d[..|d| - 1]) && Decimal(d[..|d| - 1]) == n / 10 && d[|d| - 1] == DigitChar(n % 10)
  {
    hide *;
    NumeralFront(d);
    DigitIs(d[|d| - 1], n % 10);
    DecimalStep(d);
    if Numeral(d) {
      TenTimes(n, Decimal(d[..|d| - 1]), d[|d| - 1] as int - '0' as int);
    }
  }

  lemma TenTimes(n: nat, a: nat, v: int)
    requires 0 <= v < 10
    ensures n == 10 * a + v <==> a == n / 10 && v == n % 10
  {
  }

  lemma NumeralFront(d: string)
    requires d != ""
    ensures Numeral(d) <==> Numeral(d[..|d| - 1]) && '0' <= d[|d| - 1] <= '9'
  {
    var front := d[..|d| - 1];
    assert forall i :: 0 <= i < |front| ==> front[i] == d[i];
  }

  lemma DecimalStep(d: string)
    requires d != ""
    ensures Numeral(d) && Numeral(d[..|d| - 1]) ==>
              Decimal(d) == 10 * Decimal(d[..|d| - 1]) + (d[|d| - 1] as int - '0' as int)
  {
  }

  lemma OneDigit(last: char, n: nat)
    ensures WritesNumber([last], n) <==> n < 10 && last == DigitChar(n)
  {
    DigitsStep(n);
    hide Digits;
    if k: nat :| [last] == Zeros(k) + Digits(n) {
      assert k == 0 && Zeros(0) == "" && [last] == Digits(n);
    }
    if n < 10 && last == DigitChar(n) {
      assert [last] == Zeros(0) + Digits(n);
    }
  }

  lemma Regrouped(a: string, b: string, c: string)
    ensures (a + b) + c == a + (b + c) && (a + b)[..|a|] == a && (a + b)[|a|..] == b
  {
  }

  lemma DigitMore(front: string, last: char, n: nat)
    requires WritesNumber(front, n / 10) && last == DigitChar(n % 10)
    ensures WritesNumber(front + [last], n)
  {
    DigitsStep(n);
    DigitsStep(n / 10);
    var k: nat :| front == Zeros(k) + Digits(n / 10);
    hide Digits;
    if n < 10 {
      assert front + [last] == Zeros(k + 1) + Digits(n);
    } else {
      Regrouped(Zeros(k), Digits(n / 10), [last]);
    }
  }

  lemma DigitLess(front: string, last: char, n: nat)
    requires WritesNumber(front + [last], n) && front != ""
    ensures WritesNumber(front, n / 10) && last == DigitChar(n % 10)
  {
    DigitsStep(n);
    DigitsStep(n / 10);
    var k: nat :| front + [last] == Zeros(k) + Digits(n);
    hide Digits;
    Regrouped(front, [last], "");
    if n < 10 {
      Regrouped(Zeros(k), [DigitChar(n)], "");
      assert front == Zeros(k) == Zeros(k - 1) + Digits(n / 10);
    } else {
      Regrouped(Zeros(k), Digits(n / 10), [DigitChar(n % 10)]);
      Regrouped(Zeros(k) + Digits(n / 10), [DigitChar(n % 10)], "");
      assert |front| == |Zeros(k) + Digits(n / 10)|;
    }
  }

  /** A numeral stands for the number whose writing it is, but for zeros in front. */
  lemma {:induction false} NumeralIff(d: string, n: nat)
    requires d != ""
    ensures Numeral(d) && Decimal(d) == n <==> WritesNumber(d, n)
    decreases |d|
  {
    var front, last := d[..|d| - 1], d[|d| - 1];
    NumeralStep(d, n);
    assert d == front + [last];
    if front == "" {
      hide Decimal, WritesNumber;
      NothingIsZero();
      OneDigit(last, n);
    } else {
      hide Decimal, WritesNumber, Numeral;
      NumeralIff(front, n / 10);
      if WritesNumber(d, n) { DigitLess(front, last, n); }
      if WritesNumber(front, n / 10) && last == DigitChar(n % 10) { DigitMore(front, last, n); }
    }
  }

  lemma NothingIsZero()
    ensures Numeral("") && Decimal("") == 0
  {
  }
}
