/**
  UTF-8 as section 3.9 of the Unicode Standard defines it: the well-formed sequences (Table 3-7), and the
  lossy decoding that replaces each maximal subpart of an ill-formed sequence by U+FFFD. Text is kept as
  UTF-8 bytes, which is what a Rust string is.
 */
module Utf8 {
  import opened Bytes

  /** U+FFFD in UTF-8. */
  const REPLACEMENT: Text := [0xEF, 0xBF, 0xBD]

  // ---------------------------------------------------------------- what is well formed

  predicate Continuation(b: Byte) {
    0x80 <= b <= 0xBF
  }

  /** The second bytes that Table 3-7 allows after the lead byte `a` of a longer sequence. */
  predicate SecondOk(a: Byte, b: Byte) {
    if a == 0xE0 then 0xA0 <= b <= 0xBF
    else if a == 0xED then 0x80 <= b <= 0x9F
    else if a == 0xF0 then 0x90 <= b <= 0xBF
    else if a == 0xF4 then 0x80 <= b <= 0x8F
    else Continuation(b)
  }

  /** The length of the sequences that start with `a`; 0 when none does. */
  function Width(a: Byte): (w: nat)
    ensures w <= 4
  {
    if a < 0x80 then 1
    else if 0xC2 <= a <= 0xDF then 2
    else if 0xE0 <= a <= 0xEF then 3
    else if 0xF0 <= a <= 0xF4 then 4
    else 0
  }

  /** One whole well-formed sequence (Table 3-7). */
  predicate WellFormed(s: Text) {
    && 1 <= |s| == Width(s[0])
    && (|s| > 1 ==> SecondOk(s[0], s[1]))
    && forall i :: 2 <= i < |s| ==> Continuation(s[i])
  }

  /** The scalar value of a sequence (Table 3-6). */
  function CodePoint(s: Text): nat
    requires WellFormed(s)
  {
    if |s| == 1 then s[0]
    else if |s| == 2 then 64 * Payload(s[0], 0xC0) + Payload(s[1], 0x80)
    else if |s| == 3 then 64 * (64 * Payload(s[0], 0xE0) + Payload(s[1], 0x80)) + Payload(s[2], 0x80)
    else 64 * (64 * (64 * Payload(s[0], 0xF0) + Payload(s[1], 0x80)) + Payload(s[2], 0x80)) + Payload(s[3], 0x80)
  }

  /** A byte without the bits that mark its place in a sequence. */
  function Payload(b: Byte, mark: nat): nat
    requires b >= mark
  {
    b - mark
  }

  /** `p` is where some well-formed sequence starts. */
  ghost predicate Starts(p: Text) {
    exists w :: WellFormed(w) && p <= w
  }

  /** Concatenations of well-formed sequences. */
  ghost predicate Valid(s: Text)
    decreases |s|
  {
    s == [] || exists n :: 1 <= n <= |s| && WellFormed(s[..n]) && Valid(s[n..])
  }

  /** A maximal subpart (definition D93b): the longest start of a well-formed sequence, or one byte. */
  ghost predicate MaximalSubpart(s: Text, n: nat) {
    && 1 <= n <= |s|
    && (n == 1 || Starts(s[..n]))
    && (n == |s| || !Starts(s[..n + 1]))
  }

  // ---------------------------------------------------------------- how a decoder sees the next sequence

  /** The next sequence is `n` good bytes, `n` bytes to replace, or it ends too early to tell. */
  datatype Front = Good(n: nat) | Bad(n: nat) | Short

  /**
    `str::from_utf8` on the bytes after its last valid sequence: `Bad(n)` is `error_len() == Some(n)`, `Short` is
    `None`.
   */
  function Look(s: Text): (f: Front)
    requires s != []
    ensures f.Good? ==> 1 <= f.n <= |s|
    ensures f.Bad? ==> 1 <= f.n <= 3 && f.n <= |s|
    ensures f.Short? ==> |s| <= 3
  {
    var w := Width(s[0]);
    if w == 0 then Bad(1)
    else if w == 1 then Good(1)
    else if |s| < 2 then Short
    else if !SecondOk(s[0], s[1]) then Bad(1)
    else if w == 2 then Good(2)
    else if |s| < 3 then Short
    else if !Continuation(s[2]) then Bad(2)
    else if w == 3 then Good(3)
    else if |s| < 4 then Short
    else if !Continuation(s[3]) then Bad(3)
    else Good(4)
  }

  /** Some byte may follow each lead byte, so every checked start can be completed. */
  function Complete(p: Text): (w: Text)
    requires 1 <= |p| <= Width(p[0])
    requires |p| > 1 ==> SecondOk(p[0], p[1])
    requires forall i :: 2 <= i < |p| ==> Continuation(p[i])
    ensures WellFormed(w) && p <= w
    decreases 4 - |p|
  {
    if |p| == Width(p[0]) then p
    else if |p| == 1 then
      Complete(p + [if p[0] == 0xE0 then 0xA0 else if p[0] == 0xF0 then 0x90 else 0x80])
    else Complete(p + [0x80])
  }

  /** What it takes to start a well-formed sequence. */
  lemma StartsIff(p: Text)
    ensures Starts(p) <==>
            p == [] || (&& |p| <= Width(p[0])
                        && (|p| > 1 ==> SecondOk(p[0], p[1]))
                        && forall i :: 2 <= i < |p| ==> Continuation(p[i]))
  {
    if p == [] {
      assert WellFormed([0]) && p <= [0];
    } else if && |p| <= Width(p[0])
              && (|p| > 1 ==> SecondOk(p[0], p[1]))
              && forall i :: 2 <= i < |p| ==> Continuation(p[i]) {
      var w := Complete(p);
    }
  }

  /** The byte-by-byte view is the standard's: a good sequence, a maximal subpart, or a proper start. */
  lemma LookIsTheStandard(s: Text)
    requires s != []
    ensures Look(s).Good? ==> WellFormed(s[..Look(s).n])
    ensures Look(s).Bad? ==> MaximalSubpart(s, Look(s).n)
    ensures Look(s).Short? ==> Starts(s)
    ensures !Look(s).Good? ==> forall n :: 1 <= n <= |s| ==> !WellFormed(s[..n])
  {
    StartsIff(s);
    if Look(s).Bad? {
      var n := Look(s).n;
      StartsIff(s[..n]);
      if n < |s| { StartsIff(s[..n + 1]); }
    }
  }

  lemma MaximalSubpartUnique(s: Text, m: nat, n: nat)
    requires MaximalSubpart(s, m) && MaximalSubpart(s, n)
    ensures m == n
  {
  }

  lemma WellFormedUnique(s: Text, m: nat, n: nat)
    requires 1 <= m <= |s| && 1 <= n <= |s|
    requires WellFormed(s[..m]) && WellFormed(s[..n])
    ensures m == n
  {
    assert s[..m][0] == s[..n][0];
  }

  /** What comes first decides `Look`, however much follows. */
  lemma LookAhead(s: Text, t: Text)
    requires s != [] && !Look(s).Short?
    ensures Look(s + t) == Look(s)
  {
  }

  // ---------------------------------------------------------------- lossy decoding

  /** Decode all of `s` at once, each maximal subpart of an ill-formed sequence becoming U+FFFD. */
  ghost function Lossy(s: Text): (r: Text)
    decreases |s|
  {
    if s == [] then []
    else if w :| 1 <= w <= |s| && WellFormed(s[..w]) then s[..w] + Lossy(s[w..])
    else
      assert exists n :: MaximalSubpart(s, n) by {
        LookIsTheStandard(s);
        if Look(s).Short? { assert MaximalSubpart(s, |s|); }
      }
      var n: nat :| MaximalSubpart(s, n);
      REPLACEMENT + Lossy(s[n..])
  }
}
