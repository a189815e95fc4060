/**
  The three wildcard matchers of the program and one meaning for all of them: a pattern matches a text when the text
  can be cut into one piece for each element of the pattern, in order, so that every piece fits its element. A `*`
  (or `**`) takes any piece; anything else takes one element.
 */
module Wildcards {
  import opened Bytes

  // ---------------------------------------------------------------- the meaning

  function Concat<T>(pieces: seq<seq<T>>): seq<T> {
    if pieces == [] then [] else pieces[0] + Concat(pieces[1..])
  }

  ghost predicate Tiles<P(!new), T(!new)>(fits: (P, seq<T>) -> bool, pattern: seq<P>, pieces: seq<seq<T>>) {
    |pieces| == |pattern| && forall i :: 0 <= i < |pattern| ==> fits(pattern[i], pieces[i])
  }

  ghost predicate Means<P(!new), T(!new)>(fits: (P, seq<T>) -> bool, pattern: seq<P>, text: seq<T>) {
    exists pieces: seq<seq<T>> :: Tiles(fits, pattern, pieces) && Concat(pieces) == text
  }

  lemma MeansNothing<P(!new), T(!new)>(fits: (P, seq<T>) -> bool, text: seq<T>)
    ensures Means(fits, [], text) <==> text == []
  {
    if text == [] {
      assert Tiles<P, T>(fits, [], []) && Concat<T>([]) == text;
    }
  }

  /** The first element of the pattern takes some beginning of the text. */
  lemma MeansFirst<P(!new), T(!new)>(fits: (P, seq<T>) -> bool, pattern: seq<P>, text: seq<T>)
    requires pattern != []
    ensures Means(fits, pattern, text)
      <==> exists n :: 0 <= n <= |text| && fits(pattern[0], text[..n]) && Means(fits, pattern[1..], text[n..])
  {
    if Means(fits, pattern, text) {
      var pieces :| Tiles(fits, pattern, pieces) && Concat(pieces) == text;
      var n := |pieces[0]|;
      assert text[..n] == pieces[0] && text[n..] == Concat(pieces[1..]);
      assert Tiles(fits, pattern[1..], pieces[1..]);
    }
    if n :| 0 <= n <= |text| && fits(pattern[0], text[..n]) && Means(fits, pattern[1..], text[n..]) {
      var rest :| Tiles(fits, pattern[1..], rest) && Concat(rest) == text[n..];
      var pieces := [text[..n]] + rest;
      assert pieces[1..] == rest;
      assert Tiles(fits, pattern, pieces) by {
        forall i | 0 <= i < |pattern| ensures fits(pattern[i], pieces[i]) {
          if i > 0 { assert pattern[i] == pattern[1..][i - 1]; }
        }
      }
      assert Concat(pieces) == text;
    }
  }

  /** A first element that takes exactly one element of the text. */
  lemma MeansOne<P(!new), T(!new)>(fits: (P, seq<T>) -> bool, pattern: seq<P>, text: seq<T>)
    requires pattern != []
    requires forall piece :: fits(pattern[0], piece) ==> |piece| == 1
    ensures Means(fits, pattern, text)
      <==> text != [] && fits(pattern[0], [text[0]]) && Means(fits, pattern[1..], text[1..])
  {
    MeansFirst(fits, pattern, text);
    if text != [] {
      assert text[..1] == [text[0]];
    }
  }

  // ---------------------------------------------------------------- `*` within one segment of a path

  const STAR: Byte := 42

  function ByteFits(): (Byte, Text) -> bool {
    (p, piece) => p == STAR || piece == [p]
  }

  predicate Glob(p: Text, s: Text) {
    if p == [] then s == []
    else if p[0] == STAR then exists n | 0 <= n <= |s| :: Glob(p[1..], s[n..])
    else s != [] && s[0] == p[0] && Glob(p[1..], s[1..])
  }

  lemma {:induction false} GlobIsItsMeaning(p: Text, s: Text)
    ensures Glob(p, s) <==> Means(ByteFits(), p, s)
    decreases |p|
  {
    if p == [] {
      MeansNothing(ByteFits(), s);
    } else if p[0] == STAR {
      MeansFirst(ByteFits(), p, s);
      forall n | 0 <= n <= |s| ensures Glob(p[1..], s[n..]) <==> Means(ByteFits(), p[1..], s[n..]) {
        GlobIsItsMeaning(p[1..], s[n..]);
      }
    } else {
      MeansOne(ByteFits(), p, s);
      if s != [] {
        GlobIsItsMeaning(p[1..], s[1..]);
      }
    }
  }

  // ---------------------------------------------------------------- `**` over the segments of a path

  const STARS: Text := [STAR, STAR]

  function SegmentFits(): (Text, seq<Text>) -> bool {
    (p, piece) => p == STARS || (|piece| == 1 && Glob(p, piece[0]))
  }

  predicate SegMatch(pattern: seq<Text>, path: seq<Text>) {
    if pattern == [] then path == []
    else if pattern[0] == STARS then exists n | 0 <= n <= |path| :: SegMatch(pattern[1..], path[n..])
    else path != [] && Glob(pattern[0], path[0]) && SegMatch(pattern[1..], path[1..])
  }

  lemma {:induction false} SegMatchIsItsMeaning(pattern: seq<Text>, path: seq<Text>)
    ensures SegMatch(pattern, path) <==> Means(SegmentFits(), pattern, path)
    decreases |pattern|
  {
    if pattern == [] {
      MeansNothing(SegmentFits(), path);
    } else if pattern[0] == STARS {
      MeansFirst(SegmentFits(), pattern, path);
      forall n | 0 <= n <= |path|
        ensures SegMatch(pattern[1..], path[n..]) <==> Means(SegmentFits(), pattern[1..], path[n..])
      {
        SegMatchIsItsMeaning(pattern[1..], path[n..]);
      }
    } else {
      MeansOne(SegmentFits(), pattern, path);
      if path != [] {
        SegMatchIsItsMeaning(pattern[1..], path[1..]);
      }
    }
  }

  // ---------------------------------------------------------------- branch filters

  function CharFits(): (char, string) -> bool {
    (p, piece) => p == '*' || (|piece| == 1 && (p == '?' || piece[0] == p))
  }

  predicate One(p: char, c: char) {
    p == '?' || p == c
  }

  predicate Stars(p: string) {
    forall i | 0 <= i < |p| :: p[i] == '*'
  }

  /**
    What the loop of `glob_match` decides from the position it is in: `star` is the last `*` it passed and `mark` the
    place in the text that star was last tried to stop at.
   */
  predicate Scan(p: string, t: string, pi: nat, ti: nat, star: Option<nat>, mark: nat)
    requires pi <= |p| && ti <= |t| && mark <= ti
    requires star.Some? ==> star.value < pi
    decreases if star.None? then |t| + 1 else |t| - mark, |p| - pi
  {
    if ti == |t| then Stars(p[pi..])
    else if pi < |p| && One(p[pi], t[ti]) then Scan(p, t, pi + 1, ti + 1, star, mark)
    else if pi < |p| && p[pi] == '*' then Scan(p, t, pi + 1, ti, Some(pi), ti)
    else if star.Some? then Scan(p, t, star.value + 1, mark + 1, star, mark + 1)
    else false
  }

  predicate GlobMatch(p: string, t: string) {
    Scan(p, t, 0, 0, None, 0)
  }

  /** The loop itself. */
  method RunGlobMatch(p: string, t: string) returns (r: bool)
    ensures r == GlobMatch(p, t)
  {
    var pi: nat, ti: nat, mark: nat := 0, 0, 0;
    var star: Option<nat> := None;
    while ti < |t|
      invariant pi <= |p| && ti <= |t| && mark <= ti
      invariant star.Some? ==> star.value < pi
      invariant GlobMatch(p, t) == Scan(p, t, pi, ti, star, mark)
      decreases if star.None? then |t| + 1 else |t| - mark, |p| - pi
    {
      if pi < |p| && One(p[pi], t[ti]) {
        pi, ti := pi + 1, ti + 1;
      } else if pi < |p| && p[pi] == '*' {
        star, mark := Some(pi), ti;
        pi := pi + 1;
      } else if star.Some? {
        pi, mark := star.value + 1, mark + 1;
        ti := mark;
      } else {
        return false;
      }
    }
    while pi < |p| && p[pi] == '*'
      invariant pi <= |p|
      invariant GlobMatch(p, t) == Stars(p[pi..])
    {
      assert p[pi..] == ['*'] + p[pi + 1..];
      pi := pi + 1;
    }
    r := pi == |p|;
    assert !r ==> p[pi..][0] != '*';
  }

  // ---------------------------------------------------------------- why one star is enough to come back to

  /** The same meaning, one element at a time. */
  predicate Fits(p: string, t: string) {
    if p == [] then t == []
    else if p[0] == '*' then exists n | 0 <= n <= |t| :: Fits(p[1..], t[n..])
    else t != [] && One(p[0], t[0]) && Fits(p[1..], t[1..])
  }

  lemma {:induction false} FitsIsItsMeaning(p: string, t: string)
    ensures Fits(p, t) <==> Means(CharFits(), p, t)
    decreases |p|
  {
    if p == [] {
      MeansNothing(CharFits(), t);
    } else if p[0] == '*' {
      MeansFirst(CharFits(), p, t);
      forall n | 0 <= n <= |t| ensures Fits(p[1..], t[n..]) <==> Means(CharFits(), p[1..], t[n..]) {
        FitsIsItsMeaning(p[1..], t[n..]);
      }
    } else {
      MeansOne(CharFits(), p, t);
      if t != [] {
        FitsIsItsMeaning(p[1..], t[1..]);
      }
    }
  }

  lemma {:induction false} StarsFitNothing(p: string)
    ensures Fits(p, []) <==> Stars(p)
  {
    if p != [] {
      StarsFitNothing(p[1..]);
      var none: string := [];
      assert none[0..] == none;
      assert Stars(p) <==> p[0] == '*' && Stars(p[1..]) by {
        if p[0] == '*' && Stars(p[1..]) {
          forall i | 0 <= i < |p| ensures p[i] == '*' { if i > 0 { assert p[1..][i - 1] == p[i]; } }
        }
      }
    }
  }

  /** A stretch without a star takes as many characters as it has. */
  lemma {:induction false} PlainStretch(q: string, rest: string, t: string)
    requires '*' !in q
    requires Fits(q + rest, t)
    ensures |q| <= |t| && Fits(rest, t[|q|..])
  {
    if q == [] {
      assert q + rest == rest && t[0..] == t;
    } else {
      assert (q + rest)[0] == q[0] && (q + rest)[1..] == q[1..] + rest;
      PlainStretch(q[1..], rest, t[1..]);
      assert t[1..][|q| - 1..] == t[|q|..];
    }
  }

  /** The pattern after the last star fits the text from `from` or from some later place. */
  predicate Later(p: string, t: string, star: Option<nat>, from: nat)
    requires star.Some? ==> star.value < |p|
  {
    star.Some? && exists k | from <= k <= |t| :: Fits(p[star.value + 1..], t[k..])
  }

  ghost predicate Place(p: string, t: string, pi: nat, ti: nat, star: Option<nat>, mark: nat) {
    && pi <= |p| && ti <= |t| && mark <= ti
    && (star.Some? ==>
          && star.value < pi
          && '*' !in p[star.value + 1..pi]
          && ti == mark + (pi - star.value - 1))
  }

  /** A star in front of the rest fits exactly when the rest fits here or later. */
  lemma StarStops(p: string, t: string, pi: nat, ti: nat)
    requires pi < |p| && p[pi] == '*' && ti <= |t|
    ensures Fits(p[pi..], t[ti..]) <==> exists k :: ti <= k <= |t| && Fits(p[pi + 1..], t[k..])
  {
    assert p[pi..][1..] == p[pi + 1..];
    assert Fits(p[pi..], t[ti..]) <==> exists n :: 0 <= n <= |t[ti..]| && Fits(p[pi + 1..], t[ti..][n..]);
    hide Fits;
    if k :| ti <= k <= |t| && Fits(p[pi + 1..], t[k..]) {
      assert t[ti..][k - ti..] == t[k..];
    }
    if n :| 0 <= n <= |t[ti..]| && Fits(p[pi + 1..], t[ti..][n..]) {
      assert t[ti..][n..] == t[ti + n..];
    }
  }

  /** A second star takes over: whatever an earlier stop of the first one could reach, this one can reach. */
  lemma NewStarIsEnough(p: string, t: string, pi: nat, ti: nat, star: Option<nat>, mark: nat)
    requires Place(p, t, pi, ti, star, mark)
    requires pi < |p| && p[pi] == '*'
    requires Later(p, t, star, mark + 1)
    ensures Fits(p[pi..], t[ti..])
  {
    hide Fits;
    var s := star.value;
    var k :| mark + 1 <= k <= |t| && Fits(p[s + 1..], t[k..]);
    var q := p[s + 1..pi];
    assert p[s + 1..] == q + p[pi..];
    PlainStretch(q, p[pi..], t[k..]);
    assert t[k..][|q|..] == t[k + |q|..];
    StarStops(p, t, pi, k + |q|);
    StarStops(p, t, pi, ti);
  }

  lemma OneStep(p: string, t: string, pi: nat, ti: nat)
    requires pi <= |p| && ti < |t| && (pi < |p| ==> p[pi] != '*')
    ensures Fits(p[pi..], t[ti..]) <==> pi < |p| && One(p[pi], t[ti]) && Fits(p[pi + 1..], t[ti + 1..])
  {
    if pi < |p| {
      assert p[pi..][1..] == p[pi + 1..] && t[ti..][1..] == t[ti + 1..];
    }
  }

  lemma {:induction false} ScanIsFits(p: string, t: string, pi: nat, ti: nat, star: Option<nat>, mark: nat)
    requires Place(p, t, pi, ti, star, mark)
    requires '*' !in t
    ensures Scan(p, t, pi, ti, star, mark) <==> Fits(p[pi..], t[ti..]) || Later(p, t, star, mark + 1)
    decreases if star.None? then |t| + 1 else |t| - mark, |p| - pi
  {
    hide Fits, Stars;
    if ti == |t| {
      assert t[ti..] == [];
      StarsFitNothing(p[pi..]);
      NothingLater(p, t, pi, star, mark);
    } else if pi < |p| && One(p[pi], t[ti]) {
      ScanIsFits(p, t, pi + 1, ti + 1, star, mark);
      OneStep(p, t, pi, ti);
    } else if pi < |p| && p[pi] == '*' {
      ScanIsFits(p, t, pi + 1, ti, Some(pi), ti);
      if Later(p, t, star, mark + 1) {
        NewStarIsEnough(p, t, pi, ti, star, mark);
      }
      StarStops(p, t, pi, ti);
    } else {
      OneStep(p, t, pi, ti);
      if star.Some? {
        ScanIsFits(p, t, star.value + 1, mark + 1, star, mark + 1);
      }
    }
  }

  /** At the end of the text a later stop of the star has too little text left. */
  lemma NothingLater(p: string, t: string, pi: nat, star: Option<nat>, mark: nat)
    requires Place(p, t, pi, |t|, star, mark)
    ensures !Later(p, t, star, mark + 1)
  {
    if Later(p, t, star, mark + 1) {
      var s := star.value;
      var k :| mark + 1 <= k <= |t| && Fits(p[s + 1..], t[k..]);
      assert p[s + 1..] == p[s + 1..pi] + p[pi..];
      PlainStretch(p[s + 1..pi], p[pi..], t[k..]);
    }
  }

  /** A first star in the text, met by a star of the pattern, is taken for a letter. */
  lemma {:induction false} LiteralRun(u: string, p: string, t: string, i: nat)
    requires '*' !in u && i <= |u| && u <= p && u <= t
    ensures Scan(p, t, i, i, None, 0) == Scan(p, t, |u|, |u|, None, 0)
    decreases |u| - i
  {
    if i < |u| {
      assert One(p[i], t[i]);
      LiteralRun(u, p, t, i + 1);
    }
  }

  lemma {:induction false} FitsItself(u: string, p: string, t: string)
    requires '*' !in u && Fits(p, t)
    ensures Fits(u + p, u + t)
  {
    if u == [] {
      assert u + p == p && u + t == t;
    } else {
      FitsItself(u[1..], p, t);
      assert (u + p)[1..] == u[1..] + p && (u + t)[1..] == u[1..] + t;
    }
  }

  /** The pattern that shows it: up to the star, then a star of its own, and one more character when the text ends. */
  function Blind(u: string, v: string): string {
    u + if v == [] then "*?" else "*"
  }

  lemma LoopRefusesBlind(u: string, v: string)
    requires '*' !in u
    ensures !GlobMatch(Blind(u, v), u + (['*'] + v))
  {
    var p, t, n := Blind(u, v), u + (['*'] + v), |u|;
    LiteralRun(u, p, t, 0);
    assert p[n] == '*' == t[n];
    assert Scan(p, t, n, n, None, 0) == Scan(p, t, n + 1, n + 1, None, 0);
    if v == [] {
      assert p[n + 1..] == "?" && "?"[0] != '*';
    }
  }

  lemma BlindFits(u: string, v: string)
    requires '*' !in u
    ensures Fits(Blind(u, v), u + (['*'] + v))
  {
    hide GlobMatch;
    var t := ['*'] + v;
    var none: string := [];
    if v == [] {
      assert t[0..] == t && t[1..] == none && "*?"[1..] == "?" && "?"[1..] == none;
      assert Fits("?", t);
      FitsItself(u, "*?", t);
    } else {
      assert "*"[1..] == none && t[|t|..] == none;
      assert Fits("*", t);
      FitsItself(u, "*", t);
    }
  }

  lemma StarInTextIsMissed(t: string)
    requires '*' in t
    ensures exists p :: GlobMatch(p, t) != Fits(p, t)
  {
    hide Fits, GlobMatch;
    var i := FirstStar(t);
    var u, v := t[..i], t[i + 1..];
    assert t == u + (['*'] + v);
    LoopRefusesBlind(u, v);
    BlindFits(u, v);
    assert GlobMatch(Blind(u, v), t) != Fits(Blind(u, v), t);
  }

  lemma {:induction false} FirstStar(t: string) returns (i: nat)
    requires '*' in t
    ensures i < |t| && t[i] == '*' && '*' !in t[..i]
  {
    if t[0] == '*' {
      i := 0;
    } else {
      var j := FirstStar(t[1..]);
      i := j + 1;
      assert t[..i] == [t[0]] + t[1..][..j];
    }
  }

  /** The loop decides what its filters mean on exactly the names that hold no `*` themselves. */
  lemma FilterIsItsMeaningIff(t: string)
    ensures (forall p :: GlobMatch(p, t) <==> Means(CharFits(), p, t)) <==> '*' !in t
  {
    if '*' in t {
      StarInTextIsMissed(t);
      var p :| GlobMatch(p, t) != Fits(p, t);
      FitsIsItsMeaning(p, t);
    } else {
      forall p ensures GlobMatch(p, t) <==> Means(CharFits(), p, t) {
        ScanIsFits(p, t, 0, 0, None, 0);
        assert p[0..] == p && t[0..] == t;
        FitsIsItsMeaning(p, t);
      }
    }
  }
}
