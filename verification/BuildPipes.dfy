/**
  The two pipes of a build (`run_build` in deploy-docker/src/buildx_run.rs): the chunks of both go, as they arrive,
  through one decoder with one carry. When each pipe is still shown as it would be alone.
 */
module BuildPipes {
  import opened Arrivals
  import opened Bytes
  import opened Utf8
  import BuildOutput

  datatype Pipe = Out | Err

  // ---------------------------------------------------------------- what the decoder takes at a time

  /** How many bytes the next piece has: a sequence, a part that is replaced, or what waits until the end. */
  function First(s: Text): (n: nat)
    requires s != []
    ensures 1 <= n <= |s|
  {
    match Look(s)
    case Good(n) => n
    case Bad(n) => n
    case Short => |s|
  }

  function Cuts(s: Text): seq<Text>
    decreases |s|
  {
    if s == [] then [] else [s[..First(s)]] + Cuts(s[First(s)..])
  }

  function ShownPiece(piece: Text): Text {
    if piece != [] && Look(piece).Good? then piece else REPLACEMENT
  }

  function ShownPieces(pieces: seq<Text>): Text {
    if pieces == [] then [] else ShownPiece(pieces[0]) + ShownPieces(pieces[1..])
  }

  /** The text shown is the pieces, one after the other. */
  lemma {:induction false} ShownIsPieces(s: Text)
    ensures Lossy(s) == ShownPieces(Cuts(s))
    decreases |s|
  {
    if s != [] {
      var n := First(s);
      ShownIsPieces(s[n..]);
      FirstIsLossy(s);
      hide Look, First, ShownPiece;
      assert Cuts(s)[1..] == Cuts(s[n..]);
    }
  }

  lemma FirstIsLossy(s: Text)
    requires s != []
    ensures Lossy(s) == ShownPiece(s[..First(s)]) + Lossy(s[First(s)..])
  {
    var n := First(s);
    LookIsTheStandard(s);
    if Look(s).Good? {
      BuildOutput.LossyKeeps(s, n);
    } else {
      assert MaximalSubpart(s, n) by { assert s[..|s|] == s; }
      BuildOutput.LossyReplaces(s, n);
    }
  }

  // ---------------------------------------------------------------- pieces and starts

  /** What may still become a sequence is not cut. */
  lemma StartIsNotCut(s: Text, m: nat)
    requires 2 <= m <= |s| && Starts(s[..m])
    ensures First(s) >= m
  {
    StartsIff(s[..m]);
  }

  /** Every part of a piece is the start of a sequence. */
  lemma PieceIsStart(s: Text, k: nat)
    requires s != [] && 1 <= k < First(s)
    ensures Starts(s[..k + 1])
  {
    StartsIff(s[..k + 1]);
  }

  /** Only the first byte of a piece can start a longer sequence. */
  lemma LeadIsFirst(s: Text, i: nat)
    requires s != [] && 1 <= i < First(s)
    ensures Width(s[i]) == 0
  {
  }

  /** The next piece of `t` is the one of `s`, if nothing that comes then could belong to it. */
  lemma SameFirst(s: Text, t: Text)
    requires s != [] && First(s) <= |t| && t[..First(s)] == s[..First(s)]
    requires Look(s).Good? || First(s) == |t| || !Starts(t[..First(s) + 1])
    ensures First(t) == First(s)
  {
    var n := First(s);
    assert forall i :: 0 <= i < n ==> t[i] == t[..n][i] == s[i];
    if n < |t| {
      StartsIff(t[..n + 1]);
    }
  }

  // ---------------------------------------------------------------- which pipe everything came from

  /** The pipe of every byte. */
  function Spread(pieces: seq<Text>, pipes: seq<Pipe>): (p: seq<Pipe>)
    requires |pieces| == |pipes|
    ensures |p| == |Joined(pieces)|
  {
    if pieces == [] then [] else seq(|pieces[0]|, _ => pipes[0]) + Spread(pieces[1..], pipes[1..])
  }

  /** What came from one of the pipes. */
  function Of<T>(xs: seq<T>, pipes: seq<Pipe>, pipe: Pipe): (own: seq<T>)
    requires |xs| == |pipes|
  {
    if xs == [] then [] else (if pipes[0] == pipe then [xs[0]] else []) + Of(xs[1..], pipes[1..], pipe)
  }

  /** Every piece came from one pipe, and the pieces of each pipe are those it would be cut into alone. */
  ghost predicate EachItsOwn(s: Text, p: seq<Pipe>, pipes: seq<Pipe>)
    requires |p| == |s|
  {
    && |pipes| == |Cuts(s)| && Spread(Cuts(s), pipes) == p
    && forall pipe :: Of(Cuts(s), pipes, pipe) == Cuts(Of(s, p, pipe))
  }

  /** The text shown is an interleaving of the pipes' own lossy decodings, piece by piece. */
  ghost predicate Unmixed(s: Text, p: seq<Pipe>)
    requires |p| == |s|
  {
    exists pipes :: EachItsOwn(s, p, pipes)
  }

  /**
    The bytes from `i` on are of one pipe until a byte of the other pipe arrives at `k`, and they would go on either
    with that byte or with the next one of their own pipe.
   */
  ghost predicate Torn(s: Text, p: seq<Pipe>, i: nat, k: nat)
    requires |p| == |s|
  {
    && i < k < |s| && p[k] != p[i] && (forall j :: i <= j < k ==> p[j] == p[i])
    && (Starts(s[i..k] + [s[k]])
        || (var own := Of(s[k..], p[k..], p[i]); own != [] && Starts(s[i..k] + [own[0]])))
  }

  ghost predicate SomeTorn(s: Text, p: seq<Pipe>)
    requires |p| == |s|
  {
    exists i, k :: Torn(s, p, i, k)
  }

  lemma OfStep<T>(xs: seq<T>, pipes: seq<Pipe>, pipe: Pipe)
    requires xs != [] && |xs| == |pipes|
    ensures Of(xs, pipes, pipe) == (if pipes[0] == pipe then [xs[0]] else []) + Of(xs[1..], pipes[1..], pipe)
    ensures Of(xs, pipes, pipe) == if pipes[0] == pipe then [xs[0]] + Of(xs[1..], pipes[1..], pipe)
                                   else Of(xs[1..], pipes[1..], pipe)
  {
  }

  /** What one pipe sent first is in front of its own bytes, and the other pipe's are as if it had not come. */
  lemma {:induction false} OfFront(s: Text, p: seq<Pipe>, n: nat, b: Pipe, c: Pipe)
    requires n <= |s| == |p| && forall j :: 0 <= j < n ==> p[j] == b
    ensures Of(s, p, c) == if c == b then s[..n] + Of(s[n..], p[n..], c) else Of(s[n..], p[n..], c)
    decreases n
  {
    hide Of;
    if n == 0 {
      assert s[0..] == s && p[0..] == p;
      Unit(Of(s, p, c));
    } else {
      OfStep(s, p, c);
      OfFront(s[1..], p[1..], n - 1, b, c);
      var rest := Of(s[n..], p[n..], c);
      DropDrop(s, 1, n - 1);
      assert p[1..][n - 1..] == p[n..];
      assert s[..n] == [s[0]] + s[1..][..n - 1];
      Assoc([s[0]], s[1..][..n - 1], rest);
    }
  }

  lemma TornLater(s: Text, p: seq<Pipe>, n: nat, i: nat, k: nat)
    requires n <= i < k < |s| == |p|
    ensures Torn(s[n..], p[n..], i - n, k - n) <==> Torn(s, p, i, k)
  {
    var t, q := s[n..], p[n..];
    assert t[i - n..k - n] == s[i..k] && t[k - n] == s[k];
    assert t[k - n..] == s[k..] && q[k - n..] == p[k..];
    assert forall j :: i <= j < k ==> q[j - n] == p[j];
    if Torn(t, q, i - n, k - n) {
      assert forall j :: i <= j < k ==> p[j] == q[j - n];
    }
  }

  // ---------------------------------------------------------------- exactly when they stay apart

  lemma {:induction false} OnePipe(s: Text, p: seq<Pipe>, n: nat)
    requires s != [] && |p| == |s| && n <= First(s) && !SomeTorn(s, p)
    ensures forall j :: 0 <= j < n ==> p[j] == p[0]
    decreases n
  {
    if n > 1 {
      var k := n - 1;
      OnePipe(s, p, k);
      if p[k] != p[0] {
        PieceIsStart(s, k);
        assert s[0..k] + [s[k]] == s[..k + 1];
        assert Torn(s, p, 0, k);
      }
    }
  }

  /** The first piece is also the first of its own pipe. */
  lemma FirstOfItsOwn(s: Text, p: seq<Pipe>)
    requires s != [] && |p| == |s| && !SomeTorn(s, p)
    ensures var n, own := First(s), Of(s, p, p[0]);
            && (forall j :: 0 <= j < n ==> p[j] == p[0])
            && n <= |own| && First(own) == n && own[..n] == s[..n] && own[n..] == Of(s[n..], p[n..], p[0])
  {
    var n, b := First(s), p[0];
    OnePipe(s, p, n);
    OfFront(s, p, n, b, b);
    var rest := Of(s[n..], p[n..], b);
    var own := s[..n] + rest;
    Split(s[..n], rest);
    if rest != [] && !Look(s).Good? && Starts(own[..n + 1]) {
      assert own[..n + 1] == s[0..n] + [rest[0]];
      if p[n] == b {
        assert rest[0] == s[n];
        assert s[0..n] + [s[n]] == s[..n + 1];
        StartIsNotCut(s, n + 1);
      } else {
        assert Torn(s, p, 0, n);
      }
    }
    SameFirst(s, own);
  }

  lemma {:induction false} ApartUnlessTorn(s: Text, p: seq<Pipe>) returns (pipes: seq<Pipe>)
    requires |p| == |s| && !SomeTorn(s, p)
    ensures EachItsOwn(s, p, pipes)
    decreases |s|
  {
    if s == [] {
      pipes := [];
    } else {
      var n, b := First(s), p[0];
      var t, q := s[n..], p[n..];
      FirstOfItsOwn(s, p);
      forall i, k | Torn(t, q, i, k) ensures false {
        TornLater(s, p, n, n + i, n + k);
      }
      var rest := ApartUnlessTorn(t, q);
      pipes := [b] + rest;
      hide First, Torn;
      OwnAgain(s, p, n, b, rest);
    }
  }

  lemma CutsStep(s: Text)
    requires s != []
    ensures Cuts(s) == [s[..First(s)]] + Cuts(s[First(s)..])
    ensures Cuts(s)[0] == s[..First(s)] && Cuts(s)[1..] == Cuts(s[First(s)..])
  {
    hide First;
  }

  lemma OwnAgain(s: Text, p: seq<Pipe>, n: nat, b: Pipe, rest: seq<Pipe>)
    requires s != [] && |p| == |s| && n == First(s) && (forall j :: 0 <= j < n ==> p[j] == b)
    requires EachItsOwn(s[n..], p[n..], rest)
    requires var own := Of(s, p, b);
             n <= |own| && First(own) == n && own[..n] == s[..n] && own[n..] == Of(s[n..], p[n..], b)
    ensures EachItsOwn(s, p, [b] + rest)
  {
    hide First, Of, Cuts;
    var pipes, pieces := [b] + rest, Cuts(s);
    CutsStep(s);
    CutsStep(Of(s, p, b));
    assert pipes[1..] == rest;
    assert seq(n, _ => b) + p[n..] == p;
    forall pipe ensures Of(pieces, pipes, pipe) == Cuts(Of(s, p, pipe)) {
      OfFront(s, p, n, b, pipe);
      OfStep(pieces, pipes, pipe);
    }
  }

  /** The first piece of a text that is shown pipe by pipe, and the rest of it. */
  lemma OwnFirst(s: Text, p: seq<Pipe>, pipes: seq<Pipe>)
    requires s != [] && |p| == |s| && EachItsOwn(s, p, pipes)
    ensures var n := First(s);
            && (forall j :: 0 <= j < n ==> p[j] == p[0])
            && pipes != [] && EachItsOwn(s[n..], p[n..], pipes[1..])
            && Of(s, p, p[0]) != [] && First(Of(s, p, p[0])) == n
  {
    hide First, Of, Cuts;
    CutsStep(s);
    var n, b, pieces := First(s), pipes[0], Cuts(s);
    var rest := Spread(pieces[1..], pipes[1..]);
    assert p == seq(n, _ => b) + rest;
    assert p[n..] == rest && forall j :: 0 <= j < n ==> p[j] == b;
    var own := Of(s, p, b);
    OfStep(pieces, pipes, b);
    assert own != [] by { CutsNone(); }
    CutsStep(own);
    assert First(own) == |Cuts(own)[0]| == n;
    forall pipe ensures Of(pieces[1..], pipes[1..], pipe) == Cuts(Of(s[n..], p[n..], pipe)) {
      OfFront(s, p, n, b, pipe);
      OfStep(pieces, pipes, pipe);
      if pipe == b {
        Split(s[..n], Of(s[n..], p[n..], b));
        assert Cuts(own)[1..] == Of(pieces[1..], pipes[1..], b);
      }
    }
  }

  lemma CutsNone()
    ensures Cuts([]) == []
  {
  }

  lemma {:induction false} TornMixes(s: Text, p: seq<Pipe>, i: nat, k: nat, pipes: seq<Pipe>)
    requires |p| == |s| && EachItsOwn(s, p, pipes)
    ensures !Torn(s, p, i, k)
    decreases |s|
  {
    hide *;
    if Torn(s, p, i, k) {
      InRange(s, p, i, k);
      OwnFirst(s, p, pipes);
      if i < First(s) {
        TornFirst(s, p, i, k);
      } else {
        var n := First(s);
        TornLater(s, p, n, i, k);
        TornMixes(s[n..], p[n..], i - n, k - n, pipes[1..]);
      }
    }
  }

  lemma InRange(s: Text, p: seq<Pipe>, i: nat, k: nat)
    requires |p| == |s| && Torn(s, p, i, k)
    ensures i < k < |s|
  {
  }

  lemma TornFirst(s: Text, p: seq<Pipe>, i: nat, k: nat)
    requires |p| == |s| && Torn(s, p, i, k) && i < First(s)
    requires forall j :: 0 <= j < First(s) ==> p[j] == p[0]
    ensures Of(s, p, p[0]) == [] || First(Of(s, p, p[0])) != First(s)
  {
    hide First, Of, Starts;
    var n, b := First(s), p[0];
    var own := Of(s[k..], p[k..], b);
    StartsAtFirst(s, i, s[i..k], s[k]);
    if own != [] { StartsAtFirst(s, i, s[i..k], own[0]); }
    assert s[0..k] == s[..k] && s[..k] + [s[k]] == s[..k + 1];
    if Starts(s[..k + 1]) { StartIsNotCut(s, k + 1); }
    OneLess(s[..k], own[0]);
    if k >= 2 { StartIsNotCut(s, k); }
    OfFront(s, p, k, b, b);
    var all := Of(s, p, b);
    assert all[..k + 1] == s[..k] + [own[0]];
    StartIsNotCut(all, k + 1);
  }

  lemma OneLess(c: Text, x: Byte)
    requires c != [] && Starts(c + [x])
    ensures Starts(c)
  {
    var w :| WellFormed(w) && c + [x] <= w;
    assert c <= c + [x];
  }

  /** A longer sequence starts only where a piece starts. */
  lemma StartsAtFirst(s: Text, i: nat, c: Text, x: Byte)
    requires s != [] && i < First(s) && c != [] && c[0] == s[i]
    ensures Starts(c + [x]) ==> i == 0
  {
    StartsIff(c + [x]);
    if i > 0 { LeadIsFirst(s, i); }
  }

  /**
    However the chunks of the two pipes arrive: what is shown is an interleaving of what each pipe would show alone,
    piece by piece, exactly when no character of one pipe is torn by a byte of the other.
   */
  lemma PipesStayApartIff(chunks: seq<Text>, pipes: seq<Pipe>)
    requires |pipes| == |chunks|
    ensures var s, p := Joined(chunks), Spread(chunks, pipes);
            Unmixed(s, p) <==> !SomeTorn(s, p)
  {
    var s, p := Joined(chunks), Spread(chunks, pipes);
    if !SomeTorn(s, p) {
      var tags := ApartUnlessTorn(s, p);
    } else if Unmixed(s, p) {
      var tags :| EachItsOwn(s, p, tags);
      var i, k :| Torn(s, p, i, k);
      TornMixes(s, p, i, k, tags);
    }
  }

  /** Then the pieces of each pipe, put together, are the lossy decoding of what it sent. */
  lemma EachPipeReads(chunks: seq<Text>, pipes: seq<Pipe>) returns (tags: seq<Pipe>)
    requires |pipes| == |chunks| && !SomeTorn(Joined(chunks), Spread(chunks, pipes))
    ensures var s, p := Joined(chunks), Spread(chunks, pipes);
            && |tags| == |Cuts(s)| && Lossy(s) == ShownPieces(Cuts(s))
            && forall pipe :: ShownPieces(Of(Cuts(s), tags, pipe)) == Lossy(Of(s, p, pipe))
  {
    hide SomeTorn, Cuts, Of, ShownPieces, Lossy, Joined, Spread;
    var s, p := Joined(chunks), Spread(chunks, pipes);
    tags := ApartUnlessTorn(s, p);
    ShownIsPieces(s);
    forall pipe ensures ShownPieces(Of(Cuts(s), tags, pipe)) == Lossy(Of(s, p, pipe)) {
      ShownIsPieces(Of(s, p, pipe));
    }
  }

  /** One letter on the other pipe is enough: the two bytes of an e with an acute accent around an A. */
  lemma OneByteTears()
    ensures var chunks: seq<Text>, pipes := [[0xC3], [0x41], [0xA9]], [Out, Err, Out];
            !Unmixed(Joined(chunks), Spread(chunks, pipes))
  {
    var chunks: seq<Text>, pipes := [[0xC3], [0x41], [0xA9]], [Out, Err, Out];
    var s: Text, p: seq<Pipe> := [0xC3, 0x41, 0xA9], [Out, Err, Out];
    assert Joined(chunks) == s && Spread(chunks, pipes) == p;
    assert Of(s[1..], p[1..], Out) == [0xA9] by {
      assert s[1..] == [0x41, 0xA9] && p[1..] == [Err, Out];
      assert s[1..][1..] == [0xA9] && p[1..][1..] == [Out];
    }
    assert WellFormed([0xC3, 0xA9]) && s[0..1] + [0xA9] <= [0xC3, 0xA9];
    assert Torn(s, p, 0, 1);
    PipesStayApartIff(chunks, pipes);
  }
}
