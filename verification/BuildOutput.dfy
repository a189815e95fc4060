/**
  The incremental decoder for build output (deploy-docker/src/buildx_run.rs): bytes arrive in arbitrary
  chunks, and the end of a chunk that may be the start of a character waits for the next one.
 */
module BuildOutput {
  import opened Arrivals
  import opened Bytes
  import opened Utf8

  // ---------------------------------------------------------------- what the decoder computes

  /** The text decided by `s`, and the bytes that must wait for more. */
  function Decode(s: Text): (r: (Text, Text))
    decreases |s|
  {
    if s == [] then ([], [])
    else
      match Look(s)
      case Good(n) => var r := Decode(s[n..]); (s[..n] + r.0, r.1)
      case Bad(n) => var r := Decode(s[n..]); (REPLACEMENT + r.0, r.1)
      case Short => ([], s)
  }

  /** `str::from_utf8`: fine, or valid up to `upTo` and then `errorLen` bad bytes (`None`: the input ends too early). */
  datatype Checked = Fine | Broken(upTo: nat, errorLen: Option<nat>)

  function FromUtf8(s: Text): (c: Checked)
    ensures c.Broken? ==> c.upTo < |s|
    decreases |s|
  {
    if s == [] then Fine
    else
      match Look(s)
      case Good(n) =>
        (match FromUtf8(s[n..])
         case Fine => Fine
         case Broken(u, e) => Broken(n + u, e))
      case Bad(n) => Broken(0, Some(n))
      case Short => Broken(0, None)
  }

  /** The flush at the end of the build: what still waits is decoded lossily. */
  function Flush(carry: Text): Text {
    if carry == [] then [] else REPLACEMENT
  }

  // ---------------------------------------------------------------- lemmas

  /** How the check and the decoder agree on `s`. */
  ghost predicate CheckTells(s: Text) {
    match FromUtf8(s)
    case Fine => Decode(s) == (s, [])
    case Broken(u, errorLen) =>
      && Decode(s) == (s[..u] + Decode(s[u..]).0, Decode(s[u..]).1)
      && match errorLen
         case Some(n) => Look(s[u..]) == Bad(n)
         case None => Look(s[u..]) == Short
  }

  lemma {:induction false} DecodeFromUtf8(s: Text)
    ensures CheckTells(s)
    decreases |s|
  {
    if s != [] && Look(s).Good? {
      DecodeFromUtf8(s[Look(s).n..]);
      hide CheckTells;
      GoodFirst(s, Look(s).n);
    } else if s != [] {
      hide Look;
      assert s[0..] == s;
      Unit(Decode(s).0);
    }
  }

  lemma GoodFirst(s: Text, n: nat)
    requires s != [] && Look(s) == Good(n) && CheckTells(s[n..])
    ensures CheckTells(s)
  {
    hide Decode, FromUtf8, Look;
    GoodStep(s, n);
    if FromUtf8(s[n..]).Fine? {
      assert s[..n] + s[n..] == s;
    } else {
      GoodThenBroken(s, n, FromUtf8(s[n..]).upTo);
    }
  }

  lemma GoodThenBroken(s: Text, n: nat, v: nat)
    requires n + v <= |s| && Decode(s) == (s[..n] + Decode(s[n..]).0, Decode(s[n..]).1)
    requires Decode(s[n..]) == (s[n..][..v] + Decode(s[n..][v..]).0, Decode(s[n..][v..]).1)
    ensures Decode(s) == (s[..n + v] + Decode(s[n + v..]).0, Decode(s[n + v..]).1)
    ensures s[n..][v..] == s[n + v..]
  {
    hide Decode;
    Cut(s, n, v);
    DropDrop(s, n, v);
    Assoc(s[..n], s[n..][..v], Decode(s[n + v..]).0);
  }

  lemma GoodStep(s: Text, n: nat)
    requires s != [] && Look(s) == Good(n)
    ensures Decode(s) == (s[..n] + Decode(s[n..]).0, Decode(s[n..]).1)
    ensures FromUtf8(s) == match FromUtf8(s[n..]) case Fine => Fine case Broken(u, e) => Broken(n + u, e)
  {
    hide Look;
  }

  /** Decoding in two steps, carrying what is undecided, is decoding at once. */
  lemma {:induction false} DecodeSplit(a: Text, b: Text)
    ensures var (o, carry) := Decode(a);
            Decode(a + b) == (o + Decode(carry + b).0, Decode(carry + b).1)
    decreases |a|
  {
    if a == [] {
      Unit(b);
      Unit(Decode(b).0);
    } else if Look(a).Short? {
      Unit(Decode(a + b).0);
    } else {
      var n := Look(a).n;
      DecodeSplit(a[n..], b);
      SharedFront(a, b);
      var (o, carry) := Decode(a[n..]);
      Assoc(if Look(a).Good? then a[..n] else REPLACEMENT, o, Decode(carry + b).0);
    }
  }

  /** The first sequence of `a` is decoded the same way whatever follows. */
  lemma SharedFront(a: Text, b: Text)
    requires a != [] && !Look(a).Short?
    ensures var n := Look(a).n;
            var head := if Look(a).Good? then a[..n] else REPLACEMENT;
            Decode(a + b) == (head + Decode(a[n..] + b).0, Decode(a[n..] + b).1)
  {
    LookAhead(a, b);
    var n := Look(a).n;
    assert (a + b)[n..] == a[n..] + b && (a + b)[..n] == a[..n];
  }

  /** What waits is the proper start of one sequence: nothing whole is ever held back, and at most 3 bytes are. */
  lemma {:induction false} CarryIsOneStart(s: Text)
    ensures var carry := Decode(s).1;
            && |carry| <= 3
            && Starts(carry)
            && forall n :: 1 <= n <= |carry| ==> !WellFormed(carry[..n])
    decreases |s|
  {
    if s == [] {
      StartsIff([]);
    } else {
      LookIsTheStandard(s);
      if !Look(s).Short? { CarryIsOneStart(s[Look(s).n..]); }
    }
  }

  /** Decoding with a flush at the end is the standard's lossy decoding. */
  lemma {:induction false} DecodeIsLossy(s: Text)
    ensures Lossy(s) == Decode(s).0 + Flush(Decode(s).1)
    decreases |s|
  {
    if s != [] {
      LookIsTheStandard(s);
      match Look(s)
      case Good(n) =>
        LossyKeeps(s, n);
        DecodeIsLossy(s[n..]);
        Assoc(s[..n], Decode(s[n..]).0, Flush(Decode(s[n..]).1));
      case Bad(n) =>
        LossyReplaces(s, n);
        DecodeIsLossy(s[n..]);
        Assoc(REPLACEMENT, Decode(s[n..]).0, Flush(Decode(s[n..]).1));
      case Short =>
        assert MaximalSubpart(s, |s|) by { assert s[..|s|] == s; }
        LossyReplaces(s, |s|);
        assert s[|s|..] == [];
    }
  }

  lemma LossyKeeps(s: Text, n: nat)
    requires 1 <= n <= |s| && WellFormed(s[..n])
    ensures Lossy(s) == s[..n] + Lossy(s[n..])
  {
    var w :| 1 <= w <= |s| && WellFormed(s[..w]) && Lossy(s) == s[..w] + Lossy(s[w..]);
    WellFormedUnique(s, n, w);
  }

  lemma SubpartOf(s: Text) returns (n: nat)
    requires s != [] && forall k :: 1 <= k <= |s| ==> !WellFormed(s[..k])
    ensures MaximalSubpart(s, n)
  {
    LookIsTheStandard(s);
    assert s[..|s|] == s;
    n := if Look(s).Bad? then Look(s).n else |s|;
  }

  lemma LossyReplaces(s: Text, n: nat)
    requires MaximalSubpart(s, n)
    requires forall k :: 1 <= k <= |s| ==> !WellFormed(s[..k])
    ensures Lossy(s) == REPLACEMENT + Lossy(s[n..])
  {
    var m: nat :| MaximalSubpart(s, m) && Lossy(s) == REPLACEMENT + Lossy(s[m..]);
    MaximalSubpartUnique(s, m, n);
  }

  /** The flush is itself the lossy decoding of the bytes that waited. */
  lemma FlushIsLossy(carry: Text)
    requires |carry| <= 3 && Starts(carry) && forall n :: 1 <= n <= |carry| ==> !WellFormed(carry[..n])
    ensures Flush(carry) == Lossy(carry)
  {
    if carry != [] {
      LookIsTheStandard(carry);
      StartsIff(carry);
      DecodeIsLossy(carry);
    }
  }

  /** `str::from_utf8` accepts exactly the valid strings. */
  lemma {:induction false} FineIsValid(s: Text)
    ensures FromUtf8(s).Fine? <==> Valid(s)
    decreases |s|
  {
    if s == [] {
    } else if Look(s).Good? {
      FineIsValid(s[Look(s).n..]);
      ValidTail(s, Look(s).n);
    } else {
      LookIsTheStandard(s);
    }
  }

  lemma ValidTail(s: Text, n: nat)
    requires s != [] && Look(s) == Good(n)
    ensures Valid(s) <==> Valid(s[n..])
  {
    LookIsTheStandard(s);
    if Valid(s) {
      var m :| 1 <= m <= |s| && WellFormed(s[..m]) && Valid(s[m..]);
      WellFormedUnique(s, m, n);
    }
  }

  /** Well-formed output is shown byte for byte. */
  lemma LossyKeepsValid(s: Text)
    requires Valid(s)
    ensures Lossy(s) == s
  {
    hide Look;
    FineIsValid(s);
    DecodeFromUtf8(s);
    DecodeIsLossy(s);
  }

  /** Whatever arrives, what is shown is valid UTF-8. */
  lemma {:induction false} LossyIsValid(s: Text)
    ensures Valid(Lossy(s))
    decreases |s|
  {
    if s != [] {
      if exists w :: 1 <= w <= |s| && WellFormed(s[..w]) {
        var w :| 1 <= w <= |s| && WellFormed(s[..w]);
        LossyKeeps(s, w);
        LossyIsValid(s[w..]);
        ValidPrepend(s[..w], Lossy(s[w..]));
      } else {
        var n := SubpartOf(s);
        LossyReplaces(s, n);
        LossyIsValid(s[n..]);
        ValidPrepend(REPLACEMENT, Lossy(s[n..]));
      }
    }
  }

  lemma ValidPrepend(w: Text, t: Text)
    requires WellFormed(w) && Valid(t)
    ensures Valid(w + t)
  {
    assert (w + t)[..|w|] == w && (w + t)[|w|..] == t;
  }

  // ---------------------------------------------------------------- the decoder itself

  class Decoder {
    var carry: Text

    constructor ()
      ensures carry == []
    {
      carry := [];
    }

    /** `decode_chunk`: the text that `bytes` completes. */
    method DecodeChunk(bytes: Text) returns (out: Text)
      modifies this
      ensures (out, carry) == Decode(old(carry) + bytes)
      ensures |carry| <= 3 && Starts(carry)
    {
      carry := carry + bytes;
      ghost var all := carry;
      CarryIsOneStart(all);
      out := [];
      Unit(Decode(all).0);
      while true
        invariant Decode(all) == (out + Decode(carry).0, Decode(carry).1)
        decreases |carry|
      {
        DecodeFromUtf8(carry);
        match FromUtf8(carry) {
          case Fine =>
            out := out + carry;
            carry := [];
            return;
          case Broken(upTo, errorLen) =>
            var good, rest := carry[..upTo], carry[upTo..];
            Assoc(out, good, Decode(rest).0);
            out := out + good;
            match errorLen {
              case None =>
                carry := rest;
                Unit(out);
                return;
              case Some(n) =>
                Assoc(out, REPLACEMENT, Decode(rest[n..]).0);
                out := out + REPLACEMENT;
                carry := rest[n..];
            }
        }
      }
    }

    /** The part of `run_build` that shows output: every chunk in turn, then what still waits. */
    method Show(chunks: seq<Text>) returns (shown: Text)
      requires carry == []
      modifies this
      ensures shown == Lossy(Joined(chunks))
    {
      shown := [];
      ghost var seen: Text := [];
      for i := 0 to |chunks|
        invariant Joined(chunks) == seen + Joined(chunks[i..])
        invariant Decode(seen) == (shown, carry)
      {
        DecodeSplit(seen, chunks[i]);
        Assoc(seen, chunks[i], Joined(chunks[i + 1..]));
        var text := DecodeChunk(chunks[i]);
        shown := shown + text;
        seen := seen + chunks[i];
        assert chunks[i..][1..] == chunks[i + 1..];
      }
      assert Joined(chunks) == seen;
      DecodeIsLossy(seen);
      CarryIsOneStart(seen);
      if carry != [] {
        FlushIsLossy(carry);
        shown := shown + Flush(carry);
      }
    }
  }
}
