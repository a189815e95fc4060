/** The bytes of a stream in the reads they arrive by. */
module Arrivals {
  import opened Bytes

  /** The reads put back together. */
  function Joined(chunks: seq<Text>): Text {
    if chunks == [] then [] else chunks[0] + Joined(chunks[1..])
  }

  /** A read that is not the end of the stream brings something, and at most a buffer of it. */
  predicate Reads(parts: seq<Text>, most: nat) {
    forall i | 0 <= i < |parts| :: 1 <= |parts[i]| <= most
  }

  lemma JoinedNone(parts: seq<Text>)
    ensures Joined(parts[..0]) == []
  {
  }

  lemma {:induction false} JoinedMore(parts: seq<Text>, k: nat)
    requires k < |parts|
    ensures Joined(parts[..k + 1]) == Joined(parts[..k]) + parts[k]
    decreases k
  {
    if k == 0 {
      assert parts[..1] == [parts[0]];
      Unit(parts[0]);
    } else {
      JoinedMore(parts[1..], k - 1);
      assert parts[..k + 1][1..] == parts[1..][..k] && parts[..k][1..] == parts[1..][..k - 1];
      Assoc(parts[0], Joined(parts[1..][..k - 1]), parts[k]);
    }
  }

  lemma {:induction false} JoinedSplit(parts: seq<Text>, k: nat)
    requires k <= |parts|
    ensures Joined(parts) == Joined(parts[..k]) + Joined(parts[k..])
    decreases |parts| - k
  {
    if k == |parts| {
      assert parts[..k] == parts;
      Unit(Joined(parts));
    } else {
      JoinedSplit(parts, k + 1);
      JoinedMore(parts, k);
      assert parts[k..][1..] == parts[k + 1..];
      Assoc(Joined(parts[..k]), parts[k], Joined(parts[k + 1..]));
    }
  }

  /** A text in as few reads as it takes. */
  function Pieces(s: Text, most: nat): (parts: seq<Text>)
    requires most > 0
    ensures Reads(parts, most) && Joined(parts) == s
    decreases |s|
  {
    if s == [] then []
    else
      var n := if |s| > most then most else |s|;
      assert ([s[..n]] + Pieces(s[n..], most))[1..] == Pieces(s[n..], most);
      [s[..n]] + Pieces(s[n..], most)
  }

  lemma {:induction false} JoinedTwo(a: seq<Text>, b: seq<Text>)
    ensures Joined(a + b) == Joined(a) + Joined(b)
  {
    JoinedSplit(a + b, |a|);
    assert (a + b)[..|a|] == a && (a + b)[|a|..] == b;
  }

  /** However much of `a`, the middle part and `b` has arrived, it is not between the two lengths. */
  lemma NothingBetween(a: seq<Text>, middle: Text, b: seq<Text>, k: nat)
    requires k <= |a + ([middle] + b)|
    ensures var n := |Joined((a + ([middle] + b))[..k])|;
            n <= |Joined(a)| || n >= |Joined(a)| + |middle|
  {
    var parts := a + ([middle] + b);
    if k <= |a| {
      assert parts[..k] == a[..k];
      JoinedSplit(a, k);
    } else {
      var rest := b[..k - |a| - 1];
      assert parts[..k] == a + ([middle] + rest);
      JoinedTwo(a, [middle] + rest);
      JoinedTwo([middle], rest);
      Unit(middle);
    }
  }

  lemma JoinedAlone(s: Text)
    ensures Joined([s]) == s
  {
    Unit(s);
  }
}
