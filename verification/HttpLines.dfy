/**
  When the line limit of the response reader depends on the reads (`read_line` in deploy-docker/src/http.rs): the
  limit is looked at only when a line's end is not yet in the buffer.
 */
module HttpLines {
  import opened Bytes
  import opened Arrivals
  import opened HttpText

  const MAX_READ: nat := 8192

  /** What the loop returns once the first `k` reads are in the buffer. */
  function Scan(parts: seq<Text>, k: nat, max: nat, end: End): Result<Text>
    requires k <= |parts|
    decreases |parts| - k
  {
    var buf := Joined(parts[..k]);
    var i := FindCrlf(buf);
    if i < |buf| then Ok(LossyText(buf[..i]))
    else if |buf| > max then Err(Malformed)
    else if k == |parts| then Err(EndError(end))
    else Scan(parts, k + 1, max, end)
  }

  /** From read `k` on, some read passes the limit with the line's end not yet complete. */
  ghost predicate Passes(parts: seq<Text>, k: nat, max: nat, i: nat) {
    exists m :: k <= m <= |parts| && max < |Joined(parts[..m])| < i + 2
  }

  lemma NotYet(a: Text, b: Text)
    ensures var i := FindCrlf(a + b);
            if i + 2 <= |a| then FindCrlf(a) == i else FindCrlf(a) == |a|
  {
    var s := a + b;
    var i, j := FindCrlf(s), FindCrlf(a);
    assert j < |a| ==> s[j] == CR && s[j + 1] == LF;
    assert i + 2 <= |a| ==> a[i] == CR && a[i + 1] == LF;
  }

  lemma Longer(parts: seq<Text>, k: nat, m: nat)
    requires k <= m <= |parts|
    ensures |Joined(parts[..m])| >= |Joined(parts[..k])|
  {
    JoinedSplit(parts[..m], k);
    assert parts[..m][..k] == parts[..k];
  }

  lemma {:induction false} ScanIs(parts: seq<Text>, k: nat, max: nat, end: End)
    requires k <= |parts|
    ensures var s := Joined(parts);
            var i := FindCrlf(s);
            Scan(parts, k, max, end)
            == if i < |s| then (if Passes(parts, k, max, i) then Err(Malformed) else Ok(LossyText(s[..i])))
               else Err(if |s| > max then Malformed else EndError(end))
    decreases |parts| - k
  {
    hide FindCrlf, LossyText, Joined;
    var s, buf := Joined(parts), Joined(parts[..k]);
    var i := FindCrlf(s);
    JoinedSplit(parts, k);
    NotYet(buf, Joined(parts[k..]));
    EndIsThere(s);
    EndIsThere(buf);
    if i < |s| && i + 2 <= |buf| {
      Split(buf, Joined(parts[k..]));
      assert buf[..i] == s[..i];
      forall m | k <= m <= |parts| ensures !(max < |Joined(parts[..m])| < i + 2) {
        Longer(parts, k, m);
      }
    } else if k == |parts| {
      assert parts[..k] == parts;
    } else if |buf| <= max {
      ScanIs(parts, k + 1, max, end);
    } else if i < |s| {
      assert Passes(parts, k, max, i);
    }
  }

  lemma EndIsThere(s: Text)
    ensures FindCrlf(s) <= |s| && (FindCrlf(s) < |s| ==> FindCrlf(s) + 2 <= |s|)
  {
  }

  /** Reads that stop in the middle of the line's end. */
  lemma StopsShort(s: Text, max: nat) returns (parts: seq<Text>)
    requires max <= FindCrlf(s) < |s|
    ensures Reads(parts, MAX_READ) && Joined(parts) == s && Passes(parts, 0, max, FindCrlf(s))
  {
    EndIsThere(s);
    var n := FindCrlf(s) + 1;
    var first, second := Pieces(s[..n], MAX_READ), Pieces(s[n..], MAX_READ);
    parts := first + second;
    JoinedTwo(first, second);
    assert s[..n] + s[n..] == s;
    assert parts[..|first|] == first && |Joined(parts[..|first|])| == n;
  }

  /** Reads that stop at the limit and then take the whole end of the line. */
  lemma StopsAtTheLimit(s: Text, max: nat) returns (parts: seq<Text>)
    requires max <= FindCrlf(s) < |s| && FindCrlf(s) + 2 <= max + MAX_READ
    ensures Reads(parts, MAX_READ) && Joined(parts) == s && !Passes(parts, 0, max, FindCrlf(s))
  {
    EndIsThere(s);
    var m := FindCrlf(s) + 2;
    hide FindCrlf, Joined;
    var a, b, middle := Pieces(s[..max], MAX_READ), Pieces(s[m..], MAX_READ), s[max..m];
    parts := a + ([middle] + b);
    JoinedTwo(a, [middle] + b);
    JoinedTwo([middle], b);
    JoinedAlone(middle);
    assert s[..max] + (middle + s[m..]) == s;
    forall k | 0 <= k <= |parts| ensures !(max < |Joined(parts[..k])| < m) {
      NothingBetween(a, middle, b, k);
    }
  }

  /** A line too far beyond the limit for one read to reach its end is refused however it arrives. */
  lemma AlwaysPasses(parts: seq<Text>, k: nat, max: nat, i: nat)
    requires Reads(parts, MAX_READ) && k <= |parts| && |Joined(parts[..k])| <= max
    requires max + MAX_READ < i + 2 <= |Joined(parts)|
    ensures Passes(parts, k, max, i)
    decreases |parts| - k
  {
    assert parts[..|parts|] == parts;
    if k < |parts| {
      JoinedMore(parts, k);
      if |Joined(parts[..k + 1])| <= max {
        AlwaysPasses(parts, k + 1, max, i);
      } else {
        assert max < |Joined(parts[..k + 1])| < i + 2;
      }
    }
  }

  /**
    A line reads the same however it arrives exactly when there is no end of it at all, or it starts before the
    limit, or it lies so far beyond the limit that no single read can bring it.
   */
  lemma LineIsOneIff(s: Text, max: nat, end: End)
    ensures (forall a, b :: Reads(a, MAX_READ) && Reads(b, MAX_READ) && Joined(a) == s == Joined(b) ==>
                              Scan(a, 0, max, end) == Scan(b, 0, max, end))
       <==> var i := FindCrlf(s); i == |s| || i < max || max + MAX_READ < i + 2
  {
    var i := FindCrlf(s);
    EndIsThere(s);
    if i < |s| && max <= i && i + 2 <= max + MAX_READ {
      var a := StopsShort(s, max);
      var b := StopsAtTheLimit(s, max);
      ScanIs(a, 0, max, end);
      ScanIs(b, 0, max, end);
    } else {
      forall a, b | Reads(a, MAX_READ) && Reads(b, MAX_READ) && Joined(a) == s == Joined(b)
        ensures Scan(a, 0, max, end) == Scan(b, 0, max, end)
      {
        ScanIs(a, 0, max, end);
        ScanIs(b, 0, max, end);
        if i < |s| && max <= i {
          JoinedNone(a);
          JoinedNone(b);
          AlwaysPasses(a, 0, max, i);
          AlwaysPasses(b, 0, max, i);
        }
      }
    }
  }
}
