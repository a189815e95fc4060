/**
  SHA-256 and HMAC-SHA-256 (deploy-git/src/sha256.rs): the loops over arrays compute what FIPS 180-4, sections 5.1.1
  and 6.2, and RFC 2104, section 2, define.
 */
module Sha256 {
  import opened Bytes
  import opened Characters
  import opened Words

  // ---------------------------------------------------------------- the definition

  const INITIAL: seq<Word> := [
    Word(0x6a09e667), Word(0xbb67ae85), Word(0x3c6ef372), Word(0xa54ff53a),
    Word(0x510e527f), Word(0x9b05688c), Word(0x1f83d9ab), Word(0x5be0cd19)
  ]

  const K0: seq<Word> := [
    Word(0x428a2f98), Word(0x71374491), Word(0xb5c0fbcf), Word(0xe9b5dba5),
    Word(0x3956c25b), Word(0x59f111f1), Word(0x923f82a4), Word(0xab1c5ed5)
  ]

  const K8: seq<Word> := [
    Word(0xd807aa98), Word(0x12835b01), Word(0x243185be), Word(0x550c7dc3),
    Word(0x72be5d74), Word(0x80deb1fe), Word(0x9bdc06a7), Word(0xc19bf174)
  ]

  const K16: seq<Word> := [
    Word(0xe49b69c1), Word(0xefbe4786), Word(0x0fc19dc6), Word(0x240ca1cc),
    Word(0x2de92c6f), Word(0x4a7484aa), Word(0x5cb0a9dc), Word(0x76f988da)
  ]

  const K24: seq<Word> := [
    Word(0x983e5152), Word(0xa831c66d), Word(0xb00327c8), Word(0xbf597fc7),
    Word(0xc6e00bf3), Word(0xd5a79147), Word(0x06ca6351), Word(0x14292967)
  ]

  const K32: seq<Word> := [
    Word(0x27b70a85), Word(0x2e1b2138), Word(0x4d2c6dfc), Word(0x53380d13),
    Word(0x650a7354), Word(0x766a0abb), Word(0x81c2c92e), Word(0x92722c85)
  ]

  const K40: seq<Word> := [
    Word(0xa2bfe8a1), Word(0xa81a664b), Word(0xc24b8b70), Word(0xc76c51a3),
    Word(0xd192e819), Word(0xd6990624), Word(0xf40e3585), Word(0x106aa070)
  ]

  const K48: seq<Word> := [
    Word(0x19a4c116), Word(0x1e376c08), Word(0x2748774c), Word(0x34b0bcb5),
    Word(0x391c0cb3), Word(0x4ed8aa4a), Word(0x5b9cca4f), Word(0x682e6ff3)
  ]

  const K56: seq<Word> := [
    Word(0x748f82ee), Word(0x78a5636f), Word(0x84c87814), Word(0x8cc70208),
    Word(0x90befffa), Word(0xa4506ceb), Word(0xbef9a3f7), Word(0xc67178f2)
  ]

  /** The constants of the rounds, in rows. */
  const K: seq<Word> := K0 + (K8 + (K16 + (K24 + (K32 + (K40 + (K48 + K56))))))

  function Sigma0(x: Word): Word {
    Word(x.bits.RotateRight(7) ^ x.bits.RotateRight(18) ^ (x.bits >> 3))
  }

  function Sigma1(x: Word): Word {
    Word(x.bits.RotateRight(17) ^ x.bits.RotateRight(19) ^ (x.bits >> 10))
  }

  function BigSigma0(x: Word): Word {
    Word(x.bits.RotateRight(2) ^ x.bits.RotateRight(13) ^ x.bits.RotateRight(22))
  }

  function BigSigma1(x: Word): Word {
    Word(x.bits.RotateRight(6) ^ x.bits.RotateRight(11) ^ x.bits.RotateRight(25))
  }

  function Ch(x: Word, y: Word, z: Word): Word {
    Word((x.bits & y.bits) ^ (!x.bits & z.bits))
  }

  function Maj(x: Word, y: Word, z: Word): Word {
    Word((x.bits & y.bits) ^ (x.bits & z.bits) ^ (y.bits & z.bits))
  }

  /** Section 6.2.2, step 1: the message schedule. */
  function W(block: seq<Word>, t: nat): Word
    requires |block| == 16
  {
    if t < 16 then block[t]
    else Add(Add(Sigma1(W(block, t - 2)), W(block, t - 7)), Add(Sigma0(W(block, t - 15)), W(block, t - 16)))
  }

  datatype Vars = Vars(a: Word, b: Word, c: Word, d: Word, e: Word, f: Word, g: Word, h: Word)

  /** Step 3: one round. */
  function Round(v: Vars, k: Word, w: Word): Vars {
    var t1 := Add(Add(Add(Add(v.h, BigSigma1(v.e)), Ch(v.e, v.f, v.g)), k), w);
    var t2 := Add(BigSigma0(v.a), Maj(v.a, v.b, v.c));
    Vars(Add(t1, t2), v.a, v.b, v.c, Add(v.d, t1), v.e, v.f, v.g)
  }

  function Rounds(start: Vars, block: seq<Word>, t: nat): Vars
    requires |block| == 16 && t <= 64
  {
    if t == 0 then start else Round(Rounds(start, block, t - 1), K[t - 1], W(block, t - 1))
  }

  /** Steps 2 to 4 for one block. */
  function Compress(h: Vars, block: seq<Word>): Vars
    requires |block| == 16
  {
    var v := Rounds(h, block, 64);
    Vars(Add(h.a, v.a), Add(h.b, v.b), Add(h.c, v.c), Add(h.d, v.d), Add(h.e, v.e), Add(h.f, v.f), Add(h.g, v.g),
         Add(h.h, v.h))
  }

  function Bits(n: nat): bv32
    requires n < 0x1_0000_0000
  {
    n as bv32
  }

  /** Four bytes as a word, the most significant first. */
  function WordOf(b: Text): Word
    requires |b| == 4
  {
    var n0: int, n1: int, n2: int, n3: int := b[0], b[1], b[2], b[3];
    Word(Bits(n0 * 0x100_0000 + n1 * 0x1_0000 + n2 * 0x100 + n3))
  }

  function LowByte(x: bv32): Byte {
    (x & 0xFF) as int
  }

  function BytesOf(w: Word): (r: Text)
    ensures |r| == 4
  {
    [LowByte(w.bits >> 24), LowByte(w.bits >> 16), LowByte(w.bits >> 8), LowByte(w.bits)]
  }

  /** Section 5.2.1: a block of 64 bytes as sixteen words. */
  function BlockOf(chunk: Text): (r: seq<Word>)
    requires |chunk| == 64
    ensures |r| == 16
  {
    seq(16, i requires 0 <= i < 16 => WordOf(chunk[4 * i..4 * i + 4]))
  }

  function VarsOf(h: seq<Word>): Vars
    requires |h| == 8
  {
    Vars(h[0], h[1], h[2], h[3], h[4], h[5], h[6], h[7])
  }

  function ChunkAt(msg: Text, n: nat): (r: Text)
    requires n < |msg| / 64
    ensures |r| == 64
  {
    msg[64 * n..64 * (n + 1)]
  }

  /** The hash value after the first `n` blocks. */
  function After(msg: Text, n: nat): Vars
    requires |msg| % 64 == 0 && n <= |msg| / 64
  {
    if n == 0 then VarsOf(INITIAL) else Compress(After(msg, n - 1), BlockOf(ChunkAt(msg, n - 1)))
  }

  /** The number of zero bytes: the least that leaves eight bytes of a block for the length. */
  function ZerosFor(n: nat): (k: nat)
    ensures (n + 1 + k) % 64 == 56 && (n + k + 9) % 64 == 0 && k < 64
  {
    (119 - n % 64) % 64
  }

  function Zeros(n: nat): Text {
    seq(n, _ => 0)
  }

  /** A number as so many bytes, the most significant first. */
  function BigEndian(n: nat, width: nat): (r: Text)
    ensures |r| == width
  {
    if width == 0 then [] else BigEndian(n / 0x100, width - 1) + [n % 0x100]
  }

  const MAX_BYTES: nat := 0x2000_0000_0000_0000

  /** Section 5.1.1, for messages of whole bytes. */
  function Pad(data: Text): (r: Text)
    requires |data| < MAX_BYTES
    ensures |r| % 64 == 0
  {
    var k := ZerosFor(|data|);
    var r := data + [0x80] + Zeros(k) + BigEndian(8 * |data|, 8);
    assert |r| == |data| + k + 9;
    r
  }

  function Digest(v: Vars): (r: Text)
    ensures |r| == 32
  {
    BytesOf(v.a) + BytesOf(v.b) + BytesOf(v.c) + BytesOf(v.d) + BytesOf(v.e) + BytesOf(v.f) + BytesOf(v.g)
    + BytesOf(v.h)
  }

  function Hash(data: Text): (r: Text)
    requires |data| < MAX_BYTES
    ensures |r| == 32
  {
    var msg := Pad(data);
    Digest(After(msg, |msg| / 64))
  }

  // ---------------------------------------------------------------- the loops

  method PadMessage(data: Text) returns (msg: Text)
    requires |data| < MAX_BYTES
    ensures msg == Pad(data)
  {
    msg := data + [0x80];
    ghost var k := 0;
    while |msg| % 64 != 56
      invariant k <= ZerosFor(|data|) && msg == data + [0x80] + Zeros(k)
      decreases ZerosFor(|data|) - k
    {
      assert Zeros(k + 1) == Zeros(k) + [0];
      msg := msg + [0];
      k := k + 1;
    }
    assert k == ZerosFor(|data|);
    msg := msg + BigEndian(8 * |data|, 8);
  }

  lemma WFirst(block: seq<Word>, t: nat)
    requires |block| == 16 && t < 16
    ensures W(block, t) == block[t]
  {
  }

  lemma WNext(block: seq<Word>, t: nat)
    requires |block| == 16 && 16 <= t
    ensures W(block, t)
         == Add(Add(Add(W(block, t - 16), Sigma0(W(block, t - 15))), W(block, t - 7)), Sigma1(W(block, t - 2)))
  {
    hide Sigma0, Sigma1, Add;
    SameSum(W(block, t - 16), Sigma0(W(block, t - 15)), W(block, t - 7), Sigma1(W(block, t - 2)));
  }

  /** The sixteen words of a chunk, and the rest of the schedule from them. */
  method Schedule(chunk: Text) returns (w: array<Word>)
    requires |chunk| == 64
    ensures fresh(w) && w.Length == 64
    ensures forall t :: 0 <= t < 64 ==> w[t] == W(BlockOf(chunk), t)
  {
    hide W, Sigma0, Sigma1, WordOf, Add;
    ghost var block := BlockOf(chunk);
    w := new Word[64](_ => Word(0));
    for i := 0 to 16
      invariant forall t :: 0 <= t < i ==> w[t] == W(block, t)
    {
      WFirst(block, i);
      w[i] := WordOf(chunk[4 * i..4 * i + 4]);
    }
    hide BlockOf;
    for i := 16 to 64
      invariant forall t :: 0 <= t < i ==> w[t] == W(block, t)
    {
      WNext(block, i);
      var s0 := Sigma0(w[i - 15]);
      var s1 := Sigma1(w[i - 2]);
      w[i] := Add(Add(Add(w[i - 16], s0), w[i - 7]), s1);
    }
  }

  lemma SameSum(a: Word, b: Word, c: Word, d: Word)
    ensures Add(Add(Add(a, b), c), d) == Add(Add(d, c), Add(b, a))
  {
    hide Add;
    AddAssociates(a, b, c);
    AddAssociates(Add(a, b), c, d);
    AddAssociates(d, c, Add(b, a));
    AddAssociates(Add(d, c), Add(b, a), a);
    AddAssociates(c, d, a);
  }

  method CompressInto(h: array<Word>, chunk: Text)
    requires h.Length == 8 && |chunk| == 64
    modifies h
    ensures VarsOf(h[..]) == Compress(old(VarsOf(h[..])), BlockOf(chunk))
  {
    hide W, BlockOf, BigSigma0, BigSigma1, Ch, Maj, Rounds, Add;
    var w := Schedule(chunk);
    ghost var block, start := BlockOf(chunk), VarsOf(h[..]);
    var v := h[..];
    RoundsFirst(start, block);
    for i := 0 to 64
      invariant |v| == 8 && VarsOf(v) == Rounds(start, block, i)
      invariant h[..] == old(h[..])
      invariant forall t :: 0 <= t < 64 ==> w[t] == W(block, t)
    {
      var t1 := Add(Add(Add(Add(v[7], BigSigma1(v[4])), Ch(v[4], v[5], v[6])), K[i]), w[i]);
      var t2 := Add(BigSigma0(v[0]), Maj(v[0], v[1], v[2]));
      RoundsNext(start, block, i);
      v := [Add(t1, t2), v[0], v[1], v[2], Add(v[3], t1), v[4], v[5], v[6]];
    }
    AddInto(h, v);
  }

  lemma RoundsFirst(start: Vars, block: seq<Word>)
    requires |block| == 16
    ensures Rounds(start, block, 0) == start
  {
  }

  lemma RoundsNext(start: Vars, block: seq<Word>, i: nat)
    requires |block| == 16 && i < 64
    ensures Rounds(start, block, i + 1) == Round(Rounds(start, block, i), K[i], W(block, i))
  {
    hide W, Round;
  }

  method AddInto(h: array<Word>, v: seq<Word>)
    requires h.Length == 8 == |v|
    modifies h
    ensures forall j :: 0 <= j < 8 ==> h[j] == Add(old(h[j]), v[j])
  {
    hide Add;
    for i := 0 to 8
      invariant forall j :: 0 <= j < 8 ==> h[j] == if j < i then Add(old(h[j]), v[j]) else old(h[j])
    {
      h[i] := Add(h[i], v[i]);
    }
  }

  method Sha256(data: Text) returns (digest: Text)
    requires |data| < MAX_BYTES
    ensures digest == Hash(data)
  {
    var h := new Word[8](i requires 0 <= i < 8 => INITIAL[i]);
    assert h[..] == INITIAL;
    var msg := PadMessage(data);
    hide Pad, Compress, BlockOf, After, ChunkAt;
    AfterNone(msg);
    for n := 0 to |msg| / 64
      invariant h.Length == 8 && VarsOf(h[..]) == After(msg, n)
    {
      CompressInto(h, ChunkAt(msg, n));
      AfterNext(msg, n);
    }
    digest := WriteDigest(h[..]);
  }

  method WriteDigest(h: seq<Word>) returns (digest: Text)
    requires |h| == 8
    ensures digest == Digest(VarsOf(h))
  {
    digest := [];
    for i := 0 to 8
      invariant digest == DigestOf(h[..i])
    {
      assert h[..i + 1][..i] == h[..i];
      digest := digest + BytesOf(h[i]);
    }
    assert h[..8] == h;
    DigestIsAll(h);
  }

  lemma AfterNone(msg: Text)
    requires |msg| % 64 == 0
    ensures After(msg, 0) == VarsOf(INITIAL)
  {
  }

  lemma AfterNext(msg: Text, n: nat)
    requires |msg| % 64 == 0 && n < |msg| / 64
    ensures After(msg, n + 1) == Compress(After(msg, n), BlockOf(ChunkAt(msg, n)))
  {
    hide Compress, BlockOf, ChunkAt;
  }

  function DigestOf(h: seq<Word>): Text {
    if h == [] then [] else DigestOf(h[..|h| - 1]) + BytesOf(h[|h| - 1])
  }

  lemma DigestIsAll(h: seq<Word>)
    requires |h| == 8
    ensures DigestOf(h) == Digest(VarsOf(h))
  {
    hide BytesOf;
    forall i | 1 <= i <= 8 ensures DigestOf(h[..i]) == DigestOf(h[..i - 1]) + BytesOf(h[i - 1]) {
      assert h[..i][..i - 1] == h[..i - 1];
    }
    assert h[..8] == h && h[..0] == [] && DigestOf(h[..0]) == [];
    assert DigestOf(h[..1]) == BytesOf(h[0]);
  }

  // ---------------------------------------------------------------- the padding

  lemma {:induction false} BigEndianReads(n: nat, m: nat, width: nat)
    requires n < Power256(width) && m < Power256(width)
    requires BigEndian(n, width) == BigEndian(m, width)
    ensures n == m
  {
    if width > 0 {
      var a, b := BigEndian(n, width), BigEndian(m, width);
      assert a[width - 1] == n % 0x100 && b[width - 1] == m % 0x100;
      assert a[..width - 1] == BigEndian(n / 0x100, width - 1) && b[..width - 1] == BigEndian(m / 0x100, width - 1);
      BigEndianReads(n / 0x100, m / 0x100, width - 1);
    }
  }

  function Power256(width: nat): nat {
    if width == 0 then 1 else 0x100 * Power256(width - 1)
  }

  lemma EightBytes()
    ensures Power256(8) == 0x1_0000_0000_0000_0000
  {
    assert Power256(4) == 0x1_0000_0000;
    assert Power256(6) == 0x1_0000_0000_0000;
  }

  /** Whole blocks, and different messages stay different. */
  lemma PaddingIsInjective(a: Text, b: Text)
    requires |a| < MAX_BYTES && |b| < MAX_BYTES && Pad(a) == Pad(b)
    ensures a == b
  {
    EightBytes();
    var p, q := Pad(a), Pad(b);
    assert p[|p| - 8..] == BigEndian(8 * |a|, 8) && q[|q| - 8..] == BigEndian(8 * |b|, 8);
    BigEndianReads(8 * |a|, 8 * |b|, 8);
    assert p[..|a|] == a && q[..|b|] == b;
  }

  // ---------------------------------------------------------------- HMAC

  function XorByte(a: Byte, b: Byte): Byte {
    ((a as bv8) ^ (b as bv8)) as int
  }

  function XorAll(s: Text, b: Byte): (r: Text)
    ensures |r| == |s|
  {
    seq(|s|, i requires 0 <= i < |s| => XorByte(s[i], b))
  }

  const BLOCK: nat := 64
  const IPAD: Byte := 0x36
  const OPAD: Byte := 0x5c

  /** RFC 2104: a key longer than a block is hashed, and any key is filled up with zeros to a block. */
  function BlockKey(key: Text): (r: Text)
    requires |key| < MAX_BYTES
    ensures |r| == BLOCK
  {
    var k := if |key| > BLOCK then Hash(key) else key;
    k + Zeros(BLOCK - |k|)
  }

  function Hmac(key: Text, data: Text): Text
    requires |key| < MAX_BYTES && |data| + BLOCK < MAX_BYTES
  {
    var k := BlockKey(key);
    Hash(XorAll(k, OPAD) + Hash(XorAll(k, IPAD) + data))
  }

  method HmacSha256(key: Text, data: Text) returns (mac: Text)
    requires |key| < MAX_BYTES && |data| + BLOCK < MAX_BYTES
    ensures mac == Hmac(key, data)
  {
    hide Hash, Xor;
    var k := key;
    if |key| > BLOCK {
      k := Sha256(key);
    }
    ghost var short := k;
    while |k| < BLOCK
      invariant |short| <= |k| <= BLOCK && k == short + Zeros(|k| - |short|)
    {
      assert Zeros(|k| + 1 - |short|) == Zeros(|k| - |short|) + [0];
      k := k + [0];
    }
    var inner := XorLoop(k, IPAD);
    var ih := Sha256(inner + data);
    var outer := XorLoop(k, OPAD);
    mac := Sha256(outer + ih);
  }

  method XorLoop(s: Text, b: Byte) returns (r: Text)
    ensures r == XorAll(s, b)
  {
    r := [];
    for i := 0 to |s|
      invariant r == XorAll(s, b)[..i]
    {
      r := r + [XorByte(s[i], b)];
    }
  }

  /** A key longer than a block counts as its hash; zeros at the end of a short key count for nothing. */
  /**
    Section 2 of RFC 2104, for a key of at most a block: two blocks made of the key, filled up with zeros, and the bytes
    0x36 and 0x5C; the digest of the first with the message goes behind the second.
   */
  lemma HmacIs(key: Text, data: Text, inner: Text, outer: Text)
    requires |key| <= 64 && |data| + 64 < MAX_BYTES && |inner| == 64 == |outer|
    requires forall i :: 0 <= i < 64 ==>
               && inner[i] == XorByte(if i < |key| then key[i] else 0, 0x36)
               && outer[i] == XorByte(if i < |key| then key[i] else 0, 0x5C)
    ensures Hmac(key, data) == Hash(outer + Hash(inner + data))
  {
    hide Hash, XorByte;
    var k := BlockKey(key);
    assert XorAll(k, IPAD) == inner;
    assert XorAll(k, OPAD) == outer;
  }

  lemma KeysThatCountTheSame(key: Text, data: Text)
    requires |key| < MAX_BYTES && |data| + BLOCK < MAX_BYTES
    ensures |key| > BLOCK ==> Hmac(key, data) == Hmac(Hash(key), data)
    ensures |key| < BLOCK ==> Hmac(key, data) == Hmac(key + [0], data)
    ensures |key| == BLOCK ==> BlockKey(key) == key
  {
    hide Hash;
    if |key| < BLOCK {
      assert key + Zeros(BLOCK - |key|) == key + [0] + Zeros(BLOCK - |key| - 1);
    }
  }

  // ---------------------------------------------------------------- comparing and writing digests

  /** Every byte is looked at, whatever the first ones say. */
  method ConstantTimeEq(a: seq<bv8>, b: seq<bv8>) returns (r: bool)
    ensures r <==> a == b
  {
    if |a| != |b| {
      return false;
    }
    var acc: bv8 := 0;
    for i := 0 to |a|
      invariant acc == 0 <==> a[..i] == b[..i]
    {
      assert a[..i + 1] == a[..i] + [a[i]] && b[..i + 1] == b[..i] + [b[i]];
      NoBitLeft(acc, a[i], b[i]);
      acc := acc | (a[i] ^ b[i]);
    }
    assert a[..|a|] == a && b[..|b|] == b;
    r := acc == 0;
  }

  lemma NoBitLeft(acc: bv8, x: bv8, y: bv8)
    ensures acc | (x ^ y) == 0 <==> acc == 0 && x == y
  {
  }

  const HEX := "0123456789abcdef"

  function ToHex(b: Text): (r: string)
    ensures |r| == 2 * |b|
  {
    if b == [] then "" else [HEX[b[0] / 16], HEX[b[0] % 16]] + ToHex(b[1..])
  }

  function DigitOf(c: char): Option<nat> {
    if '0' <= c <= '9' then Some(c as nat - '0' as nat)
    else if 'a' <= c <= 'f' then Some(c as nat - 'a' as nat + 10)
    else if 'A' <= c <= 'F' then Some(c as nat - 'A' as nat + 10)
    else None
  }

  /** Two characters as the standard library reads a byte: a leading `+` is allowed. */
  function PairOf(c: char, d: char): Option<nat> {
    match DigitOf(d)
    case None => None
    case Some(low) =>
      if c == '+' then Some(low)
      else if DigitOf(c).Some? then Some(16 * DigitOf(c).value + low)
      else None
  }

  function FromHex(s: string): Option<Text> {
    if s == "" then Some([])
    else if |s| == 1 then None
    else
      match PairOf(s[0], s[1])
      case None => None
      case Some(n) =>
        match FromHex(s[2..])
        case None => None
        case Some(rest) => if n < 256 then Some([n] + rest) else None
  }

  lemma NibbleReads(n: nat)
    requires n < 16
    ensures DigitOf(HEX[n]) == Some(n) && HEX[n] != '+'
  {
  }

  lemma PairReads(c: char, d: char, rest: string, n: Byte)
    requires PairOf(c, d) == Some(n) && FromHex(rest).Some?
    ensures FromHex([c, d] + rest) == Some([n] + FromHex(rest).value)
  {
    hide PairOf;
    assert ([c, d] + rest)[2..] == rest;
  }

  lemma OneByteReads(n: Byte, rest: string)
    requires FromHex(rest).Some?
    ensures FromHex([HEX[n / 16], HEX[n % 16]] + rest) == Some([n] + FromHex(rest).value)
  {
    NibbleReads(n / 16);
    NibbleReads(n % 16);
    hide FromHex, DigitOf, HEX;
    PairReads(HEX[n / 16], HEX[n % 16], rest, n);
  }

  /** What is written is read back. */
  lemma {:induction false} HexReadsBack(b: Text)
    ensures FromHex(ToHex(b)) == Some(b)
  {
    if b != [] {
      HexReadsBack(b[1..]);
      hide FromHex;
      OneByteReads(b[0], ToHex(b[1..]));
      assert [b[0]] + b[1..] == b;
    }
  }

  /** A text that reads as bytes is their writing, but for the case of its letters, exactly when it has no `+`. */
  lemma {:induction false} HexIsItsWritingIff(s: string)
    requires FromHex(s).Some?
    ensures Lower(s) == ToHex(FromHex(s).value) <==> '+' !in s
  {
    if s != "" {
      HexIsItsWritingIff(s[2..]);
      var n := PairOf(s[0], s[1]).value;
      var rest := FromHex(s[2..]).value;
      assert s == [s[0], s[1]] + s[2..];
      assert Lower(s) == [LowerChar(s[0]), LowerChar(s[1])] + Lower(s[2..]);
      assert ([n] + rest)[1..] == rest;
      assert ToHex([n] + rest) == [HEX[n / 16], HEX[n % 16]] + ToHex(rest);
      PairIsItsWritingIff(s[0], s[1]);
      Heads([LowerChar(s[0]), LowerChar(s[1])], Lower(s[2..]), [HEX[n / 16], HEX[n % 16]], ToHex(rest));
    }
  }

  lemma Heads(a: string, x: string, b: string, y: string)
    requires |a| == |b|
    ensures a + x == b + y <==> a == b && x == y
  {
    assert (a + x)[..|a|] == a && (a + x)[|a|..] == x && (b + y)[..|b|] == b && (b + y)[|b|..] == y;
  }

  lemma PairIsItsWritingIff(c: char, d: char)
    requires PairOf(c, d).Some?
    ensures PairOf(c, d).value < 256
    ensures var n := PairOf(c, d).value;
            [LowerChar(c), LowerChar(d)] == [HEX[n / 16], HEX[n % 16]] <==> c != '+' && d != '+'
  {
    var n := PairOf(c, d).value;
    assert LowerChar(d) == HEX[DigitOf(d).value];
    if c == '+' {
      assert n / 16 == 0 && HEX[0] == '0';
    } else {
      assert n / 16 == DigitOf(c).value && n % 16 == DigitOf(d).value;
      assert LowerChar(c) == HEX[DigitOf(c).value];
    }
  }
}
