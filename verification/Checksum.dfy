/**
  The CRC-32 of deploy/src/ledger.rs:668-681, and what it finds: any damage to up to four bytes in a row. The register
  is a `Word`; most of the proof is about words as such, so that few steps look at their bits.
 */
module Checksum {
  import opened Bytes
  import opened Words

  function OneUp(y: bv32): bv32 {
    y << 1
  }

  /** All bits one up, and a new lowest one. */
  function WithBit(a: Word, one: bool): Word {
    if one then Word(OneUp(a.bits) | 1) else Word(OneUp(a.bits))
  }

  /** One bit of the CRC-32 register (polynomial 0xEDB88320, reflected). */
  function Shifted(bits: bv32): bv32 {
    if bits & 1 != 0 then (bits >> 1) ^ 0xEDB8_8320 else bits >> 1
  }

  function CrcBit(crc: Word): Word {
    Word(Shifted(crc.bits))
  }

  function CrcBits(crc: Word, n: nat): Word
    decreases n
  {
    if n == 0 then crc else CrcBits(CrcBit(crc), n - 1)
  }

  /** A byte as a word of the register, bit by bit. */
  function Widen(b: Byte): Word {
    if b == 0 then Word(0) else WithBit(Widen(b / 2), b % 2 == 1)
  }

  function CrcByte(crc: Word, b: Byte): Word {
    CrcBits(Xor(crc, Widen(b)), 8)
  }

  function CrcFrom(crc: Word, data: Text): Word
    decreases |data|
  {
    if data == [] then crc else CrcFrom(CrcByte(crc, data[0]), data[1..])
  }

  function Number(w: Word): (n: nat)
    ensures n < 0x1_0000_0000
  {
    w.bits as nat
  }

  function Crc32(data: Text): (r: nat)
    ensures r < 0x1_0000_0000
  {
    Number(Xor(CrcFrom(Word(0xFFFF_FFFF), data), Word(0xFFFF_FFFF)))
  }

  /** The loop over the bytes, and over the bits of each. */
  method ComputeCrc32(data: Text) returns (r: nat)
    ensures r == Crc32(data)
  {
    hide CrcBit, Widen, Xor, Number;
    var crc := Word(0xFFFF_FFFF);
    assert data[0..] == data;
    for i := 0 to |data|
      invariant CrcFrom(Word(0xFFFF_FFFF), data) == CrcFrom(crc, data[i..])
    {
      assert data[i..][1..] == data[i + 1..];
      ghost var whole := CrcByte(crc, data[i]);
      crc := Xor(crc, Widen(data[i]));
      for k := 0 to 8
        invariant whole == CrcBits(crc, 8 - k)
      {
        crc := CrcBit(crc);
      }
    }
    assert data[|data|..] == [];
    return Number(Xor(crc, Word(0xFFFF_FFFF)));
  }

  // ---------------------------------------------------------------- words

  lemma ShiftedKeeps(x: bv32, y: bv32)
    ensures Shifted(x) == Shifted(y) <==> x == y
  {
  }

  lemma BitKeeps(x: Word, y: Word)
    ensures CrcBit(x) == CrcBit(y) <==> x == y
  {
    hide Shifted;
    ShiftedKeeps(x.bits, y.bits);
  }

  /** No bit outside those of `m`. */
  predicate Within(y: Word, m: Word) {
    y.bits | m.bits == m.bits
  }

  predicate Low31(y: Word) {
    y.bits < 0x8000_0000
  }

  lemma WithinBoth(x: Word, y: Word, m: Word)
    requires Within(x, m) && Within(y, m)
    ensures Within(Xor(x, y), m)
  {
  }

  lemma WithinMore(x: Word, m: Word, n: Word)
    requires Within(x, m) && Within(m, n)
    ensures Within(x, n)
  {
  }

  lemma ZeroWithin(m: Word)
    ensures Within(Word(0), m)
  {
  }

  lemma BitWithin(y: Word, m: Word, one: bool)
    requires Within(y, m)
    ensures Within(WithBit(y, one), WithBit(m, true))
  {
  }

  lemma WithBitKeeps(x: Word, y: Word, i: bool, j: bool)
    requires Low31(x) && Low31(y) && WithBit(x, i) == WithBit(y, j)
    ensures x == y && i == j
  {
  }

  function OneDown(y: bv32): bv32 {
    y >> 1
  }

  predicate Odd(y: bv32) {
    y & 1 != 0
  }

  lemma ShiftedIs(x: bv32)
    ensures Shifted(x) == if Odd(x) then XorBits(OneDown(x), 0xEDB8_8320) else OneDown(x)
  {
  }

  lemma DownUp(x: bv32, y: bv32)
    requires y < 0x8000_0000
    ensures OneDown(XorBits(x, OneUp(y))) == XorBits(OneDown(x), y)
  {
  }

  lemma OddUp(x: bv32, y: bv32)
    ensures Odd(XorBits(x, OneUp(y))) == Odd(x)
  {
  }

  lemma XorSwap(x: bv32, y: bv32)
    ensures XorBits(XorBits(x, y), 0xEDB8_8320) == XorBits(XorBits(x, 0xEDB8_8320), y)
  {
  }

  lemma ShiftedAbove(x: bv32, y: bv32)
    requires y < 0x8000_0000
    ensures Shifted(XorBits(x, OneUp(y))) == XorBits(Shifted(x), y)
  {
    hide *;
    ShiftedIs(x);
    ShiftedIs(XorBits(x, OneUp(y)));
    DownUp(x, y);
    OddUp(x, y);
    XorSwap(OneDown(x), y);
  }

  lemma XorOf(x: Word, y: Word)
    ensures Xor(x, y).bits == XorBits(x.bits, y.bits)
  {
    hide XorBits;
  }

  lemma BitOf(y: Word)
    ensures WithBit(y, false).bits == OneUp(y.bits)
  {
    hide OneUp;
  }

  /** What stands above the lowest bit only moves down. */
  lemma BitAbove(x: Word, y: Word)
    requires Low31(y)
    ensures CrcBit(Xor(x, WithBit(y, false))) == Xor(CrcBit(x), y)
  {
    ShiftedAbove(x.bits, y.bits);
    hide Shifted, WithBit, Xor, XorBits, OneUp;
    BitOf(y);
    XorOf(x, WithBit(y, false));
    XorOf(CrcBit(x), y);
  }

  // ---------------------------------------------------------------- the register loses nothing

  lemma {:induction false} BitsKeep(x: Word, y: Word, n: nat)
    ensures CrcBits(x, n) == CrcBits(y, n) <==> x == y
    decreases n
  {
    hide CrcBit;
    if n > 0 {
      BitKeeps(x, y);
      BitsKeep(CrcBit(x), CrcBit(y), n - 1);
    }
  }

  lemma ByteKeeps(x: Word, y: Word, b: Byte)
    ensures CrcByte(x, b) == CrcByte(y, b) <==> x == y
  {
    hide CrcBits, Widen, Xor;
    XorKeeps(x, y, Widen(b));
    BitsKeep(Xor(x, Widen(b)), Xor(y, Widen(b)), 8);
  }

  /** Two registers that differ differ after any bytes. */
  lemma {:induction false} BytesKeep(x: Word, y: Word, data: Text)
    ensures CrcFrom(x, data) == CrcFrom(y, data) <==> x == y
    decreases |data|
  {
    hide CrcByte;
    if data != [] {
      ByteKeeps(x, y, data[0]);
      BytesKeep(CrcByte(x, data[0]), CrcByte(y, data[0]), data[1..]);
    }
  }

  lemma {:induction false} FromJoined(x: Word, a: Text, b: Text)
    ensures CrcFrom(x, a + b) == CrcFrom(CrcFrom(x, a), b)
    decreases |a|
  {
    hide CrcByte;
    if a == [] {
      Unit(b);
    } else {
      FromJoined(CrcByte(x, a[0]), a[1..], b);
      assert (a + b)[1..] == a[1..] + b;
    }
  }

  lemma {:induction false} BitsJoined(x: Word, m: nat, n: nat)
    ensures CrcBits(x, m + n) == CrcBits(CrcBits(x, m), n)
    decreases m
  {
    hide CrcBit;
    if m > 0 {
      BitsJoined(CrcBit(x), m - 1, n);
    }
  }

  // ---------------------------------------------------------------- four bytes fill the register

  function Up(y: Word, n: nat): Word {
    if n == 0 then y else WithBit(Up(y, n - 1), false)
  }

  /** The lowest `n` bits. */
  function Mask(n: nat): Word {
    if n == 0 then Word(0) else WithBit(Mask(n - 1), true)
  }

  predicate Fits(y: Word, n: nat) {
    Within(y, Mask(n))
  }

  lemma {:induction false} UpFits(y: Word, k: nat, n: nat)
    requires Fits(y, k)
    ensures Fits(Up(y, n), k + n)
  {
    hide Within, WithBit;
    if n > 0 {
      UpFits(y, k, n - 1);
      BitWithin(Up(y, n - 1), Mask(k + n - 1), false);
    }
  }

  lemma {:induction false} MaskGrows(m: nat, n: nat)
    requires m <= n
    ensures Fits(Mask(m), n)
  {
    hide Within, WithBit;
    if m > 0 {
      MaskGrows(m - 1, n - 1);
      BitWithin(Mask(m - 1), Mask(n - 1), true);
    } else {
      ZeroWithin(Mask(n));
    }
  }

  lemma FitsMore(x: Word, m: nat, n: nat)
    requires Fits(x, m) && m <= n
    ensures Fits(x, n)
  {
    hide Within, Mask;
    MaskGrows(m, n);
    WithinMore(x, Mask(m), Mask(n));
  }

  function Up8(m: Word): Word {
    Word(m.bits << 8)
  }

  lemma EightUp(m: Word)
    ensures WithBit(WithBit(WithBit(WithBit(WithBit(WithBit(WithBit(WithBit(m, false), false), false), false), false),
                                            false), false), false) == Up8(m)
  {
  }

  lemma MaskStep(n: nat)
    ensures Mask(n + 1) == WithBit(Mask(n), true)
  {
    hide WithBit;
  }

  lemma UpFour(y: Word, n: nat)
    ensures Up(y, n + 4) == WithBit(WithBit(WithBit(WithBit(Up(y, n), false), false), false), false)
  {
    hide WithBit;
    assert Up(y, n + 2) == WithBit(WithBit(Up(y, n), false), false);
  }

  lemma UpZero(y: Word)
    ensures Up(y, 0) == y
  {
  }

  lemma UpEight(y: Word)
    ensures Up(y, 8) == Up8(y)
  {
    hide *;
    UpZero(y);
    EightUp(y);
    UpFour(y, 0);
    UpFour(y, 4);
  }

  lemma MaskZero()
    ensures Mask(0) == Word(0)
  {
  }

  lemma OnesTo8()
    ensures WithBit(Word(0x0), true) == Word(0x1) && WithBit(Word(0x1), true) == Word(0x3)
    ensures WithBit(Word(0x3), true) == Word(0x7) && WithBit(Word(0x7), true) == Word(0xF)
    ensures WithBit(Word(0xF), true) == Word(0x1F) && WithBit(Word(0x1F), true) == Word(0x3F)
    ensures WithBit(Word(0x3F), true) == Word(0x7F) && WithBit(Word(0x7F), true) == Word(0xFF)
  {
  }

  lemma OnesTo16()
    ensures WithBit(Word(0xFF), true) == Word(0x1FF) && WithBit(Word(0x1FF), true) == Word(0x3FF)
    ensures WithBit(Word(0x3FF), true) == Word(0x7FF) && WithBit(Word(0x7FF), true) == Word(0xFFF)
    ensures WithBit(Word(0xFFF), true) == Word(0x1FFF) && WithBit(Word(0x1FFF), true) == Word(0x3FFF)
    ensures WithBit(Word(0x3FFF), true) == Word(0x7FFF) && WithBit(Word(0x7FFF), true) == Word(0xFFFF)
  {
  }

  lemma OnesTo24()
    ensures WithBit(Word(0xFFFF), true) == Word(0x1_FFFF) && WithBit(Word(0x1_FFFF), true) == Word(0x3_FFFF)
    ensures WithBit(Word(0x3_FFFF), true) == Word(0x7_FFFF) && WithBit(Word(0x7_FFFF), true) == Word(0xF_FFFF)
    ensures WithBit(Word(0xF_FFFF), true) == Word(0x1F_FFFF) && WithBit(Word(0x1F_FFFF), true) == Word(0x3F_FFFF)
    ensures WithBit(Word(0x3F_FFFF), true) == Word(0x7F_FFFF) && WithBit(Word(0x7F_FFFF), true) == Word(0xFF_FFFF)
  {
  }

  lemma OnesTo31()
    ensures WithBit(Word(0xFF_FFFF), true) == Word(0x1FF_FFFF) && WithBit(Word(0x1FF_FFFF), true) == Word(0x3FF_FFFF)
    ensures WithBit(Word(0x3FF_FFFF), true) == Word(0x7FF_FFFF) && WithBit(Word(0x7FF_FFFF), true) == Word(0xFFF_FFFF)
    ensures WithBit(Word(0xFFF_FFFF), true) == Word(0x1FFF_FFFF)
    ensures WithBit(Word(0x1FFF_FFFF), true) == Word(0x3FFF_FFFF)
    ensures WithBit(Word(0x3FFF_FFFF), true) == Word(0x7FFF_FFFF)
  {
  }

  lemma Masks()
    ensures Mask(8) == Word(0xFF) && Mask(24) == Word(0xFF_FFFF) && Mask(31) == Word(0x7FFF_FFFF)
  {
    hide *;
    MaskZero();
    OnesTo8();
    OnesTo16();
    OnesTo24();
    OnesTo31();
    MaskStep(0);
    MaskStep(1);
    MaskStep(2);
    MaskStep(3);
    MaskStep(4);
    MaskStep(5);
    MaskStep(6);
    MaskStep(7);
    MaskStep(8);
    MaskStep(9);
    MaskStep(10);
    MaskStep(11);
    MaskStep(12);
    MaskStep(13);
    MaskStep(14);
    MaskStep(15);
    MaskStep(16);
    MaskStep(17);
    MaskStep(18);
    MaskStep(19);
    MaskStep(20);
    MaskStep(21);
    MaskStep(22);
    MaskStep(23);
    MaskStep(24);
    MaskStep(25);
    MaskStep(26);
    MaskStep(27);
    MaskStep(28);
    MaskStep(29);
    MaskStep(30);
  }

  lemma FitsLow31(y: Word, n: nat)
    requires Fits(y, n) && n <= 31
    ensures Low31(y)
  {
    FitsMore(y, n, 31);
    Masks();
    hide Mask;
  }

  lemma {:induction false} ByteAbove(x: Word, y: Word, n: nat)
    requires n <= 8 && Fits(y, 24)
    ensures CrcBits(Xor(x, Up(y, n)), n) == Xor(CrcBits(x, n), y)
    decreases n
  {
    hide Xor, WithBit, CrcBit, Fits, Low31;
    if n > 0 {
      UpFits(y, 24, n - 1);
      FitsLow31(Up(y, n - 1), 24 + (n - 1));
      BitAbove(x, Up(y, n - 1));
      ByteAbove(CrcBit(x), y, n - 1);
    }
  }

  function Twos(n: nat): nat {
    if n == 0 then 1 else 2 * Twos(n - 1)
  }

  lemma {:induction false} WidenFits(b: Byte, n: nat)
    requires b < Twos(n)
    ensures Fits(Widen(b), n)
    decreases n
  {
    hide WithBit, Within;
    if n == 0 || b == 0 {
      ZeroWithin(Mask(n));
    } else {
      WidenFits(b / 2, n - 1);
      BitWithin(Widen(b / 2), Mask(n - 1), b % 2 == 1);
    }
  }

  lemma ByteFits(b: Byte)
    ensures Fits(Widen(b), 8)
  {
    hide Widen, Fits;
    assert Twos(8) == 256;
    WidenFits(b, 8);
  }

  lemma WidenStep(b: Byte)
    ensures Widen(b) == WithBit(Widen(b / 2), b % 2 == 1)
  {
  }

  lemma {:induction false} WidenKeeps(b: Byte, c: Byte)
    requires Widen(b) == Widen(c)
    ensures b == c
    decreases b + c
  {
    hide *;
    if b != 0 || c != 0 {
      ByteFits(b / 2);
      ByteFits(c / 2);
      FitsLow31(Widen(b / 2), 8);
      FitsLow31(Widen(c / 2), 8);
      WidenStep(b);
      WidenStep(c);
      WithBitKeeps(Widen(b / 2), Widen(c / 2), b % 2 == 1, c % 2 == 1);
      WidenKeeps(b / 2, c / 2);
    }
  }

  /** Up to four bytes as one word, the first one lowest. */
  function Pack(w: Text): Word {
    if w == [] then Word(0) else Xor(Widen(w[0]), Up(Pack(w[1..]), 8))
  }

  lemma {:induction false} PackFits(w: Text)
    ensures Fits(Pack(w), 8 * |w|)
  {
    hide Within, Xor, Up, Widen, Mask;
    if w == [] {
      ZeroWithin(Mask(0));
    } else {
      PackFits(w[1..]);
      ByteFits(w[0]);
      UpFits(Pack(w[1..]), 8 * |w[1..]|, 8);
      FitsMore(Widen(w[0]), 8, 8 * |w|);
      WithinBoth(Widen(w[0]), Up(Pack(w[1..]), 8), Mask(8 * |w|));
    }
  }

  /** Reading up to four bytes is reading their word at once. */
  lemma {:induction false} FromPack(x: Word, w: Text)
    requires |w| <= 4
    ensures CrcFrom(x, w) == CrcBits(Xor(x, Pack(w)), 8 * |w|)
    decreases |w|
  {
    hide Fits, Xor, Up, Widen, CrcBits;
    if w == [] {
      XorAssoc(x, x, x);
      BitsStep(x);
    } else {
      var rest, first := w[1..], Xor(x, Widen(w[0]));
      PackFits(rest);
      FitsMore(Pack(rest), 8 * |rest|, 24);
      FromPack(CrcByte(x, w[0]), rest);
      ByteAbove(first, Pack(rest), 8);
      XorAssoc(x, Widen(w[0]), Up(Pack(rest), 8));
      BitsJoined(Xor(first, Up(Pack(rest), 8)), 8, 8 * |rest|);
    }
  }

  lemma BitsStep(x: Word)
    ensures CrcBits(x, 0) == x
  {
  }

  lemma LowByte(a: Word, b: Word, x: Word, y: Word)
    requires Within(a, Word(0xFF)) && Within(b, Word(0xFF)) && Within(x, Word(0xFF_FFFF)) && Within(y, Word(0xFF_FFFF))
    requires Xor(a, Up8(x)) == Xor(b, Up8(y))
    ensures a == b && x == y
  {
  }

  lemma PackStep(w: Text)
    requires 0 < |w| <= 4
    ensures Pack(w) == Xor(Widen(w[0]), Up8(Pack(w[1..])))
    ensures Within(Widen(w[0]), Word(0xFF)) && Within(Pack(w[1..]), Word(0xFF_FFFF))
  {
    hide Widen, Up, Up8, Mask, Xor, Within;
    Masks();
    ByteFits(w[0]);
    PackFits(w[1..]);
    FitsMore(Pack(w[1..]), 8 * |w[1..]|, 24);
    UpEight(Pack(w[1..]));
  }

  lemma {:induction false} PackKeeps(w: Text, v: Text)
    requires |w| == |v| <= 4 && Pack(w) == Pack(v)
    ensures w == v
  {
    hide *;
    if w != [] {
      PackStep(w);
      PackStep(v);
      LowByte(Widen(w[0]), Widen(v[0]), Pack(w[1..]), Pack(v[1..]));
      WidenKeeps(w[0], v[0]);
      PackKeeps(w[1..], v[1..]);
      assert w == [w[0]] + w[1..] && v == [v[0]] + v[1..];
    }
  }

  // ---------------------------------------------------------------- what the checksum finds

  /** The same text but for up to four bytes in a row. */
  ghost predicate Damaged(a: Text, b: Text) {
    a != b && exists p: Text, w: Text, v: Text, q: Text :: |w| == |v| <= 4 && a == p + w + q && b == p + v + q
  }

  lemma RegisterFindsDamage(start: Word, p: Text, w: Text, v: Text, q: Text)
    requires |w| == |v| <= 4 && w != v
    ensures CrcFrom(start, p + w + q) != CrcFrom(start, p + v + q)
  {
    hide *;
    var x := CrcFrom(start, p);
    FromJoined(start, p, w);
    FromJoined(start, p, v);
    FromJoined(start, p + w, q);
    FromJoined(start, p + v, q);
    FromPack(x, w);
    FromPack(x, v);
    if Pack(w) == Pack(v) { PackKeeps(w, v); }
    XorKeeps(Pack(w), Pack(v), x);
    BitsKeep(Xor(x, Pack(w)), Xor(x, Pack(v)), 8 * |w|);
    BytesKeep(CrcFrom(x, w), CrcFrom(x, v), q);
  }

  function WordOf(n: nat): bv32
    requires n < 0x1_0000_0000
  {
    n as bv32
  }

  lemma NumberBack(x: Word)
    ensures WordOf(Number(x)) == x.bits
  {
  }

  lemma NumberKeeps(x: Word, y: Word)
    ensures Number(x) == Number(y) <==> x == y
  {
    NumberBack(x);
    NumberBack(y);
    hide Number, WordOf;
  }

  lemma ChecksumIs(a: Text, b: Text)
    ensures Crc32(a) == Crc32(b) <==> CrcFrom(Word(0xFFFF_FFFF), a) == CrcFrom(Word(0xFFFF_FFFF), b)
  {
    hide CrcFrom, Xor, Number;
    var ones := Word(0xFFFF_FFFF);
    XorKeeps(CrcFrom(ones, a), CrcFrom(ones, b), ones);
    NumberKeeps(Xor(CrcFrom(ones, a), ones), Xor(CrcFrom(ones, b), ones));
  }

  lemma ChecksumFindsDamage(a: Text, b: Text)
    requires Damaged(a, b)
    ensures Crc32(a) != Crc32(b)
  {
    hide Crc32, CrcFrom;
    var p: Text, w: Text, v: Text, q: Text :| |w| == |v| <= 4 && a == p + w + q && b == p + v + q;
    RegisterFindsDamage(Word(0xFFFF_FFFF), p, w, v, q);
    ChecksumIs(a, b);
  }

  // ---------------------------------------------------------------- the check value

  lemma Digit1()
    ensures CrcByte(Word(0xFFFF_FFFF), 49) == Word(0x7C23_1048)
  {
    assert Xor(Word(0xFFFF_FFFF), Widen(49)) == Word(0xFFFF_FFCE);
    assert CrcBits(Word(0xFFFF_FFCE), 4) == Word(0xAFF5_1D84);
    assert CrcBits(Word(0xAFF5_1D84), 4) == Word(0x7C23_1048);
    BitsJoined(Word(0xFFFF_FFCE), 4, 4);
  }

  lemma Digit2()
    ensures CrcByte(Word(0x7C23_1048), 50) == Word(0xB0AC_BB32)
  {
    assert Xor(Word(0x7C23_1048), Widen(50)) == Word(0x7C23_107A);
    assert CrcBits(Word(0x7C23_107A), 4) == Word(0xD114_92EF);
    assert CrcBits(Word(0xD114_92EF), 4) == Word(0xB0AC_BB32);
    BitsJoined(Word(0x7C23_107A), 4, 4);
  }

  lemma Digit3()
    ensures CrcByte(Word(0xB0AC_BB32), 51) == Word(0x77B7_9C2D)
  {
    assert Xor(Word(0xB0AC_BB32), Widen(51)) == Word(0xB0AC_BB01);
    assert CrcBits(Word(0xB0AC_BB01), 4) == Word(0x16BD_DBD4);
    assert CrcBits(Word(0x16BD_DBD4), 4) == Word(0x77B7_9C2D);
    BitsJoined(Word(0xB0AC_BB01), 4, 4);
  }

  lemma Digit4()
    ensures CrcByte(Word(0x77B7_9C2D), 52) == Word(0x641C_1F5C)
  {
    assert Xor(Word(0x77B7_9C2D), Widen(52)) == Word(0x77B7_9C19);
    assert CrcBits(Word(0x77B7_9C19), 4) == Word(0xF774_EA85);
    assert CrcBits(Word(0xF774_EA85), 4) == Word(0x641C_1F5C);
    BitsJoined(Word(0x77B7_9C19), 4, 4);
  }

  lemma Digit5()
    ensures CrcByte(Word(0x641C_1F5C), 53) == Word(0x340A_C5E3)
  {
    assert Xor(Word(0x641C_1F5C), Widen(53)) == Word(0x641C_1F69);
    assert CrcBits(Word(0x641C_1F69), 4) == Word(0xF64E_52B2);
    assert CrcBits(Word(0xF64E_52B2), 4) == Word(0x340A_C5E3);
    BitsJoined(Word(0x641C_1F69), 4, 4);
  }

  lemma Digit6()
    ensures CrcByte(Word(0x340A_C5E3), 54) == Word(0xF68D_2C9E)
  {
    assert Xor(Word(0x340A_C5E3), Widen(54)) == Word(0x340A_C5D5);
    assert CrcBits(Word(0x340A_C5D5), 4) == Word(0x682B_FDA9);
    assert CrcBits(Word(0x682B_FDA9), 4) == Word(0xF68D_2C9E);
    BitsJoined(Word(0x340A_C5D5), 4, 4);
  }

  lemma Digit7()
    ensures CrcByte(Word(0xF68D_2C9E), 55) == Word(0xAFFC_9660)
  {
    assert Xor(Word(0xF68D_2C9E), Widen(55)) == Word(0xF68D_2CA9);
    assert CrcBits(Word(0xF68D_2CA9), 4) == Word(0xFF67_418E);
    assert CrcBits(Word(0xFF67_418E), 4) == Word(0xAFFC_9660);
    BitsJoined(Word(0xF68D_2CA9), 4, 4);
  }

  lemma Digit8()
    ensures CrcByte(Word(0xAFFC_9660), 56) == Word(0x651F_2550)
  {
    assert Xor(Word(0xAFFC_9660), Widen(56)) == Word(0xAFFC_9658);
    assert CrcBits(Word(0xAFFC_9658), 4) == Word(0xE747_4A45);
    assert CrcBits(Word(0xE747_4A45), 4) == Word(0x651F_2550);
    BitsJoined(Word(0xAFFC_9658), 4, 4);
  }

  lemma Digit9()
    ensures CrcByte(Word(0x651F_2550), 57) == Word(0x340B_C6D9)
  {
    assert Xor(Word(0x651F_2550), Widen(57)) == Word(0x651F_2569);
    assert CrcBits(Word(0x651F_2569), 4) == Word(0xF65E_6112);
    assert CrcBits(Word(0xF65E_6112), 4) == Word(0x340B_C6D9);
    BitsJoined(Word(0x651F_2569), 4, 4);
  }

  lemma FromTwo(x: Word, a: Byte, b: Byte, rest: Text)
    ensures CrcFrom(x, [a, b] + rest) == CrcFrom(CrcByte(CrcByte(x, a), b), rest)
  {
    hide CrcByte;
    assert ([a, b] + rest)[1..] == [b] + rest && ([b] + rest)[1..] == rest;
  }

  lemma FromOne(x: Word, a: Byte)
    ensures CrcFrom(x, [a]) == CrcByte(x, a)
  {
    hide CrcByte;
    assert [a][1..] == [];
  }

  lemma LastXor()
    ensures Number(Xor(Word(0x340B_C6D9), Word(0xFFFF_FFFF))) == 0xCBF4_3926
  {
  }

  lemma Crc32Is(data: Text)
    ensures Crc32(data) == Number(Xor(CrcFrom(Word(0xFFFF_FFFF), data), Word(0xFFFF_FFFF)))
  {
    hide CrcFrom, Number, Xor;
  }

  lemma NineDigits()
    ensures Ascii("123456789") == [49, 50] + ([51, 52] + ([53, 54] + ([55, 56] + [57])))
  {
  }

  /** The published check value of this CRC: that of the nine digits. */
  lemma CheckValue()
    ensures Crc32(Ascii("123456789")) == 0xCBF4_3926
  {
    hide *;
    Digit1();
    Digit2();
    Digit3();
    Digit4();
    Digit5();
    Digit6();
    Digit7();
    Digit8();
    Digit9();
    LastXor();
    NineDigits();
    Crc32Is(Ascii("123456789"));
    var at7: Text := [55, 56] + [57];
    var at5: Text := [53, 54] + at7;
    var at3: Text := [51, 52] + at5;
    FromTwo(Word(0xFFFF_FFFF), 49, 50, at3);
    FromTwo(Word(0xB0AC_BB32), 51, 52, at5);
    FromTwo(Word(0x641C_1F5C), 53, 54, at7);
    FromTwo(Word(0xF68D_2C9E), 55, 56, [57]);
    FromOne(Word(0x651F_2550), 57);
  }
}
