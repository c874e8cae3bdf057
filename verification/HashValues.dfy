/** The hash as arithmetic on numbers, and its value for keys written out in full. */
module HashValues {
  import opened Bits
  import opened Bytes
  import opened Murmur

  // ---- Exclusive or of numbers written in hexadecimal ----

  /** Two binary digits. */
  datatype Pair = Pair(b1: bool, b0: bool) {
    function Value(): (v: nat)
      ensures v < 4
    {
      2 * Bit(b1) + Bit(b0)
    }

    function Xor(y: Pair): Pair {
      Pair(b1 != y.b1, b0 != y.b0)
    }
  }

  function Bit(b: bool): (v: nat)
    ensures v < 2
  {
    if b then 1 else 0
  }

  /** A hexadecimal digit. */
  datatype Hex = Hex(upper: Pair, lower: Pair) {
    function Value(): (v: nat)
      ensures v < 16
    {
      4 * upper.Value() + lower.Value()
    }

    function Xor(y: Hex): Hex {
      Hex(upper.Xor(y.upper), lower.Xor(y.lower))
    }
  }

  const P0 := Pair(false, false)
  const P1 := Pair(false, true)
  const P2 := Pair(true, false)
  const P3 := Pair(true, true)

  const H0 := Hex(P0, P0)
  const H1 := Hex(P0, P1)
  const H2 := Hex(P0, P2)
  const H3 := Hex(P0, P3)
  const H4 := Hex(P1, P0)
  const H5 := Hex(P1, P1)
  const H6 := Hex(P1, P2)
  const H7 := Hex(P1, P3)
  const H8 := Hex(P2, P0)
  const H9 := Hex(P2, P1)
  const HA := Hex(P2, P2)
  const HB := Hex(P2, P3)
  const HC := Hex(P3, P0)
  const HD := Hex(P3, P1)
  const HE := Hex(P3, P2)
  const HF := Hex(P3, P3)

  /** Eight hexadecimal digits. */
  datatype Word = Word(h7: Hex, h6: Hex, h5: Hex, h4: Hex, h3: Hex, h2: Hex, h1: Hex, h0: Hex) {
    function Upper(): nat {
      16 * (16 * (16 * h7.Value() + h6.Value()) + h5.Value()) + h4.Value()
    }

    function Value(): nat {
      16 * (16 * (16 * (16 * Upper() + h3.Value()) + h2.Value()) + h1.Value()) + h0.Value()
    }

    function Xor(y: Word): Word {
      Word(h7.Xor(y.h7), h6.Xor(y.h6), h5.Xor(y.h5), h4.Xor(y.h4),
           h3.Xor(y.h3), h2.Xor(y.h2), h1.Xor(y.h1), h0.Xor(y.h0))
    }
  }

  lemma HalfOf(a: nat, u: bool)
    ensures (2 * a + Bit(u)) / 2 == a && (2 * a + Bit(u)) % 2 == Bit(u)
  {
  }

  lemma Parity(p: nat, q: nat, u: bool, v: bool)
    requires p % 2 == Bit(u) && q % 2 == Bit(v)
    ensures (p + q) % 2 == Bit(u != v)
  {
  }

  lemma XorDouble(a: nat, b: nat, u: bool, v: bool)
    ensures Bits.Xor(2 * a + Bit(u), 2 * b + Bit(v)) == 2 * Bits.Xor(a, b) + Bit(u != v)
  {
    hide Bits.Xor, Bit;
    var p, q := 2 * a + Bit(u), 2 * b + Bit(v);
    HalfOf(a, u);
    HalfOf(b, v);
    Parity(p, q, u, v);
    XorStep(p, q);
    Recombine(Bits.Xor(p, q));
  }

  lemma XorPair(a: nat, b: nat, x: Pair, y: Pair)
    ensures Bits.Xor(4 * a + x.Value(), 4 * b + y.Value()) == 4 * Bits.Xor(a, b) + x.Xor(y).Value()
  {
    hide Bits.Xor, Bit;
    XorDouble(a, b, x.b1, y.b1);
    XorDouble(2 * a + Bit(x.b1), 2 * b + Bit(y.b1), x.b0, y.b0);
    assert 2 * (2 * a + Bit(x.b1)) + Bit(x.b0) == 4 * a + x.Value();
    assert 2 * (2 * b + Bit(y.b1)) + Bit(y.b0) == 4 * b + y.Value();
  }

  lemma XorDigit(a: nat, b: nat, x: Hex, y: Hex)
    ensures Bits.Xor(16 * a + x.Value(), 16 * b + y.Value()) == 16 * Bits.Xor(a, b) + x.Xor(y).Value()
  {
    hide Bits.Xor, Pair.Value, Pair.Xor;
    XorPair(a, b, x.upper, y.upper);
    XorPair(4 * a + x.upper.Value(), 4 * b + y.upper.Value(), x.lower, y.lower);
    assert 4 * (4 * a + x.upper.Value()) + x.lower.Value() == 16 * a + x.Value();
    assert 4 * (4 * b + y.upper.Value()) + y.lower.Value() == 16 * b + y.Value();
  }

  lemma XorFirst(x: Hex, y: Hex)
    ensures Bits.Xor(x.Value(), y.Value()) == x.Xor(y).Value()
  {
    hide Hex.Value, Hex.Xor;
    XorZero(0);
    XorDigit(0, 0, x, y);
    assert 16 * 0 + x.Value() == x.Value() && 16 * 0 + y.Value() == y.Value();
  }

  lemma XorUpper(x: Word, y: Word)
    ensures Bits.Xor(x.Upper(), y.Upper()) == x.Xor(y).Upper()
  {
    hide Bits.Xor, Hex.Value, Hex.Xor;
    var a7, b7 := x.h7.Value(), y.h7.Value();
    var a6, b6 := 16 * a7 + x.h6.Value(), 16 * b7 + y.h6.Value();
    var a5, b5 := 16 * a6 + x.h5.Value(), 16 * b6 + y.h5.Value();
    XorFirst(x.h7, y.h7);
    XorDigit(a7, b7, x.h6, y.h6);
    XorDigit(a6, b6, x.h5, y.h5);
    XorDigit(a5, b5, x.h4, y.h4);
  }

  /** Digit by digit. */
  lemma XorWords(x: Word, y: Word)
    ensures Bits.Xor(x.Value(), y.Value()) == x.Xor(y).Value()
  {
    hide Bits.Xor, Hex.Value, Hex.Xor, Word.Upper;
    XorUpper(x, y);
    var a4, b4 := x.Upper(), y.Upper();
    var a3, b3 := 16 * a4 + x.h3.Value(), 16 * b4 + y.h3.Value();
    var a2, b2 := 16 * a3 + x.h2.Value(), 16 * b3 + y.h2.Value();
    var a1, b1 := 16 * a2 + x.h1.Value(), 16 * b2 + y.h1.Value();
    XorDigit(a4, b4, x.h3, y.h3);
    XorDigit(a3, b3, x.h2, y.h2);
    XorDigit(a2, b2, x.h1, y.h1);
    XorDigit(a1, b1, x.h0, y.h0);
  }

  lemma HexValues()
    ensures H0.Value() == 0 && H1.Value() == 1 && H2.Value() == 2 && H3.Value() == 3
    ensures H4.Value() == 4 && H5.Value() == 5 && H6.Value() == 6 && H7.Value() == 7
    ensures H8.Value() == 8 && H9.Value() == 9 && HA.Value() == 10 && HB.Value() == 11
    ensures HC.Value() == 12 && HD.Value() == 13 && HE.Value() == 14 && HF.Value() == 15
  {
  }

  /** The exclusive or of the values of two words. */
  lemma XorIs(x: Word, y: Word, z: Word, a: nat, b: nat, c: nat)
    requires x.Value() == a && y.Value() == b && z.Value() == c && x.Xor(y) == z
    ensures Bits.Xor(a, b) == c
  {
    XorWords(x, y);
  }

  // ---- The steps of the hash as arithmetic ----

  /** The little-endian word at position i. */
  function WordAt(key: seq<uint8>, i: nat): nat
    requires i + 4 <= |key|
  {
    key[i] as int + key[i + 1] as int * 0x100 + key[i + 2] as int * 0x1_0000 + key[i + 3] as int * 0x100_0000
  }

  /** What becomes of a block or of the tail before it enters the hash: multiply, rotate by 15
      places, multiply. */
  ghost predicate Scrambled(k: nat, a: nat, b: nat, c: nat) {
    && a == k * 0xcc9e2d51 % 0x1_0000_0000
    && b == a % 0x2_0000 * 0x8000 + a / 0x2_0000
    && c == b * 0x1b873593 % 0x1_0000_0000
  }

  lemma ScrambledIs(k: uint32, a: nat, b: nat, c: nat)
    requires Scrambled(k, a, b, c)
    ensures c == MixKey(k)
  {
    hide Rotl32, Mul32;
    assert a == Mul32(k, 0xcc9e2d51) by {
      MulIs(k, 0xcc9e2d51);
    }
    RotateIs(a, 15);
    RotatePowers();
    assert c == Mul32(b, 0x1b873593) by {
      MulIs(b, 0x1b873593);
    }
  }

  lemma MulIs(a: uint32, c: uint32)
    ensures Mul32(a, c) == a * c % 0x1_0000_0000
  {
  }

  lemma RotateIs(x: uint32, r: nat)
    requires 0 < r < 32
    ensures Rotl32(x, r) == x % Pow2(32 - r) * Pow2(r) + x / Pow2(32 - r)
  {
    RotatedFits(x, r);
  }

  lemma RotatePowers()
    ensures Pow2(15) == 0x8000 && Pow2(17) == 0x2_0000 && Pow2(13) == 0x2000 && Pow2(19) == 0x8_0000
  {
    assert Pow2(5) == 0x20 && Pow2(3) == 8 && Pow2(7) == 0x80 && Pow2(1) == 2;
    Pow2Values();
    Pow2Adds(8, 7);
    Pow2Adds(16, 1);
    Pow2Adds(8, 5);
    Pow2Adds(16, 3);
  }

  /** The hash starts as 59, and each block changes it like this: the block is scrambled and
      exclusive-or-ed in, and the result rotated by 13 places, multiplied by 5 and added to. */
  lemma BlockStep(key: seq<uint8>, n: nat, a: nat, b: nat, c: nat, x: nat, y: nat)
    requires 4 * n + 4 <= |key| && Scrambled(WordAt(key, 4 * n), a, b, c)
    requires x == Bits.Xor(Body(key, n), c) && y == x % 0x8_0000 * 0x2000 + x / 0x8_0000
    ensures Body(key, 0) == 59
    ensures Body(key, n + 1) == (y * 5 + 0xe6546b64) % 0x1_0000_0000
  {
    hide Rotl32, MixKey, Bits.Xor, Scrambled, WordAt, Block;
    assert WordAt(key, 4 * n) == Block(key, n) by {
      BlockIs(key, n);
    }
    ScrambledIs(Block(key, n), a, b, c);
    RotateIs(Xor32(Body(key, n), c), 13);
    RotatePowers();
  }

  lemma BlockIs(key: seq<uint8>, n: nat)
    requires 4 * n + 4 <= |key|
    ensures WordAt(key, 4 * n) == Block(key, n)
  {
  }

  /** The number the bytes behind the last whole block stand for. */
  function RestOf(key: seq<uint8>): nat {
    var m, n := |key| / 4 * 4, |key| % 4;
    (if n >= 1 then key[m] as int else 0) + (if n >= 2 then key[m + 1] as int * 0x100 else 0)
    + if n >= 3 then key[m + 2] as int * 0x1_0000 else 0
  }

  lemma RestIs(key: seq<uint8>)
    ensures RestOf(key) == TailWord(Tail(key)) && (Tail(key) == [] <==> |key| % 4 == 0)
  {
    hide TailWord;
    TailWordValue(Tail(key));
  }

  /** After the blocks, the scrambled rest is exclusive-or-ed in if there is one, then the length,
      and the result is shifted onto itself by 16, 13 and 16 places with a product after each of
      the first two. */
  lemma LastSteps(key: seq<uint8>, a: nat, b: nat, c: nat, h: nat, g: nat, x: nat, d: nat, y: nat, e: nat)
    requires |key| < 0x8000_0000 && Scrambled(RestOf(key), a, b, c)
    requires h == if |key| % 4 == 0 then Body(key, |key| / 4) else Bits.Xor(Body(key, |key| / 4), c)
    requires g == Bits.Xor(h, |key|)
    requires x == Bits.Xor(g, g / 0x1_0000) && d == x * 0x85ebca6b % 0x1_0000_0000
    requires y == Bits.Xor(d, d / 0x2000) && e == y * 0xc2b2ae35 % 0x1_0000_0000
    ensures Hash32(key) == Bits.Xor(e, e / 0x1_0000)
  {
    hide Body, MixKey, Bits.Xor, Scrambled, RestOf, TailWord, Fmix32;
    RestIs(key);
    ScrambledIs(RestOf(key), a, b, c);
    assert h == (if |key| % 4 == 0 then Body(key, |key| / 4) else Xor32(Body(key, |key| / 4), MixKey(RestOf(key))));
    assert g == Xor32(h, |key|);
    FinalSteps(g, x, d, y, e);
  }

  lemma FinalSteps(g: uint32, x: nat, d: nat, y: nat, e: nat)
    requires x == Bits.Xor(g, g / 0x1_0000) && d == x * 0x85ebca6b % 0x1_0000_0000
    requires y == Bits.Xor(d, d / 0x2000) && e == y * 0xc2b2ae35 % 0x1_0000_0000
    ensures Fmix32(g) == Bits.Xor(e, e / 0x1_0000)
  {
    hide Bits.Xor, XorShift, Mul32;
    ShiftIs(g);
    MulIs(x, 0x85ebca6b);
    ShiftIs(d);
    MulIs(y, 0xc2b2ae35);
    ShiftIs(e);
  }

  lemma ShiftIs(x: uint32)
    ensures XorShift(x, 16) == Bits.Xor(x, x / 0x1_0000)
    ensures XorShift(x, 13) == Bits.Xor(x, x / 0x2000)
  {
    Pow2Values();
    RotatePowers();
    ShrIs(x, 16);
    ShrIs(x, 13);
  }

  // ---- Keys written out ----

  lemma FirstHash(key: seq<uint8>)
    ensures Body(key, 0) == 59
  {
  }

  lemma XorsOfNothing()
    ensures Bits.Xor(0x3b, 0x0) == 0x3b
    ensures Bits.Xor(0x3b, 0x0) == 0x3b
    ensures Bits.Xor(0xdd57a6a9, 0x6eabd) == 0xdd514c14
    ensures Bits.Xor(0x21725824, 0x2172) == 0x21727956
  {
    hide Bits.Xor, Hex.Value;
    HexValues();
    assert Bits.Xor(0x3b, 0x0) == 0x3b by {
      XorIs(Word(H0, H0, H0, H0, H0, H0, H3, HB),
            Word(H0, H0, H0, H0, H0, H0, H0, H0),
            Word(H0, H0, H0, H0, H0, H0, H3, HB),
            0x3b, 0x0, 0x3b);
    }
    assert Bits.Xor(0x3b, 0x0) == 0x3b by {
      XorIs(Word(H0, H0, H0, H0, H0, H0, H3, HB),
            Word(H0, H0, H0, H0, H0, H0, H0, H0),
            Word(H0, H0, H0, H0, H0, H0, H3, HB),
            0x3b, 0x0, 0x3b);
    }
    assert Bits.Xor(0xdd57a6a9, 0x6eabd) == 0xdd514c14 by {
      XorIs(Word(HD, HD, H5, H7, HA, H6, HA, H9),
            Word(H0, H0, H0, H6, HE, HA, HB, HD),
            Word(HD, HD, H5, H1, H4, HC, H1, H4),
            0xdd57a6a9, 0x6eabd, 0xdd514c14);
    }
    assert Bits.Xor(0x21725824, 0x2172) == 0x21727956 by {
      XorIs(Word(H2, H1, H7, H2, H5, H8, H2, H4),
            Word(H0, H0, H0, H0, H2, H1, H7, H2),
            Word(H2, H1, H7, H2, H7, H9, H5, H6),
            0x21725824, 0x2172, 0x21727956);
    }
  }

  lemma MixedSeed()
    ensures Fmix32(0x3b) == 0x21727956
  {
    hide Bits.Xor, Fmix32;
    XorsOfNothing();
    FinalSteps(0x3b, 0x3b, 0xdd57a6a9, 0xdd514c14, 0x21725824);
  }

  /** The empty key. */
  lemma HashOfNothing()
    ensures Hash32([]) == 0x21727956
  {
    hide Fmix32, Bits.Xor;
    XorZero(0x3b);
    MixedSeed();
  }

  lemma XorsOfAbcd()
    ensures Bits.Xor(0x3b, 0x5b9433b7) == 0x5b94338c
    ensures Bits.Xor(0x868c249e, 0x4) == 0x868c249a
    ensures Bits.Xor(0x868c249a, 0x868c) == 0x868ca216
    ensures Bits.Xor(0x6cdf1b32, 0x366f8) == 0x6cdc7dca
    ensures Bits.Xor(0xf19956d2, 0xf199) == 0xf199a74b
  {
    hide Bits.Xor, Hex.Value;
    HexValues();
    assert Bits.Xor(0x3b, 0x5b9433b7) == 0x5b94338c by {
      XorIs(Word(H0, H0, H0, H0, H0, H0, H3, HB),
            Word(H5, HB, H9, H4, H3, H3, HB, H7),
            Word(H5, HB, H9, H4, H3, H3, H8, HC),
            0x3b, 0x5b9433b7, 0x5b94338c);
    }
    assert Bits.Xor(0x868c249e, 0x4) == 0x868c249a by {
      XorIs(Word(H8, H6, H8, HC, H2, H4, H9, HE),
            Word(H0, H0, H0, H0, H0, H0, H0, H4),
            Word(H8, H6, H8, HC, H2, H4, H9, HA),
            0x868c249e, 0x4, 0x868c249a);
    }
    assert Bits.Xor(0x868c249a, 0x868c) == 0x868ca216 by {
      XorIs(Word(H8, H6, H8, HC, H2, H4, H9, HA),
            Word(H0, H0, H0, H0, H8, H6, H8, HC),
            Word(H8, H6, H8, HC, HA, H2, H1, H6),
            0x868c249a, 0x868c, 0x868ca216);
    }
    assert Bits.Xor(0x6cdf1b32, 0x366f8) == 0x6cdc7dca by {
      XorIs(Word(H6, HC, HD, HF, H1, HB, H3, H2),
            Word(H0, H0, H0, H3, H6, H6, HF, H8),
            Word(H6, HC, HD, HC, H7, HD, HC, HA),
            0x6cdf1b32, 0x366f8, 0x6cdc7dca);
    }
    assert Bits.Xor(0xf19956d2, 0xf199) == 0xf199a74b by {
      XorIs(Word(HF, H1, H9, H9, H5, H6, HD, H2),
            Word(H0, H0, H0, H0, HF, H1, H9, H9),
            Word(HF, H1, H9, H9, HA, H7, H4, HB),
            0xf19956d2, 0xf199, 0xf199a74b);
    }
  }

  lemma WordsOfAbcd()
    ensures WordAt([97, 98, 99, 100], 0) == 0x64636261
    ensures RestOf([97, 98, 99, 100]) == 0x0
  {
  }

  /** "abcd": one block and no rest. */
  lemma HashOfAbcd()
    ensures Hash32([97, 98, 99, 100]) == 0xf199a74b
  {
    hide Bits.Xor, WordAt, RestOf, Body, Hash32;
    var key: seq<uint8> := [97, 98, 99, 100];
    XorsOfAbcd();
    WordsOfAbcd();
    FirstHash(key);
    BlockStep(key, 0, 0x3f9b2db1, 0x96d89fcd, 0x5b9433b7, 0x5b94338c, 0x86718b72);
    LastSteps(key, 0x0, 0x0, 0x0, 0x868c249e, 0x868c249a, 0x868ca216, 0x6cdf1b32, 0x6cdc7dca, 0xf19956d2);
  }

  lemma XorsOfName()
    ensures Bits.Xor(0x3b, 0x8ad4b94d) == 0x8ad4b976
    ensures Bits.Xor(0xda3e8226, 0xb0c88bb1) == 0x6af60997
    ensures Bits.Xor(0xac530e3a, 0xe8f41199) == 0x44a71fa3
    ensures Bits.Xor(0x5a1a7648, 0xc7a33c65) == 0x9db94a2d
    ensures Bits.Xor(0x9db94a2d, 0xf) == 0x9db94a22
    ensures Bits.Xor(0x9db94a22, 0x9db9) == 0x9db9d79b
    ensures Bits.Xor(0x3166bc9, 0x18b3) == 0x316737a
    ensures Bits.Xor(0xa4f6d442, 0xa4f6) == 0xa4f670b4
  {
    hide Bits.Xor, Hex.Value;
    HexValues();
    assert Bits.Xor(0x3b, 0x8ad4b94d) == 0x8ad4b976 by {
      XorIs(Word(H0, H0, H0, H0, H0, H0, H3, HB),
            Word(H8, HA, HD, H4, HB, H9, H4, HD),
            Word(H8, HA, HD, H4, HB, H9, H7, H6),
            0x3b, 0x8ad4b94d, 0x8ad4b976);
    }
    assert Bits.Xor(0xda3e8226, 0xb0c88bb1) == 0x6af60997 by {
      XorIs(Word(HD, HA, H3, HE, H8, H2, H2, H6),
            Word(HB, H0, HC, H8, H8, HB, HB, H1),
            Word(H6, HA, HF, H6, H0, H9, H9, H7),
            0xda3e8226, 0xb0c88bb1, 0x6af60997);
    }
    assert Bits.Xor(0xac530e3a, 0xe8f41199) == 0x44a71fa3 by {
      XorIs(Word(HA, HC, H5, H3, H0, HE, H3, HA),
            Word(HE, H8, HF, H4, H1, H1, H9, H9),
            Word(H4, H4, HA, H7, H1, HF, HA, H3),
            0xac530e3a, 0xe8f41199, 0x44a71fa3);
    }
    assert Bits.Xor(0x5a1a7648, 0xc7a33c65) == 0x9db94a2d by {
      XorIs(Word(H5, HA, H1, HA, H7, H6, H4, H8),
            Word(HC, H7, HA, H3, H3, HC, H6, H5),
            Word(H9, HD, HB, H9, H4, HA, H2, HD),
            0x5a1a7648, 0xc7a33c65, 0x9db94a2d);
    }
    assert Bits.Xor(0x9db94a2d, 0xf) == 0x9db94a22 by {
      XorIs(Word(H9, HD, HB, H9, H4, HA, H2, HD),
            Word(H0, H0, H0, H0, H0, H0, H0, HF),
            Word(H9, HD, HB, H9, H4, HA, H2, H2),
            0x9db94a2d, 0xf, 0x9db94a22);
    }
    assert Bits.Xor(0x9db94a22, 0x9db9) == 0x9db9d79b by {
      XorIs(Word(H9, HD, HB, H9, H4, HA, H2, H2),
            Word(H0, H0, H0, H0, H9, HD, HB, H9),
            Word(H9, HD, HB, H9, HD, H7, H9, HB),
            0x9db94a22, 0x9db9, 0x9db9d79b);
    }
    assert Bits.Xor(0x3166bc9, 0x18b3) == 0x316737a by {
      XorIs(Word(H0, H3, H1, H6, H6, HB, HC, H9),
            Word(H0, H0, H0, H0, H1, H8, HB, H3),
            Word(H0, H3, H1, H6, H7, H3, H7, HA),
            0x3166bc9, 0x18b3, 0x316737a);
    }
    assert Bits.Xor(0xa4f6d442, 0xa4f6) == 0xa4f670b4 by {
      XorIs(Word(HA, H4, HF, H6, HD, H4, H4, H2),
            Word(H0, H0, H0, H0, HA, H4, HF, H6),
            Word(HA, H4, HF, H6, H7, H0, HB, H4),
            0xa4f6d442, 0xa4f6, 0xa4f670b4);
    }
  }

  lemma WordsOfName()
    ensures WordAt([119, 119, 119, 46, 101, 120, 97, 109, 112, 108, 101, 46, 99, 111, 109], 0) == 0x2e777777
    ensures WordAt([119, 119, 119, 46, 101, 120, 97, 109, 112, 108, 101, 46, 99, 111, 109], 4) == 0x6d617865
    ensures WordAt([119, 119, 119, 46, 101, 120, 97, 109, 112, 108, 101, 46, 99, 111, 109], 8) == 0x2e656c70
    ensures RestOf([119, 119, 119, 46, 101, 120, 97, 109, 112, 108, 101, 46, 99, 111, 109]) == 0x6d6f63
  {
  }

  /** "www.example.com": three blocks and a rest of three bytes. */
  lemma HashOfName()
    ensures Hash32([119, 119, 119, 46, 101, 120, 97, 109, 112, 108, 101, 46, 99, 111, 109]) == 0xa4f670b4
  {
    hide Bits.Xor, WordAt, RestOf, Body, Hash32;
    var key: seq<uint8> := [119, 119, 119, 46, 101, 120, 97, 109, 112, 108, 101, 46, 99, 111, 109];
    XorsOfName();
    WordsOfName();
    FirstHash(key);
    BlockStep(key, 0, 0x433eb7a7, 0x5bd3a19f, 0x8ad4b94d, 0x8ad4b976, 0x972ed15a);
    BlockStep(key, 1, 0x8856d8f5, 0x6c7ac42b, 0xb0c88bb1, 0x6af60997, 0xc132ed5e);
    BlockStep(key, 2, 0xaf46ff70, 0x7fb857a3, 0xe8f41199, 0x44a71fa3, 0xe3f46894);
    LastSteps(key, 0x24ea553, 0x52a98127, 0xc7a33c65, 0x9db94a2d, 0x9db94a22, 0x9db9d79b, 0x3166bc9, 0x316737a, 0xa4f6d442);
  }
}
