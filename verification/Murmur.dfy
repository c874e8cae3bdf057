/** The 32-bit MurmurHash3 of `hash_map.c`, with its seed fixed to 59.

    Words are numbers below 2^32, and the operators are those of module `Bits`, so that every step
    of the mixer is a statement about integers. */
module Murmur {
  import opened Bits
  import opened Bytes

  const MAP_SEED: uint32 := 59

  // ---- Operations on 32-bit words ----

  function Xor32(a: uint32, b: uint32): (r: uint32)
  {
    assert Xor(a, b) < 0x1_0000_0000 by {
      Pow2Values();
      XorBound(32, a, b);
    }
    Xor(a, b)
  }

  function Mul32(a: uint32, c: uint32): (r: uint32) {
    a * c % 0x1_0000_0000
  }

  /** `(x << r) | (x >> (32 - r))`, where shifting left loses what leaves the word. */
  function Rotl32(x: uint32, r: nat): (y: uint32)
    requires 0 < r < 32
  {
    RotatedFits(x, r);
    Or(Shl(x, r) % 0x1_0000_0000, Shr(x, 32 - r))
  }

  /** The lower 32 - r digits move up by r places, and the upper r come round to the bottom. */
  lemma RotatedFits(x: uint32, r: nat)
    requires 0 < r < 32
    ensures var p, q := Pow2(r), Pow2(32 - r);
            var y := Or(Shl(x, r) % 0x1_0000_0000, Shr(x, 32 - r));
            y == x % q * p + x / q && x / q < p && y < 0x1_0000_0000
  {
    hide Or, Shl, Shr, Pow2;
    var p, q := Pow2(r), Pow2(32 - r);
    assert q * p == 0x1_0000_0000 by {
      Pow2Values();
      Pow2Adds(32 - r, r);
    }
    ShlIs(x, r);
    ShrIs(x, 32 - r);
    ModOfProduct(x, q, p);
    OrDisjoint(r, x % q, x / q);
  }

  lemma ModOfProduct(x: nat, q: nat, p: nat)
    requires q > 0 && p > 0 && x < q * p
    ensures x * p % (q * p) == x % q * p
    ensures 0 <= x / q < p && x % q * p + x / q < q * p
  {
    var u, v := x / q, x % q;
    assert x == u * q + v;
    QuotientBound(x, q, p);
    ShiftedParts(x, q, p, u, v);
    QuotientIs(x * p, q * p, u, v * p);
  }

  lemma ShiftedParts(x: nat, q: nat, p: nat, u: nat, v: nat)
    requires x == u * q + v && v < q && u < p
    ensures x * p == u * (q * p) + v * p && v * p + u < q * p
  {
    calc {
      x * p;
      (u * q + v) * p;
      u * q * p + v * p;
      u * (q * p) + v * p;
    }
    MulMonotone(v, q - 1, p);
  }

  /** The two parts of a rotated word can be told apart. */
  lemma Rotl32Parts(x: uint32, r: nat)
    requires 0 < r < 32
    ensures Rotl32(x, r) / Pow2(r) == x % Pow2(32 - r)
    ensures Rotl32(x, r) % Pow2(r) == x / Pow2(32 - r)
  {
    hide Or, Shl, Shr, Pow2;
    var p, q := Pow2(r), Pow2(32 - r);
    RotatedFits(x, r);
    QuotientIs(Rotl32(x, r), p, x % q, x / q);
  }

  lemma Rotl32Injective(x: uint32, y: uint32, r: nat)
    requires 0 < r < 32 && Rotl32(x, r) == Rotl32(y, r)
    ensures x == y
  {
    hide Rotl32, Pow2;
    var q := Pow2(32 - r);
    Rotl32Parts(x, r);
    Rotl32Parts(y, r);
    assert x == x / q * q + x % q;
    assert y == y / q * q + y % q;
  }

  /** Multiplying by an odd constant c with inverse d loses nothing. */
  lemma MulInverse(a: uint32, c: uint32, d: uint32)
    requires c * d % 0x1_0000_0000 == 1
    ensures Mul32(Mul32(a, c), d) == a
  {
    var k, n := a * c / 0x1_0000_0000, c * d / 0x1_0000_0000;
    var x := Mul32(a, c);
    assert x == a * c - k * 0x1_0000_0000;
    assert c * d == n * 0x1_0000_0000 + 1;
    Regroup(a, c, d, x, k, n);
    ModOfSum(x * d, a * n - k * d, a);
  }

  lemma Regroup(a: int, c: int, d: int, x: int, k: int, n: int)
    requires x == a * c - k * 0x1_0000_0000 && c * d == n * 0x1_0000_0000 + 1
    ensures x * d == (a * n - k * d) * 0x1_0000_0000 + a
  {
    calc {
      x * d;
      a * c * d - k * 0x1_0000_0000 * d;
      { assert a * c * d == a * (c * d); }
      a * (n * 0x1_0000_0000 + 1) - k * d * 0x1_0000_0000;
    }
  }

  lemma ModOfSum(v: nat, q: int, r: uint32)
    requires v == q * 0x1_0000_0000 + r
    ensures v % 0x1_0000_0000 == r
  {
  }

  predicate Multiplier(c: uint32) {
    c in {0xcc9e2d51, 0x1b873593, 0x85ebca6b, 0xc2b2ae35}
  }

  lemma MulInjective(a: uint32, b: uint32, c: uint32)
    requires Multiplier(c) && Mul32(a, c) == Mul32(b, c)
    ensures a == b
  {
    var d := InverseOf(c);
    MulInverse(a, c, d);
    MulInverse(b, c, d);
  }

  function InverseOf(c: uint32): (d: uint32)
    requires Multiplier(c)
    ensures c * d % 0x1_0000_0000 == 1
  {
    if c == 0xcc9e2d51 then 0xdee13bb1
    else if c == 0x1b873593 then 0x56ed309b
    else if c == 0x85ebca6b then 0xa5cb9243
    else 0x7ed1b41d
  }

  // ---- The mixer ----

  /** What the loop does to a block, and the tail switch to the tail, before it enters the hash. */
  function MixKey(k: uint32): uint32 {
    Mul32(Rotl32(Mul32(k, 0xcc9e2d51), 15), 0x1b873593)
  }

  function MulAdd(h: uint32): uint32 {
    (h * 5 + 0xe6546b64) % 0x1_0000_0000
  }

  function MixBlock(h: uint32, k: uint32): uint32 {
    MulAdd(Rotl32(Xor32(h, MixKey(k)), 13))
  }

  function XorShift(h: uint32, n: nat): uint32 {
    Xor32(h, Shr(h, n))
  }

  function Fmix32(h: uint32): uint32 {
    XorShift(Mul32(XorShift(Mul32(XorShift(h, 16), 0x85ebca6b), 13), 0xc2b2ae35), 16)
  }

  lemma MixKeyInjective(x: uint32, y: uint32)
    requires MixKey(x) == MixKey(y)
    ensures x == y
  {
    RotateMulInjective(Mul32(x, 0xcc9e2d51), Mul32(y, 0xcc9e2d51));
    MulInjective(x, y, 0xcc9e2d51);
  }

  lemma RotateMulInjective(x: uint32, y: uint32)
    ensures Mul32(Rotl32(x, 15), 0x1b873593) == Mul32(Rotl32(y, 15), 0x1b873593) ==> x == y
  {
    if Mul32(Rotl32(x, 15), 0x1b873593) == Mul32(Rotl32(y, 15), 0x1b873593) {
      MulInjective(Rotl32(x, 15), Rotl32(y, 15), 0x1b873593);
      Rotl32Injective(x, y, 15);
    }
  }

  /** A block step loses nothing, neither of the running hash nor of the block. */
  lemma MixBlockInjective(g: uint32, h: uint32, k: uint32, l: uint32)
    ensures MixBlock(g, k) == MixBlock(g, l) ==> k == l
    ensures MixBlock(g, k) == MixBlock(h, k) ==> g == h
  {
    if MixBlock(g, k) == MixBlock(g, l) {
      BlockStepInverse(g, g, k, l);
      XorCommutes(g, MixKey(k));
      XorCommutes(g, MixKey(l));
      XorInjective(MixKey(k), MixKey(l), g);
      MixKeyInjective(k, l);
    }
    if MixBlock(g, k) == MixBlock(h, k) {
      BlockStepInverse(g, h, k, k);
      XorInjective(g, h, MixKey(k));
    }
  }

  lemma BlockStepInverse(g: uint32, h: uint32, k: uint32, l: uint32)
    ensures MixBlock(g, k) == MixBlock(h, l) ==> Xor32(g, MixKey(k)) == Xor32(h, MixKey(l))
  {
    hide Xor32, MixKey, Rotl32, MulAdd;
    var x, y := Xor32(g, MixKey(k)), Xor32(h, MixKey(l));
    if MixBlock(g, k) == MixBlock(h, l) {
      MulAddInjective(Rotl32(x, 13), Rotl32(y, 13));
      Rotl32Injective(x, y, 13);
    }
  }

  lemma MulAddInjective(x: uint32, y: uint32)
    requires MulAdd(x) == MulAdd(y)
    ensures x == y
  {
  }

  /** The upper digits of a shifted exclusive or give away the digits n places below them. */
  lemma XorShiftDescends(x: uint32, y: uint32, n: nat, m: nat)
    requires XorShift(x, n) == XorShift(y, n)
    requires Shr(x, n + m) == Shr(y, n + m)
    ensures Shr(x, m) == Shr(y, m)
  {
    ShrXor(m, x, Shr(x, n));
    ShrXor(m, y, Shr(y, n));
    ShrShr(x, n, m);
    ShrShr(y, n, m);
    XorInjective(Shr(x, m), Shr(y, m), Shr(x, n + m));
  }

  lemma XorShiftInjective(x: uint32, y: uint32, n: nat)
    requires 11 <= n && XorShift(x, n) == XorShift(y, n)
    ensures x == y
  {
    ShrPastWord(x, n + 2 * n);
    ShrPastWord(y, n + 2 * n);
    XorShiftDescends(x, y, n, 2 * n);
    XorShiftDescends(x, y, n, n);
    XorShiftDescends(x, y, n, 0);
  }

  lemma ShrPastWord(x: uint32, n: nat)
    requires 32 <= n
    ensures Shr(x, n) == 0
  {
    Pow2Values();
    ShrAll(x, 32);
    ShrShr(x, 32, n - 32);
  }

  /** The final mix is a bijection on 32-bit words. */
  lemma Fmix32Injective(x: uint32, y: uint32)
    ensures Fmix32(x) == Fmix32(y) ==> x == y
  {
    if Fmix32(x) == Fmix32(y) {
      var x1, y1 := Mul32(XorShift(x, 16), 0x85ebca6b), Mul32(XorShift(y, 16), 0x85ebca6b);
      var x2, y2 := XorShift(x1, 13), XorShift(y1, 13);
      XorShiftInjective(Mul32(x2, 0xc2b2ae35), Mul32(y2, 0xc2b2ae35), 16);
      MulInjective(x2, y2, 0xc2b2ae35);
      XorShiftInjective(x1, y1, 13);
      MulInjective(XorShift(x, 16), XorShift(y, 16), 0x85ebca6b);
      XorShiftInjective(x, y, 16);
    }
  }

  // ---- The hash of a key ----

  /** The little-endian word at block i. */
  function Block(key: seq<uint8>, i: nat): uint32
    requires 4 * i + 4 <= |key|
  {
    key[4 * i] as int + key[4 * i + 1] as int * 0x100
    + key[4 * i + 2] as int * 0x1_0000 + key[4 * i + 3] as int * 0x100_0000
  }

  /** The running hash after the first n blocks. */
  function Body(key: seq<uint8>, n: nat): uint32
    requires 4 * n <= |key|
  {
    if n == 0 then MAP_SEED else MixBlock(Body(key, n - 1), Block(key, n - 1))
  }

  /** A byte shifted by one or two bytes. */
  function ShlByte(v: uint8, n: nat): (r: uint32)
    requires n == 8 || n == 16
    ensures r == v as int * Pow2(n)
  {
    Pow2Values();
    ShlIs(v as int, n);
    Shl(v as int, n)
  }

  /** The word the fall-through switch assembles from the bytes after the last whole block. */
  function TailWord(tail: seq<uint8>): uint32
    requires |tail| < 4
  {
    var k := if |tail| >= 3 then Xor32(0, ShlByte(tail[2], 16)) else 0;
    var k := if |tail| >= 2 then Xor32(k, ShlByte(tail[1], 8)) else k;
    if |tail| >= 1 then Xor32(k, tail[0] as int) else k
  }

  function Tail(key: seq<uint8>): seq<uint8> {
    key[|key| / 4 * 4..]
  }

  /** The hash just before it is reduced modulo the table size. Lengths are C ints. */
  function Hash32(key: seq<uint8>): uint32
    requires |key| < 0x8000_0000
  {
    var h := Body(key, |key| / 4);
    var h := if Tail(key) == [] then h else Xor32(h, MixKey(TailWord(Tail(key))));
    Fmix32(Xor32(h, |key|))
  }

  /** The body of `calculate_hash`: the block index counts up from -nblocks to zero. */
  method HashBody(key: seq<uint8>) returns (h1: uint32)
    ensures h1 == Body(key, |key| / 4)
  {
    hide Rotl32, Xor32, MixKey, Block;
    var nblocks := |key| / 4;
    h1 := MAP_SEED;
    var i := -nblocks;
    while i != 0
      invariant -nblocks <= i <= 0
      invariant h1 == Body(key, nblocks + i)
    {
      var k1 := Block(key, nblocks + i);
      k1 := MixKey(k1);
      h1 := Xor32(h1, k1);
      h1 := Rotl32(h1, 13);
      h1 := MulAdd(h1);
      i := i + 1;
    }
  }

  /** The tail of `calculate_hash`: the switch falls through from the highest byte down. */
  method HashTail(tail: seq<uint8>, h: uint32) returns (h1: uint32)
    requires |tail| < 4
    ensures h1 == if tail == [] then h else Xor32(h, MixKey(TailWord(tail)))
  {
    h1 := h;
    var k1: uint32 := 0;
    if |tail| >= 3 {
      k1 := Xor32(k1, ShlByte(tail[2], 16));
    }
    if |tail| >= 2 {
      k1 := Xor32(k1, ShlByte(tail[1], 8));
    }
    if |tail| >= 1 {
      k1 := Xor32(k1, tail[0] as int);
      h1 := Xor32(h1, MixKey(k1));
    }
  }

  method CalculateHash(key: seq<uint8>, size: uint32) returns (index: nat)
    requires |key| < 0x8000_0000 && size > 0
    ensures index == Hash32(key) % size
  {
    var h1 := HashBody(key);
    h1 := HashTail(key[|key| / 4 * 4..], h1);
    h1 := Xor32(h1, |key|);
    h1 := Fmix32(h1);
    index := h1 % size;
  }

  // ---- No information is lost ----

  /** a and b differ only inside the aligned four-byte unit u: a whole block, or the tail. */
  ghost predicate DifferOnlyInUnit(a: seq<uint8>, b: seq<uint8>, u: nat) {
    && |a| == |b|
    && forall i :: 0 <= i < |a| && i / 4 != u ==> a[i] == b[i]
  }

  lemma {:induction false} SameBody(a: seq<uint8>, b: seq<uint8>, n: nat)
    requires 4 * n <= |a| && 4 * n <= |b|
    requires forall i :: 0 <= i < 4 * n ==> a[i] == b[i]
    ensures Body(a, n) == Body(b, n)
  {
    hide MixBlock;
    if n > 0 {
      SameBody(a, b, n - 1);
      assert Block(a, n - 1) == Block(b, n - 1);
    }
  }

  lemma SameBlock(a: seq<uint8>, b: seq<uint8>, u: nat, i: nat)
    requires DifferOnlyInUnit(a, b, u) && i != u && 4 * i + 4 <= |a|
    ensures Block(a, i) == Block(b, i)
  {
    forall j | 4 * i <= j < 4 * i + 4 ensures a[j] == b[j] {
      assert j / 4 == i;
    }
  }

  lemma BlockInjective(a: seq<uint8>, b: seq<uint8>, u: nat)
    requires 4 * u + 4 <= |a| && 4 * u + 4 <= |b|
    requires Block(a, u) == Block(b, u)
    ensures a[4 * u..4 * u + 4] == b[4 * u..4 * u + 4]
  {
    var x, y := a[4 * u..4 * u + 4], b[4 * u..4 * u + 4];
    DigitsInjective(x[0], x[1], x[2], x[3], y[0], y[1], y[2], y[3]);
  }

  lemma DigitsInjective(a0: uint8, a1: uint8, a2: uint8, a3: uint8, b0: uint8, b1: uint8, b2: uint8, b3: uint8)
    requires a0 as int + a1 as int * 0x100 + a2 as int * 0x1_0000 + a3 as int * 0x100_0000
          == b0 as int + b1 as int * 0x100 + b2 as int * 0x1_0000 + b3 as int * 0x100_0000
    ensures a0 == b0 && a1 == b1 && a2 == b2 && a3 == b3
  {
    var x2, y2 := a2 as int + 0x100 * a3 as int, b2 as int + 0x100 * b3 as int;
    var x1, y1 := a1 as int + 0x100 * x2, b1 as int + 0x100 * y2;
    DigitInjective(a0, b0, x1, y1);
    DigitInjective(a1, b1, x2, y2);
    DigitInjective(a2, b2, a3 as int, b3 as int);
  }

  lemma DigitInjective(a: uint8, b: uint8, x: int, y: int)
    requires a as int + 0x100 * x == b as int + 0x100 * y
    ensures a == b && x == y
  {
  }

  /** After the block they differ in, two keys keep different running hashes. */
  lemma {:induction false} BodiesStayApart(a: seq<uint8>, b: seq<uint8>, u: nat, n: nat)
    requires DifferOnlyInUnit(a, b, u) && a != b
    requires u < n && 4 * n <= |a|
    ensures Body(a, n) != Body(b, n)
  {
    hide Block, MixBlock;
    var ka, kb := Block(a, n - 1), Block(b, n - 1);
    if n == u + 1 {
      forall i | 0 <= i < 4 * u ensures a[i] == b[i] {
        assert i / 4 != u;
      }
      SameBody(a, b, u);
      if ka == kb {
        BlockInjective(a, b, u);
        SameOutsideAndInside(a, b, u);
      }
    } else {
      BodiesStayApart(a, b, u, n - 1);
      SameBlock(a, b, u, n - 1);
    }
    if Body(a, n) == Body(b, n) {
      MixBlockInjective(Body(a, n - 1), Body(b, n - 1), ka, kb);
    }
  }

  lemma SameOutsideAndInside(a: seq<uint8>, b: seq<uint8>, u: nat)
    requires DifferOnlyInUnit(a, b, u) && 4 * u + 4 <= |a|
    requires a[4 * u..4 * u + 4] == b[4 * u..4 * u + 4]
    ensures a == b
  {
    forall i | 0 <= i < |a| ensures a[i] == b[i] {
      if i / 4 == u {
        assert a[i] == a[4 * u..4 * u + 4][i - 4 * u];
        assert b[i] == b[4 * u..4 * u + 4][i - 4 * u];
      }
    }
  }

  function ByteAt(t: seq<uint8>, i: nat): uint8 {
    if i < |t| then t[i] else 0
  }

  lemma TailWordValue(t: seq<uint8>)
    requires |t| < 4
    ensures TailWord(t) == ByteAt(t, 0) as int + ByteAt(t, 1) as int * 0x100 + ByteAt(t, 2) as int * 0x1_0000
  {
    hide Xor, Pow2, Shl, Mul32;
    var t0, t1, t2 := ByteAt(t, 0) as int, ByteAt(t, 1) as int, ByteAt(t, 2) as int;
    Pow2Values();
    XorCommutes(0, t2 * 0x1_0000);
    XorZero(t2 * 0x1_0000);
    XorDisjoint(16, t2, t1 * 0x100);
    XorDisjoint(8, t2 * 0x100 + t1, t0);
    XorZero(0);
  }

  lemma TailWordInjective(s: seq<uint8>, t: seq<uint8>)
    requires |s| == |t| < 4 && TailWord(s) == TailWord(t)
    ensures s == t
  {
    hide TailWord;
    TailWordValue(s);
    TailWordValue(t);
    DigitsInjective(ByteAt(s, 0), ByteAt(s, 1), ByteAt(s, 2), 0, ByteAt(t, 0), ByteAt(t, 1), ByteAt(t, 2), 0);
    forall i | 0 <= i < |s| ensures s[i] == t[i] {
      assert ByteAt(s, i) == ByteAt(t, i);
    }
  }

  /** Two keys of one length that differ only within one aligned block, or only within the tail,
      have different hashes before the reduction modulo the table size. */
  lemma HashSeparates(a: seq<uint8>, b: seq<uint8>, u: nat)
    requires |a| < 0x8000_0000
    requires DifferOnlyInUnit(a, b, u) && a != b
    ensures Hash32(a) != Hash32(b)
  {
    hide Body, Fmix32, Xor32, MixKey, TailWord;
    var n := |a| / 4;
    if u < n {
      BodiesStayApart(a, b, u, n);
      forall i | 4 * n <= i < |a| ensures a[i] == b[i] {
        assert i / 4 != u;
      }
      assert Tail(a) == Tail(b);
    } else {
      forall i | 0 <= i < 4 * n ensures a[i] == b[i] {
        assert i / 4 != u;
      }
      SameBody(a, b, n);
      assert a == a[..4 * n] + Tail(a) && b == b[..4 * n] + Tail(b);
      if TailWord(Tail(a)) == TailWord(Tail(b)) {
        TailWordInjective(Tail(a), Tail(b));
      }
    }
    TailsSeparate(Body(a, n), Body(b, n), Tail(a), Tail(b), |a|);
  }

  lemma TailsSeparate(g: uint32, h: uint32, s: seq<uint8>, t: seq<uint8>, len: uint32)
    requires |s| == |t| < 4
    requires if g == h then TailWord(s) != TailWord(t) else s == t
    ensures Fmix32(Xor32(if s == [] then g else Xor32(g, MixKey(TailWord(s))), len))
         != Fmix32(Xor32(if t == [] then h else Xor32(h, MixKey(TailWord(t))), len))
  {
    var k, l := MixKey(TailWord(s)), MixKey(TailWord(t));
    var x := if s == [] then g else Xor32(g, k);
    var y := if t == [] then h else Xor32(h, l);
    if Fmix32(Xor32(x, len)) == Fmix32(Xor32(y, len)) {
      Fmix32Injective(Xor32(x, len), Xor32(y, len));
      XorInjective(x, y, len);
      if g == h {
        XorCommutes(g, k);
        XorCommutes(h, l);
        XorInjective(k, l, g);
        MixKeyInjective(TailWord(s), TailWord(t));
      } else if s != [] {
        XorInjective(g, h, k);
      }
    }
  }
}
