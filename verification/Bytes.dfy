/** Machine integers, byte strings and small helpers shared by every module. */
module Bytes {

  newtype uint8 = x: int | 0 <= x < 0x100

  type uint16 = x: nat | x < 0x1_0000
  type uint32 = x: nat | x < 0x1_0000_0000

  datatype Option<+T> = None | Some(value: T)

  function Pow2(n: nat): (p: nat)
    ensures p > 0
  {
    if n == 0 then 1 else 2 * Pow2(n - 1)
  }

  /** The bytes in front of the terminator of a C string; lengths are C ints. */
  type CString = s: seq<uint8> | 0 !in s && |s| < 0x8000_0000

  /** The four bytes of an address. */
  type Ipv4 = s: seq<uint8> | |s| == 4 witness [0, 0, 0, 0]

  /** What a `char*` to the start of `s` denotes when a terminator follows `s`: everything up to
      the first NUL byte. */
  function CStr(s: seq<uint8>): (c: CString)
    requires |s| < 0x8000_0000
    ensures |c| <= |s| && c == s[..|c|]
    ensures |c| < |s| ==> s[|c|] == 0
    ensures 0 !in s ==> c == s
  {
    if s == [] || s[0] == 0 then []
    else
      var rest := CStr(s[1..]);
      assert [s[0]] + rest == s[..1 + |rest|];
      [s[0]] + rest
  }

  lemma CStrCons(c: uint8, s: seq<uint8>)
    requires |s| < 0x7fff_ffff
    ensures CStr([c] + s) == if c == 0 then [] else [c] + CStr(s)
  {
    assert ([c] + s)[1..] == s;
  }

  /** A NUL byte in x ends x + y; otherwise the first one in y does. */
  lemma {:induction false} CStrOfSum(x: seq<uint8>, y: seq<uint8>)
    requires |x| + |y| < 0x8000_0000
    ensures CStr(x + y) == if 0 in x then CStr(x) else x + CStr(y)
  {
    hide CStr;
    if x == [] {
      assert x + y == y;
    } else {
      var c, rest := x[0], x[1..];
      assert x == [c] + rest && x + y == [c] + (rest + y);
      CStrCons(c, rest);
      CStrCons(c, rest + y);
      CStrOfSum(rest, y);
    }
  }

  // ---- Strings inside a buffer ----

  predicate HasAt(b: seq<uint8>, d: nat, x: seq<uint8>) {
    d + |x| <= |b| && b[d..d + |x|] == x
  }

  lemma HasSplit(b: seq<uint8>, d: nat, x: seq<uint8>, y: seq<uint8>)
    ensures HasAt(b, d, x + y) <==> HasAt(b, d, x) && HasAt(b, d + |x|, y)
  {
    if d + |x| + |y| <= |b| {
      var w := b[d..d + |x + y|];
      assert w[..|x|] == b[d..d + |x|] && w[|x|..] == b[d + |x|..d + |x| + |y|];
      assert (x + y)[..|x|] == x && (x + y)[|x|..] == y;
      assert w == w[..|x|] + w[|x|..];
    }
  }

  lemma HasNothing(b: seq<uint8>, d: nat)
    ensures HasAt(b, d, []) <==> d <= |b|
  {
  }

  lemma WhatIsThere(b: seq<uint8>, x: seq<uint8>)
    ensures HasAt(b, 0, x) <==> |x| <= |b| && b[..|x|] == x
  {
  }
}
