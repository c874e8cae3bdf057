/** The keys under which names are looked up, `labels_to_domain` of `answer.c`, and which names share
    one. */
module Names {
  import opened Bytes
  import opened Messages

  const DOT: uint8 := '.' as int as uint8

  /** Every label with a dot behind it. */
  function Dotted(ls: seq<Label>): seq<uint8> {
    if ls == [] then [] else Dotted(ls[..|ls| - 1]) + ls[|ls| - 1] + [DOT]
  }

  /** The labels with dots between them. */
  function Join(ls: seq<Label>): seq<uint8>
    requires ls != []
  {
    if |ls| == 1 then ls[0] else Join(ls[..|ls| - 1]) + [DOT] + ls[|ls| - 1]
  }

  lemma {:induction false} DottedIs(ls: seq<Label>)
    requires ls != []
    ensures Dotted(ls) == Join(ls) + [DOT]
  {
    var n := |ls| - 1;
    if n > 0 {
      DottedIs(ls[..n]);
    } else {
      assert ls[..0] == [];
    }
  }

  lemma {:induction false} DottedSize(ls: seq<Label>)
    ensures |Dotted(ls)| <= 256 * |ls|
  {
    if ls != [] {
      DottedSize(ls[..|ls| - 1]);
    }
  }

  /** The key under which a name is looked up. A NUL byte in a label ends it early. */
  function DomainOf(ls: seq<Label>): CString
    requires ls != [] && CountFits(ls)
  {
    DottedIs(ls);
    DottedSize(ls);
    CStr(Join(ls))
  }

  // ---- Names that NUL bytes cut short ----

  /** The labels up to the first NUL byte. */
  function Shown(ls: seq<Label>): (r: seq<Label>)
    requires ls != []
    ensures r != [] && |r| <= |ls|
  {
    if 0 in ls[0] then [CStr(ls[0])]
    else if |ls| == 1 then ls
    else [ls[0]] + Shown(ls[1..])
  }

  lemma {:induction false} JoinCons(ls: seq<Label>)
    requires |ls| > 1
    ensures Join(ls) == ls[0] + [DOT] + Join(ls[1..])
  {
    var n := |ls| - 1;
    if n > 1 {
      JoinCons(ls[..n]);
      assert ls[..n][1..] == ls[1..][..n - 1];
    }
  }

  /** A string and the same string with its terminator denote the same C string. */
  lemma KeyIs(s: seq<uint8>)
    requires |s| < 0x7fff_ffff
    ensures CStr(s + [0]) == CStr(s)
  {
    CStrOfSum(s, [0]);
  }

  /** The key of a name is its labels joined by dots, as far as the first NUL byte. */
  lemma {:induction false} DomainIsJoin(ls: seq<Label>)
    requires ls != [] && CountFits(ls)
    ensures DomainOf(ls) == Join(Shown(ls))
  {
    hide Join;
    DottedIs(ls);
    DottedSize(ls);
    if |ls| > 1 {
      var rest := ls[1..];
      JoinCons(ls);
      CStrOfSum(ls[0] + [DOT], Join(rest));
      DottedIs(rest);
      DottedSize(rest);
      DomainIsJoin(rest);
      if 0 in ls[0] {
        CStrOfSum(ls[0], [DOT]);
        JoinOne(CStr(ls[0]));
      } else {
        assert Shown(ls)[1..] == Shown(rest);
        JoinCons(Shown(ls));
      }
    } else {
      JoinOne(ls[0]);
      JoinOne(CStr(ls[0]));
      assert ls == [ls[0]];
    }
  }

  lemma JoinOne(l: Label)
    ensures Join([l]) == l
  {
  }

  // ---- Names that contain dots ----

  predicate DotFree(ls: seq<Label>) {
    forall i :: 0 <= i < |ls| ==> DOT !in ls[i]
  }

  /** A label split at its dots. */
  function Pieces(l: Label): (ps: seq<Label>)
    ensures ps != [] && |ps[|ps| - 1]| <= |l|
  {
    if l == [] then [[]]
    else
      var n := |l| - 1;
      var ps := Pieces(l[..n]);
      var k := |ps| - 1;
      if l[n] == DOT then ps + [[]] else ps[..k] + [ps[k] + [l[n]]]
  }

  function AllPieces(ls: seq<Label>): seq<Label> {
    if ls == [] then [] else AllPieces(ls[..|ls| - 1]) + Pieces(ls[|ls| - 1])
  }

  lemma {:induction false} PiecesJoin(l: Label)
    ensures Dotted(Pieces(l)) == l + [DOT] && DotFree(Pieces(l))
  {
    if l != [] {
      hide Dotted, DotFree;
      var n := |l| - 1;
      PiecesJoin(l[..n]);
      MorePieces(Pieces(l[..n]), l[..n], l[n]);
      assert l == l[..n] + [l[n]];
    } else {
      assert Pieces(l) == [[]];
    }
  }

  /** One more byte behind the last piece. */
  lemma MorePieces(ps: seq<Label>, l: Label, c: uint8)
    requires ps != [] && Dotted(ps) == l + [DOT] && DotFree(ps)
    ensures Dotted(ps + [[]]) == l + [DOT] + [DOT] && DotFree(ps + [[]])
    ensures var k := |ps| - 1;
            |ps[k]| < 255 && c != DOT ==>
              Dotted(ps[..k] + [ps[k] + [c]]) == l + [c] + [DOT] && DotFree(ps[..k] + [ps[k] + [c]])
  {
    hide Dotted;
    var k := |ps| - 1;
    assert ps == ps[..k] + [ps[k]];
    DottedMore(ps, []);
    DottedMore(ps[..k], ps[k]);
    if |ps[k]| < 255 {
      SameInFront(Dotted(ps[..k]) + ps[k], l, DOT);
      DottedMore(ps[..k], ps[k] + [c]);
      assert Dotted(ps[..k]) + (ps[k] + [c]) == l + [c];
    }
  }

  lemma DottedMore(ls: seq<Label>, l: Label)
    ensures Dotted(ls + [l]) == Dotted(ls) + l + [DOT]
  {
    assert (ls + [l])[..|ls|] == ls;
  }

  lemma SameInFront(x: seq<uint8>, y: seq<uint8>, c: uint8)
    requires x + [c] == y + [c]
    ensures x == y
  {
    assert x == (x + [c])[..|x|] && y == (y + [c])[..|y|];
  }

  lemma {:induction false} DottedConcat(a: seq<Label>, b: seq<Label>)
    ensures Dotted(a + b) == Dotted(a) + Dotted(b)
  {
    if b == [] {
      assert a + b == a;
    } else {
      var n := |b| - 1;
      assert (a + b)[..|a| + n] == a + b[..n];
      DottedConcat(a, b[..n]);
    }
  }

  lemma {:induction false} AllPiecesJoin(ls: seq<Label>)
    ensures Dotted(AllPieces(ls)) == Dotted(ls) && DotFree(AllPieces(ls))
  {
    if ls != [] {
      var n := |ls| - 1;
      AllPiecesJoin(ls[..n]);
      PiecesJoin(ls[n]);
      DottedConcat(AllPieces(ls[..n]), Pieces(ls[n]));
    }
  }

  lemma DotBehind(x: seq<uint8>, a: seq<uint8>, y: seq<uint8>, b: seq<uint8>)
    requires x + a == y + b && |x| > |y| && x[|x| - 1] == DOT
    ensures DOT in b
  {
    var z := x + a;
    assert z[|x| - 1] == b[|x| - 1 - |y|];
  }

  /** The last label starts behind the last dot. */
  lemma LastLabel(x: seq<uint8>, a: Label, y: seq<uint8>, b: Label)
    requires x + a == y + b && DOT !in a && DOT !in b
    requires x == [] || x[|x| - 1] == DOT
    requires y == [] || y[|y| - 1] == DOT
    ensures x == y && a == b
  {
    var z := x + a;
    assert x == z[..|x|] && a == z[|x|..] && y == z[..|y|] && b == z[|y|..];
    if |x| > |y| {
      DotBehind(x, a, y, b);
    }
    if |y| > |x| {
      DotBehind(y, b, x, a);
    }
  }

  lemma {:induction false} DottedInjective(ls: seq<Label>, ms: seq<Label>)
    requires DotFree(ls) && DotFree(ms) && Dotted(ls) == Dotted(ms)
    ensures ls == ms
  {
    if ls != [] && ms != [] {
      var i, j := |ls| - 1, |ms| - 1;
      SameInFront(Dotted(ls[..i]) + ls[i], Dotted(ms[..j]) + ms[j], DOT);
      LastLabel(Dotted(ls[..i]), ls[i], Dotted(ms[..j]), ms[j]);
      DottedInjective(ls[..i], ms[..j]);
      assert ls == ls[..i] + [ls[i]] && ms == ms[..j] + [ms[j]];
    }
  }

  // ---- Which names share a key ----

  /** Two names are looked up under the same key exactly when, cut at their first NUL byte and split
      at the dots inside their labels, they are the same. */
  lemma SharedKey(ls: seq<Label>, ms: seq<Label>)
    requires ls != [] && CountFits(ls) && ms != [] && CountFits(ms)
    ensures DomainOf(ls) == DomainOf(ms) <==> AllPieces(Shown(ls)) == AllPieces(Shown(ms))
  {
    hide DomainOf, Shown, Join, Dotted, AllPieces;
    var x, y := Shown(ls), Shown(ms);
    DomainIsJoin(ls);
    DomainIsJoin(ms);
    DottedIs(x);
    DottedIs(y);
    AllPiecesJoin(x);
    AllPiecesJoin(y);
    if AllPieces(x) == AllPieces(y) {
      SameInFront(Join(x), Join(y), DOT);
    }
    if DomainOf(ls) == DomainOf(ms) {
      DottedInjective(AllPieces(x), AllPieces(y));
    }
  }

  /** Labels free of NUL bytes and dots, as host names have them. */
  predicate Plain(ls: seq<Label>) {
    DotFree(ls) && forall i :: 0 <= i < |ls| ==> 0 !in ls[i]
  }

  lemma {:induction false} ShownWhole(ls: seq<Label>)
    requires ls != [] && forall i :: 0 <= i < |ls| ==> 0 !in ls[i]
    ensures Shown(ls) == ls
  {
    if |ls| > 1 {
      ShownWhole(ls[1..]);
    }
  }

  /** A name without NUL bytes is looked up under its labels joined by dots. */
  lemma DomainIsDottedName(ls: seq<Label>)
    requires ls != [] && CountFits(ls) && forall i :: 0 <= i < |ls| ==> 0 !in ls[i]
    ensures DomainOf(ls) == Join(ls)
  {
    DomainIsJoin(ls);
    ShownWhole(ls);
  }

  /** Names of plain labels have keys of their own. */
  lemma PlainNamesDiffer(ls: seq<Label>, ms: seq<Label>)
    requires ls != [] && CountFits(ls) && ms != [] && CountFits(ms) && Plain(ls) && Plain(ms)
    ensures DomainOf(ls) == DomainOf(ms) <==> ls == ms
  {
    hide DomainOf, Join, Dotted;
    DomainIsDottedName(ls);
    DomainIsDottedName(ms);
    DottedIs(ls);
    DottedIs(ms);
    if Join(ls) == Join(ms) {
      DottedInjective(ls, ms);
    }
  }

  /** Without these conditions they need not: "a.b" may be one label or two. */
  lemma DotsCollide(a: Label, b: Label)
    requires |a| + 1 + |b| < 0x100
    ensures DomainOf([a, b]) == DomainOf([a + [DOT] + b])
  {
    JoinTwo(a, b);
    JoinOne(a + [DOT] + b);
  }

  /** ... and a NUL byte hides everything behind it. */
  lemma NulsCollide(a: Label, b: Label, c: Label)
    requires |b| < 0xff && |c| < 0xff
    ensures DomainOf([a, [0] + b]) == DomainOf([a, [0] + c])
  {
    hide DomainOf;
    DomainIsJoin([a, [0] + b]);
    DomainIsJoin([a, [0] + c]);
    assert [a, [0] + b][1..] == [[0] + b] && [a, [0] + c][1..] == [[0] + c];
  }

  lemma JoinTwo(a: Label, b: Label)
    ensures Join([a, b]) == a + [46] + b
  {
    JoinOne(a);
    assert [a, b][..1] == [a];
  }
}
