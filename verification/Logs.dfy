/** The two append-only logs of `dns_map.c`, as byte strings: a domain and its token, or a token and
    its address, with every string behind its length in four little-endian bytes. */
module Logs {
  import opened Bytes
  import opened Tables

  // ---- Strings ----

  function EncodeInt32(n: nat): (s: seq<uint8>)
    requires n < 0x8000_0000
    ensures |s| == 4
  {
    [(n % 0x100) as uint8, (n / 0x100 % 0x100) as uint8,
     (n / 0x1_0000 % 0x100) as uint8, (n / 0x100_0000) as uint8]
  }

  /** The four bytes at d as an int32_t. */
  function Int32At(b: seq<uint8>, d: nat): (n: int)
    requires d + 4 <= |b|
    ensures n < 0x8000_0000
  {
    var u := b[d] as int + b[d + 1] as int * 0x100 + b[d + 2] as int * 0x1_0000 + b[d + 3] as int * 0x100_0000;
    if u < 0x8000_0000 then u else u - 0x1_0000_0000
  }

  /** What `write_string` writes. */
  function EncodeString(s: CString): seq<uint8> {
    EncodeInt32(|s|) + s
  }

  /** What `read_string` reads, and where it leaves the file; None when it returns 0. */
  function ReadString(b: seq<uint8>, d: nat): (r: Option<(CString, nat)>)
    ensures r.Some? ==> d + 4 <= r.value.1 <= |b|
  {
    if d + 4 > |b| then None
    else
      var n := Int32At(b, d);
      if n < 0 || d + 4 + n > |b| then None
      else Some((CStr(b[d + 4..d + 4 + n]), d + 4 + n))
  }

  /** A reader at d would find a negative length. The source would ask `fread` for that many bytes
      as a `size_t`, all that are left, into a buffer it has not allocated. */
  predicate NegativeAt(b: seq<uint8>, d: nat) {
    d + 4 <= |b| && Int32At(b, d) < 0
  }

  /** What `read_ipv4` reads. */
  function ReadIpv4(b: seq<uint8>, d: nat): (r: Option<(Ipv4, nat)>)
    ensures r.Some? ==> d + 4 <= r.value.1 <= |b|
  {
    if d + 4 > |b| then None else Some((b[d..d + 4], d + 4))
  }

  lemma Int32Written(b: seq<uint8>, d: nat, n: nat)
    requires n < 0x8000_0000 && HasAt(b, d, EncodeInt32(n))
    ensures Int32At(b, d) == n
  {
    var x := b[d..d + 4];
    assert b[d] == x[0] && b[d + 1] == x[1] && b[d + 2] == x[2] && b[d + 3] == x[3];
    Digits(n);
  }

  lemma Digits(n: nat)
    ensures n == n % 0x100 + n / 0x100 % 0x100 * 0x100 + n / 0x1_0000 % 0x100 * 0x1_0000 + n / 0x100_0000 * 0x100_0000
  {
    assert n / 0x1_0000 == n / 0x100 / 0x100;
    assert n / 0x100_0000 == n / 0x1_0000 / 0x100;
  }

  lemma StringWritten(b: seq<uint8>, d: nat, s: CString)
    requires HasAt(b, d, EncodeString(s))
    ensures ReadString(b, d) == Some((s, d + |EncodeString(s)|))
  {
    HasSplit(b, d, EncodeInt32(|s|), s);
    Int32Written(b, d, |s|);
  }

  /** The rest of b from d on is a proper prefix of x. */
  predicate TornAt(b: seq<uint8>, d: nat, x: seq<uint8>) {
    d <= |b| && b[d..] < x
  }

  lemma TornSplit(b: seq<uint8>, d: nat, x: seq<uint8>, y: seq<uint8>)
    requires TornAt(b, d, x + y)
    ensures TornAt(b, d, x) || (HasAt(b, d, x) && TornAt(b, d + |x|, y))
  {
    var m := |b| - d;
    assert b[d..] == (x + y)[..m];
    if m < |x| {
      assert (x + y)[..m] == x[..m];
    } else {
      assert b[d..][..|x|] == b[d..d + |x|];
      assert (x + y)[..m][..|x|] == x;
      assert b[d + |x|..] == b[d..][|x|..] == (x + y)[..m][|x|..] == y[..m - |x|];
    }
  }

  lemma StringTorn(b: seq<uint8>, d: nat, s: CString)
    requires TornAt(b, d, EncodeString(s))
    ensures ReadString(b, d) == None
  {
    TornSplit(b, d, EncodeInt32(|s|), s);
    if HasAt(b, d, EncodeInt32(|s|)) {
      Int32Written(b, d, |s|);
    }
  }

  /** Neither a written string nor the beginning of one looks like that. */
  lemma LengthWritten(b: seq<uint8>, d: nat, s: CString)
    ensures HasAt(b, d, EncodeString(s)) || TornAt(b, d, EncodeString(s)) ==> !NegativeAt(b, d)
  {
    if HasAt(b, d, EncodeString(s)) {
      HasSplit(b, d, EncodeInt32(|s|), s);
      Int32Written(b, d, |s|);
    } else if TornAt(b, d, EncodeString(s)) {
      TornSplit(b, d, EncodeInt32(|s|), s);
      if HasAt(b, d, EncodeInt32(|s|)) {
        Int32Written(b, d, |s|);
      }
    }
  }

  // ---- Entries ----

  type DomainEntry = Entry<CString, CString>
  type IpEntry = Entry<CString, Ipv4>

  /** `write_domain_token_entry` and `read_domain_token_entry`. */
  function EncodeDomain(e: DomainEntry): seq<uint8> {
    EncodeString(e.key) + EncodeString(e.value)
  }

  function ReadDomain(b: seq<uint8>, d: nat): (r: Option<(DomainEntry, nat)>)
    ensures r.Some? ==> d + 8 <= r.value.1 <= |b|
  {
    match ReadString(b, d)
    case None => None
    case Some((domain, d1)) =>
      match ReadString(b, d1)
      case None => None
      case Some((token, d2)) => Some((Entry(domain, token), d2))
  }

  /** `write_token_ip_entry` and `read_token_ip_entry`. */
  function EncodeIp(e: IpEntry): seq<uint8> {
    EncodeString(e.key) + e.value
  }

  function ReadIp(b: seq<uint8>, d: nat): (r: Option<(IpEntry, nat)>)
    ensures r.Some? ==> d + 8 <= r.value.1 <= |b|
  {
    match ReadString(b, d)
    case None => None
    case Some((token, d1)) =>
      match ReadIpv4(b, d1)
      case None => None
      case Some((ip, d2)) => Some((Entry(token, ip), d2))
  }

  /** No negative length is met while reading the entry at d. */
  predicate SaneDomain(b: seq<uint8>, d: nat) {
    !NegativeAt(b, d) && (ReadString(b, d).Some? ==> !NegativeAt(b, ReadString(b, d).value.1))
  }

  predicate SaneIp(b: seq<uint8>, d: nat) {
    !NegativeAt(b, d)
  }

  /** A way to write entries, and to read them back. */
  datatype Format<!E(!new)> = Format(encode: E -> seq<uint8>, read: (seq<uint8>, nat) -> Option<(E, nat)>,
                                     sane: (seq<uint8>, nat) -> bool) {
    /** Neither a written entry, nor one whose last bytes are missing, nor the end is misread. */
    ghost predicate Careful() {
      && (forall b, d: nat, e :: HasAt(b, d, encode(e)) || TornAt(b, d, encode(e)) ==> sane(b, d))
      && (forall b :: sane(b, |b|))
    }

    /** A reader finds what a writer wrote, makes progress inside the file, and rejects an entry
        whose last bytes are missing. */
    ghost predicate Good() {
      && (forall b, d: nat, e :: HasAt(b, d, encode(e)) ==> read(b, d) == Some((e, d + |encode(e)|)))
      && (forall b, d: nat :: read(b, d).Some? ==> d < read(b, d).value.1 <= |b|)
      && (forall b, d: nat, e :: TornAt(b, d, encode(e)) ==> read(b, d) == None)
    }
  }

  const DOMAIN_FORMAT: Format<DomainEntry> :=
    Format(e => EncodeDomain(e), (b, d) => ReadDomain(b, d), (b, d: nat) => SaneDomain(b, d))
  const IP_FORMAT: Format<IpEntry> :=
    Format(e => EncodeIp(e), (b, d) => ReadIp(b, d), (b, d: nat) => SaneIp(b, d))

  lemma DomainWritten(b: seq<uint8>, d: nat, e: DomainEntry)
    ensures HasAt(b, d, EncodeDomain(e)) ==> ReadDomain(b, d) == Some((e, d + |EncodeDomain(e)|))
    ensures TornAt(b, d, EncodeDomain(e)) ==> ReadDomain(b, d) == None
    ensures HasAt(b, d, EncodeDomain(e)) || TornAt(b, d, EncodeDomain(e)) ==> SaneDomain(b, d)
  {
    hide EncodeString, ReadString, HasAt, TornAt, NegativeAt;
    var x, y := EncodeString(e.key), EncodeString(e.value);
    if HasAt(b, d, x + y) {
      HasSplit(b, d, x, y);
      StringWritten(b, d, e.key);
      StringWritten(b, d + |x|, e.value);
      LengthWritten(b, d, e.key);
      LengthWritten(b, d + |x|, e.value);
    }
    if TornAt(b, d, x + y) {
      TornSplit(b, d, x, y);
      LengthWritten(b, d, e.key);
      LengthWritten(b, d + |x|, e.value);
      if TornAt(b, d, x) {
        StringTorn(b, d, e.key);
      } else {
        StringWritten(b, d, e.key);
        StringTorn(b, d + |x|, e.value);
      }
    }
  }

  lemma IpWritten(b: seq<uint8>, d: nat, e: IpEntry)
    ensures HasAt(b, d, EncodeIp(e)) ==> ReadIp(b, d) == Some((e, d + |EncodeIp(e)|))
    ensures TornAt(b, d, EncodeIp(e)) ==> ReadIp(b, d) == None
    ensures HasAt(b, d, EncodeIp(e)) || TornAt(b, d, EncodeIp(e)) ==> SaneIp(b, d)
  {
    hide EncodeString, ReadString, NegativeAt;
    var x := EncodeString(e.key);
    LengthWritten(b, d, e.key);
    if HasAt(b, d, x + e.value) {
      HasSplit(b, d, x, e.value);
      StringWritten(b, d, e.key);
    }
    if TornAt(b, d, x + e.value) {
      TornSplit(b, d, x, e.value);
      if TornAt(b, d, x) {
        StringTorn(b, d, e.key);
      } else {
        StringWritten(b, d, e.key);
      }
    }
  }

  lemma DomainFormatGood()
    ensures DOMAIN_FORMAT.Good()
  {
    hide EncodeDomain, ReadDomain, HasAt, TornAt;
    forall b, d: nat, e
      ensures HasAt(b, d, DOMAIN_FORMAT.encode(e)) ==> DOMAIN_FORMAT.read(b, d) == Some((e, d + |DOMAIN_FORMAT.encode(e)|))
      ensures TornAt(b, d, DOMAIN_FORMAT.encode(e)) ==> DOMAIN_FORMAT.read(b, d) == None
    {
      DomainWritten(b, d, e);
    }
  }

  lemma IpFormatGood()
    ensures IP_FORMAT.Good()
  {
    hide EncodeIp, ReadIp, HasAt, TornAt;
    forall b, d: nat, e
      ensures HasAt(b, d, IP_FORMAT.encode(e)) ==> IP_FORMAT.read(b, d) == Some((e, d + |IP_FORMAT.encode(e)|))
      ensures TornAt(b, d, IP_FORMAT.encode(e)) ==> IP_FORMAT.read(b, d) == None
    {
      IpWritten(b, d, e);
    }
  }

  lemma FormatsCareful()
    ensures DOMAIN_FORMAT.Careful() && IP_FORMAT.Careful()
  {
    hide EncodeDomain, EncodeIp, HasAt, TornAt, SaneDomain, SaneIp;
    forall b, d: nat, e | HasAt(b, d, DOMAIN_FORMAT.encode(e)) || TornAt(b, d, DOMAIN_FORMAT.encode(e))
      ensures DOMAIN_FORMAT.sane(b, d)
    {
      DomainWritten(b, d, e);
    }
    forall b, d: nat, e | HasAt(b, d, IP_FORMAT.encode(e)) || TornAt(b, d, IP_FORMAT.encode(e))
      ensures IP_FORMAT.sane(b, d)
    {
      IpWritten(b, d, e);
    }
    forall b ensures DOMAIN_FORMAT.sane(b, |b|) && IP_FORMAT.sane(b, |b|) {
      SaneAtEnd(b);
    }
  }

  lemma SaneAtEnd(b: seq<uint8>)
    ensures SaneDomain(b, |b|) && SaneIp(b, |b|)
  {
  }

  // ---- Whole logs ----

  /** The log that results from writing the entries one after the other. */
  function EncodeAll<E(!new)>(f: Format<E>, es: seq<E>): seq<uint8> {
    if es == [] then [] else f.encode(es[0]) + EncodeAll(f, es[1..])
  }

  /** The entries a replay loop of `read_files` finds from position d on. */
  ghost function Replay<E(!new)>(f: Format<E>, b: seq<uint8>, d: nat): seq<E>
    requires f.Good()
    decreases if d < |b| then |b| - d else 0
  {
    var r := f.read(b, d);
    if r.None? then [] else [r.value.0] + Replay(f, b, r.value.1)
  }

  /** The number of entries that lie as a whole within the first n bytes of their log. */
  ghost function WholeEntries<E(!new)>(f: Format<E>, es: seq<E>, n: nat): (k: nat)
    ensures k <= |es| && |EncodeAll(f, es[..k])| <= n
    ensures k < |es| ==> n < |EncodeAll(f, es[..k + 1])|
  {
    if es == [] || n < |f.encode(es[0])| then
      assert es != [] ==> es[..1] == [es[0]];
      0
    else
      var k := WholeEntries(f, es[1..], n - |f.encode(es[0])|);
      assert es[..k + 1][1..] == es[1..][..k];
      assert k + 1 < |es| ==> es[..k + 2][1..] == es[1..][..k + 1];
      1 + k
  }

  lemma PrefixSplit(b: seq<uint8>, d: nat, x: seq<uint8>, y: seq<uint8>)
    requires d <= |b| && b[d..] <= x + y
    ensures |b| - d < |x| ==> TornAt(b, d, x)
    ensures |b| - d >= |x| ==> HasAt(b, d, x) && b[d + |x|..] <= y
  {
    var m := |b| - d;
    assert b[d..] == (x + y)[..m];
    if m < |x| {
      assert b[d..] == x[..m];
    } else {
      assert b[d..d + |x|] == b[d..][..|x|] == x;
      assert b[d + |x|..] == b[d..][|x|..] == y[..m - |x|];
    }
  }

  lemma GoodAt<E(!new)>(f: Format<E>, b: seq<uint8>, d: nat, e: E)
    requires f.Good()
    ensures HasAt(b, d, f.encode(e)) ==> f.read(b, d) == Some((e, d + |f.encode(e)|))
    ensures TornAt(b, d, f.encode(e)) ==> f.read(b, d) == None
  {
  }

  lemma CarefulAt<E(!new)>(f: Format<E>, b: seq<uint8>, d: nat, e: E)
    requires f.Careful()
    ensures HasAt(b, d, f.encode(e)) || TornAt(b, d, f.encode(e)) ==> f.sane(b, d)
    ensures f.sane(b, |b|)
  {
  }

  /** At its end, a file holds no entry. */
  lemma NothingAtEnd<E(!new)>(f: Format<E>, b: seq<uint8>)
    requires f.Good()
    ensures f.read(b, |b|) == None
  {
  }

  lemma {:induction false} ReplayPrefix<E(!new)>(f: Format<E>, b: seq<uint8>, d: nat, es: seq<E>)
    requires f.Good() && d <= |b| && b[d..] <= EncodeAll(f, es)
    ensures Replay(f, b, d) == es[..WholeEntries(f, es, |b| - d)]
    decreases es
  {
    hide HasAt, TornAt, Format.Good;
    var m := |b| - d;
    if es != [] {
      var x, rest := f.encode(es[0]), es[1..];
      PrefixSplit(b, d, x, EncodeAll(f, rest));
      GoodAt(f, b, d, es[0]);
      if m >= |x| {
        ReplayPrefix(f, b, d + |x|, rest);
        var k := WholeEntries(f, rest, m - |x|);
        assert es[..1 + k] == [es[0]] + rest[..k];
      }
    } else {
      NothingAtEnd(f, b);
    }
  }

  /** Crash recovery: replaying the first n bytes of a log restores exactly the entries that lie in
      them as a whole, in order. */
  lemma CrashPrefix<E(!new)>(f: Format<E>, es: seq<E>, n: nat)
    requires f.Good() && n <= |EncodeAll(f, es)|
    ensures Replay(f, EncodeAll(f, es)[..n], 0) == es[..WholeEntries(f, es, n)]
  {
    ReplayPrefix(f, EncodeAll(f, es)[..n], 0, es);
  }

  /** No negative length is met in the whole replay from d on. */
  ghost predicate Sane<E(!new)>(f: Format<E>, b: seq<uint8>, d: nat)
    requires f.Good()
    decreases if d < |b| then |b| - d else 0
  {
    f.sane(b, d) && (f.read(b, d).Some? ==> Sane(f, b, f.read(b, d).value.1))
  }

  lemma {:induction false} PrefixSane<E(!new)>(f: Format<E>, b: seq<uint8>, d: nat, es: seq<E>)
    requires f.Good() && f.Careful() && d <= |b| && b[d..] <= EncodeAll(f, es)
    ensures Sane(f, b, d)
    decreases es
  {
    hide HasAt, TornAt, Format.Good;
    if es != [] {
      hide Format.Careful;
      PrefixSplit(b, d, f.encode(es[0]), EncodeAll(f, es[1..]));
      GoodAt(f, b, d, es[0]);
      CarefulAt(f, b, d, es[0]);
      if |b| - d >= |f.encode(es[0])| {
        PrefixSane(f, b, d + |f.encode(es[0])|, es[1..]);
      }
    } else {
      NothingAtEnd(f, b);
    }
  }

  /** Replaying a log, whole or cut off anywhere, never finds a negative length. */
  lemma LogsAreSane<E(!new)>(f: Format<E>, es: seq<E>, n: nat)
    requires f.Good() && f.Careful() && n <= |EncodeAll(f, es)|
    ensures Sane(f, EncodeAll(f, es)[..n], 0)
  {
    PrefixSane(f, EncodeAll(f, es)[..n], 0, es);
  }

  lemma ReplayAll<E(!new)>(f: Format<E>, es: seq<E>)
    requires f.Good()
    ensures Replay(f, EncodeAll(f, es), 0) == es
  {
    var b := EncodeAll(f, es);
    assert b[..|b|] == b;
    CrashPrefix(f, es, |b|);
    var k := WholeEntries(f, es, |b|);
    if k < |es| {
      EncodePrefix(f, es, k + 1);
    }
  }

  lemma {:induction false} EncodePrefix<E(!new)>(f: Format<E>, es: seq<E>, k: nat)
    requires k <= |es|
    ensures |EncodeAll(f, es[..k])| <= |EncodeAll(f, es)|
  {
    if k > 0 {
      assert es[..k][1..] == es[1..][..k - 1];
      EncodePrefix(f, es[1..], k - 1);
    }
  }

  /** Writing one more entry. */
  lemma {:induction false} EncodeAppend<E(!new)>(f: Format<E>, es: seq<E>, e: E)
    ensures EncodeAll(f, es + [e]) == EncodeAll(f, es) + f.encode(e)
  {
    if es == [] {
      assert es + [e] == [e];
    } else {
      assert (es + [e])[1..] == es[1..] + [e];
      EncodeAppend(f, es[1..], e);
    }
  }

  // ---- The bytes of the logs ----

  /** Lengths are four bytes, the least significant first, and negative from 0x80000000 on. */
  lemma LengthBytes(s: CString, a: uint8, b: uint8, c: uint8, d: uint8)
    ensures EncodeString(s) ==
            [(|s| % 0x100) as uint8, (|s| / 0x100 % 0x100) as uint8,
             (|s| / 0x1_0000 % 0x100) as uint8, (|s| / 0x100_0000) as uint8] + s
    ensures Int32At([a, b, c, d], 0) == a as int + b as int * 0x100 + c as int * 0x1_0000 + d as int * 0x100_0000
                                        - if d as int >= 0x80 then 0x1_0000_0000 else 0
  {
  }

  /** A domain and its token, a token and its address. */
  lemma EntryBytes(domain: CString, token: CString, ip: Ipv4)
    ensures EncodeDomain(Entry(domain, token)) == EncodeString(domain) + EncodeString(token)
    ensures EncodeIp(Entry(token, ip)) == EncodeString(token) + ip
  {
  }

  /** The entry that links "a" to "abcd". */
  lemma EntryWritten()
    ensures var domain: CString, token: CString := [97], [97, 98, 99, 100];
            EncodeDomain(Entry(domain, token)) == [1, 0, 0, 0, 97, 4, 0, 0, 0, 97, 98, 99, 100]
  {
  }
}
