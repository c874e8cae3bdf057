/** The persistent DNS map of `dns_map.c`: three hash maps and two log files. Each method takes the
    map from one state of module `DnsStates` to the next. */
module DnsMaps {
  import opened Bytes
  import opened Tables
  import opened HashMaps
  import opened Logs
  import opened DnsStates
  import Murmur

  // ---- Comparing C strings ----

  /** `strcmp`, by the first byte that differs; the terminator comes before every other byte. */
  function StrCmp(a: CString, b: CString): int {
    if a == [] then (if b == [] then 0 else -1)
    else if b == [] then 1
    else if a[0] != b[0] then a[0] as int - b[0] as int
    else StrCmp(a[1..], b[1..])
  }

  lemma {:induction false} StrCmpEqual(a: CString, b: CString)
    ensures StrCmp(a, b) == 0 <==> a == b
  {
    if a != [] && b != [] {
      StrCmpEqual(a[1..], b[1..]);
      assert a == [a[0]] + a[1..] && b == [b[0]] + b[1..];
    }
  }

  lemma {:induction false} StrCmpOpposite(a: CString, b: CString)
    ensures StrCmp(a, b) < 0 <==> StrCmp(b, a) > 0
  {
    if a != [] && b != [] {
      StrCmpOpposite(a[1..], b[1..]);
    }
  }

  lemma {:induction false} StrCmpTransitive(a: CString, b: CString, c: CString)
    requires StrCmp(a, b) < 0 && StrCmp(b, c) < 0
    ensures StrCmp(a, c) < 0
  {
    if a != [] && b != [] && c != [] && a[0] == b[0] == c[0] {
      StrCmpTransitive(a[1..], b[1..], c[1..]);
    }
  }

  const STRINGS: Keying<CString> := Keying(k => Murmur.Hash32(k), (a, b) => StrCmp(a, b))

  lemma StringsOrdered()
    ensures STRINGS.Valid()
  {
    forall a, b ensures STRINGS.cmp(a, b) == 0 <==> a == b {
      StrCmpEqual(a, b);
    }
    forall a, b ensures STRINGS.cmp(a, b) < 0 <==> STRINGS.cmp(b, a) > 0 {
      StrCmpOpposite(a, b);
    }
    forall a, b, c | STRINGS.cmp(a, b) < 0 && STRINGS.cmp(b, c) < 0 ensures STRINGS.cmp(a, c) < 0 {
      StrCmpTransitive(a, b, c);
    }
  }

  /** A string comes first if the other one continues it, or has the larger byte where they first
      differ. */
  ghost predicate Before(a: CString, b: CString, p: nat) {
    && p <= |a| && p < |b| && a[..p] == b[..p]
    && (p == |a| || a[p] < b[p])
  }

  ghost predicate ComesFirst(a: CString, b: CString) {
    exists p :: 0 <= p <= |a| && Before(a, b, p)
  }

  lemma {:induction false} StrCmpIs(a: CString, b: CString)
    ensures StrCmp(a, b) < 0 <==> ComesFirst(a, b)
  {
    if a == [] {
      assert b != [] ==> Before(a, b, 0);
    } else if b != [] {
      StrCmpIs(a[1..], b[1..]);
      if p :| 0 <= p <= |a| && Before(a, b, p) {
        if p > 0 {
          assert a[0] == a[..p][0] == b[..p][0] == b[0];
          assert a[1..][..p - 1] == a[..p][1..] && b[1..][..p - 1] == b[..p][1..];
          assert Before(a[1..], b[1..], p - 1);
        }
      }
      if a[0] < b[0] {
        assert Before(a, b, 0);
      }
      if a[0] == b[0] && StrCmp(a, b) < 0 {
        var p :| 0 <= p <= |a[1..]| && Before(a[1..], b[1..], p);
        assert a[..p + 1] == [a[0]] + a[1..][..p] && b[..p + 1] == [b[0]] + b[1..][..p];
        assert Before(a, b, p + 1);
      }
    }
  }

  // ---- Files ----

  /** What reading n bytes from position d on yields. */
  function Taken(b: seq<uint8>, d: nat, n: nat): (got: seq<uint8>)
    requires d <= |b|
    ensures |got| <= n && d + |got| <= |b|
  {
    if d + n <= |b| then b[d..d + n] else b[d..]
  }

  /** A file opened for reading and appending. */
  class File {
    var data: seq<uint8>
    var pos: nat

    constructor (data: seq<uint8>)
      ensures this.data == data && pos == 0
    {
      this.data, pos := data, 0;
    }

    ghost predicate Valid()
      reads this
    {
      pos <= |data|
    }

    /** `fread` of n bytes: all that are left, if there are fewer. */
    method Read(n: nat) returns (got: seq<uint8>)
      requires Valid()
      modifies this`pos
      ensures Valid()
      ensures got == Taken(data, old(pos), n) && pos == old(pos) + |got|
    {
      var end := if pos + n <= |data| then pos + n else |data|;
      got := data[pos..end];
      pos := end;
    }

    /** `fwrite`, which appends wherever the position is. */
    method Append(s: seq<uint8>)
      modifies this
      ensures Valid() && data == old(data) + s
    {
      data := data + s;
      pos := |data|;
    }

    method Rewind()
      modifies this`pos
      ensures Valid() && pos == 0
    {
      pos := 0;
    }
  }

  /** `read_string`. */
  method ReadStringFrom(h: File) returns (r: Option<CString>)
    requires h.Valid()
    modifies h`pos
    ensures h.Valid()
    ensures match ReadString(h.data, old(h.pos))
            case None => r == None
            case Some((s, end)) => r == Some(s) && h.pos == end
  {
    ReadStringIs(h.data, h.pos);
    hide Int32At, CStr, Taken, ReadString;
    var length := h.Read(4);
    if |length| != 4 {
      return None;
    }
    var n := Int32At(length, 0);
    if n < 0 {
      return None;
    }
    var s := h.Read(n);
    if |s| != n {
      return None;
    }
    r := Some(CStr(s));
  }

  /** `ReadString` in two reads. */
  lemma ReadStringIs(b: seq<uint8>, d: nat)
    requires d <= |b|
    ensures var length := Taken(b, d, 4);
            ReadString(b, d) ==
            if |length| != 4 || Int32At(length, 0) < 0 then None
            else
              var s := Taken(b, d + 4, Int32At(length, 0));
              if |s| != Int32At(length, 0) then None else Some((CStr(s), d + 4 + |s|))
  {
    hide CStr;
    if d + 4 <= |b| {
      assert Int32At(b[d..d + 4], 0) == Int32At(b, d);
    }
  }

  /** `read_ipv4`. */
  method ReadIpv4From(h: File) returns (r: Option<Ipv4>)
    requires h.Valid()
    modifies h`pos
    ensures h.Valid()
    ensures match ReadIpv4(h.data, old(h.pos))
            case None => r == None
            case Some((ip, end)) => r == Some(ip) && h.pos == end
  {
    var ip := h.Read(4);
    if |ip| != 4 {
      return None;
    }
    r := Some(ip);
  }

  /** The reads of `read_domain_token_entry`. */
  method ReadDomainFrom(h: File) returns (r: Option<DomainEntry>)
    requires h.Valid()
    modifies h`pos
    ensures h.Valid()
    ensures match ReadDomain(h.data, old(h.pos))
            case None => r == None
            case Some((e, end)) => r == Some(e) && h.pos == end
  {
    var domain := ReadStringFrom(h);
    if domain == None {
      return None;
    }
    var token := ReadStringFrom(h);
    if token == None {
      return None;
    }
    r := Some(Entry(domain.value, token.value));
  }

  /** The reads of `read_token_ip_entry`. */
  method ReadIpFrom(h: File) returns (r: Option<IpEntry>)
    requires h.Valid()
    modifies h`pos
    ensures h.Valid()
    ensures match ReadIp(h.data, old(h.pos))
            case None => r == None
            case Some((e, end)) => r == Some(e) && h.pos == end
  {
    var token := ReadStringFrom(h);
    if token == None {
      return None;
    }
    var ip := ReadIpv4From(h);
    if ip == None {
      return None;
    }
    r := Some(Entry(token.value, ip.value));
  }

  /** `write_string`. */
  method WriteString(h: File, s: CString)
    modifies h
    ensures h.Valid() && h.data == old(h.data) + EncodeString(s)
  {
    h.Append(EncodeInt32(|s|));
    h.Append(s);
  }

  /** `write_domain_token_entry`. */
  method WriteDomainTokenEntry(h: File, domain: CString, token: CString)
    modifies h
    ensures h.Valid() && h.data == old(h.data) + EncodeDomain(Entry(domain, token))
  {
    WriteString(h, domain);
    WriteString(h, token);
  }

  /** `write_token_ip_entry`. */
  method WriteTokenIpEntry(h: File, token: CString, ip: Ipv4)
    modifies h
    ensures h.Valid() && h.data == old(h.data) + EncodeIp(Entry(token, ip))
  {
    WriteString(h, token);
    h.Append(ip);
  }

  // ---- The map ----

  /** The table hashes with MurmurHash3 and compares as `strcmp` does. */
  ghost predicate KeyedByStrings<V>(m: HashMap<CString, V>) {
    m.keying == STRINGS
  }

  lemma StringsAre(a: CString, b: CString)
    ensures STRINGS.hash(a) == Murmur.Hash32(a) && STRINGS.cmp(a, b) == StrCmp(a, b)
  {
    hide StrCmp, Murmur.Hash32;
  }

  /** `create_hash_map(str_cmp)`. */
  method NewTable<V>() returns (m: HashMap<CString, V>)
    ensures m.Valid() && fresh(m.Repr) && m.Map() == map[] && Growth(m.table) && KeyedByStrings(m)
  {
    hide Keying.Valid;
    StringsOrdered();
    m := new HashMap(STRINGS);
    EmptyWellFormed<CString, V>(STRINGS, INITIAL_SIZE, 0);
    assert INITIAL_SIZE == INITIAL_SIZE * Pow2(0);
  }

  class DnsMap {
    const domainToToken: HashMap<CString, CString>
    const tokenToIp: HashMap<CString, Ipv4>
    const tokens: HashMap<CString, int>
    const hDomain2Token: File
    const hToken2Ip: File

    constructor (domains: HashMap<CString, CString>, addresses: HashMap<CString, Ipv4>, marks: HashMap<CString, int>,
                 hDomain2Token: File, hToken2Ip: File)
      ensures domainToToken == domains && tokenToIp == addresses && tokens == marks
      ensures this.hDomain2Token == hDomain2Token && this.hToken2Ip == hToken2Ip
    {
      domainToToken, tokenToIp, tokens := domains, addresses, marks;
      this.hDomain2Token, this.hToken2Ip := hDomain2Token, hToken2Ip;
    }

    ghost function Repr(): set<object>
      reads domainToToken, tokenToIp, tokens
    {
      {hDomain2Token, hToken2Ip} + domainToToken.Repr + tokenToIp.Repr + tokens.Repr
    }

    /** The tables and the files share nothing. */
    ghost predicate Separate()
      reads domainToToken, tokenToIp, tokens
    {
      && hDomain2Token != hToken2Ip
      && domainToToken.Repr !! tokenToIp.Repr
      && domainToToken.Repr !! tokens.Repr
      && tokenToIp.Repr !! tokens.Repr
      && {hDomain2Token, hToken2Ip} !! domainToToken.Repr
      && {hDomain2Token, hToken2Ip} !! tokenToIp.Repr
      && {hDomain2Token, hToken2Ip} !! tokens.Repr
    }

    ghost predicate Keyed() {
      KeyedByStrings(domainToToken) && KeyedByStrings(tokenToIp) && KeyedByStrings(tokens)
    }

    ghost predicate Valid()
      reads domainToToken, tokenToIp, tokens, Repr()
    {
      && Separate()
      && Keyed()
      && domainToToken.Valid() && tokenToIp.Valid() && tokens.Valid()
      && hDomain2Token.Valid() && hToken2Ip.Valid()
      && Growth(domainToToken.table) && Growth(tokenToIp.table) && Growth(tokens.table)
    }

    /** What the map holds, in memory and on disk. */
    ghost function Snapshot(): State
      requires Valid()
      reads domainToToken, tokenToIp, tokens, Repr()
    {
      State(domainToToken.Map(), tokenToIp.Map(), tokens.Map().Keys, hDomain2Token.data, hToken2Ip.data)
    }

    /** Three empty tables of their own and two files make an empty map. */
    lemma EmptyTables()
      requires hDomain2Token != hToken2Ip
      requires domainToToken.Repr !! tokenToIp.Repr && domainToToken.Repr !! tokens.Repr && tokenToIp.Repr !! tokens.Repr
      requires {hDomain2Token, hToken2Ip} !! domainToToken.Repr + tokenToIp.Repr + tokens.Repr
      requires domainToToken.Valid() && tokenToIp.Valid() && tokens.Valid()
      requires hDomain2Token.Valid() && hToken2Ip.Valid()
      requires Growth(domainToToken.table) && Growth(tokenToIp.table) && Growth(tokens.table)
      requires Keyed()
      requires domainToToken.Map() == map[] && tokenToIp.Map() == map[] && tokens.Map() == map[]
      ensures Valid() && Snapshot() == State(map[], map[], {}, hDomain2Token.data, hToken2Ip.data)
    {
      hide Keyed, HashMap.Valid, HashMap.Map, Growth;
    }

    /** A domain is in the bucket its hash gives, and every bucket is in the order of its bytes. */
    lemma DomainPlace(domain: CString, token: CString, i: nat)
      requires Valid() && i < domainToToken.size
      ensures var es := domainToToken.table.buckets[i];
              && (Entry(domain, token) in es <==>
                  && Murmur.Hash32(domain) % domainToToken.size == i
                  && domain in Snapshot().domainToToken && Snapshot().domainToToken[domain] == token)
              && forall j, k :: 0 <= j < k < |es| ==> ComesFirst(es[j].key, es[k].key)
    {
      hide HashMap.Valid, HashMap.Map, Growth, WellFormed, Murmur.Hash32, StrCmp, ComesFirst;
      domainToToken.EntryPlace(Entry(domain, token), i);
      StringsAre(domain, domain);
      var es := domainToToken.table.buckets[i];
      forall j, k | 0 <= j < k < |es| ensures ComesFirst(es[j].key, es[k].key) {
        StringsAre(es[j].key, es[k].key);
        StrCmpIs(es[j].key, es[k].key);
      }
    }

    /** No table would outgrow the range of a C int on its next put. */
    ghost predicate Fits()
      reads domainToToken, tokenToIp, tokens
    {
      domainToToken.Fits() && tokenToIp.Fits() && tokens.Fits()
    }

    /** The put into `domainToToken`. */
    method PutDomain(key: CString, value: CString) returns (r: Option<CString>)
      requires Valid() && domainToToken.Fits()
      modifies domainToToken.Repr
      ensures Valid() && fresh(Repr() - old(Repr()))
      ensures unchanged(tokenToIp) && unchanged(tokens)
      ensures unchanged(hDomain2Token, hToken2Ip)
      ensures Snapshot() == old(Snapshot()).(domainToToken := old(Snapshot()).domainToToken[key := value])
      ensures r == if key in old(domainToToken.Map()) then Some(old(domainToToken.Map())[key]) else None
    {
      hide Keyed, HashMap.Valid, HashMap.Map, HashMap.Fits, Growth;
      r := domainToToken.Put(key, value);
    }

    /** The put into `tokenToIp`. */
    method PutAddress(key: CString, value: Ipv4) returns (r: Option<Ipv4>)
      requires Valid() && tokenToIp.Fits()
      modifies tokenToIp.Repr
      ensures Valid() && fresh(Repr() - old(Repr()))
      ensures unchanged(domainToToken) && unchanged(tokens)
      ensures unchanged(hDomain2Token, hToken2Ip)
      ensures Snapshot() == old(Snapshot()).(tokenToIp := old(Snapshot()).tokenToIp[key := value])
      ensures r == if key in old(tokenToIp.Map()) then Some(old(tokenToIp.Map())[key]) else None
    {
      hide Keyed, HashMap.Valid, HashMap.Map, HashMap.Fits, Growth;
      r := tokenToIp.Put(key, value);
    }

    /** The put into `tokens`. */
    method PutMark(key: CString, value: int) returns (r: Option<int>)
      requires Valid() && tokens.Fits()
      modifies tokens.Repr
      ensures Valid() && fresh(Repr() - old(Repr()))
      ensures unchanged(domainToToken) && unchanged(tokenToIp)
      ensures unchanged(hDomain2Token, hToken2Ip)
      ensures Snapshot() == old(Snapshot()).(tokens := old(Snapshot()).tokens + {key})
      ensures r == if key in old(tokens.Map()) then Some(old(tokens.Map())[key]) else None
    {
      hide Keyed, HashMap.Valid, HashMap.Map, HashMap.Fits, Growth;
      r := tokens.Put(key, value);
    }

    method LogDomain(domain: CString, token: CString)
      requires Valid()
      modifies hDomain2Token
      ensures Valid() && unchanged(domainToToken, tokenToIp, tokens, hToken2Ip)
      ensures Snapshot() == old(Snapshot()).(domainLog := old(hDomain2Token.data) + EncodeDomain(Entry(domain, token)))
    {
      hide Keyed, HashMap.Valid, HashMap.Map, EncodeDomain;
      WriteDomainTokenEntry(hDomain2Token, domain, token);
    }

    method LogIp(token: CString, ip: Ipv4)
      requires Valid()
      modifies hToken2Ip
      ensures Valid() && unchanged(domainToToken, tokenToIp, tokens, hDomain2Token)
      ensures Snapshot() == old(Snapshot()).(ipLog := old(hToken2Ip.data) + EncodeIp(Entry(token, ip)))
    {
      hide Keyed, HashMap.Valid, HashMap.Map, EncodeIp;
      WriteTokenIpEntry(hToken2Ip, token, ip);
    }

    /** `dns_map_put_token`. */
    method PutToken(domain: CString, token: CString, update: bool) returns (previous: Option<CString>)
      requires Valid() && Fits()
      modifies Repr()
      ensures Valid() && fresh(Repr() - old(Repr()))
      ensures unchanged(hToken2Ip) && (!update ==> unchanged(hDomain2Token))
      ensures Snapshot() == DnsStates.PutToken(old(Snapshot()), domain, token, update)
      ensures previous == if domain in old(Snapshot()).domainToToken then Some(old(Snapshot()).domainToToken[domain]) else None
    {
      hide Keyed, HashMap.Valid, HashMap.Map, HashMap.Fits, Separate, Growth, EncodeDomain;
      previous := PutDomain(domain, token);
      if update {
        LogDomain(domain, token);
      }
      var _ := PutMark(token, 1);
    }

    /** `dns_map_put_ipv4`. */
    method PutIpv4(token: CString, ip: Ipv4, update: bool) returns (previous: Option<Ipv4>)
      requires Valid() && Fits()
      modifies Repr()
      ensures Valid() && fresh(Repr() - old(Repr()))
      ensures unchanged(hDomain2Token) && (!update ==> unchanged(hToken2Ip))
      ensures Snapshot() == DnsStates.PutIpv4(old(Snapshot()), token, ip, update)
      ensures previous == if token in old(Snapshot()).tokenToIp then Some(old(Snapshot()).tokenToIp[token]) else None
    {
      hide Keyed, HashMap.Valid, HashMap.Map, HashMap.Fits, Separate, Growth, EncodeIp;
      previous := PutAddress(token, ip);
      if update {
        LogIp(token, ip);
      }
      var _ := PutMark(token, 1);
    }

    /** `dns_map_get_token_from_domain`. */
    method GetTokenFromDomain(domain: CString) returns (token: Option<CString>)
      requires Valid()
      ensures token == if domain in Snapshot().domainToToken then Some(Snapshot().domainToToken[domain]) else None
    {
      token := domainToToken.Lookup(domain);
    }

    /** `dns_map_get_ipv4_from_token`. */
    method GetIpv4FromToken(token: CString) returns (ip: Option<Ipv4>)
      requires Valid()
      ensures ip == if token in Snapshot().tokenToIp then Some(Snapshot().tokenToIp[token]) else None
    {
      ip := tokenToIp.Lookup(token);
    }

    /** `dns_map_has_token`. */
    method HasToken(token: CString) returns (has: bool)
      requires Valid()
      ensures has <==> token in Snapshot().tokens
    {
      var r := tokens.Lookup(token);
      has := r.Some?;
    }

    // ---- Reading the files ----

    lemma RoomyFits()
      requires Valid() && Roomy(Snapshot())
      ensures Fits()
    {
      hide Keyed, HashMap.Valid, HashMap.Map, Growth, HashMap.Fits;
      domainToToken.SmallFits();
      tokenToIp.SmallFits();
      tokens.SmallFits();
    }

    /** `read_domain_token_entry`. */
    method ReadDomainTokenEntry() returns (ok: bool)
      requires Valid() && Fits()
      modifies Repr()
      ensures Valid() && fresh(Repr() - old(Repr()))
      ensures unchanged(hToken2Ip) && hDomain2Token.data == old(hDomain2Token.data)
      ensures match ReadDomain(hDomain2Token.data, old(hDomain2Token.pos))
              case None => !ok && Snapshot() == old(Snapshot())
              case Some((e, end)) =>
                ok && hDomain2Token.pos == end && Snapshot() == DnsStates.PutToken(old(Snapshot()), e.key, e.value, false)
    {
      hide Keyed, HashMap.Valid, HashMap.Map, HashMap.Fits, Growth, ReadDomain, DnsStates.PutToken;
      var e := ReadDomainFrom(hDomain2Token);
      if e == None {
        return false;
      }
      var _ := PutToken(e.value.key, e.value.value, false);
      ok := true;
    }

    /** `read_token_ip_entry`. */
    method ReadTokenIpEntry() returns (ok: bool)
      requires Valid() && Fits()
      modifies Repr()
      ensures Valid() && fresh(Repr() - old(Repr()))
      ensures unchanged(hDomain2Token) && hToken2Ip.data == old(hToken2Ip.data)
      ensures match ReadIp(hToken2Ip.data, old(hToken2Ip.pos))
              case None => !ok && Snapshot() == old(Snapshot())
              case Some((e, end)) =>
                ok && hToken2Ip.pos == end && Snapshot() == DnsStates.PutIpv4(old(Snapshot()), e.key, e.value, false)
    {
      hide Keyed, HashMap.Valid, HashMap.Map, HashMap.Fits, Growth, ReadIp, DnsStates.PutIpv4;
      var e := ReadIpFrom(hToken2Ip);
      if e == None {
        return false;
      }
      var _ := PutIpv4(e.value.key, e.value.value, false);
      ok := true;
    }

    method RewindDomainFile()
      requires Valid()
      modifies hDomain2Token`pos
      ensures Valid() && Snapshot() == old(Snapshot()) && hDomain2Token.pos == 0
      ensures unchanged(domainToToken, tokenToIp, tokens, hToken2Ip)
    {
      hide Keyed, HashMap.Valid, HashMap.Map, Growth;
      hDomain2Token.Rewind();
    }

    method RewindIpFile()
      requires Valid()
      modifies hToken2Ip`pos
      ensures Valid() && Snapshot() == old(Snapshot()) && hToken2Ip.pos == 0
      ensures unchanged(domainToToken, tokenToIp, tokens, hDomain2Token)
    {
      hide Keyed, HashMap.Valid, HashMap.Map, Growth;
      hToken2Ip.Rewind();
    }

    /** The first half of `read_files`. */
    method ReadDomainFile()
      requires Valid() && Roomy(ReplayTokens(Snapshot(), DomainEntries(hDomain2Token.data)))
      modifies Repr()
      ensures Valid() && fresh(Repr() - old(Repr()))
      ensures unchanged(hToken2Ip) && hDomain2Token.data == old(hDomain2Token.data)
      ensures Snapshot() == ReplayTokens(old(Snapshot()), DomainEntries(hDomain2Token.data))
    {
      hide Valid, Snapshot, Fits, Roomy, DnsStates.PutToken, ReadDomain, ReplayTokens, DomainEntries;
      ghost var log, s0 := hDomain2Token.data, Snapshot();
      RewindDomainFile();
      DomainReplayStarts(s0, log);
      if |hDomain2Token.data| > 0 {
        var ok := true;
        while ok
          invariant Valid() && fresh(Repr() - old(Repr()))
          invariant unchanged(hToken2Ip) && hDomain2Token.data == log && (ok ==> hDomain2Token.pos <= |log|)
          invariant ReplayTokens(s0, DomainEntries(log)) == if ok then DomainReplayFrom(Snapshot(), log, hDomain2Token.pos) else Snapshot()
          decreases ok, |log| - hDomain2Token.pos
        {
          DomainReplayGrows(Snapshot(), log, hDomain2Token.pos);
          ContainedRoomy(Snapshot(), ReplayTokens(s0, DomainEntries(log)));
          RoomyFits();
          ok := ReadDomainTokenEntry();
        }
      }
    }

    /** The second half of `read_files`. */
    method ReadIpFile()
      requires Valid() && Roomy(ReplayIps(Snapshot(), IpEntries(hToken2Ip.data)))
      modifies Repr()
      ensures Valid() && fresh(Repr() - old(Repr()))
      ensures unchanged(hDomain2Token) && hToken2Ip.data == old(hToken2Ip.data)
      ensures Snapshot() == ReplayIps(old(Snapshot()), IpEntries(hToken2Ip.data))
    {
      hide Valid, Snapshot, Fits, Roomy, DnsStates.PutIpv4, ReadIp, ReplayIps, IpEntries;
      ghost var log, s0 := hToken2Ip.data, Snapshot();
      RewindIpFile();
      IpReplayStarts(s0, log);
      if |hToken2Ip.data| > 0 {
        var ok := true;
        while ok
          invariant Valid() && fresh(Repr() - old(Repr()))
          invariant unchanged(hDomain2Token) && hToken2Ip.data == log && (ok ==> hToken2Ip.pos <= |log|)
          invariant ReplayIps(s0, IpEntries(log)) == if ok then IpReplayFrom(Snapshot(), log, hToken2Ip.pos) else Snapshot()
          decreases ok, |log| - hToken2Ip.pos
        {
          IpReplayGrows(Snapshot(), log, hToken2Ip.pos);
          ContainedRoomy(Snapshot(), ReplayIps(s0, IpEntries(log)));
          RoomyFits();
          ok := ReadTokenIpEntry();
        }
      }
    }
  }

  /** The part of `create_dns_map` before the files are read. */
  method NewDnsMap(hDomain2Token: File, hToken2Ip: File) returns (m: DnsMap)
    requires hDomain2Token != hToken2Ip && hDomain2Token.Valid() && hToken2Ip.Valid()
    ensures m.Valid() && fresh(m.Repr() - {hDomain2Token, hToken2Ip})
    ensures m.hDomain2Token == hDomain2Token && m.hToken2Ip == hToken2Ip
    ensures m.Snapshot() == State(map[], map[], {}, hDomain2Token.data, hToken2Ip.data)
  {
    hide HashMap.Valid, HashMap.Map, Growth, DnsMap.Valid, DnsMap.Snapshot, DnsMap.Separate, KeyedByStrings;
    var domains := NewTable();
    var addresses := NewTable();
    assert addresses.Repr !! domains.Repr;
    var marks := NewTable();
    assert marks.Repr !! domains.Repr && marks.Repr !! addresses.Repr;
    m := new DnsMap(domains, addresses, marks, hDomain2Token, hToken2Ip);
    m.EmptyTables();
  }

  /** `create_dns_map`. Table sizes are C ints. */
  method CreateDnsMap(hDomain2Token: File, hToken2Ip: File) returns (m: DnsMap)
    requires hDomain2Token != hToken2Ip && hDomain2Token.Valid() && hToken2Ip.Valid()
    requires Roomy(Create(hDomain2Token.data, hToken2Ip.data))
    modifies hDomain2Token, hToken2Ip
    ensures m.Valid() && fresh(m.Repr() - {hDomain2Token, hToken2Ip})
    ensures m.hDomain2Token == hDomain2Token && m.hToken2Ip == hToken2Ip
    ensures m.Snapshot() == Create(old(hDomain2Token.data), old(hToken2Ip.data))
  {
    hide DnsMap.Valid, DnsMap.Snapshot, ReplayTokens, ReplayIps, DomainEntries, IpEntries, Roomy;
    m := NewDnsMap(hDomain2Token, hToken2Ip);
    ghost var s := ReplayTokens(m.Snapshot(), DomainEntries(hDomain2Token.data));
    ReplayIpsGrows(s, IpEntries(hToken2Ip.data));
    ContainedRoomy(s, ReplayIps(s, IpEntries(hToken2Ip.data)));
    m.ReadDomainFile();
    m.ReadIpFile();
  }

  /** The rest of the first replay loop, from position d on. */
  function DomainReplayFrom(s: State, log: seq<uint8>, d: nat): State
    decreases if d < |log| then |log| - d else 0
  {
    match ReadDomain(log, d)
    case None => s
    case Some((e, end)) => DomainReplayFrom(DnsStates.PutToken(s, e.key, e.value, false), log, end)
  }

  lemma {:induction false} DomainReplayGrows(s: State, log: seq<uint8>, d: nat)
    ensures ContainedIn(s, DomainReplayFrom(s, log, d))
    decreases if d < |log| then |log| - d else 0
  {
    hide ReadDomain;
    match ReadDomain(log, d)
    case None =>
    case Some((e, end)) => DomainReplayGrows(DnsStates.PutToken(s, e.key, e.value, false), log, end);
  }

  lemma {:induction false} DomainReplayIs(s: State, log: seq<uint8>, d: nat, es: seq<DomainEntry>)
    requires DOMAIN_FORMAT.Good() && es + Replay(DOMAIN_FORMAT, log, d) == DomainEntries(log)
    ensures DomainReplayFrom(ReplayTokens(s, es), log, d) == ReplayTokens(s, DomainEntries(log))
    decreases if d < |log| then |log| - d else 0
  {
    hide DnsStates.PutToken, Format.Good, ReplayTokens, DomainEntries, ReadDomain;
    match ReadDomain(log, d)
    case None =>
      assert es + [] == es;
    case Some((e, end)) =>
      ReplayTokensMore(s, es, e);
      assert es + ([e] + Replay(DOMAIN_FORMAT, log, end)) == es + [e] + Replay(DOMAIN_FORMAT, log, end);
      DomainReplayIs(s, log, end, es + [e]);
  }

  lemma ReplayTokensMore(s: State, es: seq<DomainEntry>, e: DomainEntry)
    ensures ReplayTokens(s, es + [e]) == DnsStates.PutToken(ReplayTokens(s, es), e.key, e.value, false)
  {
    hide DnsStates.PutToken;
    assert (es + [e])[..|es|] == es;
  }

  lemma DomainReplayStarts(s: State, log: seq<uint8>)
    ensures ReplayTokens(s, DomainEntries(log)) == DomainReplayFrom(s, log, 0)
    ensures log == [] ==> ReplayTokens(s, DomainEntries(log)) == s
  {
    DomainFormatGood();
    assert [] + DomainEntries(log) == DomainEntries(log);
    DomainReplayIs(s, log, 0, []);
  }

  /** The rest of the second replay loop, from position d on. */
  function IpReplayFrom(s: State, log: seq<uint8>, d: nat): State
    decreases if d < |log| then |log| - d else 0
  {
    match ReadIp(log, d)
    case None => s
    case Some((e, end)) => IpReplayFrom(DnsStates.PutIpv4(s, e.key, e.value, false), log, end)
  }

  lemma {:induction false} IpReplayGrows(s: State, log: seq<uint8>, d: nat)
    ensures ContainedIn(s, IpReplayFrom(s, log, d))
    decreases if d < |log| then |log| - d else 0
  {
    hide ReadIp;
    match ReadIp(log, d)
    case None =>
    case Some((e, end)) => IpReplayGrows(DnsStates.PutIpv4(s, e.key, e.value, false), log, end);
  }

  lemma {:induction false} IpReplayIs(s: State, log: seq<uint8>, d: nat, es: seq<IpEntry>)
    requires IP_FORMAT.Good() && es + Replay(IP_FORMAT, log, d) == IpEntries(log)
    ensures IpReplayFrom(ReplayIps(s, es), log, d) == ReplayIps(s, IpEntries(log))
    decreases if d < |log| then |log| - d else 0
  {
    hide DnsStates.PutIpv4, Format.Good, ReplayIps, IpEntries, ReadIp;
    match ReadIp(log, d)
    case None =>
      assert es + [] == es;
    case Some((e, end)) =>
      ReplayIpsMore(s, es, e);
      assert es + ([e] + Replay(IP_FORMAT, log, end)) == es + [e] + Replay(IP_FORMAT, log, end);
      IpReplayIs(s, log, end, es + [e]);
  }

  lemma ReplayIpsMore(s: State, es: seq<IpEntry>, e: IpEntry)
    ensures ReplayIps(s, es + [e]) == DnsStates.PutIpv4(ReplayIps(s, es), e.key, e.value, false)
  {
    hide DnsStates.PutIpv4;
    assert (es + [e])[..|es|] == es;
  }

  lemma IpReplayStarts(s: State, log: seq<uint8>)
    ensures ReplayIps(s, IpEntries(log)) == IpReplayFrom(s, log, 0)
    ensures log == [] ==> ReplayIps(s, IpEntries(log)) == s
  {
    IpFormatGood();
    assert [] + IpEntries(log) == IpEntries(log);
    IpReplayIs(s, log, 0, []);
  }
}
