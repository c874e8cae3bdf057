/** What `dns_map.c` remembers, in memory and on disk, as a value; what the threads do to it; and
    what survives a restart. */
module DnsStates {
  import opened Bytes
  import opened Tables
  import opened Logs

  const TOKEN_SIZE: nat := 4

  datatype State = State(domainToToken: map<CString, CString>, tokenToIp: map<CString, Ipv4>,
                         tokens: set<CString>, domainLog: seq<uint8>, ipLog: seq<uint8>)

  /** `dns_map_put_token`. */
  function PutToken(s: State, domain: CString, token: CString, update: bool): State {
    s.(domainToToken := s.domainToToken[domain := token],
       tokens := s.tokens + {token},
       domainLog := if update then s.domainLog + EncodeDomain(Entry(domain, token)) else s.domainLog)
  }

  /** `dns_map_put_ipv4`. */
  function PutIpv4(s: State, token: CString, ip: Ipv4, update: bool): State {
    s.(tokenToIp := s.tokenToIp[token := ip],
       tokens := s.tokens + {token},
       ipLog := if update then s.ipLog + EncodeIp(Entry(token, ip)) else s.ipLog)
  }

  function ReplayTokens(s: State, es: seq<DomainEntry>): State {
    if es == [] then s
    else PutToken(ReplayTokens(s, es[..|es| - 1]), es[|es| - 1].key, es[|es| - 1].value, false)
  }

  function ReplayIps(s: State, es: seq<IpEntry>): State {
    if es == [] then s
    else PutIpv4(ReplayIps(s, es[..|es| - 1]), es[|es| - 1].key, es[|es| - 1].value, false)
  }

  ghost function DomainEntries(log: seq<uint8>): seq<DomainEntry> {
    DomainFormatGood();
    Replay(DOMAIN_FORMAT, log, 0)
  }

  ghost function IpEntries(log: seq<uint8>): seq<IpEntry> {
    IpFormatGood();
    Replay(IP_FORMAT, log, 0)
  }

  /** `create_dns_map`: the domain log first, then the address log. */
  ghost function Create(domainLog: seq<uint8>, ipLog: seq<uint8>): State {
    ReplayIps(ReplayTokens(State(map[], map[], {}, domainLog, ipLog), DomainEntries(domainLog)), IpEntries(ipLog))
  }

  /** No table of the state has come near the range of a C int. */
  predicate Roomy(s: State) {
    |s.domainToToken| < TOO_MANY && |s.tokenToIp| < TOO_MANY && |s.tokens| < TOO_MANY
  }

  /** Everything that is in s is in s'. */
  predicate ContainedIn(s: State, s': State) {
    && s.domainToToken.Keys <= s'.domainToToken.Keys
    && s.tokenToIp.Keys <= s'.tokenToIp.Keys
    && s.tokens <= s'.tokens
  }

  lemma SubsetSize<X>(a: set<X>, b: set<X>)
    requires a <= b
    ensures |a| <= |b|
  {
    assert b == a + (b - a);
  }

  lemma ContainedRoomy(s: State, s': State)
    requires ContainedIn(s, s') && Roomy(s')
    ensures Roomy(s)
  {
    SubsetSize(s.domainToToken.Keys, s'.domainToToken.Keys);
    SubsetSize(s.tokenToIp.Keys, s'.tokenToIp.Keys);
    SubsetSize(s.tokens, s'.tokens);
  }

  lemma {:induction false} ReplayIpsGrows(s: State, es: seq<IpEntry>)
    ensures ContainedIn(s, ReplayIps(s, es))
  {
    if es != [] {
      ReplayIpsGrows(s, es[..|es| - 1]);
    }
  }

  // ---- Recovery ----

  function MapOf<V>(es: Chain<CString, V>): map<CString, V> {
    if es == [] then map[] else MapOf(es[..|es| - 1])[es[|es| - 1].key := es[|es| - 1].value]
  }

  function ValueSet(es: seq<DomainEntry>): set<CString> {
    if es == [] then {} else ValueSet(es[..|es| - 1]) + {es[|es| - 1].value}
  }

  function KeySet(es: seq<IpEntry>): set<CString> {
    if es == [] then {} else KeySet(es[..|es| - 1]) + {es[|es| - 1].key}
  }

  lemma UnionUpdate<K, V>(a: map<K, V>, b: map<K, V>, k: K, v: V)
    ensures a + b[k := v] == (a + b)[k := v]
  {
  }

  lemma {:induction false} ReplayTokensIs(s: State, es: seq<DomainEntry>)
    ensures ReplayTokens(s, es) ==
            s.(domainToToken := s.domainToToken + MapOf(es), tokens := s.tokens + ValueSet(es))
  {
    if es == [] {
      assert s.domainToToken + MapOf(es) == s.domainToToken;
    } else {
      var front, e := es[..|es| - 1], es[|es| - 1];
      ReplayTokensIs(s, front);
      UnionUpdate(s.domainToToken, MapOf(front), e.key, e.value);
      assert s.tokens + (ValueSet(front) + {e.value}) == s.tokens + ValueSet(front) + {e.value};
    }
  }

  lemma {:induction false} ReplayIpsIs(s: State, es: seq<IpEntry>)
    ensures ReplayIps(s, es) == s.(tokenToIp := s.tokenToIp + MapOf(es), tokens := s.tokens + KeySet(es))
  {
    if es == [] {
      assert s.tokenToIp + MapOf(es) == s.tokenToIp;
    } else {
      var front, e := es[..|es| - 1], es[|es| - 1];
      ReplayIpsIs(s, front);
      UnionUpdate(s.tokenToIp, MapOf(front), e.key, e.value);
      assert s.tokens + (KeySet(front) + {e.key}) == s.tokens + KeySet(front) + {e.key};
    }
  }

  /** Only the entries in the logs matter for what comes back from them. */
  lemma CreateIs(domainLog: seq<uint8>, ipLog: seq<uint8>)
    ensures var es, fs := DomainEntries(domainLog), IpEntries(ipLog);
            Create(domainLog, ipLog) == State(MapOf(es), MapOf(fs), ValueSet(es) + KeySet(fs), domainLog, ipLog)
  {
    var es, fs := DomainEntries(domainLog), IpEntries(ipLog);
    hide DomainEntries, IpEntries, PutToken, PutIpv4, MapOf, ValueSet, KeySet, ReplayTokens, ReplayIps;
    var s := State(map[], map[], {}, domainLog, ipLog);
    ReplayTokensIs(s, es);
    ReplayIpsIs(ReplayTokens(s, es), fs);
    assert map[] + MapOf(es) == MapOf(es) && map[] + MapOf(fs) == MapOf(fs);
  }

  datatype Op = TokenOp(domain: CString, token: CString, update: bool) | IpOp(token: CString, ip: Ipv4, update: bool)

  /** Any interleaving of puts on a map that was created from empty logs. */
  function Perform(ops: seq<Op>): State {
    if ops == [] then State(map[], map[], {}, [], [])
    else
      var s := Perform(ops[..|ops| - 1]);
      match ops[|ops| - 1]
      case TokenOp(domain, token, update) => PutToken(s, domain, token, update)
      case IpOp(token, ip, update) => PutIpv4(s, token, ip, update)
  }

  /** The puts made with the update flag. */
  function Saved(ops: seq<Op>): seq<Op> {
    if ops == [] then []
    else Saved(ops[..|ops| - 1]) + if ops[|ops| - 1].update then [ops[|ops| - 1]] else []
  }

  function TokenPuts(ops: seq<Op>): seq<DomainEntry> {
    if ops == [] then []
    else
      var op := ops[|ops| - 1];
      TokenPuts(ops[..|ops| - 1]) + if op.TokenOp? then [Entry(op.domain, op.token)] else []
  }

  function IpPuts(ops: seq<Op>): seq<IpEntry> {
    if ops == [] then []
    else
      var op := ops[|ops| - 1];
      IpPuts(ops[..|ops| - 1]) + if op.IpOp? then [Entry(op.token, op.ip)] else []
  }

  /** The state that holds the given entries, in memory and in the logs. */
  function StateOf(es: seq<DomainEntry>, fs: seq<IpEntry>): State {
    State(MapOf(es), MapOf(fs), ValueSet(es) + KeySet(fs),
          EncodeAll(DOMAIN_FORMAT, es), EncodeAll(IP_FORMAT, fs))
  }

  lemma StateOfMoreTokens(es: seq<DomainEntry>, fs: seq<IpEntry>, domain: CString, token: CString)
    ensures PutToken(StateOf(es, fs), domain, token, true) == StateOf(es + [Entry(domain, token)], fs)
  {
    hide EncodeDomain, EncodeIp;
    var e := Entry(domain, token);
    assert (es + [e])[..|es|] == es;
    EncodeAppend(DOMAIN_FORMAT, es, e);
  }

  lemma StateOfMoreIps(es: seq<DomainEntry>, fs: seq<IpEntry>, token: CString, ip: Ipv4)
    ensures PutIpv4(StateOf(es, fs), token, ip, true) == StateOf(es, fs + [Entry(token, ip)])
  {
    hide EncodeDomain, EncodeIp;
    var e := Entry(token, ip);
    assert (fs + [e])[..|fs|] == fs;
    EncodeAppend(IP_FORMAT, fs, e);
  }

  /** The state after saved puts, told from the puts of either kind alone. */
  lemma {:induction false} PerformIs(ops: seq<Op>)
    requires Saved(ops) == ops
    ensures Perform(ops) == StateOf(TokenPuts(ops), IpPuts(ops))
  {
    hide PutToken, PutIpv4, StateOf;
    if ops == [] {
      EmptyState();
    } else {
      var front, op := ops[..|ops| - 1], ops[|ops| - 1];
      var es, fs := TokenPuts(front), IpPuts(front);
      SavedFront(ops);
      PerformIs(front);
      match op
      case TokenOp(domain, token, _) =>
        assert fs + [] == fs;
        StateOfMoreTokens(es, fs, domain, token);
      case IpOp(token, ip, _) =>
        assert es + [] == es;
        StateOfMoreIps(es, fs, token, ip);
    }
  }

  lemma EmptyState()
    ensures StateOf([], []) == State(map[], map[], {}, [], [])
  {
  }

  lemma {:induction false} SavedIsShorter(ops: seq<Op>)
    ensures |Saved(ops)| <= |ops|
  {
    if ops != [] {
      SavedIsShorter(ops[..|ops| - 1]);
    }
  }

  lemma SavedFront(ops: seq<Op>)
    requires Saved(ops) == ops && ops != []
    ensures Saved(ops[..|ops| - 1]) == ops[..|ops| - 1] && ops[|ops| - 1].update
  {
    var front, op := ops[..|ops| - 1], ops[|ops| - 1];
    SavedIsShorter(front);
    assert op.update;
    assert (Saved(front) + [op])[..|front|] == Saved(front);
  }

  lemma {:induction false} SavedTwice(ops: seq<Op>)
    ensures Saved(Saved(ops)) == Saved(ops)
  {
    if ops != [] {
      var front, op := ops[..|ops| - 1], ops[|ops| - 1];
      SavedTwice(front);
      if op.update {
        assert (Saved(front) + [op])[..|Saved(front)|] == Saved(front);
      } else {
        assert Saved(front) + [] == Saved(front);
      }
    }
  }

  lemma {:induction false} OnlySavedIsLogged(ops: seq<Op>)
    ensures Perform(ops).domainLog == Perform(Saved(ops)).domainLog
    ensures Perform(ops).ipLog == Perform(Saved(ops)).ipLog
  {
    if ops != [] {
      var front, op := ops[..|ops| - 1], ops[|ops| - 1];
      OnlySavedIsLogged(front);
      if op.update {
        assert (Saved(front) + [op])[..|Saved(front)|] == Saved(front);
      } else {
        assert Saved(front) + [] == Saved(front);
      }
    }
  }

  /** What a restart brings back: although the two logs are replayed one after the other, the map
      is what it would be if the puts without the update flag had never been made. */
  lemma RestartKeepsSaved(ops: seq<Op>)
    ensures Create(Perform(ops).domainLog, Perform(ops).ipLog) == Perform(Saved(ops))
  {
    var saved := Saved(ops);
    var s := Perform(saved);
    OnlySavedIsLogged(ops);
    SavedTwice(ops);
    PerformIs(saved);
    DomainFormatGood();
    IpFormatGood();
    ReplayAll(DOMAIN_FORMAT, TokenPuts(saved));
    ReplayAll(IP_FORMAT, IpPuts(saved));
    CreateIs(s.domainLog, s.ipLog);
  }

  /** Full recovery: if every put was made with the update flag, the whole live state comes back. */
  lemma FullRecovery(ops: seq<Op>)
    requires forall i :: 0 <= i < |ops| ==> ops[i].update
    ensures Create(Perform(ops).domainLog, Perform(ops).ipLog) == Perform(ops)
  {
    RestartKeepsSaved(ops);
    AllSaved(ops);
  }

  lemma {:induction false} AllSaved(ops: seq<Op>)
    requires forall i :: 0 <= i < |ops| ==> ops[i].update
    ensures Saved(ops) == ops
  {
    if ops != [] {
      AllSaved(ops[..|ops| - 1]);
    }
  }

  /** Crash recovery of the whole map, with both logs cut off anywhere: the state comes back as if
      only the saved puts whose entries survived as a whole had been made. */
  lemma CrashRecovery(ops: seq<Op>, m: nat, n: nat)
    requires m <= |Perform(ops).domainLog| && n <= |Perform(ops).ipLog|
    ensures var s, saved := Perform(ops), Saved(ops);
            var es := TokenPuts(saved)[..WholeEntries(DOMAIN_FORMAT, TokenPuts(saved), m)];
            var fs := IpPuts(saved)[..WholeEntries(IP_FORMAT, IpPuts(saved), n)];
            Create(s.domainLog[..m], s.ipLog[..n]) ==
            State(MapOf(es), MapOf(fs), ValueSet(es) + KeySet(fs), s.domainLog[..m], s.ipLog[..n])
  {
    var s, saved := Perform(ops), Saved(ops);
    OnlySavedIsLogged(ops);
    SavedTwice(ops);
    PerformIs(saved);
    DomainFormatGood();
    IpFormatGood();
    CrashPrefix(DOMAIN_FORMAT, TokenPuts(saved), m);
    CrashPrefix(IP_FORMAT, IpPuts(saved), n);
    CreateIs(s.domainLog[..m], s.ipLog[..n]);
  }

  // ---- What the threads do ----

  /** Register is the console command, Bind a client connection with the address it comes from,
      Query a datagram, Restart a clean shutdown and start. */
  datatype Step =
    | Register(domain: CString, argument: CString)
    | Bind(packet: seq<uint8>, ip: Ipv4)
    | Query(datagram: seq<uint8>)
    | Restart

  predicate Registers(step: Step, domain: CString) {
    step.Register? && step.domain == domain
  }

  /** The first four bytes of the console argument, up to its terminator. */
  function ArgumentToken(argument: CString): (token: CString) {
    if |argument| < TOKEN_SIZE then argument else argument[..TOKEN_SIZE]
  }

  /** The token of a request packet, with a terminator behind it. */
  function PacketToken(packet: seq<uint8>): (token: CString) {
    CStr(if |packet| < TOKEN_SIZE then packet else packet[..TOKEN_SIZE])
  }

  ghost function Do(s: State, step: Step): State {
    match step
    case Register(domain, argument) =>
      if domain in s.domainToToken then s else PutToken(s, domain, ArgumentToken(argument), true)
    case Bind(packet, ip) =>
      if |packet| == TOKEN_SIZE && PacketToken(packet) in s.tokens then PutIpv4(s, PacketToken(packet), ip, false) else s
    case Query(_) => s
    case Restart => Create(s.domainLog, s.ipLog)
  }

  /** A run from empty logs. */
  ghost function Run(steps: seq<Step>): State {
    if steps == [] then Create([], [])
    else Do(Run(steps[..|steps| - 1]), steps[|steps| - 1])
  }

  /** The log names each domain once and agrees with the map; tokens come from registrations alone,
      and nothing is bound to any other. */
  ghost predicate Consistent(s: State) {
    var es := DomainEntries(s.domainLog);
    && s.domainLog == EncodeAll(DOMAIN_FORMAT, es) && DistinctKeys(es)
    && s.domainToToken == MapOf(es)
    && s.ipLog == []
    && s.tokens == ValueSet(es)
    && s.tokenToIp.Keys <= s.tokens
  }

  lemma {:induction false} MapOfKeys<V>(es: Chain<CString, V>, k: CString)
    ensures k in MapOf(es) <==> exists i :: 0 <= i < |es| && es[i].key == k
  {
    if es != [] {
      var n := |es| - 1;
      MapOfKeys(es[..n], k);
      if i :| 0 <= i < |es| && es[i].key == k {
        assert i == n || es[..n][i].key == k;
      }
    }
  }

  lemma EmptyLogs()
    ensures DomainEntries([]) == [] && IpEntries([]) == []
    ensures Create([], []) == State(map[], map[], {}, [], [])
  {
    DomainFormatGood();
    IpFormatGood();
    CreateIs([], []);
  }

  lemma DoConsistent(s: State, step: Step)
    requires Consistent(s)
    ensures Consistent(Do(s, step))
  {
    match step
    case Register(domain, argument) =>
      if domain !in s.domainToToken {
        RegisterConsistent(s, domain, ArgumentToken(argument));
      }
    case Bind(_, _) =>
    case Query(_) =>
    case Restart =>
      EmptyLogs();
      CreateIs(s.domainLog, s.ipLog);
  }

  lemma RegisterConsistent(s: State, domain: CString, token: CString)
    requires Consistent(s) && domain !in s.domainToToken
    ensures Consistent(PutToken(s, domain, token, true))
  {
    hide EncodeDomain, EncodeAll, DomainEntries, DistinctKeys, MapOf, ValueSet;
    var es, e := DomainEntries(s.domainLog), Entry(domain, token);
    LogGrows(s.domainLog, es, e);
    MoreEntries(es, e);
    NewDomainDistinct(es, e);
  }

  lemma MoreEntries(es: seq<DomainEntry>, e: DomainEntry)
    ensures MapOf(es + [e]) == MapOf(es)[e.key := e.value]
    ensures ValueSet(es + [e]) == ValueSet(es) + {e.value}
  {
    assert (es + [e])[..|es|] == es;
  }

  lemma NewDomainDistinct(es: seq<DomainEntry>, e: DomainEntry)
    requires DistinctKeys(es) && e.key !in MapOf(es)
    ensures DistinctKeys(es + [e])
  {
    MapOfKeys(es, e.key);
  }

  lemma LogGrows(log: seq<uint8>, es: seq<DomainEntry>, e: DomainEntry)
    requires log == EncodeAll(DOMAIN_FORMAT, es)
    ensures log + EncodeDomain(e) == EncodeAll(DOMAIN_FORMAT, es + [e])
    ensures DomainEntries(log + EncodeDomain(e)) == es + [e]
  {
    DomainFormatGood();
    EncodeAppend(DOMAIN_FORMAT, es, e);
    ReplayAll(DOMAIN_FORMAT, es + [e]);
  }

  /** Safety over every run of registrations, bindings, queries and clean restarts. */
  lemma {:induction false} RunConsistent(steps: seq<Step>)
    ensures Consistent(Run(steps))
  {
    if steps == [] {
      EmptyLogs();
    } else {
      RunConsistent(steps[..|steps| - 1]);
      DoConsistent(Run(steps[..|steps| - 1]), steps[|steps| - 1]);
    }
  }

  lemma RestartKeepsLinks(s: State)
    requires Consistent(s)
    ensures Do(s, Restart).domainToToken == s.domainToToken && Do(s, Restart).tokenToIp == map[]
  {
    EmptyLogs();
    CreateIs(s.domainLog, s.ipLog);
  }

  /** The first registration of a domain gives it its token, and nothing changes it afterwards. */
  lemma DoLinks(s: State, step: Step, domain: CString)
    requires Consistent(s)
    ensures var s' := Do(s, step);
            if Registers(step, domain) && domain !in s.domainToToken then
              domain in s'.domainToToken && s'.domainToToken[domain] == ArgumentToken(step.argument)
            else
              && (domain in s'.domainToToken <==> domain in s.domainToToken)
              && (domain in s.domainToToken ==> s'.domainToToken[domain] == s.domainToToken[domain])
  {
    if step.Restart? {
      RestartKeepsLinks(s);
    }
  }

  /** A registered domain keeps its token through everything that follows. */
  lemma {:induction false} TokensAreForever(steps: seq<Step>, more: seq<Step>, domain: CString)
    requires domain in Run(steps).domainToToken
    ensures domain in Run(steps + more).domainToToken
    ensures Run(steps + more).domainToToken[domain] == Run(steps).domainToToken[domain]
    decreases more
  {
    hide Do, Consistent;
    if more == [] {
      assert steps + more == steps;
    } else {
      var front := more[..|more| - 1];
      assert (steps + more)[..|steps + more| - 1] == steps + front;
      TokensAreForever(steps, front, domain);
      RunConsistent(steps + front);
      DoLinks(Run(steps + front), more[|more| - 1], domain);
    }
  }

  /** Every token of a registered domain, and every token that has an address, passes
      `dns_map_has_token`; and no others do. */
  lemma KnownTokens(steps: seq<Step>)
    ensures Run(steps).tokens == Run(steps).domainToToken.Values
    ensures Run(steps).tokenToIp.Keys <= Run(steps).tokens
  {
    RunConsistent(steps);
    TokensAreValues(DomainEntries(Run(steps).domainLog));
  }

  /** The domain log of any run names each domain at most once, and exactly the registered ones. */
  lemma LogNamesDomainsOnce(steps: seq<Step>)
    ensures DistinctKeys(DomainEntries(Run(steps).domainLog))
    ensures MapOf(DomainEntries(Run(steps).domainLog)) == Run(steps).domainToToken
    ensures EncodeAll(DOMAIN_FORMAT, DomainEntries(Run(steps).domainLog)) == Run(steps).domainLog
  {
    RunConsistent(steps);
  }

  /** Replaying the log meets no negative length. */
  ghost predicate SaneDomainLog(log: seq<uint8>) {
    DomainFormatGood();
    Sane(DOMAIN_FORMAT, log, 0)
  }

  /** However the domain log of a run is cut off, it stays sane. */
  lemma RunsWriteSaneLogs(steps: seq<Step>, n: nat)
    requires n <= |Run(steps).domainLog|
    ensures SaneDomainLog(Run(steps).domainLog[..n])
  {
    RunConsistent(steps);
    DomainFormatGood();
    FormatsCareful();
    LogsAreSane(DOMAIN_FORMAT, DomainEntries(Run(steps).domainLog), n);
  }

  /** A step writes at most one entry, behind the others. */
  lemma StepGrowsLog(s: State, step: Step)
    requires Consistent(s)
    ensures var es, fs := DomainEntries(s.domainLog), DomainEntries(Do(s, step).domainLog);
            es <= fs && |fs| <= |es| + 1
  {
    hide EncodeDomain, EncodeAll, DomainEntries, DistinctKeys, MapOf, ValueSet;
    match step
    case Register(domain, argument) =>
      if domain !in s.domainToToken {
        LogGrows(s.domainLog, DomainEntries(s.domainLog), Entry(domain, ArgumentToken(argument)));
      }
    case Bind(_, _) =>
    case Query(_) =>
    case Restart =>
      CreateIs(s.domainLog, s.ipLog);
  }

  /** The beginning of the log of a run is the log of the beginning of the run. */
  lemma {:induction false} EarlierLog(steps: seq<Step>, w: nat) returns (k: nat)
    requires w <= |DomainEntries(Run(steps).domainLog)|
    ensures k <= |steps| && DomainEntries(Run(steps[..k]).domainLog) == DomainEntries(Run(steps).domainLog)[..w]
  {
    hide Do, Consistent, DomainEntries;
    var es := DomainEntries(Run(steps).domainLog);
    if w == |es| {
      k := |steps|;
      assert steps[..k] == steps && es[..w] == es;
    } else if steps == [] {
      EmptyLogs();
    } else {
      var front := steps[..|steps| - 1];
      RunConsistent(front);
      StepGrowsLog(Run(front), steps[|steps| - 1]);
      k := EarlierLog(front, w);
      assert steps[..k] == front[..k];
    }
  }

  lemma CutLog(s: State, n: nat) returns (w: nat)
    requires Consistent(s) && n <= |s.domainLog|
    ensures w <= |DomainEntries(s.domainLog)|
    ensures DomainEntries(s.domainLog[..n]) == DomainEntries(s.domainLog)[..w]
  {
    var es := DomainEntries(s.domainLog);
    DomainFormatGood();
    CrashPrefix(DOMAIN_FORMAT, es, n);
    w := WholeEntries(DOMAIN_FORMAT, es, n);
  }

  lemma LinksFromLog(log: seq<uint8>)
    ensures var es := DomainEntries(log);
            Create(log, []) == State(MapOf(es), map[], ValueSet(es), log, [])
  {
    EmptyLogs();
    CreateIs(log, []);
  }

  lemma NoAddressLog(steps: seq<Step>)
    ensures Run(steps).ipLog == []
  {
    RunConsistent(steps);
  }

  lemma RunOneMore(steps: seq<Step>, step: Step)
    ensures Run(steps + [step]) == Do(Run(steps), step)
  {
    assert (steps + [step])[..|steps|] == steps;
  }

  /** What a crash loses: with the domain log of a run cut off anywhere, the server comes back as
      after the first k steps of the run and a clean restart. */
  lemma CrashedRun(steps: seq<Step>, n: nat)
    requires n <= |Run(steps).domainLog|
    ensures exists k :: 0 <= k <= |steps| &&
              Create(Run(steps).domainLog[..n], Run(steps).ipLog) ==
              Run(steps[..k] + [Restart]).(domainLog := Run(steps).domainLog[..n])
  {
    hide Run, Create, Consistent, DomainEntries, MapOf, ValueSet;
    var log := Run(steps).domainLog;
    RunConsistent(steps);
    NoAddressLog(steps);
    var w := CutLog(Run(steps), n);
    var k := EarlierLog(steps, w);
    NoAddressLog(steps[..k]);
    RunOneMore(steps[..k], Restart);
    LinksFromLog(log[..n]);
    LinksFromLog(Run(steps[..k]).domainLog);
  }

  /** A run has at most as many entries in each table as steps. */
  lemma {:induction false} RunSize(steps: seq<Step>)
    ensures |DomainEntries(Run(steps).domainLog)| <= |steps|
  {
    hide Do, Consistent, DomainEntries;
    if steps == [] {
      EmptyLogs();
    } else {
      var front := steps[..|steps| - 1];
      RunSize(front);
      RunConsistent(front);
      StepGrowsLog(Run(front), steps[|steps| - 1]);
    }
  }

  lemma {:induction false} EntriesSize(es: seq<DomainEntry>)
    ensures |MapOf(es)| <= |es| && |ValueSet(es)| <= |es|
  {
    if es != [] {
      EntriesSize(es[..|es| - 1]);
    }
  }

  lemma ShortRunRoomy(steps: seq<Step>)
    requires |steps| < TOO_MANY
    ensures Roomy(Run(steps))
  {
    hide Run, DomainEntries, MapOf, ValueSet;
    RunSize(steps);
    RunConsistent(steps);
    EntriesSize(DomainEntries(Run(steps).domainLog));
    SubsetSize(Run(steps).tokenToIp.Keys, Run(steps).tokens);
  }

  /** Binding adds no token, and binds exactly the tokens of registered domains. */
  lemma BindAddsNoToken(steps: seq<Step>, packet: seq<uint8>, ip: Ipv4)
    ensures Run(steps + [Bind(packet, ip)]).tokens == Run(steps).tokens
    ensures |packet| == TOKEN_SIZE ==>
              (PacketToken(packet) in Run(steps + [Bind(packet, ip)]).tokenToIp <==>
               PacketToken(packet) in Run(steps).domainToToken.Values)
  {
    assert (steps + [Bind(packet, ip)])[..|steps|] == steps;
    KnownTokens(steps);
  }

  lemma {:induction false} TokensAreValues(es: seq<DomainEntry>)
    requires DistinctKeys(es)
    ensures ValueSet(es) == MapOf(es).Values
  {
    if es != [] {
      var n := |es| - 1;
      var m := MapOf(es[..n]);
      TokensAreValues(es[..n]);
      MapOfKeys(es[..n], es[n].key);
      assert forall k :: k in m ==> MapOf(es)[k] == m[k];
      assert MapOf(es)[es[n].key] == es[n].value;
    }
  }

  // ---- What a registration and a binding amount to ----

  /** A registration of an unregistered domain links it to the first four bytes of the argument, and
      those are the only token it adds. */
  lemma RegisterLinks(steps: seq<Step>, domain: CString, argument: CString)
    requires domain !in Run(steps).domainToToken
    ensures var s, s' := Run(steps), Run(steps + [Register(domain, argument)]);
            var token: CString := if |argument| < 4 then argument else argument[..4];
            && s'.domainToToken == s.domainToToken[domain := token]
            && s'.tokens == s.tokens + {token}
            && s'.tokenToIp == s.tokenToIp
  {
    hide Run;
    RunOneMore(steps, Register(domain, argument));
  }

  lemma TokenInPacket(token: CString, rest: seq<uint8>)
    requires |token| + |rest| == 4 && (rest == [] || rest[0] == 0)
    ensures PacketToken(token + rest) == token
  {
    var packet := token + rest;
    assert packet[..4] == packet;
    CStrOfSum(token, rest);
    assert token + [] == token;
  }

  /** Whatever follows a NUL byte in the packet, the token in front of it is given the address if it
      is known; otherwise nothing changes. Packets of other sizes change nothing. */
  lemma BindGives(steps: seq<Step>, token: CString, rest: seq<uint8>, ip: Ipv4)
    requires rest == [] || rest[0] == 0
    ensures var s, s' := Run(steps), Run(steps + [Bind(token + rest, ip)]);
            s' == if |token| + |rest| == 4 && token in s.tokens then s.(tokenToIp := s.tokenToIp[token := ip]) else s
  {
    hide Run, PacketToken;
    RunOneMore(steps, Bind(token + rest, ip));
    if |token| + |rest| == 4 {
      TokenInPacket(token, rest);
      var s := Run(steps);
      assert token in s.tokens ==> s.tokens + {token} == s.tokens;
    }
  }

  /** Registering a domain and presenting the first four bytes of its argument gives it an address. */
  lemma RegisterAndBind(steps: seq<Step>, domain: CString, argument: CString, ip: Ipv4)
    requires domain !in Run(steps).domainToToken && |argument| >= 4
    ensures var s := Run(steps + [Register(domain, argument)] + [Bind(argument[..4], ip)]);
            && domain in s.domainToToken && s.domainToToken[domain] == argument[..4]
            && argument[..4] in s.tokens && argument[..4] in s.tokenToIp
  {
    hide Run;
    var token: CString := argument[..4];
    RegisterLinks(steps, domain, argument);
    assert token + [] == token;
    BindGives(steps + [Register(domain, argument)], token, [], ip);
  }
}
