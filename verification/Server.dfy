/** The steps the three threads take on the shared map, each of them atomic, and what they amount to
    over whole runs. */
module Server {
  import opened Bytes
  import opened Tables
  import opened HashMaps
  import opened Messages
  import opened Names
  import opened Protocol
  import opened Logs
  import opened Wire
  import opened Codec
  import opened DnsStates
  import opened DnsMaps
  import opened Answers
  import opened Replies
  import opened Traces

  const RESP_OK: nat := 0
  const RESP_INVALID_TOKEN: nat := 1

  /** `handle_datagram`, with a map in state s: parse, reply, print. Nothing is sent for a datagram
      that is too short. */
  method HandleDatagram(bufferIn: seq<uint8>, m: DnsMap, ghost s: State) returns (bufferOut: Option<seq<uint8>>)
    requires m.Valid() && m.Snapshot() == s && CanReply(s, bufferIn)
    ensures bufferOut == ReplyBytes(s, bufferIn)
    ensures bufferOut == None <==> Parse(bufferIn).1 > |bufferIn|
  {
    hide HashMap.Valid, HashMap.Map, Growth, Parse, ReplyTo, Encode, Printable;
    bufferOut := None;
    var errorFlag := 0;
    var question;
    question, errorFlag := InterpretQuestion(bufferIn, errorFlag);
    if errorFlag == 0 {
      var reply := MakeReply(question, m);
      ReplyPrintable(s, question);
      var buffer := SerializeMessage(reply);
      bufferOut := Some(buffer[..]);
    }
  }

  /** `register_func`, given a domain and a token argument. */
  method RegisterFunc(m: DnsMap, domain: CString, argument: CString) returns (linked: bool)
    requires m.Valid() && m.Fits()
    modifies m.Repr()
    ensures m.Valid() && fresh(m.Repr() - old(m.Repr()))
    ensures m.Snapshot() == Do(old(m.Snapshot()), Register(domain, argument))
    ensures linked <==> domain !in old(m.Snapshot()).domainToToken
    ensures linked && |argument| >= 4 ==>
              && m.Snapshot().domainToToken == old(m.Snapshot()).domainToToken[domain := argument[..4]]
              && m.Snapshot().tokens == old(m.Snapshot()).tokens + {argument[..4]}
  {
    hide HashMap.Valid, HashMap.Map, Growth, EncodeDomain, HashMap.Fits;
    var token := if |argument| < TOKEN_SIZE then argument else argument[..TOKEN_SIZE];
    var currentToken := m.GetTokenFromDomain(domain);
    if currentToken != None {
      return false;
    }
    var _ := m.PutToken(domain, token, true);
    linked := true;
  }

  /** `process_client_connection`, given what was received and the address at that time. The result
      is the response sent, if one is. */
  method ProcessClientConnection(m: DnsMap, packet: seq<uint8>, ip: Ipv4) returns (response: Option<nat>)
    requires m.Valid() && m.Fits() && |packet| <= 4
    modifies m.Repr()
    ensures m.Valid() && fresh(m.Repr() - old(m.Repr()))
    ensures m.Snapshot() == Do(old(m.Snapshot()), Bind(packet, ip))
    ensures response == if |packet| != 4 then None else if CStr(packet) in old(m.Snapshot()).tokens then Some(0) else Some(1)
  {
    hide HashMap.Valid, HashMap.Map, Growth, DnsStates.PutIpv4, CStr, DnsMap.Separate, HashMap.Fits;
    if |packet| != TOKEN_SIZE {
      return None;
    }
    KeyIs(packet);
    assert packet[..TOKEN_SIZE] == packet;
    var receivedToken := packet + [0];
    var token := CStr(receivedToken);
    var has := m.HasToken(token);
    if !has {
      return Some(RESP_INVALID_TOKEN);
    }
    var _ := m.PutIpv4(token, ip, false);
    response := Some(RESP_OK);
  }

  /** A clean shutdown of a server in state s, and a new start from the same files. */
  method RestartServer(m: DnsMap, ghost s: State) returns (m': DnsMap)
    requires m.Valid() && m.Snapshot() == s && Roomy(Do(s, Restart))
    ensures m'.Valid() && fresh(m'.Repr()) && m'.Snapshot() == Do(s, Restart)
  {
    hide HashMap.Valid, HashMap.Map, Growth, Create, Roomy, DnsMap.Valid;
    var hDomain2Token := new File(m.hDomain2Token.data);
    var hToken2Ip := new File(m.hToken2Ip.data);
    m' := CreateDnsMap(hDomain2Token, hToken2Ip);
  }

  /** `list_func`: every link once. */
  method ListFunc(m: DnsMap) returns (links: Chain<CString, CString>, addresses: Chain<CString, Ipv4>)
    requires m.Valid()
    ensures DistinctKeys(links) && DistinctKeys(addresses)
    ensures forall d: CString, t: CString :: Entry(d, t) in links <==>
              d in m.Snapshot().domainToToken && m.Snapshot().domainToToken[d] == t
    ensures forall t: CString, ip: Ipv4 :: Entry(t, ip) in addresses <==>
              t in m.Snapshot().tokenToIp && m.Snapshot().tokenToIp[t] == ip
  {
    hide HashMap.Valid, HashMap.Map, Growth;
    links := ListEntries(m.domainToToken);
    addresses := ListEntries(m.tokenToIp);
  }

  // ---- Runs of the server ----

  /** The record answers the question with four bytes of address. */
  predicate AddressRecord(q: Question, rr: RR) {
    rr == RR(q.labels, q.qtype, q.qclass, 300, 4, rr.data) && |rr.data| == 4
  }

  lemma AddressIfAvailable(steps: seq<Step>, s: State, ls: seq<Label>)
    requires ls != [] && CountFits(ls) && After(steps, s)
    ensures HasAddress(s, ls) <==> Available(steps, KeyOf(ls))
  {
    hide KeyOf, Run, Available;
    AvailableIs(steps, KeyOf(ls));
  }

  /** Once a client has presented the token a domain was registered with, the name resolves. */
  lemma BoundDomainsResolve(steps: seq<Step>, s: State, ls: seq<Label>, packet: seq<uint8>, ip: Ipv4)
    requires ls != [] && CountFits(ls) && |packet| == 4
    requires Linked(steps, KeyOf(ls), PacketToken(packet))
    requires After(steps + [Bind(packet, ip)], s)
    ensures HasAddress(s, ls)
  {
    hide KeyOf, Run, PacketToken, Linked;
    RunOneMore(steps, Bind(packet, ip));
    LinkedIs(steps, KeyOf(ls), PacketToken(packet));
    KnownTokens(steps);
  }

  /** Bindings are not saved: after a restart, no name resolves until its token is presented again. */
  lemma RestartForgetsAddresses(steps: seq<Step>, s: State, ls: seq<Label>)
    requires After(steps + [Restart], s)
    ensures !HasAddress(s, ls)
    ensures s.domainToToken == Run(steps).domainToToken && s.tokens == Run(steps).tokens
  {
    hide KeyOf, Run;
    RunOneMore(steps, Restart);
    RunConsistent(steps);
    LinksFromLog(Run(steps).domainLog);
  }

  /** A name resolves exactly if the token it was first registered with has been presented since,
      and since the last restart. A query for names is answered exactly when this holds of them all;
      otherwise it gets a name error. */
  lemma AnsweredWhileBound(steps: seq<Step>, s: State, m: Message)
    requires After(steps, s) && CanBuild(m) && FineHeader(m.header.flags)
    requires forall i :: 0 <= i < |m.questions| ==> AsksForAddress(m.questions[i])
    ensures var code := ReplyTo(s, m).header.flags % 16;
            code == if forall i :: 0 <= i < |m.questions| ==> Available(steps, KeyOf(m.questions[i].labels)) then 0 else 3
  {
    hide KeyOf, After, Available, HasAddress, ReplyTo, FineHeader;
    RcodeDecided(s, m);
    forall i | 0 <= i < |m.questions|
      ensures Answered(s, m.questions[i]) <==> Available(steps, KeyOf(m.questions[i].labels))
    {
      AddressIfAvailable(steps, s, m.questions[i].labels);
    }
  }

  /** The same of the bytes that are sent back: parsed, they have the id and the questions of the
      query and either no error and an address for every name, or a name error and no record. */
  lemma AnsweredOnTheWire(steps: seq<Step>, s: State, b: seq<uint8>, m: Message)
    requires After(steps, s)
    requires Accepts(b) && Parse(b).0 == m && CanBuild(m) && FineHeader(m.header.flags)
    requires forall i :: 0 <= i < |m.questions| ==> AsksForAddress(m.questions[i])
    ensures var r := Parse(ReplyBytes(s, b).value).0;
            && r.header.id == m.header.id && r.questions == m.questions
            && if forall i :: 0 <= i < |m.questions| ==> Available(steps, KeyOf(m.questions[i].labels)) then
                 && r.header.flags % 16 == 0
                 && |r.answers| == |m.questions|
                 && forall i :: 0 <= i < |m.questions| ==> AddressRecord(m.questions[i], r.answers[i])
               else r.header.flags % 16 == 3 && r.answers == []
  {
    hide KeyOf, After, Available, HasAddress, ReplyTo, FineHeader, Parse, AddressOf;
    ReplyArrives(s, b);
    AnsweredWhileBound(steps, s, m);
    ReplyIs(s, m);
    forall i | 0 <= i < |m.questions|
      ensures Answered(s, m.questions[i]) <==> Available(steps, KeyOf(m.questions[i].labels))
    {
      AddressIfAvailable(steps, s, m.questions[i].labels);
    }
  }

  // ---- Running the server ----

  /** What the source asks of a datagram it receives in state s. */
  ghost predicate Servable(s: State, b: seq<uint8>) {
    |b| <= 512 && (Accepts(b) ==> CanBuild(Parse(b).0) && CanPrint(s, Parse(b).0))
  }

  /** ... and of what it receives at all. */
  ghost predicate Admissible(s: State, step: Step) {
    match step
    case Bind(packet, _) => |packet| <= 4
    case Query(datagram) => Servable(s, datagram)
    case _ => true
  }

  /** The bytes are the reply after the run, whatever the addresses. */
  ghost predicate RepliesAfter(steps: seq<Step>, b: seq<uint8>, out: Option<seq<uint8>>) {
    && (Accepts(b) ==> CanBuild(Parse(b).0))
    && exists s :: After(steps, s) && out == ReplyBytes(s, b)
  }

  lemma CanPrintAfter(steps: seq<Step>, s: State, m: Message)
    requires After(steps, s)
    ensures CanPrint(s, m) <==> CanPrint(Run(steps), m)
  {
    hide FineHeader, KeyOf, Run, Addressed;
    forall i | 0 <= i < |m.questions|
      ensures Addressed(s, m.questions[i]) <==> Addressed(Run(steps), m.questions[i])
    {
      AddressedAlike(s, Run(steps), m.questions[i]);
    }
  }

  lemma AddressedAlike(s: State, s': State, q: Question)
    requires SameButAddresses(s, s')
    ensures Addressed(s, q) <==> Addressed(s', q)
  {
    hide KeyOf;
  }

  method ServeDatagram(m: DnsMap, ghost steps: seq<Step>, b: seq<uint8>) returns (out: Option<seq<uint8>>)
    requires m.Valid() && After(steps, m.Snapshot()) && Servable(Run(steps), b)
    ensures RepliesAfter(steps, b, out)
  {
    hide DnsMap.Valid, DnsMap.Snapshot, After, Parse, ReplyTo, Encode, CanPrint, CanBuild, Run;
    ghost var s := m.Snapshot();
    if Accepts(b) {
      CanPrintAfter(steps, s, Parse(b).0);
      ReplyIsSmall(s, b);
    }
    out := HandleDatagram(b, m, s);
  }

  /** One step of one of the three threads. */
  method ServeStep(m: DnsMap, ghost steps: seq<Step>, step: Step) returns (m': DnsMap, out: Option<seq<uint8>>)
    requires m.Valid() && After(steps, m.Snapshot()) && |steps| + 1 < TOO_MANY
    requires Admissible(Run(steps), step)
    modifies m.Repr()
    ensures m'.Valid() && fresh(m'.Repr() - old(m.Repr())) && After(steps + [step], m'.Snapshot())
    ensures step.Query? ==> RepliesAfter(steps, step.datagram, out)
  {
    hide DnsMap.Valid, DnsMap.Snapshot, DnsMap.Fits, After, Servable, RepliesAfter, Do, Run, Roomy;
    ghost var s := m.Snapshot();
    AfterOneMore(steps, s, step);
    AfterShortRun(steps, s);
    AfterShortRun(steps + [step], Do(s, step));
    m.RoomyFits();
    m', out := m, None;
    match step
    case Register(domain, argument) =>
      var _ := RegisterFunc(m, domain, argument);
    case Bind(packet, ip) =>
      var _ := ProcessClientConnection(m, packet, ip);
    case Query(datagram) =>
      out := ServeDatagram(m, steps, datagram);
      QueryChangesNothing(s, datagram);
    case Restart =>
      m' := RestartServer(m, s);
  }

  lemma QueryChangesNothing(s: State, datagram: seq<uint8>)
    ensures Do(s, Query(datagram)) == s
  {
  }

  lemma AfterNothing()
    ensures After([], Create([], [])) && Roomy(Create([], []))
  {
    EmptyLogs();
  }

  /** Every step can be served at its point of the run. */
  ghost predicate AllAdmissible(steps: seq<Step>) {
    forall i :: 0 <= i < |steps| ==> Admissible(Run(steps[..i]), steps[i])
  }

  /** Every datagram so far got the reply due at its point of the run. */
  ghost predicate AllReplied(steps: seq<Step>, outs: seq<Option<seq<uint8>>>) {
    && |outs| <= |steps|
    && forall i :: 0 <= i < |outs| && steps[i].Query? ==> RepliesAfter(steps[..i], steps[i].datagram, outs[i])
  }

  lemma NextStep(steps: seq<Step>, i: nat)
    requires AllAdmissible(steps) && i < |steps|
    ensures Admissible(Run(steps[..i]), steps[i]) && steps[..i] + [steps[i]] == steps[..i + 1]
  {
    hide Admissible, Run;
  }

  lemma OneMoreReply(steps: seq<Step>, outs: seq<Option<seq<uint8>>>, out: Option<seq<uint8>>)
    requires AllReplied(steps, outs) && |outs| < |steps|
    requires steps[|outs|].Query? ==> RepliesAfter(steps[..|outs|], steps[|outs|].datagram, out)
    ensures AllReplied(steps, outs + [out])
  {
    hide RepliesAfter;
  }

  /** A new server on empty files. */
  method StartServer() returns (m: DnsMap)
    ensures m.Valid() && fresh(m.Repr()) && After([], m.Snapshot())
  {
    hide DnsMap.Valid, DnsMap.Snapshot, After, Create, Run, Roomy;
    var hDomain2Token := new File([]);
    var hToken2Ip := new File([]);
    AfterNothing();
    m := CreateDnsMap(hDomain2Token, hToken2Ip);
  }

  /** A whole run, from empty files: after every step the map holds what the run says, and every
      datagram gets the reply that is due at its point of the run. Tables stay within the range of
      a C int for as long as there are fewer than TOO_MANY steps. */
  method Serve(steps: seq<Step>) returns (m: DnsMap, outs: seq<Option<seq<uint8>>>)
    requires |steps| < TOO_MANY && AllAdmissible(steps)
    ensures m.Valid() && fresh(m.Repr()) && After(steps, m.Snapshot())
    ensures |outs| == |steps| && AllReplied(steps, outs)
  {
    hide DnsMap.Valid, DnsMap.Snapshot, After, Admissible, RepliesAfter, AllAdmissible, AllReplied, Run;
    m := StartServer();
    NoReplies(steps);
    outs := [];
    ghost var repr := m.Repr();
    var i := 0;
    while i < |steps|
      invariant 0 <= i <= |steps| && |outs| == i && AllReplied(steps, outs)
      invariant m.Valid() && m.Repr() == repr && fresh(repr) && After(steps[..i], m.Snapshot())
    {
      NextStep(steps, i);
      var out;
      m, out := ServeStep(m, steps[..i], steps[i]);
      assert fresh(m.Repr() - repr);
      repr := m.Repr();
      OneMoreReply(steps, outs, out);
      outs := outs + [out];
      i := i + 1;
    }
    assert steps[..i] == steps;
  }

  lemma NoReplies(steps: seq<Step>)
    ensures AllReplied(steps, []) && steps[..0] == []
  {
  }
}
