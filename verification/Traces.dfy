/** What a run amounts to, told from its steps alone: which domains are linked to which tokens, and
    which tokens are bound. */
module Traces {
  import opened Bytes
  import opened DnsStates
  import opened Tables

  predicate Registered(steps: seq<Step>, domain: CString) {
    exists i :: 0 <= i < |steps| && Registers(steps[i], domain)
  }

  /** Step i is the first one to register the domain. */
  predicate RegistersFirst(steps: seq<Step>, i: nat, domain: CString) {
    i < |steps| && Registers(steps[i], domain) && !Registered(steps[..i], domain)
  }

  /** The token is the one that came with the first registration of the domain. */
  ghost predicate Linked(steps: seq<Step>, domain: CString, token: CString) {
    exists i: nat :: RegistersFirst(steps, i, domain) && ArgumentToken(steps[i].argument) == token
  }

  /** Some domain is linked to the token. */
  ghost predicate Issued(steps: seq<Step>, token: CString) {
    exists domain :: Linked(steps, domain, token)
  }

  /** A client presents the token. */
  predicate Presents(step: Step, token: CString) {
    step.Bind? && |step.packet| == TOKEN_SIZE && PacketToken(step.packet) == token
  }

  /** Step i presents the token when it has been issued, and no restart comes after it. */
  ghost predicate Binds(steps: seq<Step>, i: nat, token: CString) {
    && i < |steps| && Presents(steps[i], token) && Issued(steps[..i], token)
    && forall j :: i < j < |steps| ==> !steps[j].Restart?
  }

  ghost predicate Bound(steps: seq<Step>, token: CString) {
    exists i: nat :: Binds(steps, i, token)
  }

  /** The domain is linked to a token that is bound. */
  ghost predicate Available(steps: seq<Step>, domain: CString) {
    exists token :: Linked(steps, domain, token) && Bound(steps, token)
  }

  // ---- Links ----

  lemma RegisteredStep(steps: seq<Step>, domain: CString)
    requires steps != []
    ensures var n := |steps| - 1;
            Registered(steps, domain) <==> Registered(steps[..n], domain) || Registers(steps[n], domain)
  {
    var n := |steps| - 1;
    if Registered(steps[..n], domain) {
      var i :| 0 <= i < n && Registers(steps[..n][i], domain);
      assert Registers(steps[i], domain);
    }
    if Registered(steps, domain) {
      var i :| 0 <= i < |steps| && Registers(steps[i], domain);
      assert i < n ==> Registers(steps[..n][i], domain);
    }
  }

  lemma LinkedStep(steps: seq<Step>, domain: CString, token: CString)
    requires steps != []
    ensures var n := |steps| - 1;
            Linked(steps, domain, token) <==>
            || Linked(steps[..n], domain, token)
            || (RegistersFirst(steps, n, domain) && ArgumentToken(steps[n].argument) == token)
  {
    var n := |steps| - 1;
    forall i: nat | i < n
      ensures RegistersFirst(steps[..n], i, domain) <==> RegistersFirst(steps, i, domain)
      ensures steps[..n][i] == steps[i]
    {
      assert steps[..n][..i] == steps[..i];
    }
    if Linked(steps, domain, token) {
      var i: nat :| RegistersFirst(steps, i, domain) && ArgumentToken(steps[i].argument) == token;
      assert i < n ==> RegistersFirst(steps[..n], i, domain);
    }
    if Linked(steps[..n], domain, token) {
      var i: nat :| RegistersFirst(steps[..n], i, domain) && ArgumentToken(steps[..n][i].argument) == token;
      assert RegistersFirst(steps, i, domain);
    }
  }

  /** A domain is registered exactly when some step registers it. */
  lemma {:induction false} RegisteredIs(steps: seq<Step>, domain: CString)
    ensures domain in Run(steps).domainToToken <==> Registered(steps, domain)
  {
    hide Do, Consistent;
    if steps == [] {
      EmptyLogs();
    } else {
      var n := |steps| - 1;
      RegisteredIs(steps[..n], domain);
      RunConsistent(steps[..n]);
      DoLinks(Run(steps[..n]), steps[n], domain);
      RegisteredStep(steps, domain);
    }
  }

  /** Its token is the one it was registered with first. */
  lemma {:induction false} LinkedIs(steps: seq<Step>, domain: CString, token: CString)
    ensures Linked(steps, domain, token) <==>
            domain in Run(steps).domainToToken && Run(steps).domainToToken[domain] == token
  {
    hide Do, Consistent, Registered, ArgumentToken;
    if steps == [] {
      EmptyLogs();
    } else {
      hide Linked;
      var n := |steps| - 1;
      LinkedIs(steps[..n], domain, token);
      LinkedStep(steps, domain, token);
      RegisteredIs(steps[..n], domain);
      RunConsistent(steps[..n]);
      DoLinks(Run(steps[..n]), steps[n], domain);
    }
  }

  // ---- Bindings ----

  /** A token is known exactly when some domain is linked to it. */
  lemma IssuedIs(steps: seq<Step>, token: CString)
    ensures token in Run(steps).tokens <==> Issued(steps, token)
  {
    hide Run, Linked;
    KnownTokens(steps);
    if token in Run(steps).tokens {
      var domain :| domain in Run(steps).domainToToken && Run(steps).domainToToken[domain] == token;
      LinkedIs(steps, domain, token);
    }
    if Issued(steps, token) {
      var domain :| Linked(steps, domain, token);
      LinkedIs(steps, domain, token);
    }
  }

  lemma DoBinds(s: State, step: Step, token: CString)
    requires Consistent(s)
    ensures token in Do(s, step).tokenToIp <==>
            !step.Restart? && (token in s.tokenToIp || (Presents(step, token) && token in s.tokens))
  {
    if step.Restart? {
      RestartKeepsLinks(s);
    }
  }

  lemma BoundStep(steps: seq<Step>, token: CString)
    requires steps != []
    ensures var n := |steps| - 1;
            Bound(steps, token) <==>
            !steps[n].Restart? && (Bound(steps[..n], token) || (Presents(steps[n], token) && Issued(steps[..n], token)))
  {
    hide Issued;
    var n := |steps| - 1;
    forall i: nat | i < n && !steps[n].Restart?
      ensures Binds(steps[..n], i, token) <==> Binds(steps, i, token)
    {
      assert steps[..n][..i] == steps[..i];
      assert forall j :: i < j < n ==> steps[..n][j] == steps[j];
    }
    if Bound(steps, token) {
      var i: nat :| Binds(steps, i, token);
      assert i < n ==> Binds(steps[..n], i, token);
    }
    if !steps[n].Restart? {
      if Bound(steps[..n], token) {
        var i: nat :| Binds(steps[..n], i, token);
        assert Binds(steps, i, token);
      }
      if Presents(steps[n], token) && Issued(steps[..n], token) {
        assert Binds(steps, n, token);
      }
    }
  }

  /** A token has an address exactly when it was presented after it had been issued and since the
      last restart. */
  lemma {:induction false} BoundIs(steps: seq<Step>, token: CString)
    ensures token in Run(steps).tokenToIp <==> Bound(steps, token)
  {
    hide Do, Consistent, Issued, Presents;
    if steps == [] {
      EmptyLogs();
    } else {
      hide Bound;
      var n := |steps| - 1;
      BoundIs(steps[..n], token);
      BoundStep(steps, token);
      IssuedIs(steps[..n], token);
      RunConsistent(steps[..n]);
      DoBinds(Run(steps[..n]), steps[n], token);
    }
  }

  /** A domain has an address exactly when the token of its first registration is bound. */
  lemma AvailableIs(steps: seq<Step>, domain: CString)
    ensures Available(steps, domain) <==>
            domain in Run(steps).domainToToken && Run(steps).domainToToken[domain] in Run(steps).tokenToIp
  {
    hide Run, Linked, Bound;
    if Available(steps, domain) {
      var token :| Linked(steps, domain, token) && Bound(steps, token);
      LinkedIs(steps, domain, token);
      BoundIs(steps, token);
    }
    if domain in Run(steps).domainToToken {
      LinkedIs(steps, domain, Run(steps).domainToToken[domain]);
      BoundIs(steps, Run(steps).domainToToken[domain]);
    }
  }

  // ---- Whatever the addresses ----

  /** The states differ in addresses at most. */
  predicate SameButAddresses(s: State, s': State) {
    && s.domainToToken == s'.domainToToken && s.tokenToIp.Keys == s'.tokenToIp.Keys && s.tokens == s'.tokens
    && s.domainLog == s'.domainLog && s.ipLog == s'.ipLog
  }

  /** What the map may hold after a run. The binding thread stores a pointer to a local variable of
      its accept loop, which later connections overwrite: the addresses may be any. */
  ghost predicate After(steps: seq<Step>, s: State) {
    SameButAddresses(s, Run(steps))
  }

  lemma DoSameButAddresses(s: State, s': State, step: Step)
    requires SameButAddresses(s, s')
    ensures SameButAddresses(Do(s, step), Do(s', step))
  {
    hide Create;
    if step.Bind? {
      var token := PacketToken(step.packet);
      assert PutIpv4(s, token, step.ip, false).tokenToIp.Keys == s.tokenToIp.Keys + {token};
      assert PutIpv4(s', token, step.ip, false).tokenToIp.Keys == s'.tokenToIp.Keys + {token};
    }
  }

  /** Addresses have no influence on anything else. */
  lemma AfterOneMore(steps: seq<Step>, s: State, step: Step)
    requires After(steps, s)
    ensures After(steps + [step], Do(s, step))
  {
    hide SameButAddresses, Do, Run;
    RunOneMore(steps, step);
    DoSameButAddresses(s, Run(steps), step);
  }

  lemma AfterShortRun(steps: seq<Step>, s: State)
    requires After(steps, s) && |steps| < TOO_MANY
    ensures Roomy(s)
  {
    ShortRunRoomy(steps);
    assert |s.tokenToIp| == |s.tokenToIp.Keys| == |Run(steps).tokenToIp.Keys|;
  }
}
