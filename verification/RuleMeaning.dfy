/** The load-balancing rules that the program writes, field by field. */
module RuleMeaning {
  import opened Basics
  import opened Decimals
  import opened PortMaps
  import opened LoadBalancingRules
  import opened RuleResults

  /** Everything that the program sets besides name, protocol and ports. */
  predicate Forwards(r: Rule, frontendID: Option<string>, backendID: Option<string>, probeID: Option<string>) {
    && r.settings.frontendID == Some(frontendID.GetOr(""))
    && r.settings.backendID == Some(backendID.GetOr(""))
    && r.settings.probeID == probeID
    && r.settings.loadDistribution == "SourceIPProtocol"
    && r.settings.idleTimeout == Some(4)
    && r.settings.floatingIP == Some(false)
    && r.settings.disableSnat == Some(false)
    && r.extra == ""
  }

  predicate ForTCP(r: Rule, port: Port) {
    && r.name == Some("tcp-" + Itoa(port)) && r.protocol == "Tcp"
    && r.frontendPort == Some(port) && r.settings.backendPort == Some(port)
  }

  predicate ForUDP(r: Rule, port: Port) {
    && r.name == Some("udp-" + Itoa(port)) && r.protocol == "Udp"
    && r.frontendPort == Some(port) && r.settings.backendPort == Some(port)
  }

  /** The key is read as the port: equal to it, or equal to it up to the high bits that a 32-bit number loses. */
  predicate ReadAs(key: string, port: Port) {
    Atoi(key).Some? && (Atoi(key).value - port) % 0x1_0000_0000 == 0
  }

  lemma RuleForIs(c: Config, p: Proto, port: Port)
    requires Configured(c)
    ensures Forwards(RuleFor(c, p, port), c.frontends[0], c.backends[0], c.probes[0].id)
    ensures if p == Tcp then ForTCP(RuleFor(c, p, port), port) else ForUDP(RuleFor(c, p, port), port)
  {
    RuleNameIs(port, p);
  }

  lemma {:induction false} NewRuleIs(c: Config, p: Proto, order: seq<string>, r: Rule) returns (key: string, port: Port)
    requires Configured(c) && r in NewRules(c, p, order)
    ensures key in order && ReadAs(key, port)
    ensures Forwards(r, c.frontends[0], c.backends[0], c.probes[0].id)
    ensures if p == Tcp then ForTCP(r, port) else ForUDP(r, port)
  {
    var init, last := order[..|order| - 1], order[|order| - 1];
    if r in NewRules(c, p, init) {
      key, port := NewRuleIs(c, p, init, r);
    } else {
      key, port := last, Int32(Atoi(last).value);
      RuleForIs(c, p, port);
      hide NewRules, RuleFor, Atoi, Forwards, ForTCP, ForUDP;
    }
  }

  /** Every rule that a run adds behind the remaining ones forwards the first frontend to the first backend pool, with the
      first probe, for a wanted key of its protocol. */
  lemma AddedRulesAre(
      c: Config, rules: seq<Rule>, ports: Ports, rules': seq<Rule>, tcps: seq<string>, udps: seq<string>, i: nat)
      returns (key: string, port: Port)
    requires Configured(c) && MadeUp(c, rules, ports, rules', tcps, udps)
    requires |RemainConstant(rules, ports).rules| <= i < |rules'|
    ensures Forwards(rules'[i], c.frontends[0], c.backends[0], c.probes[0].id) && ReadAs(key, port)
    ensures (key in ports.tcp && ForTCP(rules'[i], port)) || (key in ports.udp && ForUDP(rules'[i], port))
  {
    var s := RemainConstant(rules, ports);
    LeftIsWanted(rules, ports);
    var newT, newU := NewRules(c, Tcp, tcps), NewRules(c, Udp, udps);
    hide RemainConstant, NewRules, Forwards, ForTCP, ForUDP, ReadAs, Configured;
    if i < |s.rules| + |newT| {
      assert rules'[i] == newT[i - |s.rules|];
      key, port := NewRuleIs(c, Tcp, tcps, rules'[i]);
      assert key in Elements(tcps);
    } else {
      assert rules'[i] == newU[i - |s.rules| - |newT|];
      key, port := NewRuleIs(c, Udp, udps, rules'[i]);
      assert key in Elements(udps);
    }
  }

  /** Old TCP rules for 80 and 443 stay. */
  lemma OldDefaultsStay(rules: seq<Rule>, ports: Ports, r: Rule)
    requires r in rules && r.protocol == "Tcp" && (r.frontendPort == Some(80) || r.frontendPort == Some(443))
    ensures r in RemainConstant(rules, ports).rules
  {
    ProtectedStay(rules, ports, IsDefaultRule);
    assert r in Filter(rules, IsDefaultRule);
  }

  /** Rules of other protocols stay. */
  lemma OthersStay(rules: seq<Rule>, ports: Ports, r: Rule)
    requires r in rules && r.protocol != "Tcp" && r.protocol != "Udp"
    ensures r in RemainConstant(rules, ports).rules
  {
    ProtectedStay(rules, ports, OtherProtocol);
    assert r in Filter(rules, OtherProtocol);
  }

  /** Every other old rule that remains carries its name and serves a wanted key. */
  lemma RemainingAreNamed(rules: seq<Rule>, ports: Ports, r: Rule)
    requires r in RemainConstant(rules, ports).rules
    requires r.protocol == "Tcp" || r.protocol == "Udp"
    requires r.protocol == "Tcp" ==> r.frontendPort != Some(80) && r.frontendPort != Some(443)
    ensures r in rules
    ensures var text := Itoa(r.frontendPort.GetOr(0));
      if r.protocol == "Tcp" then r.name == Some("tcp-" + text) && text in ports.tcp
      else r.name == Some("udp-" + text) && text in ports.udp
  {
    KeptAreOld(rules, ports, r);
    KeptAreWanted(rules, ports, r);
    RuleNameIs(PortOf(r), RuleProto(r).value);
  }

  /** Patching keeps the rules as they are and adds only defaults, behind them. */
  lemma {:induction false} PatchAdds(rules: seq<Rule>, defaults: seq<Rule>)
    ensures rules <= Patch(rules, defaults)
    ensures forall r :: r in Patch(rules, defaults)[|rules|..] ==> r in defaults
  {
    if defaults != [] {
      var init, last := defaults[..|defaults| - 1], defaults[|defaults| - 1];
      PatchAdds(rules, init);
      assert defaults == init + [last];
    }
  }

  /** One default rule per probe, in order, between the given frontend and backend pool. */
  lemma ProbeRulesAre(frontendID: Option<string>, backendID: Option<string>, probes: seq<Probe>, i: nat)
    requires i < |probes|
    ensures var rules := Probes2Rules(frontendID, backendID, probes);
      && |rules| == |probes|
      && Forwards(rules[i], frontendID, backendID, probes[i].id)
      && rules[i].protocol == "Tcp"
      && rules[i].frontendPort == probes[i].port && rules[i].settings.backendPort == probes[i].port
      && (probes[i].port.Some? ==> ForTCP(rules[i], probes[i].port.value))
  {
    RuleNameIs(probes[i].port.GetOr(0), Tcp);
  }

  /** A rule equals a default exactly when they agree in every field that the program sets. */
  lemma EqualRuleIs(x: Rule, d: Rule)
    requires d.extra == ""
    ensures EqualRule(x, d) <==>
      && x.name == d.name && x.protocol == d.protocol && x.frontendPort == d.frontendPort
      && x.settings.backendPort == d.settings.backendPort
      && x.settings.frontendID == d.settings.frontendID && x.settings.backendID == d.settings.backendID
      && x.settings.probeID == d.settings.probeID && x.settings.loadDistribution == d.settings.loadDistribution
      && x.settings.idleTimeout == d.settings.idleTimeout && x.settings.floatingIP == d.settings.floatingIP
      && x.settings.disableSnat == d.settings.disableSnat
  {
  }

  /** After patching the defaults of the probes, every probe's port is forwarded as promised. */
  lemma PatchForwardsProbes(
      frontendID: Option<string>, backendID: Option<string>, probes: seq<Probe>, rules: seq<Rule>, i: nat) returns (r: Rule)
    requires i < |probes| && probes[i].port.Some?
    ensures r in Patch(rules, Probes2Rules(frontendID, backendID, probes))
    ensures ForTCP(r, probes[i].port.value) && Forwards(r.(extra := ""), frontendID, backendID, probes[i].id)
  {
    var defaults := Probes2Rules(frontendID, backendID, probes);
    forall d | d in defaults ensures EqualRule(d, d) {
      var j :| 0 <= j < |defaults| && defaults[j] == d;
    }
    PatchCovers(rules, defaults);
    ProbeRulesAre(frontendID, backendID, probes, i);
    assert defaults[i] in defaults && Covered(Patch(rules, defaults), defaults[i]);
    r :| r in Patch(rules, defaults) && EqualRule(r, defaults[i]);
  }
}
