/** The load-balancing rules of the Azure load balancer: user rules per exported port and protected defaults. */
module LoadBalancingRules {
  import opened Basics
  import opened AsciiText
  import opened Decimals
  import opened PortMaps

  type Port = i: int | -0x8000_0000 <= i < 0x8000_0000

  /** The settings of a rule besides its name, protocol and frontend port. */
  datatype Settings = Settings(
    frontendID: Option<string>, backendID: Option<string>, probeID: Option<string>, loadDistribution: string,
    backendPort: Option<Port>, idleTimeout: Option<int>, floatingIP: Option<bool>, disableSnat: Option<bool>)

  /** `extra` stands for the fields that only the service fills in; it is empty in rules the program creates. */
  datatype Rule = Rule(
    name: Option<string>, protocol: string, frontendPort: Option<Port>, settings: Settings, extra: string)

  datatype Probe = Probe(id: Option<string>, port: Option<Port>)

  /** What new rules refer to: the load balancer's probes and the IDs of its frontends and backend pools. */
  datatype Config = Config(probes: seq<Probe>, frontends: seq<Option<string>>, backends: seq<Option<string>>)

  function PortOf(r: Rule): Port { r.frontendPort.GetOr(0) }

  function RuleProto(r: Rule): Option<Proto> {
    if r.protocol == ProtocolText(Tcp) then Some(Tcp)
    else if r.protocol == ProtocolText(Udp) then Some(Udp)
    else None
  }

  function GetRuleName(port: Port, protocol: string): string {
    Lower(protocol + "-" + Itoa(port))
  }

  predicate Named(r: Rule) {
    r.name.GetOr("") == GetRuleName(PortOf(r), r.protocol)
  }

  predicate IsDefaultPort(p: Proto, port: Port) {
    p == Tcp && (port == 80 || port == 443)
  }

  predicate IsDefaultRule(r: Rule) {
    r.protocol == ProtocolText(Tcp) && (PortOf(r) == 80 || PortOf(r) == 443)
  }

  // ---- Names ----

  lemma {:induction false} LowerDigits(n: nat)
    ensures Lower(FormatNat(n)) == FormatNat(n)
  {
    if n >= 10 {
      LowerDigits(n / 10);
    }
  }

  lemma LowerConcat(a: string, b: string)
    ensures Lower(a + b) == Lower(a) + Lower(b)
  {
  }

  lemma LowerItoa(i: int)
    ensures Lower(Itoa(i)) == Itoa(i)
  {
    LowerDigits(if i < 0 then -i else i);
    if i < 0 {
      LowerConcat("-", FormatNat(-i));
    }
  }

  function NamePrefix(p: Proto): string {
    match p
    case Tcp => "tcp-"
    case Udp => "udp-"
  }

  lemma RuleNameIs(port: Port, p: Proto)
    ensures GetRuleName(port, ProtocolText(p)) == NamePrefix(p) + Itoa(port)
  {
    LowerItoa(port);
    LowerConcat(ProtocolText(p) + "-", Itoa(port));
    assert Lower(ProtocolText(p) + "-") == NamePrefix(p);
  }

  /** Different protocols or ports give different names. */
  lemma RuleNameInjective(p: Proto, a: Port, q: Proto, b: Port)
    requires GetRuleName(a, ProtocolText(p)) == GetRuleName(b, ProtocolText(q))
    ensures p == q && a == b
  {
    RuleNameIs(a, p);
    RuleNameIs(b, q);
    var s := NamePrefix(p) + Itoa(a);
    assert s[0] == NamePrefix(p)[0] == NamePrefix(q)[0];
    assert s[4..] == Itoa(a) && (NamePrefix(q) + Itoa(b))[4..] == Itoa(b);
    ItoaInjective(a, b);
  }

  // ---- Keeping old rules ----

  datatype Remain = Remain(rules: seq<Rule>, diff: bool, ports: Ports)

  /** A rule of another protocol stays; a properly named rule of a wanted port stays and takes the port; a TCP rule
      for 80 or 443 stays; every other rule goes. */
  function RemainStep(s: Remain, r: Rule): Remain {
    match RuleProto(r)
    case None => s.(rules := s.rules + [r])
    case Some(p) =>
      if Itoa(PortOf(r)) in Of(s.ports, p) && Named(r) then
        s.(rules := s.rules + [r], ports := Without(s.ports, p, Itoa(PortOf(r))))
      else if IsDefaultRule(r) then s.(rules := s.rules + [r])
      else s.(diff := true)
  }

  function RemainConstant(rules: seq<Rule>, ports: Ports): Remain {
    if rules == [] then Remain([], false, ports)
    else RemainStep(RemainConstant(rules[..|rules| - 1], ports), rules[|rules| - 1])
  }

  method RemainConstantRules(oldRules: seq<Rule>, ports: Ports) returns (newRules: seq<Rule>, diff: bool, left: Ports)
    ensures Remain(newRules, diff, left) == RemainConstant(oldRules, ports)
  {
    newRules, diff, left := [], false, ports;
    for i := 0 to |oldRules|
      invariant Remain(newRules, diff, left) == RemainConstant(oldRules[..i], ports)
    {
      assert oldRules[..i + 1][..i] == oldRules[..i];
      var rule := oldRules[i];
      var port := rule.frontendPort.GetOr(0);
      var portKey := Itoa(port);
      var p: Proto;
      if rule.protocol == "Tcp" {
        p := Tcp;
      } else if rule.protocol == "Udp" {
        p := Udp;
      } else {
        newRules := newRules + [rule];
        continue;
      }
      if portKey in Of(left, p) {
        if rule.name.GetOr("") == GetRuleName(port, rule.protocol) {
          left := Without(left, p, portKey);
          newRules := newRules + [rule];
          continue;
        }
      }
      if rule.protocol == "Tcp" && (port == 80 || port == 443) {
        newRules := newRules + [rule];
        continue;
      }
      diff := true;
    }
    assert oldRules[..|oldRules|] == oldRules;
  }

  // ---- New rules ----

  predicate Configured(c: Config) {
    c.probes != [] && c.frontends != [] && c.backends != []
  }

  function SettingsFor(frontendID: Option<string>, backendID: Option<string>, probeID: Option<string>, port: Option<Port>): Settings {
    Settings(Some(frontendID.GetOr("")), Some(backendID.GetOr("")), probeID, "SourceIPProtocol", port, Some(4),
             Some(false), Some(false))
  }

  function RuleFor(c: Config, p: Proto, port: Port): Rule
    requires Configured(c)
  {
    Rule(Some(GetRuleName(port, ProtocolText(p))), ProtocolText(p), Some(port),
         SettingsFor(c.frontends[0], c.backends[0], c.probes[0].id, Some(port)), "")
  }

  function NewRuleWithConfig(c: Config, key: string, p: Proto): Option<Rule> {
    if !Configured(c) then None
    else match Atoi(key)
      case None => None
      case Some(port) => Some(RuleFor(c, p, Int32(port)))
  }

  /** The new rules for the keys of one map, in the order in which the map is walked; bad keys are skipped. */
  function NewRules(c: Config, p: Proto, keys: seq<string>): seq<Rule> {
    if keys == [] then []
    else
      NewRules(c, p, keys[..|keys| - 1]) +
      match NewRuleWithConfig(c, keys[|keys| - 1], p)
      case Some(r) => [r]
      case None => []
  }

  method AddNewRules(c: Config, p: Proto, keys: set<string>) returns (added: seq<Rule>, ghost order: seq<string>)
    ensures Distinct(order) && Elements(order) == keys && added == NewRules(c, p, order)
    ensures forall r :: r in added <==> exists key :: key in keys && NewRuleWithConfig(c, key, p) == Some(r)
  {
    added, order := [], [];
    var rest := keys;
    while rest != {}
      invariant rest <= keys && Distinct(order) && Elements(order) == keys - rest
      invariant added == NewRules(c, p, order)
      decreases rest
    {
      var key := AnyOf(rest);
      assert key !in Elements(order);
      DistinctAppend(order, key);
      assert (order + [key])[..|order|] == order;
      order, rest := order + [key], rest - {key};
      var rule := NewRuleWithConfig(c, key, p);
      if rule.None? {
        continue;
      }
      added := added + [rule.value];
    }
    forall r ensures r in added <==> exists key :: key in keys && NewRuleWithConfig(c, key, p) == Some(r) {
      NewRulesMember(c, p, order, r);
      assert forall key :: key in order <==> key in Elements(order);
    }
  }

  lemma {:induction false} NewRulesMember(c: Config, p: Proto, order: seq<string>, r: Rule)
    ensures r in NewRules(c, p, order) <==> exists key :: key in order && NewRuleWithConfig(c, key, p) == Some(r)
  {
    if order != [] {
      var init, key := order[..|order| - 1], order[|order| - 1];
      NewRulesMember(c, p, init, r);
      assert forall k :: k in order <==> k in init || k == key;
    }
  }

  class AzureLoadBalancer {
    const config: Config
    var rules: seq<Rule>

    constructor (config: Config, rules: seq<Rule>)
      ensures this.config == config && this.rules == rules
    {
      this.config, this.rules := config, rules;
    }

    /** Brings the rules in line with the port maps; tells whether they had to change. */
    method MakeUpRules(ports: Ports) returns (diff: bool, ghost tcps: seq<string>, ghost udps: seq<string>)
      modifies this
      ensures MadeUp(config, old(rules), ports, rules, tcps, udps)
      ensures diff <==> Differs(old(rules), ports)
      ensures !diff ==> rules == old(rules)
    {
      var newRules, d, left := RemainConstantRules(rules, ports);
      diff := d;
      if |left.tcp| != 0 || |left.udp| != 0 {
        diff := true;
      }
      var addedT, addedU;
      addedT, tcps := AddNewRules(config, Tcp, left.tcp);
      addedU, udps := AddNewRules(config, Udp, left.udp);
      newRules := newRules + addedT + addedU;
      NoDiffKeepsRules(rules, ports);
      DistinctSize(tcps);
      DistinctSize(udps);
      if diff {
        rules := newRules;
      }
    }

    /** Adds the default rules that no present rule equals. */
    method PatchDefaultRules(defaults: seq<Rule>) returns (change: bool)
      modifies this
      ensures rules == Patch(old(rules), defaults)
      ensures change <==> rules != old(rules)
    {
      change := false;
      for i := 0 to |defaults|
        invariant rules == Patch(old(rules), defaults[..i])
        invariant |rules| >= |old(rules)| && (change <==> |rules| > |old(rules)|)
        invariant !change ==> rules == old(rules)
      {
        assert defaults[..i + 1][..i] == defaults[..i];
        var exist := false;
        for j := 0 to |rules|
          invariant !exist && forall r :: r in rules[..j] ==> !EqualRule(r, defaults[i])
        {
          if EqualRule(rules[j], defaults[i]) {
            exist := true;
            break;
          }
        }
        assert !exist ==> rules[..|rules|] == rules;
        assert exist <==> exists r :: r in rules && EqualRule(r, defaults[i]);
        if !exist {
          rules, change := rules + [defaults[i]], true;
        }
      }
      assert defaults[..|defaults|] == defaults;
    }
  }

  /** The outcome of one run, for the orders in which the leftover ports were visited. */
  ghost predicate MadeUp(
      c: Config, rules: seq<Rule>, ports: Ports, rules': seq<Rule>, tcps: seq<string>, udps: seq<string>)
  {
    var s := RemainConstant(rules, ports);
    && Distinct(tcps) && Elements(tcps) == s.ports.tcp
    && Distinct(udps) && Elements(udps) == s.ports.udp
    && rules' == s.rules + NewRules(c, Tcp, tcps) + NewRules(c, Udp, udps)
  }

  predicate Differs(rules: seq<Rule>, ports: Ports) {
    var s := RemainConstant(rules, ports);
    s.diff || s.ports.tcp != {} || s.ports.udp != {}
  }

  lemma NoDiffStep(s: Remain, r: Rule)
    ensures !RemainStep(s, r).diff ==> !s.diff && RemainStep(s, r).rules == s.rules + [r]
  {
  }

  lemma {:induction false} NoDiffKeepsRules(rules: seq<Rule>, ports: Ports)
    ensures !RemainConstant(rules, ports).diff ==> RemainConstant(rules, ports).rules == rules
  {
    if rules != [] {
      hide RemainStep;
      var init, r := rules[..|rules| - 1], rules[|rules| - 1];
      assert rules == init + [r];
      NoDiffKeepsRules(init, ports);
      NoDiffStep(RemainConstant(init, ports), r);
    }
  }

  /** Equal in everything that the program sets. */
  predicate EqualRule(x: Rule, brief: Rule) {
    x.(extra := "") == brief
  }

  function Patch(rules: seq<Rule>, defaults: seq<Rule>): seq<Rule> {
    if defaults == [] then rules
    else
      var before := Patch(rules, defaults[..|defaults| - 1]);
      if exists r :: r in before && EqualRule(r, defaults[|defaults| - 1]) then before
      else before + [defaults[|defaults| - 1]]
  }

  function ProbeRule(frontendID: Option<string>, backendID: Option<string>, probe: Probe): Rule {
    Rule(Some(GetRuleName(probe.port.GetOr(0), ProtocolText(Tcp))), ProtocolText(Tcp), probe.port,
         SettingsFor(frontendID, backendID, probe.id, probe.port), "")
  }

  /** `azureLBProbes2Rules`: one default TCP rule per probe. */
  function Probes2Rules(frontendID: Option<string>, backendID: Option<string>, probes: seq<Probe>): seq<Rule> {
    seq(|probes|, i requires 0 <= i < |probes| => ProbeRule(frontendID, backendID, probes[i]))
  }
}
