/** The managed rules of a security group, field by field. */
module SecurityMeaning {
  import opened Basics
  import opened PortMaps
  import opened SecurityRules
  import opened SecurityResults

  /** Everything that the program sets in a rule for a TCP port. */
  predicate OpensTCP(r: SecurityRule, port: string) {
    && r.name == Some("cps-lb-tcp-" + port)
    && r.protocol == "Tcp"
    && r.destinationPortRange == Some(port)
    && OpensToAll(r)
  }

  /** Everything that the program sets in a rule for a UDP port. */
  predicate OpensUDP(r: SecurityRule, port: string) {
    && r.name == Some("cps-lb-udp-" + port)
    && r.protocol == "Udp"
    && r.destinationPortRange == Some(port)
    && OpensToAll(r)
  }

  predicate OpensToAll(r: SecurityRule) {
    && r.description == Some("use for cps")
    && r.access == "Allow" && r.direction == "Inbound"
    && r.sourcePortRange == Some("*")
    && r.sourceAddressPrefix == Some("*") && r.destinationAddressPrefix == Some("*")
  }

  /** A name with one of the two prefixes of the program. */
  predicate Ours(r: SecurityRule) {
    r.name.Some? && ("cps-lb-tcp-" <= r.name.value || "cps-lb-udp-" <= r.name.value)
  }

  lemma ManagedIsOurs(r: SecurityRule)
    ensures Managed(r) <==> Ours(r)
    ensures r.name.Some? && "cps-lb-tcp-" <= r.name.value ==> ProtoOf(r) == Some(Tcp)
    ensures r.name.Some? && "cps-lb-udp-" <= r.name.value ==> ProtoOf(r) == Some(Udp)
  {
    assert "cps-lb-tcp-"[7] == 't' && "cps-lb-udp-"[7] == 'u';
  }

  lemma ShapeOpens(r: SecurityRule)
    requires DefaultShaped(r)
    ensures ProtoOf(r) == Some(Tcp) ==> OpensTCP(r, PortOf(r))
    ensures ProtoOf(r) == Some(Udp) ==> OpensUDP(r, PortOf(r))
  {
  }

  /** A new default rule, as it is written. */
  lemma DefaultRuleOpens(port: string, priority: Option<int>)
    ensures OpensTCP(GetDefaultSecurityGroupRule(Tcp, port, priority), port)
    ensures OpensUDP(GetDefaultSecurityGroupRule(Udp, port, priority), port)
    ensures GetDefaultSecurityGroupRule(Tcp, port, priority).priority == priority
    ensures GetDefaultSecurityGroupRule(Udp, port, priority).priority == priority
  {
  }

  /** After a successful sync every rule of ours opens one wanted port of its protocol, and every wanted port is opened by
      such a rule. */
  lemma SyncOpensPorts(rules: seq<SecurityRule>, ports: Ports, rules': seq<SecurityRule>)
    requires Synced(ScanRules(rules, ports), rules')
    ensures forall r :: r in rules' && Ours(r) ==>
      exists port :: (port in ports.tcp && OpensTCP(r, port)) || (port in ports.udp && OpensUDP(r, port))
    ensures forall port :: port in ports.tcp ==> exists r :: r in rules' && OpensTCP(r, port)
    ensures forall port :: port in ports.udp ==> exists r :: r in rules' && OpensUDP(r, port)
  {
    SyncIsExact(rules, ports, rules');
    hide Synced, ScanRules, Filter;
    forall r | r in rules' && Ours(r)
      ensures exists port :: (port in ports.tcp && OpensTCP(r, port)) || (port in ports.udp && OpensUDP(r, port))
    {
      OursOpens(rules', ports, r);
    }
    forall port | port in ports.tcp ensures exists r :: r in rules' && OpensTCP(r, port) {
      var r := Opened(rules', ports, Tcp, port);
    }
    forall port | port in ports.udp ensures exists r :: r in rules' && OpensUDP(r, port) {
      var r := Opened(rules', ports, Udp, port);
    }
  }

  lemma OursOpens(rules: seq<SecurityRule>, ports: Ports, r: SecurityRule)
    requires Exact(rules, ports) && r in rules && Ours(r)
    ensures (PortOf(r) in ports.tcp && OpensTCP(r, PortOf(r))) || (PortOf(r) in ports.udp && OpensUDP(r, PortOf(r)))
  {
    ManagedIsOurs(r);
    hide DefaultShaped, ProtoOf, PortOf, OpensTCP, OpensUDP, Ours, Serves;
    var i :| 0 <= i < |rules| && rules[i] == r;
    ShapeOpens(r);
  }

  lemma Opened(rules: seq<SecurityRule>, ports: Ports, p: Proto, port: string) returns (r: SecurityRule)
    requires Exact(rules, ports) && port in Of(ports, p)
    ensures r in rules && (if p == Tcp then OpensTCP(r, port) else OpensUDP(r, port))
  {
    hide DefaultShaped, ProtoOf, PortOf, OpensTCP, OpensUDP;
    assert Serves(rules, p, port);
    r :| r in rules && ProtoOf(r) == Some(p) && PortOf(r) == port;
    var i :| 0 <= i < |rules| && rules[i] == r;
    ShapeOpens(r);
  }

  /** No port is opened twice. */
  lemma SyncOpensOnce(rules: seq<SecurityRule>, ports: Ports, rules': seq<SecurityRule>, i: nat, j: nat, port: string)
    requires Synced(ScanRules(rules, ports), rules') && i < j < |rules'|
    ensures !(OpensTCP(rules'[i], port) && OpensTCP(rules'[j], port))
    ensures !(OpensUDP(rules'[i], port) && OpensUDP(rules'[j], port))
  {
    SyncIsExact(rules, ports, rules');
    hide Synced, ScanRules, Filter, DefaultShaped, Serves;
    ManagedIsOurs(rules'[i]);
    ManagedIsOurs(rules'[j]);
    PrefixOf("cps-lb-tcp-", port);
    PrefixOf("cps-lb-udp-", port);
  }

  lemma PrefixOf(prefix: string, port: string)
    ensures prefix <= prefix + port
  {
  }

  /** The user's rules, those whose names have neither prefix, stay as they are and in their order. */
  lemma SyncKeepsTheUsers(rules: seq<SecurityRule>, ports: Ports, rules': seq<SecurityRule>)
    requires Synced(ScanRules(rules, ports), rules')
    ensures Filter(rules', (r: SecurityRule) => !Ours(r)) == Filter(rules, (r: SecurityRule) => !Ours(r))
  {
    SyncIsExact(rules, ports, rules');
    hide Synced, ScanRules;
    UsersFiltered(rules);
    UsersFiltered(rules');
  }

  lemma {:induction false} UsersFiltered(rules: seq<SecurityRule>)
    ensures Filter(rules, (r: SecurityRule) => !Ours(r)) == Filter(rules, User)
  {
    if rules != [] {
      UsersFiltered(rules[..|rules| - 1]);
      ManagedIsOurs(rules[|rules| - 1]);
    }
  }

  /** Stripping a group leaves exactly the user's rules, in their order. */
  lemma StripKeepsTheUsers(rules: seq<SecurityRule>)
    ensures Strip(rules) == Filter(rules, (r: SecurityRule) => !Ours(r))
  {
    UsersFiltered(rules);
  }
}
