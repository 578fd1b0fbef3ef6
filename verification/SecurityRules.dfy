/** Synchronizing the rules of one security group with the exported ports. */
module SecurityRules {
  import opened Basics
  import opened PortMaps

  const TCP_PREFIX := "cps-lb-tcp-"
  const UDP_PREFIX := "cps-lb-udp-"

  /** Pointer fields are options; `rest` stands for every field that the program neither reads nor writes. */
  datatype SecurityRule = SecurityRule(
    name: Option<string>, description: Option<string>, protocol: string,
    sourcePortRange: Option<string>, destinationPortRange: Option<string>,
    sourceAddressPrefix: Option<string>, destinationAddressPrefix: Option<string>,
    access: string, direction: string, priority: Option<int>, rest: string)

  function Text(o: Option<string>): string { o.GetOr("") }

  function PortOf(r: SecurityRule): string { Text(r.destinationPortRange) }

  function PriorityOf(r: SecurityRule): int { r.priority.GetOr(0) }

  function Prefix(p: Proto): string {
    match p
    case Tcp => TCP_PREFIX
    case Udp => UDP_PREFIX
  }

  /** Which protocol a rule is managed for, by the prefix of its name; None for the user's own rules. */
  function ProtoOf(r: SecurityRule): Option<Proto> {
    if TCP_PREFIX <= Text(r.name) then Some(Tcp)
    else if UDP_PREFIX <= Text(r.name) then Some(Udp)
    else None
  }

  function GetDefaultSecurityGroupRule(p: Proto, port: string, priority: Option<int>): SecurityRule {
    SecurityRule(
      Some(Prefix(p) + port), Some("use for cps"), ProtocolText(p), Some("*"), Some(port), Some("*"), Some("*"),
      "Allow", "Inbound", priority, "")
  }

  lemma DefaultRuleProto(p: Proto, port: string, priority: Option<int>)
    ensures ProtoOf(GetDefaultSecurityGroupRule(p, port, priority)) == Some(p)
  {
    var name := Prefix(p) + port;
    assert name[..|Prefix(p)|] == Prefix(p);
    assert TCP_PREFIX[7] == 't' && UDP_PREFIX[7] == 'u';
    assert name[7] == Prefix(p)[7];
  }

  /** A managed rule that has exactly the default settings for its protocol, port and priority. */
  predicate DefaultShaped(r: SecurityRule) {
    ProtoOf(r).Some? &&
    r.(rest := "") == GetDefaultSecurityGroupRule(ProtoOf(r).value, PortOf(r), r.priority)
  }

  /** The rule after resetting it to the defaults; fields outside the defaults stay. */
  function Reset(p: Proto, r: SecurityRule): SecurityRule {
    GetDefaultSecurityGroupRule(p, PortOf(r), r.priority).(rest := r.rest)
  }

  lemma ResetShape(r: SecurityRule)
    requires ProtoOf(r).Some?
    ensures var p := ProtoOf(r).value;
      DefaultShaped(Reset(p, r)) && ProtoOf(Reset(p, r)) == Some(p) && PortOf(Reset(p, r)) == PortOf(r)
    ensures Reset(ProtoOf(r).value, r) == r <==> DefaultShaped(r)
  {
    DefaultRuleProto(ProtoOf(r).value, PortOf(r), r.priority);
  }

  // ---- Scanning the existing rules ----

  datatype Scan = Scan(kept: seq<SecurityRule>, used: set<int>, freed: set<int>, modified: bool, ports: Ports)

  /** What happens to one existing rule: the user's stay, the first rule of a wanted port is reset to the defaults
      and takes the port, every other managed rule goes and frees its priority. */
  function ScanStep(s: Scan, r: SecurityRule): Scan {
    match ProtoOf(r)
    case None => s.(kept := s.kept + [r], used := s.used + {PriorityOf(r)})
    case Some(p) =>
      if PortOf(r) in Of(s.ports, p) then
        Scan(s.kept + [Reset(p, r)], s.used + {PriorityOf(r)}, s.freed, s.modified || !DefaultShaped(r),
             Without(s.ports, p, PortOf(r)))
      else s.(freed := s.freed + {PriorityOf(r)}, modified := true)
  }

  function ScanRules(rules: seq<SecurityRule>, ports: Ports): Scan {
    if rules == [] then Scan([], {}, {}, false, ports)
    else ScanStep(ScanRules(rules[..|rules| - 1], ports), rules[|rules| - 1])
  }

  /** How the scan goes on from what the sync of one rule returns. */
  function StepOutcome(
      s: Scan, rule: SecurityRule, rule': SecurityRule, ports': Ports, altered: bool, remain: bool): Scan
  {
    if remain then Scan(s.kept + [rule'], s.used + {PriorityOf(rule')}, s.freed, s.modified || altered, ports')
    else Scan(s.kept, s.used, s.freed + {PriorityOf(rule)}, s.modified || altered, ports')
  }

  method EnsureSyncWithDefaultSetting(rule: SecurityRule, ports: Ports)
    returns (rule': SecurityRule, ports': Ports, altered: bool, remain: bool)
    ensures forall s: Scan :: s.ports == ports ==> ScanStep(s, rule) == StepOutcome(s, rule, rule', ports', altered, remain)
    ensures !remain ==> altered && ports' == ports
  {
    var p: Proto;
    if TCP_PREFIX <= Text(rule.name) {
      p := Tcp;
    } else if UDP_PREFIX <= Text(rule.name) {
      p := Udp;
    } else {
      return rule, ports, false, true;
    }
    if PortOf(rule) !in Of(ports, p) {
      return rule, ports, true, false;
    }
    rule', altered, remain := rule, false, true;
    ResetShape(rule);
    var default := GetDefaultSecurityGroupRule(p, PortOf(rule), rule.priority);
    if default != rule.(rest := "") {
      rule', altered := default.(rest := rule.rest), true;
    }
    ports' := Without(ports, p, PortOf(rule));
  }

  // ---- Priorities ----

  const START := 1000
  const STEP := 10
  const MAX_PRIORITY := 4096

  /** The slots that the search visits. */
  function Grid(): set<int> {
    set k | 0 <= k < 310 :: START + STEP * k
  }

  lemma {:induction false} GridPart(n: nat)
    ensures |set k | 0 <= k < n :: START + STEP * k| == n
  {
    var part := set k | 0 <= k < n :: START + STEP * k;
    if n == 0 {
      assert part == {};
    } else {
      GridPart(n - 1);
      var before := set k | 0 <= k < n - 1 :: START + STEP * k;
      assert part == before + {START + STEP * (n - 1)};
    }
  }

  /** The grid is 1000, 1010, ..., 4090: all 310 slots up to the maximum. */
  lemma GridSize()
    ensures |Grid()| == 310
    ensures forall p :: p in Grid() <==> START <= p <= MAX_PRIORITY && (p - START) % STEP == 0
  {
    GridPart(310);
    assert Grid() == set k | 0 <= k < 310 :: START + STEP * k;
    forall p | START <= p <= MAX_PRIORITY && (p - START) % STEP == 0 ensures p in Grid() {
      assert p == START + STEP * ((p - START) / STEP);
    }
  }

  /** The slots are the multiples of ten from 1000 to 4090. */
  lemma GridIs(p: int)
    ensures p in Grid() <==> 1000 <= p <= 4090 && p % 10 == 0
  {
    GridSize();
  }

  /** What can still be issued: freed priorities and unused slots. */
  function Pool(used: set<int>, freed: set<int>): set<int> {
    freed + (Grid() - used)
  }

  /** A freed priority if there is one, in any order, else the lowest unused slot of the grid. */
  method GetValidPriority(used: set<int>, freed: set<int>) returns (priority: Option<int>, freed': set<int>)
    ensures priority.None? <==> Pool(used, freed) == {}
    ensures priority.Some? ==> priority.value in Pool(used, freed)
    ensures priority.Some? ==> Pool(used + {priority.value}, freed') == Pool(used, freed) - {priority.value}
    ensures freed != {} ==> priority.Some? && priority.value in freed && freed' == freed - {priority.value}
    ensures freed == {} ==> freed' == {}
    ensures freed == {} && priority.Some? ==> forall q :: q in Grid() && q < priority.value ==> q in used
  {
    if freed != {} {
      var some := AnyOf(freed);
      return Some(some), freed - {some};
    }
    GridSize();
    var p := START;
    while true
      invariant START <= p && (p - START) % STEP == 0
      invariant forall q :: q in Grid() && q < p ==> q in used
      decreases MAX_PRIORITY - p
    {
      if p > MAX_PRIORITY {
        return None, {};
      }
      if p !in used {
        assert p in Grid() && p in Pool(used, freed);
        return Some(p), {};
      }
      p := p + STEP;
    }
  }

  function PortTexts(rules: seq<SecurityRule>): seq<string> {
    seq(|rules|, i requires 0 <= i < |rules| => PortOf(rules[i]))
  }

  function Priorities(rules: seq<SecurityRule>): seq<int> {
    seq(|rules|, i requires 0 <= i < |rules| => PriorityOf(rules[i]))
  }

  /** One new default rule per port, each with its own priority. */
  ghost predicate AddedFor(p: Proto, ports: set<string>, added: seq<SecurityRule>) {
    && |added| == |ports|
    && Distinct(PortTexts(added))
    && Elements(PortTexts(added)) == ports
    && (forall r :: r in added ==>
          r.priority.Some? && r == GetDefaultSecurityGroupRule(p, PortOf(r), r.priority))
  }

  /** The priorities of the added rules are distinct members of the pool, and `left` is what remains of it. */
  ghost predicate IssuedFrom(pool: set<int>, added: seq<SecurityRule>, left: set<int>) {
    && Distinct(Priorities(added))
    && Elements(Priorities(added)) <= pool
    && left == pool - Elements(Priorities(added))
    && |left| == |pool| - |added|
  }

  /** All ports but `rest` have their rule. */
  ghost predicate AddedBut(
      p: Proto, ports: set<string>, rest: set<string>, added: seq<SecurityRule>, pool: set<int>, left: set<int>)
  {
    rest <= ports && AddedFor(p, ports - rest, added) && IssuedFrom(pool, added, left)
  }

  method AddPorts(p: Proto, ports: set<string>, used: set<int>, freed: set<int>)
    returns (ok: bool, added: seq<SecurityRule>, used': set<int>, freed': set<int>)
    ensures ok <==> |ports| <= |Pool(used, freed)|
    ensures ok ==> AddedFor(p, ports, added)
    ensures ok ==> IssuedFrom(Pool(used, freed), added, Pool(used', freed'))
  {
    added, used', freed' := [], used, freed;
    var rest := ports;
    AddedNone(p, ports, Pool(used, freed));
    while rest != {}
      invariant AddedBut(p, ports, rest, added, Pool(used, freed), Pool(used', freed'))
      decreases rest
    {
      var port := AnyOf(rest);
      var priority, f := GetValidPriority(used', freed');
      if priority.None? {
        PoolExhausted(p, ports, rest, added, Pool(used, freed), Pool(used', freed'));
        return false, added, used', freed';
      }
      AddStep(p, ports, rest, port, added, Pool(used, freed), Pool(used', freed'), priority.value);
      added := added + [GetDefaultSecurityGroupRule(p, port, priority)];
      used', freed', rest := used' + {priority.value}, f, rest - {port};
    }
    AddedAll(p, ports, added, Pool(used, freed), Pool(used', freed'));
    return true, added, used', freed';
  }

  lemma AddedNone(p: Proto, ports: set<string>, pool: set<int>)
    ensures AddedBut(p, ports, ports, [], pool, pool)
  {
    assert ports - ports == {} && Elements(PortTexts([])) == {} && Elements(Priorities([])) == {};
  }

  lemma AddedAll(p: Proto, ports: set<string>, added: seq<SecurityRule>, pool: set<int>, left: set<int>)
    requires AddedBut(p, ports, {}, added, pool, left)
    ensures AddedFor(p, ports, added) && IssuedFrom(pool, added, left) && |ports| <= |pool|
  {
    assert ports - {} == ports;
  }

  lemma PoolExhausted(
      p: Proto, ports: set<string>, rest: set<string>, added: seq<SecurityRule>, pool: set<int>, left: set<int>)
    requires AddedBut(p, ports, rest, added, pool, left) && rest != {} && left == {}
    ensures |pool| < |ports|
  {
    assert |ports - rest| == |ports| - |rest|;
  }

  lemma AddStep(
      p: Proto, ports: set<string>, rest: set<string>, port: string, added: seq<SecurityRule>,
      pool: set<int>, left: set<int>, priority: int)
    requires AddedBut(p, ports, rest, added, pool, left) && port in rest && priority in left
    ensures AddedBut(p, ports, rest - {port}, added + [GetDefaultSecurityGroupRule(p, port, Some(priority))], pool,
                     left - {priority})
  {
    var rule := GetDefaultSecurityGroupRule(p, port, Some(priority));
    assert ports - (rest - {port}) == (ports - rest) + {port};
    AppendAdded(p, ports - rest, added, rule, port);
    AppendIssued(pool, added, left, rule);
  }

  lemma AppendIssued(pool: set<int>, added: seq<SecurityRule>, left: set<int>, rule: SecurityRule)
    requires IssuedFrom(pool, added, left) && PriorityOf(rule) in left
    ensures IssuedFrom(pool, added + [rule], left - {PriorityOf(rule)})
  {
    var before := Priorities(added);
    assert Priorities(added + [rule]) == before + [PriorityOf(rule)];
    assert Elements(before + [PriorityOf(rule)]) == Elements(before) + {PriorityOf(rule)};
    assert PriorityOf(rule) !in before by {
      assert PriorityOf(rule) !in Elements(before);
    }
  }

  lemma AppendAdded(p: Proto, ports: set<string>, added: seq<SecurityRule>, rule: SecurityRule, port: string)
    requires AddedFor(p, ports, added) && port !in ports
    requires rule.priority.Some? && rule == GetDefaultSecurityGroupRule(p, port, rule.priority)
    ensures AddedFor(p, ports + {port}, added + [rule])
  {
    assert PortTexts(added + [rule]) == PortTexts(added) + [port];
  }

  // ---- One group ----

  /** The outcome of a successful sync, given the scan of the old rules. The order in which ports are added is
      arbitrary. */
  ghost predicate Synced(s: Scan, rules: seq<SecurityRule>) {
    var k, u := |s.kept|, |s.ports.udp|;
    && |rules| == k + u + |s.ports.tcp|
    && rules[..k] == s.kept
    && AddedFor(Udp, s.ports.udp, rules[k..k + u])
    && AddedFor(Tcp, s.ports.tcp, rules[k + u..])
    && Distinct(Priorities(rules[k..]))
    && Elements(Priorities(rules[k..])) <= Pool(s.used, s.freed)
  }

  /** The loop over the existing rules. */
  method ScanLoop(rules: seq<SecurityRule>, ports: Ports) returns (s: Scan)
    ensures s == ScanRules(rules, ports)
  {
    var kept: seq<SecurityRule>, used: set<int>, freed: set<int>, change, left := [], {}, {}, false, ports;
    for i := 0 to |rules|
      invariant Scan(kept, used, freed, change, left) == ScanRules(rules[..i], ports)
    {
      assert rules[..i + 1][..i] == rules[..i];
      var rule, left', altered, remain := EnsureSyncWithDefaultSetting(rules[i], left);
      ghost var step := ScanStep(Scan(kept, used, freed, change, left), rules[i]);
      left := left';
      if remain {
        kept, used := kept + [rule], used + {PriorityOf(rule)};
      } else {
        freed := freed + {PriorityOf(rules[i])};
      }
      if altered {
        change := true;
      }
      assert step == Scan(kept, used, freed, change, left);
    }
    assert rules[..|rules|] == rules;
    s := Scan(kept, used, freed, change, left);
  }

  /** One group's iteration: it succeeds exactly when the missing ports fit into the freed priorities and the slots
      that no kept rule uses; `change` tells whether the group is written. */
  method SyncRules(rules: seq<SecurityRule>, ports: Ports)
    returns (ok: bool, change: bool, rules': seq<SecurityRule>, ports': Ports)
    ensures var s := ScanRules(rules, ports);
      && (ok <==> |s.ports.tcp| + |s.ports.udp| <= |Pool(s.used, s.freed)|)
      && (ok ==> Synced(s, rules'))
      && (change <==> s.modified || s.ports.tcp != {} || s.ports.udp != {})
      && ports' == s.ports
  {
    var s := ScanLoop(rules, ports);
    ports' := s.ports;
    change := s.modified;
    if |s.ports.udp| != 0 || |s.ports.tcp| != 0 {
      change := true;
    }
    rules' := s.kept;
    var okU, addedU, used, freed := AddPorts(Udp, s.ports.udp, s.used, s.freed);
    if !okU {
      return false, change, rules', ports';
    }
    var okT, addedT, used', freed' := AddPorts(Tcp, s.ports.tcp, used, freed);
    if !okT {
      return false, change, rules', ports';
    }
    ok := true;
    rules' := s.kept + addedU + addedT;
    SyncedFrom(s, addedU, addedT, Pool(used, freed), Pool(used', freed'));
  }

  lemma SliceThree<T>(a: seq<T>, b: seq<T>, c: seq<T>)
    ensures var s, i, j := a + b + c, |a|, |a| + |b|;
      s[..i] == a && s[i..j] == b && s[j..] == c && s[i..] == b + c
  {
  }

  lemma SyncedFrom(s: Scan, addedU: seq<SecurityRule>, addedT: seq<SecurityRule>, left: set<int>, end: set<int>)
    requires AddedFor(Udp, s.ports.udp, addedU) && AddedFor(Tcp, s.ports.tcp, addedT)
    requires IssuedFrom(Pool(s.used, s.freed), addedU, left) && IssuedFrom(left, addedT, end)
    ensures Synced(s, s.kept + addedU + addedT)
  {
    SliceThree(s.kept, addedU, addedT);
    IssuedTogether(Pool(s.used, s.freed), addedU, left, addedT, end);
  }

  lemma IssuedTogether(pool: set<int>, a: seq<SecurityRule>, left: set<int>, b: seq<SecurityRule>, end: set<int>)
    requires IssuedFrom(pool, a, left) && IssuedFrom(left, b, end)
    ensures Distinct(Priorities(a + b)) && Elements(Priorities(a + b)) <= pool
  {
    var p, q := Priorities(a), Priorities(b);
    assert Priorities(a + b) == p + q;
    forall x | x in Priorities(b) ensures x !in Priorities(a) && x in pool {
      assert x in Elements(Priorities(b)) && x !in Elements(Priorities(a));
    }
    forall x | x in Priorities(a) ensures x in pool {
      assert x in Elements(Priorities(a));
    }
    forall i, j | 0 <= i < j < |p + q| ensures (p + q)[i] != (p + q)[j] {
      if i < |p| <= j {
        assert (p + q)[j] in q && (p + q)[i] in p;
      }
    }
  }
}
