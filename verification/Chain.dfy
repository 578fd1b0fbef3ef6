/** The mangle chain of a director: how it is built and what it does to a packet's mark. */
module Chain {
  import opened Basics
  import opened NodeNetwork

  /** Packet marks, as the numbers whose binary digits are the bits. */
  type Mark = nat

  const ACCEPT_MARK: Mark := 1
  const DROP_MARK: Mark := 0
  const MASK: Mark := 0x00000001

  /** `-i iface -d dst -p proto [--dports port] [--mac-source mac] -j MARK --set-xmark mark/MASK` */
  datatype Rule = Rule(iface: string, dst: string, proto: string, port: string, mac: string, mark: Mark)

  datatype Packet = Packet(iface: string, dst: string, proto: string, dport: nat, mac: string)

  /** Whether the text of a `--dports` argument covers a port number. */
  type Covers = (string, nat) -> bool

  predicate Matches(covers: Covers, r: Rule, p: Packet) {
    && r.iface == p.iface
    && r.dst == p.dst
    && (r.proto == "ip" || r.proto == p.proto)
    && (r.port == "" || covers(r.port, p.dport))
    && (r.mac == "" || r.mac == p.mac)
  }

  /** Bitwise `a & !b`. */
  function AndNot(a: Mark, b: Mark): Mark {
    if a == 0 then 0 else (if a % 2 == 1 && b % 2 == 0 then 1 else 0) + 2 * AndNot(a / 2, b / 2)
  }

  /** Bitwise exclusive or. */
  function Xor(a: Mark, b: Mark): Mark {
    if a == 0 && b == 0 then 0 else (a % 2 + b % 2) % 2 + 2 * Xor(a / 2, b / 2)
  }

  /** `--set-xmark value/mask`: clear the masked bits, then xor the value. */
  function SetXMark(mark: Mark, value: Mark): Mark {
    Xor(AndNot(mark, MASK), value)
  }

  lemma {:induction false} NothingCleared(a: Mark)
    ensures AndNot(a, 0) == a
    ensures Xor(a, 0) == a
  {
    if a != 0 {
      NothingCleared(a / 2);
    }
  }

  lemma XorBit(half: Mark, value: Mark)
    requires value < 2
    ensures Xor(2 * half, value) == 2 * half + value
  {
    NothingCleared(half);
    var even := 2 * half;
    assert even % 2 == 0 && even / 2 == half;
    assert value / 2 == 0 && value % 2 == value;
    if even != 0 || value != 0 {
      assert Xor(even, value) == (even % 2 + value % 2) % 2 + 2 * Xor(even / 2, value / 2);
    }
  }

  /** With this mask, set-xmark writes bit 0 and keeps every other bit. */
  lemma SetXMarkBits(mark: Mark, value: Mark)
    requires value < 2
    ensures SetXMark(mark, value) % 2 == value
    ensures SetXMark(mark, value) / 2 == mark / 2
  {
    NothingCleared(mark / 2);
    assert AndNot(mark, MASK) == 2 * (mark / 2) by {
      assert MASK % 2 == 1 && MASK / 2 == 0;
    }
    XorBit(mark / 2, value);
  }

  /** MARK does not terminate: every rule is tried, first to last. */
  function Eval(covers: Covers, rules: seq<Rule>, p: Packet, mark: Mark): Mark {
    if rules == [] then mark
    else
      var last := rules[|rules| - 1];
      var before := Eval(covers, rules[..|rules| - 1], p, mark);
      if Matches(covers, last, p) then SetXMark(before, last.mark) else before
  }

  lemma LastMarkWins(m: Mark, a: Mark, b: Mark)
    requires a < 2 && b < 2
    ensures SetXMark(SetXMark(m, a), b) == SetXMark(m, b)
  {
    SetXMarkBits(m, a);
    SetXMarkBits(m, b);
    SetXMarkBits(SetXMark(m, a), b);
  }

  // ---- Layered chains ----

  /** Every accept rule precedes every drop rule. */
  ghost predicate Layered(rules: seq<Rule>) {
    && (forall i :: 0 <= i < |rules| ==> rules[i].mark == ACCEPT_MARK || rules[i].mark == DROP_MARK)
    && (forall i, j :: 0 <= i < j < |rules| && rules[i].mark == DROP_MARK ==> rules[j].mark == DROP_MARK)
  }

  ghost predicate Hits(covers: Covers, rules: seq<Rule>, p: Packet, mark: Mark) {
    exists r :: r in rules && r.mark == mark && Matches(covers, r, p)
  }

  function Outcome(dropped: bool, accepted: bool, mark: Mark): Mark {
    if dropped then SetXMark(mark, DROP_MARK) else if accepted then SetXMark(mark, ACCEPT_MARK) else mark
  }

  lemma OutcomeStep(dropped: bool, accepted: bool, mark: Mark, last: Mark)
    requires last == ACCEPT_MARK ==> !dropped
    requires last == ACCEPT_MARK || last == DROP_MARK
    ensures SetXMark(Outcome(dropped, accepted, mark), last) ==
      Outcome(dropped || last == DROP_MARK, accepted || last == ACCEPT_MARK, mark)
  {
    LastMarkWins(mark, DROP_MARK, last);
    LastMarkWins(mark, ACCEPT_MARK, last);
  }

  /** In a layered chain any matching drop rule wins, else any matching accept rule. */
  lemma {:induction false} LayeredEval(covers: Covers, rules: seq<Rule>, p: Packet, mark: Mark)
    requires Layered(rules)
    ensures Eval(covers, rules, p, mark) ==
      Outcome(Hits(covers, rules, p, DROP_MARK), Hits(covers, rules, p, ACCEPT_MARK), mark)
  {
    if rules != [] {
      var init, last := rules[..|rules| - 1], rules[|rules| - 1];
      assert rules == init + [last];
      LayeredEval(covers, init, p, mark);
      HitsAppend(covers, init, last, p, DROP_MARK);
      HitsAppend(covers, init, last, p, ACCEPT_MARK);
      if last.mark == ACCEPT_MARK {
        NoDropBefore(covers, rules, p);
      }
      OutcomeStep(Hits(covers, init, p, DROP_MARK), Hits(covers, init, p, ACCEPT_MARK), mark, last.mark);
    }
  }

  lemma NoDropBefore(covers: Covers, rules: seq<Rule>, p: Packet)
    requires Layered(rules) && rules != [] && rules[|rules| - 1].mark == ACCEPT_MARK
    ensures !Hits(covers, rules[..|rules| - 1], p, DROP_MARK)
  {
    forall r | r in rules[..|rules| - 1] ensures r.mark != DROP_MARK {
      var i :| 0 <= i < |rules| - 1 && rules[i] == r;
    }
  }

  lemma HitsAppend(covers: Covers, init: seq<Rule>, last: Rule, p: Packet, mark: Mark)
    ensures Hits(covers, init + [last], p, mark) <==>
      Hits(covers, init, p, mark) || (last.mark == mark && Matches(covers, last, p))
  {
    assert forall r :: r in init + [last] <==> r in init || r == last;
  }

  // ---- Building a chain ----

  datatype Position = Append | Prepend

  function Ensured(rules: seq<Rule>, position: Position, r: Rule): seq<Rule> {
    if r in rules then rules else if position.Append? then rules + [r] else [r] + rules
  }

  /** One iptables chain. */
  class IptablesChain {
    var rules: seq<Rule>

    constructor ()
      ensures rules == []
    {
      rules := [];
    }

    method FlushChain()
      modifies this
      ensures rules == []
    {
      rules := [];
    }

    /** Adds the rule unless it is there; tells whether it was. */
    method EnsureRule(position: Position, r: Rule) returns (existed: bool)
      modifies this
      ensures rules == Ensured(old(rules), position, r)
      ensures existed <==> r in old(rules)
    {
      if r in rules {
        return true;
      }
      rules := if position.Append? then rules + [r] else [r] + rules;
      return false;
    }
  }

  function AcceptRule(iface: string, dst: string, proto: string, port: string): Rule {
    Rule(iface, dst, proto, port, "", ACCEPT_MARK)
  }

  function DropRule(iface: string, dst: string, mac: string): Rule {
    Rule(iface, dst, "ip", "", mac, DROP_MARK)
  }

  lemma EnsuredDrop(rules: seq<Rule>, r: Rule)
    requires Layered(rules) && r.mark == DROP_MARK
    ensures Layered(Ensured(rules, Append, r))
    ensures Elements(Ensured(rules, Append, r)) == Elements(rules) + {r}
  {
  }

  lemma EnsuredAccept(rules: seq<Rule>, r: Rule)
    requires Layered(rules) && r.mark == ACCEPT_MARK
    ensures Layered(Ensured(rules, Prepend, r))
    ensures Elements(Ensured(rules, Prepend, r)) == Elements(rules) + {r}
  {
  }

  // ---- What a node programs ----

  /** Everything a rebuild depends on. `active` is false in ActivePassive mode. */
  datatype Program = Program(
    active: bool, iface: string, vips: seq<string>, neighbours: seq<PreferredNet>, tcps: seq<string>, udps: seq<string>)

  function PortRules(iface: string, dst: string, proto: string, ports: seq<string>): set<Rule> {
    set port | port in ports :: AcceptRule(iface, dst, proto, port)
  }

  function MacRules(iface: string, dst: string, neighbours: seq<PreferredNet>): set<Rule> {
    set n | n in neighbours && n.iface.mac != "" :: DropRule(iface, dst, n.iface.mac)
  }

  function VipRules(g: Program, dst: string): set<Rule> {
    MacRules(g.iface, dst, g.neighbours) + PortRules(g.iface, dst, "tcp", g.tcps) + PortRules(g.iface, dst, "udp", g.udps)
  }

  /** The rules of the given virtual addresses of one family. */
  function ChainRules(parse: Parser, v6: bool, g: Program, vips: seq<string>): set<Rule> {
    if vips == [] then {}
    else
      var vip := vips[|vips| - 1];
      ChainRules(parse, v6, g, vips[..|vips| - 1]) +
      if vip != "" && parse(vip).Some? && parse(vip).value.version.V6? == v6
      then VipRules(g, parse(vip).value.text) else {}
  }

  /** The IPv4 and IPv6 chains of a node. */
  datatype Tables = Tables(v4: seq<Rule>, v6: seq<Rule>) {
    function For(v: Version): seq<Rule> {
      if v.V6? then v6 else v4
    }
  }

  /** The rules of a program for one family. */
  function FamilyRules(parse: Parser, v6: bool, g: Program): set<Rule> {
    if g.active then ChainRules(parse, v6, g, g.vips) else {}
  }

  /** Both chains are layered and hold exactly the program's rules. */
  ghost predicate Programmed(parse: Parser, g: Program, t: Tables) {
    && Layered(t.v4) && Layered(t.v6)
    && Elements(t.v4) == FamilyRules(parse, false, g)
    && Elements(t.v6) == FamilyRules(parse, true, g)
  }

  /** Two programs ask for the same rules, in both families. */
  predicate SameChains(parse: Parser, g: Program, h: Program) {
    FamilyRules(parse, false, g) == FamilyRules(parse, false, h) &&
    FamilyRules(parse, true, g) == FamilyRules(parse, true, h)
  }

  lemma PortRulesAppend(iface: string, dst: string, proto: string, ports: seq<string>, port: string)
    ensures PortRules(iface, dst, proto, ports + [port]) ==
      PortRules(iface, dst, proto, ports) + {AcceptRule(iface, dst, proto, port)}
  {
    assert forall p :: p in ports + [port] <==> p in ports || p == port;
  }

  lemma MacRulesAppend(iface: string, dst: string, neighbours: seq<PreferredNet>, n: PreferredNet)
    ensures MacRules(iface, dst, neighbours + [n]) ==
      MacRules(iface, dst, neighbours) + if n.iface.mac != "" then {DropRule(iface, dst, n.iface.mac)} else {}
  {
    assert forall m :: m in neighbours + [n] <==> m in neighbours || m == n;
  }

  class Iptables {
    const ipt: IptablesChain
    const ip6t: IptablesChain

    constructor ()
      ensures fresh(ipt) && fresh(ip6t) && ipt != ip6t && Value() == Tables([], [])
    {
      ipt := new IptablesChain();
      ip6t := new IptablesChain();
    }

    function Value(): Tables
      reads ipt, ip6t
    {
      Tables(ipt.rules, ip6t.rules)
    }

    ghost predicate Valid()
      reads ipt, ip6t
    {
      ipt != ip6t && Layered(ipt.rules) && Layered(ip6t.rules)
    }

    function For(ip: IP): IptablesChain {
      if ip.version.V6? then ip6t else ipt
    }

    function Other(ip: IP): IptablesChain {
      if ip.version.V6? then ipt else ip6t
    }

    method FlushChain()
      requires ipt != ip6t
      modifies ipt, ip6t
      ensures Valid() && Value() == Tables([], [])
    {
      ipt.FlushChain();
      ip6t.FlushChain();
    }

    /** A drop rule is appended below every accept rule. */
    method AppendDrop(ip: IP, iface: string, mac: string)
      requires Valid()
      modifies For(ip)
      ensures Valid()
      ensures Elements(For(ip).rules) == Elements(old(For(ip).rules)) + {DropRule(iface, ip.text, mac)}
    {
      EnsuredDrop(For(ip).rules, DropRule(iface, ip.text, mac));
      var _ := For(ip).EnsureRule(Append, DropRule(iface, ip.text, mac));
    }

    /** One accept rule per port is prepended above everything; no port at all means one rule for any port. */
    method PrependAccept(ip: IP, proto: string, iface: string, ports: seq<string>)
      requires Valid()
      modifies For(ip)
      ensures Valid()
      ensures Elements(For(ip).rules) == Elements(old(For(ip).rules)) +
        PortRules(iface, ip.text, proto, if ports == [] then [""] else ports)
    {
      if ports == [] {
        EnsuredAccept(For(ip).rules, AcceptRule(iface, ip.text, proto, ""));
        var _ := For(ip).EnsureRule(Prepend, AcceptRule(iface, ip.text, proto, ""));
        return;
      }
      for i := 0 to |ports|
        invariant Valid()
        invariant Elements(For(ip).rules) ==
          Elements(old(For(ip).rules)) + PortRules(iface, ip.text, proto, ports[..i])
      {
        PortRulesAppend(iface, ip.text, proto, ports[..i], ports[i]);
        assert ports[..i + 1] == ports[..i] + [ports[i]];
        EnsuredAccept(For(ip).rules, AcceptRule(iface, ip.text, proto, ports[i]));
        var _ := For(ip).EnsureRule(Prepend, AcceptRule(iface, ip.text, proto, ports[i]));
      }
      assert ports[..|ports|] == ports;
    }

    method EnsureIptablesMark(parse: Parser, g: Program, vip: string)
      requires Valid()
      modifies ipt, ip6t
      ensures Valid()
      ensures parse(vip).None? ==> Value() == old(Value())
      ensures parse(vip).Some? ==>
        var ip := parse(vip).value;
        Elements(For(ip).rules) == Elements(old(For(ip).rules)) + VipRules(g, ip.text) &&
        Other(ip).rules == old(Other(ip).rules)
    {
      if parse(vip).None? {
        return;
      }
      var ip := parse(vip).value;
      ghost var start := Elements(For(ip).rules);
      for i := 0 to |g.neighbours|
        invariant Valid()
        invariant Other(ip).rules == old(Other(ip).rules)
        invariant Elements(For(ip).rules) == start + MacRules(g.iface, ip.text, g.neighbours[..i])
      {
        MacRulesAppend(g.iface, ip.text, g.neighbours[..i], g.neighbours[i]);
        assert g.neighbours[..i + 1] == g.neighbours[..i] + [g.neighbours[i]];
        var mac := g.neighbours[i].iface.mac;
        if mac == "" {
          continue;
        }
        AppendDrop(ip, g.iface, mac);
      }
      assert g.neighbours[..|g.neighbours|] == g.neighbours;
      if |g.tcps| > 0 {
        PrependAccept(ip, "tcp", g.iface, g.tcps);
      }
      if |g.udps| > 0 {
        PrependAccept(ip, "udp", g.iface, g.udps);
      }
    }

    /** One flush, then the rules of every virtual address unless the provider is ActivePassive. */
    method Rebuild(parse: Parser, g: Program)
      requires ipt != ip6t
      modifies ipt, ip6t
      ensures Programmed(parse, g, Value())
    {
      FlushChain();
      if g.active {
        for i := 0 to |g.vips|
          invariant Valid()
          invariant Elements(ipt.rules) == ChainRules(parse, false, g, g.vips[..i])
          invariant Elements(ip6t.rules) == ChainRules(parse, true, g, g.vips[..i])
        {
          assert g.vips[..i + 1][..i] == g.vips[..i];
          if g.vips[i] != "" {
            EnsureIptablesMark(parse, g, g.vips[i]);
          }
        }
        assert g.vips[..|g.vips|] == g.vips;
      }
    }
  }

  // ---- The classifier ----

  /** A virtual address of the packet's family. */
  ghost predicate IsVip(parse: Parser, vips: seq<string>, v6: bool, dst: string) {
    exists vip :: vip in vips && vip != "" && parse(vip).Some? &&
      parse(vip).value.version.V6? == v6 && parse(vip).value.text == dst
  }

  ghost predicate PortCovered(covers: Covers, ports: seq<string>, dport: nat) {
    exists port :: port in ports && (port == "" || covers(port, dport))
  }

  ghost predicate Exported(covers: Covers, g: Program, p: Packet) {
    || (p.proto == "tcp" && PortCovered(covers, g.tcps, p.dport))
    || (p.proto == "udp" && PortCovered(covers, g.udps, p.dport))
  }

  ghost predicate FromNeighbour(neighbours: seq<PreferredNet>, mac: string) {
    mac != "" && exists n :: n in neighbours && n.iface.mac == mac
  }

  /** The promised treatment of a packet: on the way to a virtual address, traffic from a neighbour loses the mark
      bit and other traffic to an exported port gets it; everything else is left alone. */
  ghost function Classify(parse: Parser, covers: Covers, g: Program, v: Version, p: Packet, mark: Mark): Mark {
    if !g.active || p.iface != g.iface || !IsVip(parse, g.vips, v.V6?, p.dst) then mark
    else if FromNeighbour(g.neighbours, p.mac) then 2 * (mark / 2)
    else if Exported(covers, g, p) then 2 * (mark / 2) + 1
    else mark
  }

  lemma {:induction false} ChainRulesMember(parse: Parser, v6: bool, g: Program, vips: seq<string>, r: Rule)
    ensures r in ChainRules(parse, v6, g, vips) <==> IsVip(parse, vips, v6, r.dst) && r in VipRules(g, r.dst)
  {
    if vips != [] {
      var init, vip := vips[..|vips| - 1], vips[|vips| - 1];
      assert vips == init + [vip];
      ChainRulesMember(parse, v6, g, init, r);
      assert forall w :: w in vips <==> w in init || w == vip;
    }
  }

  lemma HitsDrop(parse: Parser, covers: Covers, rules: seq<Rule>, g: Program, v6: bool, p: Packet)
    requires forall r :: r in rules <==> r in ChainRules(parse, v6, g, g.vips)
    ensures Hits(covers, rules, p, DROP_MARK) <==>
      p.iface == g.iface && IsVip(parse, g.vips, v6, p.dst) && FromNeighbour(g.neighbours, p.mac)
  {
    if r :| r in rules && r.mark == DROP_MARK && Matches(covers, r, p) {
      ChainRulesMember(parse, v6, g, g.vips, r);
    }
    if p.iface == g.iface && IsVip(parse, g.vips, v6, p.dst) && FromNeighbour(g.neighbours, p.mac) {
      var r := DropRule(g.iface, p.dst, p.mac);
      ChainRulesMember(parse, v6, g, g.vips, r);
      assert r in rules && Matches(covers, r, p);
    }
  }

  lemma HitsPort(
      parse: Parser, covers: Covers, rules: seq<Rule>, g: Program, v6: bool, p: Packet, ports: seq<string>)
    requires forall r :: r in rules <==> r in ChainRules(parse, v6, g, g.vips)
    requires p.iface == g.iface && IsVip(parse, g.vips, v6, p.dst) && PortCovered(covers, ports, p.dport)
    requires PortRules(g.iface, p.dst, p.proto, ports) <= VipRules(g, p.dst)
    ensures Hits(covers, rules, p, ACCEPT_MARK)
  {
    var port :| port in ports && (port == "" || covers(port, p.dport));
    var r := AcceptRule(g.iface, p.dst, p.proto, port);
    ChainRulesMember(parse, v6, g, g.vips, r);
    assert r in rules && Matches(covers, r, p);
  }

  lemma HitsAccept(parse: Parser, covers: Covers, rules: seq<Rule>, g: Program, v6: bool, p: Packet)
    requires forall r :: r in rules <==> r in ChainRules(parse, v6, g, g.vips)
    ensures Hits(covers, rules, p, ACCEPT_MARK) <==>
      p.iface == g.iface && IsVip(parse, g.vips, v6, p.dst) && Exported(covers, g, p)
  {
    if r :| r in rules && r.mark == ACCEPT_MARK && Matches(covers, r, p) {
      ChainRulesMember(parse, v6, g, g.vips, r);
    }
    if p.iface == g.iface && IsVip(parse, g.vips, v6, p.dst) {
      if p.proto == "tcp" && PortCovered(covers, g.tcps, p.dport) {
        HitsPort(parse, covers, rules, g, v6, p, g.tcps);
      }
      if p.proto == "udp" && PortCovered(covers, g.udps, p.dport) {
        HitsPort(parse, covers, rules, g, v6, p, g.udps);
      }
    }
  }

  /** What a programmed chain does to every packet is exactly the classifier; so every other mark bit is kept. */
  lemma ChainClassifies(parse: Parser, covers: Covers, g: Program, t: Tables, v: Version, p: Packet, mark: Mark)
    requires Programmed(parse, g, t)
    ensures Eval(covers, t.For(v), p, mark) == Classify(parse, covers, g, v, p, mark)
    ensures Eval(covers, t.For(v), p, mark) / 2 == mark / 2
  {
    var rules := t.For(v);
    assert forall r :: r in rules <==> r in Elements(rules);
    LayeredEval(covers, rules, p, mark);
    SetXMarkBits(mark, DROP_MARK);
    SetXMarkBits(mark, ACCEPT_MARK);
    if g.active {
      HitsDrop(parse, covers, rules, g, v.V6?, p);
      HitsAccept(parse, covers, rules, g, v.V6?, p);
    }
  }

  /** Programs that differ only in the order and repetition of ports describe the same chains. */
  lemma PortOrderIrrelevant(parse: Parser, g: Program, h: Program, t: Tables)
    requires Programmed(parse, g, t)
    requires h.(tcps := g.tcps, udps := g.udps) == g
    requires Elements(h.tcps) == Elements(g.tcps) && Elements(h.udps) == Elements(g.udps)
    ensures Programmed(parse, h, t)
  {
    SameRules(parse, false, g, h, g.vips);
    SameRules(parse, true, g, h, g.vips);
  }

  lemma {:induction false} SameRules(parse: Parser, v6: bool, g: Program, h: Program, vips: seq<string>)
    requires h.(tcps := g.tcps, udps := g.udps) == g
    requires Elements(h.tcps) == Elements(g.tcps) && Elements(h.udps) == Elements(g.udps)
    ensures ChainRules(parse, v6, g, vips) == ChainRules(parse, v6, h, vips)
  {
    if vips != [] {
      SameRules(parse, v6, g, h, vips[..|vips| - 1]);
      assert forall port :: port in h.tcps <==> port in Elements(g.tcps);
      assert forall port :: port in h.udps <==> port in Elements(g.udps);
      forall dst ensures VipRules(g, dst) == VipRules(h, dst) {
        assert PortRules(g.iface, dst, "tcp", g.tcps) == PortRules(g.iface, dst, "tcp", h.tcps);
        assert PortRules(g.iface, dst, "udp", g.udps) == PortRules(g.iface, dst, "udp", h.udps);
      }
    }
  }
}
