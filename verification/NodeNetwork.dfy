/** Which interfaces a node reports, and which of them it uses for a virtual address. */
module NodeNetwork {
  import opened Basics
  import opened Sorting
  import opened ObjectModel

  /** IP text is abstract: a parser gives the canonical text and the family, or nothing. */
  datatype Version = V4 | V6 | Unknown

  datatype IP = IP(version: Version, text: string)

  type Parser = string -> Option<IP>

  function VersionOf(parse: Parser, text: string): Version {
    match parse(text)
    case Some(ip) => ip.version
    case None => Unknown
  }

  datatype Addr = Addr(text: string, globalUnicast: bool, mask: seq<nat>)

  /** `addrs` is None when the host cannot list them. */
  datatype HostIface = HostIface(
    name: string, mac: string, loopback: bool, pointToPoint: bool, addrs: Option<seq<Addr>>)

  datatype Selector = Selector(k8sNodeIP: string, ifaces: set<string>, ips: map<string, string>)

  datatype PreferredNet = PreferredNet(iface: InterfaceNet, preferredIP: string)

  /** The metadata of a Kubernetes node; `ip` is its host IP, empty when it has none. */
  datatype K8sNode = K8sNode(ip: string, labels: map<string, string>, annotations: map<string, string>)

  // ---- Selectors ----

  function MetadataIP(parse: Parser, node: K8sNode, key: string): Option<IP> {
    var labelled := if key in node.labels then parse(node.labels[key]) else None;
    if labelled.Some? then labelled
    else if key in node.annotations then parse(node.annotations[key]) else None
  }

  function AddBind(parse: Parser, node: K8sNode, s: Selector, b: Bind): Selector {
    if b.nodeIPAnnotation == "" then s.(ifaces := s.ifaces + {b.iface})
    else match MetadataIP(parse, node, b.nodeIPAnnotation)
      case Some(ip) => s.(ips := s.ips[b.nodeIPAnnotation := ip.text])
      case None => s
  }

  function SelectorFor(parse: Parser, node: K8sNode, binds: seq<Bind>): Selector {
    if binds == [] then Selector(node.ip, {}, map[])
    else AddBind(parse, node, SelectorFor(parse, node, binds[..|binds| - 1]), binds[|binds| - 1])
  }

  function BindsOf(providers: seq<KeepalivedProvider>): seq<Bind> {
    if providers == [] then []
    else
      var last := providers[|providers| - 1];
      BindsOf(providers[..|providers| - 1]) + if last.bind.Some? then [last.bind.value] else []
  }

  function AllBinds(p: IpvsdrProvider): seq<Bind> {
    BindsOf([p.main]) + BindsOf(p.slaves)
  }

  method GetAllBinds(p: IpvsdrProvider) returns (binds: seq<Bind>)
    ensures binds == AllBinds(p)
  {
    binds := [];
    if p.main.bind.Some? {
      binds := [p.main.bind.value];
    }
    assert [p.main][..0] == [];
    for i := 0 to |p.slaves|
      invariant binds == BindsOf([p.main]) + BindsOf(p.slaves[..i])
    {
      assert p.slaves[..i + 1][..i] == p.slaves[..i];
      if p.slaves[i].bind.Some? {
        binds := binds + [p.slaves[i].bind.value];
      }
    }
    assert p.slaves[..|p.slaves|] == p.slaves;
  }

  /** What the binds leave in a selector. */
  lemma {:induction false} SelectorHoldsBinds(parse: Parser, node: K8sNode, binds: seq<Bind>)
    ensures var s := SelectorFor(parse, node, binds);
      && s.k8sNodeIP == node.ip
      && (forall n :: n in s.ifaces <==> exists b :: b in binds && b.nodeIPAnnotation == "" && b.iface == n)
      && (forall k :: k in s.ips ==> k != "")
  {
    if binds != [] {
      var init, last := binds[..|binds| - 1], binds[|binds| - 1];
      SelectorHoldsBinds(parse, node, init);
      assert binds == init + [last];
      assert forall b :: b in binds <==> b in init || b == last;
    }
  }

  // ---- Reporting interfaces ----

  predicate AllFF(mask: seq<nat>) {
    forall i :: 0 <= i < |mask| ==> mask[i] == 0xff
  }

  method IsMaskAllFF(mask: seq<nat>) returns (r: bool)
    ensures r == AllFF(mask)
  {
    for i := 0 to |mask|
      invariant AllFF(mask[..i])
    {
      if mask[i] != 0xff {
        return false;
      }
    }
    assert mask[..|mask|] == mask;
    return true;
  }

  predicate UsableAddr(a: Addr) {
    a.globalUnicast && !AllFF(a.mask)
  }

  /** The texts of the usable addresses, in the host's order. */
  function UsableTexts(addrs: seq<Addr>): seq<string> {
    if addrs == [] then []
    else
      var last := addrs[|addrs| - 1];
      UsableTexts(addrs[..|addrs| - 1]) + if UsableAddr(last) then [last.text] else []
  }

  predicate WantedIP(s: Selector, ip: string) {
    ip == s.k8sNodeIP || ip in s.ips.Values
  }

  predicate Wanted(s: Selector, name: string, ips: seq<string>) {
    name in s.ifaces || exists ip :: ip in ips && WantedIP(s, ip)
  }

  /** An interface with its usable addresses sorted, whether or not a selector wants it. */
  function NetOf(iface: HostIface): InterfaceNet
    requires iface.addrs.Some?
  {
    InterfaceNet(iface.name, iface.mac, Sort(UsableTexts(iface.addrs.value), Id))
  }

  method SelectIface(s: Selector, iface: HostIface) returns (r: Option<InterfaceNet>)
    requires iface.addrs.Some?
    ensures r == if Wanted(s, iface.name, UsableTexts(iface.addrs.value)) then Some(NetOf(iface)) else None
  {
    var addrs := iface.addrs.value;
    var selected := iface.name in s.ifaces;
    var ips: seq<string> := [];
    for i := 0 to |addrs|
      invariant ips == UsableTexts(addrs[..i])
      invariant selected == Wanted(s, iface.name, ips)
    {
      assert addrs[..i + 1][..i] == addrs[..i];
      ghost var before := ips;
      var hostMask := IsMaskAllFF(addrs[i].mask);
      if !addrs[i].globalUnicast || hostMask {
        continue;
      }
      var ip := addrs[i].text;
      ips := ips + [ip];
      assert forall x :: x in ips <==> x in before || x == ip;
      selected := selected || ip == s.k8sNodeIP;
      if !selected {
        selected := ip in s.ips.Values;
      }
      assert WantedIP(s, ip) ==> selected;
    }
    assert addrs[..|addrs|] == addrs;
    if selected {
      SortSorts(ips, Id);
      return Some(InterfaceNet(iface.name, iface.mac, Sort(ips, Id)));
    }
    return None;
  }

  predicate Eligible(iface: HostIface) {
    !iface.loopback && !iface.pointToPoint && iface.addrs.Some?
  }

  /** Every interface a node could report. */
  function EligibleNets(host: seq<HostIface>): (r: seq<InterfaceNet>)
    ensures forall n :: n in r ==> exists h :: h in host && h.name == n.name
  {
    if host == [] then []
    else
      var last := host[|host| - 1];
      EligibleNets(host[..|host| - 1]) + if Eligible(last) then [NetOf(last)] else []
  }

  predicate WantedNet(s: Selector, n: InterfaceNet) {
    Wanted(s, n.name, n.ips)
  }

  function Name(n: InterfaceNet): string { n.name }

  /** The operating system gives interfaces distinct names. */
  ghost predicate DistinctNames(host: seq<HostIface>) {
    forall i, j :: 0 <= i < j < |host| ==> host[i].name != host[j].name
  }

  function WantedBy(s: Selector): InterfaceNet -> bool {
    n => WantedNet(s, n)
  }

  function WantedNets(s: Selector, host: seq<HostIface>): seq<InterfaceNet> {
    Filter(EligibleNets(host), WantedBy(s))
  }

  /** The report of a node: the wanted interfaces, sorted by name. */
  function Report(nodeName: string, s: Selector, host: seq<HostIface>): NodeStatus {
    NodeStatus(nodeName, Sort(WantedNets(s, host), Name))
  }

  /** `sort.Slice` by name: some sorted arrangement of the list. */
  method SortSliceByName(s: seq<InterfaceNet>) returns (r: seq<InterfaceNet>)
    ensures SortedBy(r, Name) && multiset(r) == multiset(s)
  {
    SortSorts(s, Name);
    r := Sort(s, Name);
  }

  lemma WantedIgnoresOrder(s: Selector, iface: HostIface)
    requires iface.addrs.Some?
    ensures WantedNet(s, NetOf(iface)) == Wanted(s, iface.name, UsableTexts(iface.addrs.value))
  {
    SortSorts(UsableTexts(iface.addrs.value), Id);
  }

  lemma {:induction false} EligibleKeys(host: seq<HostIface>)
    requires DistinctNames(host)
    ensures KeyInjective(EligibleNets(host), Name)
  {
    if host != [] {
      EligibleKeys(host[..|host| - 1]);
    }
  }

  method GetCurrentNodeIfaceIPs(nodeName: string, s: Selector, host: seq<HostIface>) returns (r: NodeStatus)
    requires DistinctNames(host)
    ensures r == Report(nodeName, s, host)
  {
    var list: seq<InterfaceNet> := [];
    for i := 0 to |host|
      invariant list == WantedNets(s, host[..i])
    {
      assert host[..i + 1][..i] == host[..i];
      if host[i].loopback || host[i].pointToPoint || host[i].addrs.None? {
        assert EligibleNets(host[..i + 1]) == EligibleNets(host[..i]);
        continue;
      }
      WantedIgnoresOrder(s, host[i]);
      FilterAppend(EligibleNets(host[..i]), NetOf(host[i]), WantedBy(s));
      var net := SelectIface(s, host[i]);
      if net.Some? {
        list := list + [net.value];
      }
    }
    assert host[..|host|] == host;
    var sorted := SortSliceByName(list);
    EligibleKeys(host);
    SortSorts(list, Name);
    SortedUniqueNets(sorted, Sort(list, Name), EligibleNets(host));
    r := NodeStatus(nodeName, sorted);
  }

  lemma SortedUniqueNets(a: seq<InterfaceNet>, b: seq<InterfaceNet>, from: seq<InterfaceNet>)
    requires SortedBy(a, Name) && SortedBy(b, Name) && multiset(a) == multiset(b)
    requires KeyInjective(from, Name) && forall x :: x in b ==> x in from
    ensures a == b
  {
    forall x | x in a ensures x in from {
      assert x in multiset(b);
    }
    SortedUnique(a, b, Name);
  }

  // ---- Choosing the interface of a bind ----

  function FirstNamed(nets: seq<InterfaceNet>, name: string): Option<InterfaceNet> {
    if nets == [] then None else if nets[0].name == name then Some(nets[0]) else FirstNamed(nets[1..], name)
  }

  function FirstWithIP(nets: seq<InterfaceNet>, ip: string): Option<InterfaceNet> {
    if nets == [] then None else if ip in nets[0].ips then Some(nets[0]) else FirstWithIP(nets[1..], ip)
  }

  function PreferredIP(s: Selector, bind: Option<Bind>): string {
    match bind
    case None => s.k8sNodeIP
    case Some(b) => if b.nodeIPAnnotation in s.ips then s.ips[b.nodeIPAnnotation] else ""
  }

  function NodeNetworkOf(s: Selector, nets: seq<InterfaceNet>, bind: Option<Bind>): Option<PreferredNet> {
    var preferred := PreferredIP(s, bind);
    if bind.Some? && bind.value.iface != "" then
      match FirstNamed(nets, bind.value.iface)
      case None => None
      case Some(n) => Some(PreferredNet(n, if preferred in n.ips then preferred else ""))
    else if preferred != "" then
      match FirstWithIP(nets, preferred)
      case None => None
      case Some(n) => Some(PreferredNet(n, preferred))
    else None
  }

  method GetNodeNetwork(s: Selector, nets: seq<InterfaceNet>, bind: Option<Bind>) returns (r: Option<PreferredNet>)
    ensures r == NodeNetworkOf(s, nets, bind)
  {
    var bindIface, preferred := "", s.k8sNodeIP;
    if bind.Some? {
      bindIface := bind.value.iface;
      preferred := if bind.value.nodeIPAnnotation in s.ips then s.ips[bind.value.nodeIPAnnotation] else "";
    }
    if bindIface != "" {
      for i := 0 to |nets|
        invariant FirstNamed(nets[i..], bindIface) == FirstNamed(nets, bindIface)
      {
        if nets[i].name == bindIface {
          var chosen := "";
          for j := 0 to |nets[i].ips|
            invariant preferred !in nets[i].ips[..j] && chosen == ""
          {
            if nets[i].ips[j] == preferred {
              chosen := preferred;
              break;
            }
          }
          return Some(PreferredNet(nets[i], chosen));
        }
        assert nets[i..][1..] == nets[i + 1..];
      }
      return None;
    }
    if preferred != "" {
      for i := 0 to |nets|
        invariant FirstWithIP(nets[i..], preferred) == FirstWithIP(nets, preferred)
      {
        for j := 0 to |nets[i].ips|
          invariant preferred !in nets[i].ips[..j]
        {
          if nets[i].ips[j] == preferred {
            return Some(PreferredNet(nets[i], preferred));
          }
        }
        assert nets[i..][1..] == nets[i + 1..];
      }
    }
    return None;
  }

  /** `getIP`: the preferred address if it has the wanted family, else the first one that has. */
  function FirstOfVersion(parse: Parser, ips: seq<string>, v: Version): string {
    if ips == [] then "" else if VersionOf(parse, ips[0]) == v then ips[0] else FirstOfVersion(parse, ips[1..], v)
  }

  function IPOf(parse: Parser, n: PreferredNet, v: Version): string {
    if n.preferredIP != "" && VersionOf(parse, n.preferredIP) == v then n.preferredIP
    else FirstOfVersion(parse, n.iface.ips, v)
  }

  method GetIP(parse: Parser, n: PreferredNet, v: Version) returns (ip: string)
    ensures ip == IPOf(parse, n, v)
  {
    if n.preferredIP != "" && VersionOf(parse, n.preferredIP) == v {
      return n.preferredIP;
    }
    var ips := n.iface.ips;
    for i := 0 to |ips|
      invariant FirstOfVersion(parse, ips[i..], v) == FirstOfVersion(parse, ips, v)
    {
      if VersionOf(parse, ips[i]) == v {
        return ips[i];
      }
      assert ips[i..][1..] == ips[i + 1..];
    }
    return "";
  }

  // ---- Pre-filtering keeps the choice ----

  lemma {:induction false} FirstNamedIsNamed(nets: seq<InterfaceNet>, name: string)
    ensures FirstNamed(nets, name).Some? ==>
      FirstNamed(nets, name).value in nets && FirstNamed(nets, name).value.name == name
    ensures FirstNamed(nets, name).None? ==> forall n :: n in nets ==> n.name != name
  {
    if nets != [] {
      FirstNamedIsNamed(nets[1..], name);
      assert nets == [nets[0]] + nets[1..];
    }
  }

  lemma FirstNamedInFilter(nets: seq<InterfaceNet>, p: InterfaceNet -> bool, name: string)
    requires KeyInjective(nets, Name)
    ensures FirstNamed(Filter(nets, p), name) ==
      match FirstNamed(nets, name) case Some(n) => if p(n) then Some(n) else None case None => None
  {
    FirstNamedIsNamed(nets, name);
    FirstNamedIsNamed(Filter(nets, p), name);
    if FirstNamed(nets, name).Some? && FirstNamed(Filter(nets, p), name).Some? {
      var a, b := FirstNamed(nets, name).value, FirstNamed(Filter(nets, p), name).value;
      assert Name(a) == Name(b);
    }
  }

  lemma {:induction false} FirstWithIPInFilter(nets: seq<InterfaceNet>, p: InterfaceNet -> bool, ip: string)
    requires forall n :: n in nets && ip in n.ips ==> p(n)
    ensures FirstWithIP(Filter(nets, p), ip) == FirstWithIP(nets, ip)
  {
    if nets != [] {
      FirstWithIPInFilter(nets[1..], p, ip);
      FilterHead(nets, p);
      assert Filter(nets, p) ==
        if p(nets[0]) then [nets[0]] + Filter(nets[1..], p) else Filter(nets[1..], p);
    }
  }

  /** An interface that a bind names although the selector, built from the same binds, does not want it. */
  ghost predicate NamedButFiltered(s: Selector, host: seq<HostIface>, bind: Option<Bind>) {
    bind.Some? && bind.value.iface != "" && bind.value.nodeIPAnnotation != "" &&
    exists n :: n in EligibleNets(host) && n.name == bind.value.iface && !WantedNet(s, n)
  }

  /** For every bind of the spec, choosing from the registered list is choosing from all eligible interfaces,
      except exactly when the bind sets both fields and names an interface that was filtered out. */
  lemma PrefilterKeepsChoice(
      parse: Parser, node: K8sNode, nodeName: string, binds: seq<Bind>, host: seq<HostIface>, bind: Option<Bind>)
    requires DistinctNames(host)
    requires bind.Some? ==> bind.value in binds
    ensures var s := SelectorFor(parse, node, binds);
      NodeNetworkOf(s, Report(nodeName, s, host).ifaces, bind) ==
      NodeNetworkOf(s, Sort(EligibleNets(host), Name), bind)
      <==> !NamedButFiltered(s, host, bind)
  {
    var s := SelectorFor(parse, node, binds);
    var nets := EligibleNets(host);
    SelectorHoldsBinds(parse, node, binds);
    EligibleKeys(host);
    SortSorts(nets, Name);
    FilterOfSort(nets, WantedBy(s), Name);
    if bind.Some? && bind.value.iface != "" {
      NamedChoice(s, Sort(nets, Name), bind);
    } else {
      AddressChoice(s, Sort(nets, Name), bind);
    }
  }

  lemma NamedChoice(s: Selector, all: seq<InterfaceNet>, bind: Option<Bind>)
    requires KeyInjective(all, Name) && bind.Some? && bind.value.iface != ""
    requires bind.value.nodeIPAnnotation == "" ==> bind.value.iface in s.ifaces
    ensures NodeNetworkOf(s, Filter(all, WantedBy(s)), bind) == NodeNetworkOf(s, all, bind) <==>
      !(bind.value.nodeIPAnnotation != "" &&
        exists n :: n in all && n.name == bind.value.iface && !WantedNet(s, n))
  {
    FirstNamedInFilter(all, WantedBy(s), bind.value.iface);
    FirstNamedIsNamed(all, bind.value.iface);
    if n :| n in all && n.name == bind.value.iface && !WantedNet(s, n) {
      assert Name(n) == Name(FirstNamed(all, bind.value.iface).value);
    }
  }

  lemma AddressChoice(s: Selector, all: seq<InterfaceNet>, bind: Option<Bind>)
    requires bind.Some? ==> bind.value.iface == ""
    ensures NodeNetworkOf(s, Filter(all, WantedBy(s)), bind) == NodeNetworkOf(s, all, bind)
  {
    var preferred := PreferredIP(s, bind);
    if preferred != "" {
      forall n | n in all && preferred in n.ips ensures WantedBy(s)(n) {
        assert WantedIP(s, preferred);
      }
      FirstWithIPInFilter(all, WantedBy(s), preferred);
    }
  }

  /** A bind that sets at most one of its fields always keeps its choice. */
  lemma SingleFieldBindKeepsChoice(
      parse: Parser, node: K8sNode, nodeName: string, binds: seq<Bind>, host: seq<HostIface>, bind: Option<Bind>)
    requires DistinctNames(host)
    requires bind.Some? ==> bind.value in binds && (bind.value.iface == "" || bind.value.nodeIPAnnotation == "")
    ensures var s := SelectorFor(parse, node, binds);
      NodeNetworkOf(s, Report(nodeName, s, host).ifaces, bind) ==
      NodeNetworkOf(s, Sort(EligibleNets(host), Name), bind)
  {
    PrefilterKeepsChoice(parse, node, nodeName, binds, host, bind);
  }

  const PLAIN_NODE := K8sNode("", map[], map[])
  const BOTH_FIELDS := Bind("eth0", "example")
  const BARE_IFACE := HostIface("eth0", "aa", false, false, Some([]))
  const BARE_NET := InterfaceNet("eth0", "aa", [])

  lemma BothFieldsSelectNothing(parse: Parser)
    ensures SelectorFor(parse, PLAIN_NODE, [BOTH_FIELDS]) == Selector("", {}, map[])
  {
    var binds := [BOTH_FIELDS];
    assert binds[..|binds| - 1] == [];
    assert SelectorFor(parse, PLAIN_NODE, []) == Selector("", {}, map[]);
    assert BOTH_FIELDS.nodeIPAnnotation != "" && BOTH_FIELDS.nodeIPAnnotation !in PLAIN_NODE.annotations;
    assert MetadataIP(parse, PLAIN_NODE, BOTH_FIELDS.nodeIPAnnotation) == None;
  }

  lemma BareIsEligible()
    ensures EligibleNets([BARE_IFACE]) == [BARE_NET]
  {
    assert [BARE_IFACE][..0] == [];
  }

  lemma NothingWanted(s: Selector, nodeName: string)
    requires s == Selector("", {}, map[])
    ensures Report(nodeName, s, [BARE_IFACE]).ifaces == []
  {
    BareIsEligible();
    assert !WantedNet(s, BARE_NET);
    FilterNone([BARE_NET], WantedBy(s));
  }

  /** The exception is real: a bind with both fields set, on a node without the annotation, loses an interface that
      it names, although the host has it. */
  lemma TwoFieldBindLosesInterface(parse: Parser, nodeName: string)
    ensures var s := SelectorFor(parse, PLAIN_NODE, [BOTH_FIELDS]);
      && NodeNetworkOf(s, Report(nodeName, s, [BARE_IFACE]).ifaces, Some(BOTH_FIELDS)) == None
      && NodeNetworkOf(s, Sort(EligibleNets([BARE_IFACE]), Name), Some(BOTH_FIELDS)) == Some(PreferredNet(BARE_NET, ""))
  {
    BothFieldsSelectNothing(parse);
    BareIsEligible();
    var s := SelectorFor(parse, PLAIN_NODE, [BOTH_FIELDS]);
    NothingWanted(s, nodeName);
    hide SelectorFor, Report, EligibleNets;
    assert Sort([BARE_NET], Name) == [BARE_NET];
    assert FirstNamed([BARE_NET], "eth0") == Some(BARE_NET);
    assert PreferredIP(s, Some(BOTH_FIELDS)) == "";
  }
}
