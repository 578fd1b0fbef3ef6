/** What binds, reports and chosen interfaces mean, in terms of the host, the Node object and the provider. */
module Choice {
  import opened Basics
  import opened Sorting
  import opened ObjectModel
  import opened NodeNetwork

  // ---- Binds and selectors ----

  lemma {:induction false} BindsMember(providers: seq<KeepalivedProvider>, b: Bind)
    ensures b in BindsOf(providers) <==> exists kl :: kl in providers && kl.bind == Some(b)
  {
    if providers != [] {
      var init, last := providers[..|providers| - 1], providers[|providers| - 1];
      BindsMember(init, b);
      assert providers == init + [last];
      assert forall kl :: kl in providers <==> kl in init || kl == last;
    }
  }

  /** The binds of an object are those of its provider and of its slaves. */
  lemma AllBindsAre(p: IpvsdrProvider, b: Bind)
    ensures b in AllBinds(p) <==> p.main.bind == Some(b) || exists kl :: kl in p.slaves && kl.bind == Some(b)
  {
    BindsMember([p.main], b);
    BindsMember(p.slaves, b);
  }

  /** The address of a node under a key: a label that parses, else an annotation that does. */
  ghost predicate AddressUnder(parse: Parser, node: K8sNode, key: string, text: string) {
    if key in node.labels && parse(node.labels[key]).Some? then text == parse(node.labels[key]).value.text
    else key in node.annotations && parse(node.annotations[key]).Some? && text == parse(node.annotations[key]).value.text
  }

  lemma MetadataIs(parse: Parser, node: K8sNode, key: string)
    ensures MetadataIP(parse, node, key).Some? <==> exists text :: AddressUnder(parse, node, key, text)
    ensures MetadataIP(parse, node, key).Some? ==> AddressUnder(parse, node, key, MetadataIP(parse, node, key).value.text)
  {
    if MetadataIP(parse, node, key).Some? {
      assert AddressUnder(parse, node, key, MetadataIP(parse, node, key).value.text);
    }
  }

  /** A bind with an annotation asks for the address under it; a bind without asks for its interface. */
  lemma {:induction false} SelectorIs(parse: Parser, node: K8sNode, binds: seq<Bind>, key: string)
    ensures var s := SelectorFor(parse, node, binds);
      && (key in s.ips <==>
            key != "" && (exists b :: b in binds && b.nodeIPAnnotation == key) &&
            exists text :: AddressUnder(parse, node, key, text))
      && (key in s.ips ==> AddressUnder(parse, node, key, s.ips[key]))
  {
    MetadataIs(parse, node, key);
    if binds != [] {
      hide MetadataIP, AddressUnder;
      var init, last := binds[..|binds| - 1], binds[|binds| - 1];
      SelectorIs(parse, node, init, key);
      assert binds == init + [last];
      assert forall b :: b in binds <==> b in init || b == last;
    }
  }

  // ---- Reports ----

  /** An address counts when it is global unicast and its mask has a byte other than 0xff. */
  predicate Counts(a: Addr) {
    a.globalUnicast && exists i :: 0 <= i < |a.mask| && a.mask[i] != 0xff
  }

  /** The counting addresses with a given text. */
  function CountsAs(text: string): Addr -> bool {
    a => Counts(a) && a.text == text
  }

  lemma {:induction false} UsableTextsAre(addrs: seq<Addr>, text: string)
    ensures multiset(UsableTexts(addrs))[text] == |Filter(addrs, CountsAs(text))|
  {
    if addrs != [] {
      UsableTextsAre(addrs[..|addrs| - 1], text);
    }
  }

  /** A selector wants an interface by its name or by one of its addresses. */
  ghost predicate Wants(s: Selector, name: string, ips: seq<string>) {
    || name in s.ifaces
    || s.k8sNodeIP in ips
    || exists key :: key in s.ips && s.ips[key] in ips
  }

  /** An interface as it is reported: its name and MAC address, and the texts of its counting addresses, sorted. */
  ghost predicate ReportedAs(h: HostIface, n: InterfaceNet) {
    && !h.loopback && !h.pointToPoint && h.addrs.Some?
    && n.name == h.name && n.mac == h.mac && SortedBy(n.ips, Id)
    && forall text :: multiset(n.ips)[text] == |Filter(h.addrs.value, CountsAs(text))|
  }

  lemma NetIs(h: HostIface, n: InterfaceNet)
    ensures ReportedAs(h, n) <==> Eligible(h) && n == NetOf(h)
  {
    if Eligible(h) {
      var texts := UsableTexts(h.addrs.value);
      SortSorts(texts, Id);
      forall text ensures multiset(NetOf(h).ips)[text] == |Filter(h.addrs.value, CountsAs(text))| {
        UsableTextsAre(h.addrs.value, text);
      }
      if ReportedAs(h, n) {
        assert forall text :: multiset(n.ips)[text] == multiset(NetOf(h).ips)[text];
        assert multiset(n.ips) == multiset(NetOf(h).ips);
        SortedUnique(n.ips, NetOf(h).ips, Id);
      }
    }
  }

  lemma {:induction false} EligibleMember(host: seq<HostIface>, n: InterfaceNet)
    ensures n in EligibleNets(host) <==> exists h :: h in host && Eligible(h) && n == NetOf(h)
  {
    if host != [] {
      var init, last := host[..|host| - 1], host[|host| - 1];
      EligibleMember(init, n);
      assert host == init + [last];
      assert forall h :: h in host <==> h in init || h == last;
    }
  }

  lemma WantedIs(s: Selector, n: InterfaceNet)
    ensures WantedNet(s, n) <==> Wants(s, n.name, n.ips)
  {
    if exists key :: key in s.ips && s.ips[key] in n.ips {
      var key :| key in s.ips && s.ips[key] in n.ips;
      assert WantedIP(s, s.ips[key]);
    }
    if s.k8sNodeIP in n.ips {
      assert WantedIP(s, s.k8sNodeIP);
    }
  }

  /** A node reports, under its name and sorted by interface name, exactly the wanted ones of its interfaces. */
  lemma ReportIs(nodeName: string, s: Selector, host: seq<HostIface>)
    ensures var r := Report(nodeName, s, host);
      && r.name == nodeName && SortedBy(r.ifaces, Name)
      && forall n :: n in r.ifaces <==> Wants(s, n.name, n.ips) && exists h :: h in host && ReportedAs(h, n)
  {
    var r := Report(nodeName, s, host);
    SortSorts(WantedNets(s, host), Name);
    forall n ensures n in r.ifaces <==> Wants(s, n.name, n.ips) && exists h :: h in host && ReportedAs(h, n) {
      WantedIs(s, n);
      EligibleMember(host, n);
      forall h ensures ReportedAs(h, n) <==> Eligible(h) && n == NetOf(h) {
        NetIs(h, n);
      }
    }
  }

  // ---- The interface of a bind ----

  /** The first interface that holds the address, with that address preferred. */
  ghost predicate ByAddress(nets: seq<InterfaceNet>, ip: string, r: Option<PreferredNet>) {
    if ip == "" || (forall n :: n in nets ==> ip !in n.ips) then r == None
    else exists k :: 0 <= k < |nets| && ip in nets[k].ips && (forall j :: 0 <= j < k ==> ip !in nets[j].ips) &&
           r == Some(PreferredNet(nets[k], ip))
  }

  /** The first interface of the name; the address is preferred only if the interface holds it. */
  ghost predicate ByName(nets: seq<InterfaceNet>, name: string, ip: string, r: Option<PreferredNet>) {
    if forall n :: n in nets ==> n.name != name then r == None
    else exists k :: 0 <= k < |nets| && nets[k].name == name && (forall j :: 0 <= j < k ==> nets[j].name != name) &&
           r == Some(PreferredNet(nets[k], if ip in nets[k].ips then ip else ""))
  }

  /** Without a bind the node's own address decides; with one, its interface if it names one, else the address under its
      annotation. */
  ghost predicate Chooses(s: Selector, nets: seq<InterfaceNet>, bind: Option<Bind>, r: Option<PreferredNet>) {
    match bind
    case None => ByAddress(nets, s.k8sNodeIP, r)
    case Some(b) =>
      var ip := if b.nodeIPAnnotation in s.ips then s.ips[b.nodeIPAnnotation] else "";
      if b.iface != "" then ByName(nets, b.iface, ip, r) else ByAddress(nets, ip, r)
  }

  lemma {:induction false} FirstNamedAt(nets: seq<InterfaceNet>, name: string) returns (k: nat)
    requires exists n :: n in nets && n.name == name
    ensures k < |nets| && nets[k].name == name && FirstNamed(nets, name) == Some(nets[k])
    ensures forall j :: 0 <= j < k ==> nets[j].name != name
  {
    if nets[0].name == name {
      k := 0;
    } else {
      assert nets == [nets[0]] + nets[1..];
      k := FirstNamedAt(nets[1..], name);
      k := k + 1;
    }
  }

  lemma {:induction false} FirstWithIPAt(nets: seq<InterfaceNet>, ip: string) returns (k: nat)
    requires exists n :: n in nets && ip in n.ips
    ensures k < |nets| && ip in nets[k].ips && FirstWithIP(nets, ip) == Some(nets[k])
    ensures forall j :: 0 <= j < k ==> ip !in nets[j].ips
  {
    if ip in nets[0].ips {
      k := 0;
    } else {
      assert nets == [nets[0]] + nets[1..];
      k := FirstWithIPAt(nets[1..], ip);
      k := k + 1;
    }
  }

  lemma {:induction false} NoneWithIP(nets: seq<InterfaceNet>, ip: string)
    requires forall n :: n in nets ==> ip !in n.ips
    ensures FirstWithIP(nets, ip) == None
  {
    if nets != [] {
      NoneWithIP(nets[1..], ip);
    }
  }

  lemma AddressDecides(nets: seq<InterfaceNet>, ip: string)
    requires ip != ""
    ensures ByAddress(nets, ip, match FirstWithIP(nets, ip) case Some(n) => Some(PreferredNet(n, ip)) case None => None)
  {
    if exists n :: n in nets && ip in n.ips {
      var k := FirstWithIPAt(nets, ip);
    } else {
      NoneWithIP(nets, ip);
    }
  }

  /** The chosen interface is the promised one. */
  lemma ChoiceIs(s: Selector, nets: seq<InterfaceNet>, bind: Option<Bind>)
    ensures Chooses(s, nets, bind, NodeNetworkOf(s, nets, bind))
  {
    if bind.Some? && bind.value.iface != "" {
      FirstNamedIsNamed(nets, bind.value.iface);
      if exists n :: n in nets && n.name == bind.value.iface {
        var k := FirstNamedAt(nets, bind.value.iface);
      }
    } else if PreferredIP(s, bind) != "" {
      AddressDecides(nets, PreferredIP(s, bind));
    }
  }

  // ---- The address of a family ----

  ghost predicate OfFamily(parse: Parser, text: string, v: Version) {
    match parse(text)
    case Some(ip) => ip.version == v
    case None => v == Unknown
  }

  /** The preferred address if it has the family, else the first address that has, else none. */
  ghost predicate AddressOf(parse: Parser, n: PreferredNet, v: Version, r: string) {
    if n.preferredIP != "" && OfFamily(parse, n.preferredIP, v) then r == n.preferredIP
    else if forall ip :: ip in n.iface.ips ==> !OfFamily(parse, ip, v) then r == ""
    else exists k :: 0 <= k < |n.iface.ips| && r == n.iface.ips[k] && OfFamily(parse, r, v) &&
           forall j :: 0 <= j < k ==> !OfFamily(parse, n.iface.ips[j], v)
  }

  lemma {:induction false} FirstOfVersionAt(parse: Parser, ips: seq<string>, v: Version) returns (k: nat)
    ensures k <= |ips| && forall j :: 0 <= j < k ==> !OfFamily(parse, ips[j], v)
    ensures if k == |ips| then FirstOfVersion(parse, ips, v) == ""
            else OfFamily(parse, ips[k], v) && FirstOfVersion(parse, ips, v) == ips[k]
  {
    if ips == [] || OfFamily(parse, ips[0], v) {
      k := 0;
    } else {
      assert ips == [ips[0]] + ips[1..];
      k := FirstOfVersionAt(parse, ips[1..], v);
      k := k + 1;
    }
  }

  lemma AddressIs(parse: Parser, n: PreferredNet, v: Version)
    ensures AddressOf(parse, n, v, IPOf(parse, n, v))
  {
    var k := FirstOfVersionAt(parse, n.iface.ips, v);
    if k < |n.iface.ips| {
      assert n.iface.ips[k] in n.iface.ips;
    }
  }
}
