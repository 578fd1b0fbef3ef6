/** A run in which a director skips although its chains are out of date: keepalived's reload failed in between. */
module SkipExample {
  import opened Basics
  import opened Sorting
  import opened ObjectModel
  import opened Registration
  import opened NodeNetwork
  import opened Ports
  import opened Chain
  import opened Keepalived
  import opened Director

  function ParseAny(text: string): Option<IP> { Some(IP(V4, text)) }

  const NET := InterfaceNet("eth0", "aa", ["ip"])
  const REPORT := NodeStatus("n", [NET])
  const NODE := K8sNode("ip", map[], map[])
  const IFACE := HostIface("eth0", "aa", false, false, Some([Addr("ip", true, [0])]))

  /** One node with one interface. */
  function OneHost(): Host {
    Host(ParseAny, "n", [IFACE], map["n" := NODE])
  }

  function ProviderFor(vip: string): IpvsdrProvider {
    IpvsdrProvider(KeepalivedProvider(vip, [], "rr", ActiveActive, None), [])
  }

  /** A version of the object, for one virtual address. */
  function ObjectFor(version: nat, vip: string): Stored {
    Stored(version, Spec(["n"], Some(ProviderFor(vip)), 80, 443, "", "", None, false, true), [REPORT])
  }

  lemma SelectorIs(vip: string)
    ensures SelectorFor(ParseAny, NODE, AllBinds(ProviderFor(vip))) == Selector("ip", {}, map[])
  {
    var main := [ProviderFor(vip).main];
    assert BindsOf(main) == [] by {
      assert main[..0] == [];
    }
  }

  lemma EligibleIs()
    ensures EligibleNets([IFACE]) == [NET]
  {
    var addrs := IFACE.addrs.value;
    assert addrs[0].mask[0] != 0xff;
    assert UsableAddr(addrs[0]);
    assert addrs[..0] == [] && UsableTexts(addrs) == ["ip"];
    assert Sort(["ip"], Id) == ["ip"];
    assert [IFACE][..0] == [];
  }

  lemma ReportIs(vip: string)
    ensures ReportOf(OneHost(), ProviderFor(vip)) == REPORT
  {
    SelectorIs(vip);
    EligibleIs();
    hide AllBinds, EligibleNets, SelectorFor;
    var s := Selector("ip", {}, map[]);
    WantedHere(s);
    FilterOne(NET, WantedBy(s));
    assert Sort([NET], Name) == [NET];
  }

  lemma FilterOne(net: InterfaceNet, p: InterfaceNet -> bool)
    requires p(net)
    ensures Filter([net], p) == [net]
  {
    assert [net][..0] == [];
  }

  lemma WantedHere(s: Selector)
    requires s == Selector("ip", {}, map[])
    ensures WantedNet(s, NET)
  {
    assert "ip" in NET.ips && WantedIP(s, "ip");
  }

  lemma MergeIsIdle()
    ensures Merge("n", REPORT, ["n"], [REPORT]) == [REPORT]
    ensures Known("n", REPORT, ["n"], [REPORT]) == map["n" := REPORT]
  {
    assert ["n"][..0] == [];
  }

  /** The object is resolvable, needs no registration, and its own interface is found. */
  lemma ObjectStands(version: nat, vip: string)
    ensures var o := ObjectFor(version, vip);
      && Valid(OneHost(), o.spec) && Unchanged(OneHost(), o)
      && OwnIface(OneHost(), o) == Some(PreferredNet(NET, "ip"))
  {
    var h, o, p := OneHost(), ObjectFor(version, vip), ProviderFor(vip);
    SelectorIs(vip);
    ReportIs(vip);
    MergeIsIdle();
    assert Resolvable(h, o.spec);
    var selectors := SelectorsOf(h, p, ["n"]);
    assert selectors["n"] == Selector("ip", {}, map[]);
    assert NodeNetworkOf(selectors["n"], [NET], None) == Some(PreferredNet(NET, "ip"));
  }

  /** Its configuration compiles. */
  lemma ObjectCompiles(version: nat, vip: string)
    ensures Resolvable(OneHost(), ObjectFor(version, vip).spec)
    ensures KeepalivedOf(OneHost(), ObjectFor(version, vip)).Some?
  {
    ObjectStands(version, vip);
    assert Sort(["n"], Id) == ["n"];
  }

  lemma ReservedIsListed(spec: Spec, tcps: seq<string>)
    requires Lists(tcps, ExportedTCP(spec, None))
    ensures "450" in tcps
  {
    assert RESERVED_TCP_PORTS[0] == "450";
    assert "450" in multiset(tcps);
  }

  lemma AcceptsReserved(version: nat, vip: string, tcps: seq<string>, udps: seq<string>)
    requires vip != "" && "450" in tcps
    requires Resolvable(OneHost(), ObjectFor(version, vip).spec) && OwnIface(OneHost(), ObjectFor(version, vip)).Some?
    ensures var iface := OwnIface(OneHost(), ObjectFor(version, vip)).value.iface.name;
      AcceptRule(iface, vip, "tcp", "450") in
      FamilyRules(ParseAny, false, ProgramOf(OneHost(), ObjectFor(version, vip), tcps, udps))
  {
    hide OwnIface, NodeNets, KnownNets, SelectorsOf;
    var g := ProgramOf(OneHost(), ObjectFor(version, vip), tcps, udps);
    var r := AcceptRule(g.iface, vip, "tcp", "450");
    assert g.vips == [vip] && vip in g.vips;
    ChainRulesMember(ParseAny, false, g, g.vips, r);
  }

  lemma NoRuleForOther(version: nat, vip: string, tcps: seq<string>, udps: seq<string>, r: Rule)
    requires r.dst != vip
    requires Resolvable(OneHost(), ObjectFor(version, vip).spec) && OwnIface(OneHost(), ObjectFor(version, vip)).Some?
    ensures r !in FamilyRules(ParseAny, false, ProgramOf(OneHost(), ObjectFor(version, vip), tcps, udps))
  {
    hide OwnIface, NodeNets, KnownNets, SelectorsOf;
    var g := ProgramOf(OneHost(), ObjectFor(version, vip), tcps, udps);
    assert g.vips == [vip];
    ChainRulesMember(ParseAny, false, g, g.vips, r);
  }

  /** What was flushed for another address is not what the cached object asks for. */
  lemma OtherAddressDiffers(
      a: nat, vip: string, tcps: seq<string>, udps: seq<string>, b: nat, other: string, flushed: Option<Program>)
    requires vip != "" && vip != other && Lists(tcps, ExportedTCP(ObjectFor(a, vip).spec, None))
    requires FlushedFor(OneHost(), ObjectFor(b, other), None, None, flushed)
    ensures !CacheMatchesFlush(OneHost(), Some(ObjectFor(a, vip)), tcps, udps, flushed)
  {
    ObjectStands(a, vip);
    ReservedIsListed(ObjectFor(a, vip).spec, tcps);
    AcceptsReserved(a, vip, tcps, udps);
    var x, y :| flushed == Some(ProgramOf(OneHost(), ObjectFor(b, other), x, y));
    var r := AcceptRule(OwnIface(OneHost(), ObjectFor(a, vip)).value.iface.name, vip, "tcp", "450");
    NoRuleForOther(b, other, x, y, r);
  }

  lemma VerdictOfExample(version: nat, vip: string, store: Stored, reloadFails: bool)
    ensures var o := ObjectFor(version, vip);
      && Valid(OneHost(), o.spec)
      && (if reloadFails then Verdict(OneHost(), o, store, true, false, reloadFails).ReloadFailed?
          else Verdict(OneHost(), o, store, true, false, reloadFails).Configured?)
  {
    ObjectStands(version, vip);
    ObjectCompiles(version, vip);
    hide KeepalivedOf, OwnIface, ReportOf, Merge;
  }

  /** Versions do not matter to the change test, addresses do. */
  lemma SameForAddress(vip: string, other: string)
    requires vip != other
    ensures SameLB(ObjectFor(0, vip), ObjectFor(2, vip)) && !SameLB(ObjectFor(0, vip), ObjectFor(1, other))
  {
    assert ObjectFor(0, vip).spec.ipvsdr.value.main.vip == vip;
    assert ObjectFor(1, other).spec.ipvsdr.value.main.vip == other;
  }

  /** A provider whose cache holds the first version, with the port lists of that version. */
  ghost predicate HoldsFirst(p: Provider, vip: string)
    reads p, p.tables.ipt, p.tables.ip6t, p.cacheLb
  {
    && p.host == OneHost() && p.Ready() && p.Cached() == Some(ObjectFor(0, vip))
    && Lists(p.cacheTcps, ExportedTCP(ObjectFor(0, vip).spec, None)) && Lists(p.cacheUdps, ExportedUDP(None))
  }

  method ConfigureFirst(p: Provider, vip: string, api: ApiServer) returns (r: Result)
    requires p.host == OneHost() && p.Ready() && p.Cached() == None
    modifies p, api, p.tables.ipt, p.tables.ip6t
    ensures r.Configured? && HoldsFirst(p, vip)
  {
    assert p.cacheLb == null;
    hide *;
    var a := new LoadBalancer(ObjectFor(0, vip));
    assert p.Cached() == None;
    VerdictOfExample(0, vip, api.stored, false);
    r := p.OnUpdate(a, None, None, api, false, false);
  }

  method FailReload(p: Provider, vip: string, other: string, api: ApiServer) returns (r: Result)
    requires HoldsFirst(p, vip) && vip != other
    modifies p, api, p.tables.ipt, p.tables.ip6t
    ensures r.ReloadFailed? && HoldsFirst(p, vip)
    ensures FlushedFor(OneHost(), ObjectFor(1, other), None, None, p.flushed)
    ensures UpToDate(OneHost(), ObjectFor(1, other), None, None, p.tables.Value())
  {
    SameForAddress(vip, other);
    hide *;
    var b := new LoadBalancer(ObjectFor(1, other));
    VerdictOfExample(1, other, api.stored, true);
    r := p.OnUpdate(b, None, None, api, false, true);
  }

  method SkipWrongly(p: Provider, vip: string, other: string, api: ApiServer) returns (r: Result)
    requires HoldsFirst(p, vip) && vip != "" && vip != other
    requires FlushedFor(OneHost(), ObjectFor(1, other), None, None, p.flushed)
    modifies p, api, p.tables.ipt, p.tables.ip6t
    ensures r == Skipped && p.tables.Value() == old(p.tables.Value())
    ensures !UpToDate(OneHost(), ObjectFor(2, vip), None, None, p.tables.Value())
  {
    SameForAddress(vip, other);
    hide *;
    var c := new LoadBalancer(ObjectFor(2, vip));
    VerdictOfExample(2, vip, api.stored, false);
    OtherAddressDiffers(0, vip, p.cacheTcps, p.cacheUdps, 1, other, p.flushed);
    r := p.OnUpdate(c, None, None, api, false, false);
  }

  /** The address is configured, the reload for another address fails, and the object comes back with the first address:
      the director skips, although the chains are those of the other address. */
  method SkipAfterFailedReload(vip: string, other: string) returns (r0: Result, r1: Result, r2: Result, t: Tables)
    requires vip != "" && vip != other
    ensures r0.Configured? && r1.ReloadFailed? && r2 == Skipped
    ensures UpToDate(OneHost(), ObjectFor(1, other), None, None, t)
    ensures !UpToDate(OneHost(), ObjectFor(2, vip), None, None, t)
  {
    assert DistinctNames(OneHost().ifaces);
    hide *;
    var api := new ApiServer(ObjectFor(0, vip));
    var p := new Provider(OneHost());
    r0 := ConfigureFirst(p, vip, api);
    r1 := FailReload(p, vip, other, api);
    r2 := SkipWrongly(p, vip, other, api);
    t := p.tables.Value();
  }
}
