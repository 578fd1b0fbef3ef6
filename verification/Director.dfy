/** One director: validation, change detection, registration and host configuration in `OnUpdate`. */
module Director {
  import opened Basics
  import opened Sorting
  import opened ObjectModel
  import opened Registration
  import opened NodeNetwork
  import opened Ports
  import opened Chain
  import opened Keepalived

  type K8sNodes = map<string, K8sNode>

  /** What is fixed for one director: its name, its host's interfaces and the Node objects. */
  datatype Host = Host(parse: Parser, nodeName: string, ifaces: seq<HostIface>, nodes: K8sNodes)

  function SelectorsOf(h: Host, p: IpvsdrProvider, names: seq<string>): Selectors
    requires forall n :: n in names ==> n in h.nodes
  {
    map n | n in names :: SelectorFor(h.parse, h.nodes[n], AllBinds(p))
  }

  function ReportOf(h: Host, p: IpvsdrProvider): NodeStatus
    requires h.nodeName in h.nodes
  {
    Report(h.nodeName, SelectorFor(h.parse, h.nodes[h.nodeName], AllBinds(p)), h.ifaces)
  }

  predicate Valid(h: Host, spec: Spec) {
    !spec.deleted && spec.ipvsdr.Some? && spec.names != [] && h.nodeName in spec.names && spec.valid
  }

  /** A valid object all of whose nodes are known. */
  predicate Resolvable(h: Host, spec: Spec) {
    Valid(h, spec) && h.nodeName in h.nodes && forall n :: n in spec.names ==> n in h.nodes
  }

  function KnownNets(h: Host, object_: Stored): Nets
    requires Resolvable(h, object_.spec)
  {
    Known(h.nodeName, ReportOf(h, object_.spec.ipvsdr.value), object_.spec.names, object_.status)
  }

  function OwnIface(h: Host, object_: Stored): Option<PreferredNet>
    requires Resolvable(h, object_.spec)
  {
    var p := object_.spec.ipvsdr.value;
    OwnNet(h.nodeName, object_.spec.names, SelectorsOf(h, p, object_.spec.names), KnownNets(h, object_), p.main.bind)
  }

  /** The chain program that an object and its port lists stand for on this host. */
  function ProgramOf(h: Host, object_: Stored, tcps: seq<string>, udps: seq<string>): Program
    requires Resolvable(h, object_.spec) && OwnIface(h, object_).Some?
  {
    var p := object_.spec.ipvsdr.value;
    Program(
      p.main.haMode != ActivePassive, OwnIface(h, object_).value.iface.name, VIPsOf(p.main),
      NodeNets(object_.spec.names, SelectorsOf(h, p, object_.spec.names), KnownNets(h, object_), p.main.bind),
      tcps, udps)
  }

  /** The keepalived configuration that an object stands for on this host. */
  function KeepalivedOf(h: Host, object_: Stored): Option<Block>
    requires Resolvable(h, object_.spec)
  {
    var p := object_.spec.ipvsdr.value;
    SortSorts(object_.spec.names, Id);
    ConfigOf(h.parse, h.nodeName, Sort(object_.spec.names, Id), SelectorsOf(h, p, object_.spec.names),
             KnownNets(h, object_), p, BaseVrid(object_.spec))
  }

  /** The installed chains are those that a rebuild from this object and these ports would leave. */
  ghost predicate Installed(h: Host, object_: Stored, tcps: seq<string>, udps: seq<string>, t: Tables) {
    && Resolvable(h, object_.spec)
    && OwnIface(h, object_).Some?
    && Programmed(h.parse, ProgramOf(h, object_, tcps, udps), t)
  }

  /** The fields that `isLBChanged` compares. */
  predicate SameLB(a: Stored, b: Stored) {
    && a.spec.names == b.spec.names
    && a.spec.ipvsdr == b.spec.ipvsdr
    && a.status == b.status
    && a.spec.tcpConfigMap == b.spec.tcpConfigMap
    && a.spec.udpConfigMap == b.spec.udpConfigMap
    && a.spec.deleted == b.spec.deleted
  }

  lemma SameElements(a: seq<string>, b: seq<string>)
    requires multiset(a) == multiset(b)
    ensures Elements(a) == Elements(b)
  {
    forall x ensures x in a <==> x in b {
      assert x in multiset(a) <==> x in multiset(b);
    }
  }

  /** Equal compared fields and rearranged port lists stand for the same chains. */
  lemma InstalledForSame(
      h: Host, a: Stored, tcpsA: seq<string>, udpsA: seq<string>,
      b: Stored, tcpsB: seq<string>, udpsB: seq<string>, t: Tables)
    requires Installed(h, a, tcpsA, udpsA, t) && SameLB(a, b) && Valid(h, b.spec)
    requires multiset(tcpsA) == multiset(tcpsB) && multiset(udpsA) == multiset(udpsB)
    ensures Installed(h, b, tcpsB, udpsB, t)
  {
    SameElements(tcpsA, tcpsB);
    SameElements(udpsA, udpsB);
    PortOrderIrrelevant(h.parse, ProgramOf(h, a, tcpsA, udpsA), ProgramOf(h, b, tcpsB, udpsB), t);
  }

  /** The installed chains are those of a rebuild from the object and the port maps, however the maps are walked. */
  ghost predicate UpToDate(h: Host, object_: Stored, tcpcm: ConfigMap, udpcm: ConfigMap, t: Tables) {
    forall tcps, udps :: multiset(tcps) == ExportedTCP(object_.spec, tcpcm) && multiset(udps) == ExportedUDP(udpcm) ==>
      Installed(h, object_, tcps, udps, t)
  }

  lemma UpToDateFrom(
      h: Host, a: Stored, tcps: seq<string>, udps: seq<string>, b: Stored, tcpcm: ConfigMap, udpcm: ConfigMap, t: Tables)
    requires Installed(h, a, tcps, udps, t) && SameLB(a, b) && Valid(h, b.spec)
    requires multiset(tcps) == ExportedTCP(b.spec, tcpcm) && multiset(udps) == ExportedUDP(udpcm)
    ensures UpToDate(h, b, tcpcm, udpcm, t)
  {
    forall x, y | multiset(x) == ExportedTCP(b.spec, tcpcm) && multiset(y) == ExportedUDP(udpcm)
      ensures Installed(h, b, x, y, t)
    {
      InstalledForSame(h, a, tcps, udps, b, x, y, t);
    }
  }

  lemma UpToDateNow(
      h: Host, a: Stored, tcps: seq<string>, udps: seq<string>, tcpcm: ConfigMap, udpcm: ConfigMap, t: Tables)
    requires Installed(h, a, tcps, udps, t)
    requires multiset(tcps) == ExportedTCP(a.spec, tcpcm) && multiset(udps) == ExportedUDP(udpcm)
    ensures UpToDate(h, a, tcpcm, udpcm, t)
  {
    UpToDateFrom(h, a, tcps, udps, a, tcpcm, udpcm, t);
  }

  /** A sorted list holds exactly the given ports. */
  ghost predicate Lists(ports: seq<string>, exported: multiset<string>) {
    SortedBy(ports, Id) && multiset(ports) == exported
  }

  lemma SameListIff(cached: seq<string>, ports: seq<string>)
    requires SortedBy(ports, Id)
    ensures cached == ports <==> Lists(cached, multiset(ports))
  {
    if Lists(cached, multiset(ports)) {
      SortedUnique(cached, ports, Id);
    }
  }

  /** Registering from this object changes nothing. */
  ghost predicate Unchanged(h: Host, object_: Stored) {
    && Resolvable(h, object_.spec)
    && Merge(h.nodeName, ReportOf(h, object_.spec.ipvsdr.value), object_.spec.names, object_.status) == object_.status
  }

  /** A cached object needs no registration, and something has been flushed for it. */
  ghost predicate CacheStands(h: Host, cached: Option<Stored>, flushed: Option<Program>) {
    cached.Some? ==> Unchanged(h, cached.value) && OwnIface(h, cached.value).Some? && flushed.Some?
  }

  /** The cached object and port lists ask for the same chains as the last flush. */
  ghost predicate CacheMatchesFlush(
      h: Host, cached: Option<Stored>, tcps: seq<string>, udps: seq<string>, flushed: Option<Program>)
  {
    && cached.Some? && flushed.Some?
    && Resolvable(h, cached.value.spec) && OwnIface(h, cached.value).Some?
    && SameChains(h.parse, ProgramOf(h, cached.value, tcps, udps), flushed.value)
  }

  /** The program that was flushed for an object, from some walk of the port maps. */
  ghost predicate FlushedFor(h: Host, object_: Stored, tcpcm: ConfigMap, udpcm: ConfigMap, flushed: Option<Program>) {
    && Resolvable(h, object_.spec) && OwnIface(h, object_).Some?
    && exists tcps, udps ::
         && Lists(tcps, ExportedTCP(object_.spec, tcpcm)) && Lists(udps, ExportedUDP(udpcm))
         && flushed == Some(ProgramOf(h, object_, tcps, udps))
  }

  /** Chains programmed for one program serve another exactly when both ask for the same rules. */
  lemma ProgrammedIff(parse: Parser, g: Program, h: Program, t: Tables)
    requires Programmed(parse, g, t)
    ensures Programmed(parse, h, t) <==> SameChains(parse, h, g)
  {
  }

  /** When a call skips, the chains are up to date if and only if the cache asks for what was flushed last. */
  lemma SkipSoundIff(
      h: Host, a: Stored, tcps: seq<string>, udps: seq<string>, b: Stored, tcpcm: ConfigMap, udpcm: ConfigMap,
      flushed: Option<Program>, t: Tables)
    requires CacheStands(h, Some(a), flushed) && Programmed(h.parse, flushed.value, t)
    requires SameLB(a, b) && Valid(h, b.spec)
    requires multiset(tcps) == ExportedTCP(b.spec, tcpcm) && multiset(udps) == ExportedUDP(udpcm)
    ensures UpToDate(h, b, tcpcm, udpcm, t) <==> CacheMatchesFlush(h, Some(a), tcps, udps, flushed)
  {
    ProgrammedIff(h.parse, flushed.value, ProgramOf(h, a, tcps, udps), t);
    if CacheMatchesFlush(h, Some(a), tcps, udps, flushed) {
      UpToDateFrom(h, a, tcps, udps, b, tcpcm, udpcm, t);
    }
    if UpToDate(h, b, tcpcm, udpcm, t) {
      assert Installed(h, b, tcps, udps, t);
      InstalledForSame(h, b, tcps, udps, a, tcps, udps, t);
    }
  }

  lemma FlushOutcome(
      h: Host, a: Stored, tcps: seq<string>, udps: seq<string>, tcpcm: ConfigMap, udpcm: ConfigMap, t: Tables)
    requires Installed(h, a, tcps, udps, t)
    requires Lists(tcps, ExportedTCP(a.spec, tcpcm)) && Lists(udps, ExportedUDP(udpcm))
    ensures UpToDate(h, a, tcpcm, udpcm, t)
    ensures FlushedFor(h, a, tcpcm, udpcm, Some(ProgramOf(h, a, tcps, udps)))
  {
    UpToDateNow(h, a, tcps, udps, tcpcm, udpcm, t);
  }

  datatype Result =
    | Invalid                      // the object is not for this director
    | Skipped                      // nothing it depends on has changed
    | NodeMissing                  // a Node object could not be read
    | GivenUp(err: UpdateResult)   // the status changed; another event follows
    | NoOwnIface
    | ReloadFailed(config: Option<Block>)
    | Configured(config: Option<Block>)

  /** What becomes of an object that needs no registration. */
  function HostVerdict(h: Host, object_: Stored, lbChange: bool, reloadFails: bool): Result {
    if !Resolvable(h, object_.spec) then NodeMissing
    else if OwnIface(h, object_).None? then NoOwnIface
    else if !lbChange then Configured(None)
    else
      var config := KeepalivedOf(h, object_);
      if config.None? || reloadFails then ReloadFailed(config) else Configured(config)
  }

  /** A director's attempt to register, on a copy of a valid object. */
  function Attempted(h: Host, copy: Stored, store: Stored, fault: bool): Outcome
    requires h.nodeName in h.nodes && Valid(h, copy.spec)
  {
    TryRegister(h.nodeName, ReportOf(h, copy.spec.ipvsdr.value), copy, store, fault)
  }

  /** What becomes of a valid object that is not skipped. */
  function Verdict(
      h: Host, copy: Stored, store: Stored, lbChange: bool, updateFails: bool, reloadFails: bool): Result
    requires Valid(h, copy.spec)
  {
    if h.nodeName !in h.nodes then NodeMissing
    else if Attempted(h, copy, store, updateFails).changed then GivenUp(Attempted(h, copy, store, updateFails).result)
    else HostVerdict(h, copy, lbChange, reloadFails)
  }

  class Provider {
    const host: Host
    const tables: Iptables
    var cacheLb: LoadBalancer?
    var cacheTcps: seq<string>
    var cacheUdps: seq<string>
    ghost var flushed: Option<Program>   // what the last flush was for

    constructor (host: Host)
      requires DistinctNames(host.ifaces)
      ensures this.host == host && CacheTrue() && Cached() == None
      ensures fresh(tables.ipt) && fresh(tables.ip6t)
    {
      var t := new Iptables();
      this.host, tables := host, t;
      cacheLb, cacheTcps, cacheUdps, flushed := null, [], [], None;
    }

    function Cached(): Option<Stored>
      reads this, cacheLb
    {
      if cacheLb == null then None else Some(cacheLb.Value())
    }

    /** What every call keeps: the cached object needs no registration, and the chains are those of the last flush. */
    ghost predicate Ready()
      reads this, tables.ipt, tables.ip6t, cacheLb
    {
      && tables.ipt != tables.ip6t
      && DistinctNames(host.ifaces)
      && CacheStands(host, Cached(), flushed)
      && (flushed.Some? ==> Programmed(host.parse, flushed.value, tables.Value()))
    }

    /** Moreover, what the cache records is what is installed. */
    ghost predicate CacheTrue()
      reads this, tables.ipt, tables.ip6t, cacheLb
    {
      && Ready()
      && (Cached().Some? ==> Installed(host, Cached().value, cacheTcps, cacheUdps, tables.Value()))
    }

    method Validate(lb: LoadBalancer) returns (ok: bool)
      ensures ok <==> Valid(host, lb.spec)
    {
      if lb.spec.deleted || lb.spec.ipvsdr.None? || |lb.spec.names| == 0 {
        return false;
      }
      var hasThisNode := false;
      for i := 0 to |lb.spec.names|
        invariant !hasThisNode && host.nodeName !in lb.spec.names[..i]
      {
        if lb.spec.names[i] == host.nodeName {
          hasThisNode := true;
          break;
        }
      }
      return hasThisNode && lb.spec.valid;
    }

    method IsLBChanged(lb: LoadBalancer) returns (changed: bool)
      ensures changed <==> Cached().None? || !SameLB(Cached().value, lb.Value())
      ensures !changed && Valid(host, lb.spec) ==> forall tcps, udps, t ::
        Installed(host, Cached().value, tcps, udps, t) ==> Installed(host, lb.Value(), tcps, udps, t)
    {
      changed := cacheLb == null || !SameLB(cacheLb.Value(), lb.Value());
      if !changed && Valid(host, lb.spec) {
        forall tcps, udps, t | Installed(host, Cached().value, tcps, udps, t)
          ensures Installed(host, lb.Value(), tcps, udps, t)
        {
          InstalledForSame(host, Cached().value, tcps, udps, lb.Value(), tcps, udps, t);
        }
      }
    }

    method IsListenPortChanged(lb: LoadBalancer, tcpcm: ConfigMap, udpcm: ConfigMap)
      returns (changed: bool, tcps: seq<string>, udps: seq<string>)
      ensures multiset(tcps) == ExportedTCP(lb.spec, tcpcm) && multiset(udps) == ExportedUDP(udpcm)
      ensures SortedBy(tcps, Id) && SortedBy(udps, Id)
      ensures changed <==>
        !(Lists(cacheTcps, ExportedTCP(lb.spec, tcpcm)) && Lists(cacheUdps, ExportedUDP(udpcm)))
    {
      var t, u := GetExportedPorts(lb.spec, tcpcm, udpcm);
      SortSorts(t, Id);
      SortSorts(u, Id);
      tcps, udps := Sort(t, Id), Sort(u, Id);
      SameListIff(cacheTcps, tcps);
      SameListIff(cacheUdps, udps);
      changed := cacheTcps != tcps || cacheUdps != udps;
    }

    /** Selectors for all nodes of the object, or the fact that a Node object is missing. */
    method GetSelectors(p: IpvsdrProvider, names: seq<string>) returns (ok: bool, selectors: Selectors)
      ensures ok <==> forall n :: n in names ==> n in host.nodes
      ensures ok ==> selectors == SelectorsOf(host, p, names)
    {
      var binds := GetAllBinds(p);
      selectors := map[];
      for i := 0 to |names|
        invariant forall n :: n in names[..i] ==> n in host.nodes
        invariant selectors == SelectorsOf(host, p, names[..i])
      {
        var n := names[i];
        assert names[..i + 1] == names[..i] + [n];
        if n in selectors {
          continue;
        }
        if n !in host.nodes {
          return false, selectors;
        }
        selectors := selectors[n := SelectorFor(host.parse, host.nodes[n], binds)];
      }
      assert names[..|names|] == names;
      return true, selectors;
    }

    /** Rebuilds the chains unless this node's own interface cannot be found. */
    method OnUpdateIptables(
        lb: LoadBalancer, selectors: Selectors, nets: Nets, tcps: seq<string>, udps: seq<string>)
      returns (ok: bool)
      requires tables.ipt != tables.ip6t && Resolvable(host, lb.spec)
      requires selectors == SelectorsOf(host, lb.spec.ipvsdr.value, lb.spec.names)
      requires nets == KnownNets(host, lb.Value())
      modifies this`flushed, tables.ipt, tables.ip6t
      ensures ok <==> OwnIface(host, lb.Value()).Some?
      ensures ok ==> Installed(host, lb.Value(), tcps, udps, tables.Value())
      ensures ok ==> flushed == Some(ProgramOf(host, lb.Value(), tcps, udps))
      ensures ok ==> Programmed(host.parse, flushed.value, tables.Value())
      ensures !ok ==> tables.Value() == old(tables.Value()) && flushed == old(flushed)
    {
      var p := lb.spec.ipvsdr.value;
      var mine, peers := GetIPs(host.nodeName, lb.spec.names, selectors, nets, p.main.bind);
      if mine.None? {
        return false;
      }
      var vips := VIPsOf(p.main);
      var program := Program(p.main.haMode != ActivePassive, mine.value.iface.name, vips, peers, tcps, udps);
      tables.Rebuild(host.parse, program);
      flushed := Some(program);
      return true;
    }

    /** The cached object is untouched: for it the merge changes nothing. */
    method Register(lb: LoadBalancer, api: ApiServer, updateFails: bool)
      returns (found: bool, nets: Nets, updated: bool, err: UpdateResult)
      requires Ready() && Valid(host, lb.spec)
      modifies lb`status, api
      ensures Ready() && Cached() == old(Cached())
      ensures found <==> host.nodeName in host.nodes
      ensures found ==>
        (var a := Attempted(host, old(lb.Value()), old(api.stored), updateFails);
         updated == a.changed && lb.Value() == a.copy && api.stored == a.store && err == a.result)
      ensures found && !updated ==>
        nets == Known(host.nodeName, ReportOf(host, lb.spec.ipvsdr.value), lb.spec.names, lb.status)
      ensures !found ==> lb.Value() == old(lb.Value()) && api.stored == old(api.stored)
    {
      hide Installed, Programmed, OwnIface, Merge, Known;
      var ok, own := GetSelectors(lb.spec.ipvsdr.value, [host.nodeName]);
      assert host.nodeName in [host.nodeName];
      found, nets, updated, err := ok, map[], false, Updated;
      if found {
        var report := GetCurrentNodeIfaceIPs(host.nodeName, own[host.nodeName], host.ifaces);
        nets, updated, err := RegisterNodeNetwork(host.nodeName, report, lb, api, updateFails);
      }
    }

    /** The keepalived configuration is compiled, and keepalived reloaded, only when the object changed. */
    method OnUpdateKeepalived(lb: LoadBalancer, lbChange: bool, selectors: Selectors, nets: Nets, reloadFails: bool)
      returns (ok: bool, config: Option<Block>)
      requires Resolvable(host, lb.spec)
      requires selectors == SelectorsOf(host, lb.spec.ipvsdr.value, lb.spec.names)
      requires nets == KnownNets(host, lb.Value())
      ensures config == if lbChange then KeepalivedOf(host, lb.Value()) else None
      ensures ok <==> lbChange ==> config.Some? && !reloadFails
    {
      if !lbChange {
        return true, None;
      }
      config := BuildKeepalivedConfig(host.parse, host.nodeName, lb.spec, selectors, nets);
      ok := config.Some? && !reloadFails;
    }

    /** Host configuration from an object that needs no registration. */
    method ProgramHost(
        lb: LoadBalancer, lbChange: bool, nets: Nets, tcps: seq<string>, udps: seq<string>, reloadFails: bool)
      returns (r: Result)
      requires Ready() && Valid(host, lb.spec) && host.nodeName in host.nodes
      requires Resolvable(host, lb.spec) ==> Unchanged(host, lb.Value()) && nets == KnownNets(host, lb.Value())
      modifies this, tables.ipt, tables.ip6t
      ensures r == HostVerdict(host, lb.Value(), lbChange, reloadFails)
      ensures Ready() && (r.Configured? ==> CacheTrue())
      ensures r.Configured? || r.ReloadFailed? ==>
        && Installed(host, lb.Value(), tcps, udps, tables.Value())
        && flushed == Some(ProgramOf(host, lb.Value(), tcps, udps))
      ensures r.Configured? ==> cacheLb == lb && cacheTcps == tcps && cacheUdps == udps
      ensures !r.Configured? ==> cacheLb == old(cacheLb) && cacheTcps == old(cacheTcps) && cacheUdps == old(cacheUdps)
      ensures r.NodeMissing? || r.NoOwnIface? ==> tables.Value() == old(tables.Value()) && flushed == old(flushed)
    {
      hide Installed, KeepalivedOf, OwnIface;
      var all, selectors := GetSelectors(lb.spec.ipvsdr.value, lb.spec.names);
      if !all {
        return NodeMissing;
      }
      var built := OnUpdateIptables(lb, selectors, nets, tcps, udps);
      if !built {
        return NoOwnIface;
      }
      var reloaded, config := OnUpdateKeepalived(lb, lbChange, selectors, nets, reloadFails);
      if !reloaded {
        return ReloadFailed(config);
      }
      cacheLb, cacheTcps, cacheUdps := lb, tcps, udps;
      return Configured(config);
    }

    /** What a call does once it neither rejects the object nor skips it. */
    method Configure(
        lb: LoadBalancer, lbChange: bool, tcps: seq<string>, udps: seq<string>, api: ApiServer,
        updateFails: bool, reloadFails: bool)
      returns (r: Result)
      requires Ready() && Valid(host, lb.spec)
      modifies this, lb`status, api, tables.ipt, tables.ip6t
      ensures r == Verdict(host, old(lb.Value()), old(api.stored), lbChange, updateFails, reloadFails)
      ensures !r.Invalid? && !r.Skipped?
      ensures Ready() && (r.Configured? ==> CacheTrue())
      ensures r.Configured? || r.ReloadFailed? ==>
        && Installed(host, lb.Value(), tcps, udps, tables.Value())
        && flushed == Some(ProgramOf(host, lb.Value(), tcps, udps))
      ensures r.Configured? ==> cacheLb == lb && cacheTcps == tcps && cacheUdps == udps
      ensures !r.Configured? ==> Cached() == old(Cached()) && cacheTcps == old(cacheTcps) && cacheUdps == old(cacheUdps)
      ensures !r.Configured? && !r.ReloadFailed? ==> tables.Value() == old(tables.Value()) && flushed == old(flushed)
      ensures !r.GivenUp? ==> lb.Value() == old(lb.Value()) && api.stored == old(api.stored)
      ensures r.GivenUp? ==>
        (var a := Attempted(host, old(lb.Value()), old(api.stored), updateFails);
         lb.Value() == a.copy && api.stored == a.store)
    {
      hide Installed, Programmed, ProgramOf, OwnIface, KeepalivedOf, SelectorsOf, ReportOf, Merge, Known;
      var found, nets, updated, err := Register(lb, api, updateFails);
      if !found {
        return NodeMissing;
      }
      if updated {
        return GivenUp(err);
      }
      r := ProgramHost(lb, lbChange, nets, tcps, udps, reloadFails);
    }

    lemma SkipOutcome(lb: LoadBalancer, tcpcm: ConfigMap, udpcm: ConfigMap)
      requires Ready() && Cached().Some? && SameLB(Cached().value, lb.Value()) && Valid(host, lb.spec)
      requires Lists(cacheTcps, ExportedTCP(lb.spec, tcpcm)) && Lists(cacheUdps, ExportedUDP(udpcm))
      ensures UpToDate(host, lb.Value(), tcpcm, udpcm, tables.Value()) <==>
        CacheMatchesFlush(host, Cached(), cacheTcps, cacheUdps, flushed)
      ensures CacheTrue() ==> UpToDate(host, lb.Value(), tcpcm, udpcm, tables.Value())
    {
      hide UpToDate, SameLB, Valid, Unchanged, ProgramOf, SameChains, CacheMatchesFlush;
      SkipSoundIff(host, Cached().value, cacheTcps, cacheUdps, lb.Value(), tcpcm, udpcm, flushed, tables.Value());
      if CacheTrue() {
        UpToDateFrom(host, Cached().value, cacheTcps, cacheUdps, lb.Value(), tcpcm, udpcm, tables.Value());
      }
    }

    /** The verdict of every call, and when skipping is sound: a call that skips leaves chains that are those of a
        rebuild from the current object and port maps if and only if the cache asks for the same chains as the last
        flush. That holds as long as every call that reaches the flush succeeds, and again after the next success. */
    method OnUpdate(
        lb: LoadBalancer, tcpcm: ConfigMap, udpcm: ConfigMap, api: ApiServer, updateFails: bool, reloadFails: bool)
      returns (r: Result)
      requires Ready()
      modifies this, lb`status, api, tables.ipt, tables.ip6t
      ensures Ready() && (r.Configured? || (old(CacheTrue()) && !r.ReloadFailed?) ==> CacheTrue())
      ensures r.Skipped? ==>
        (UpToDate(host, lb.Value(), tcpcm, udpcm, tables.Value()) <==>
         CacheMatchesFlush(host, Cached(), cacheTcps, cacheUdps, flushed))
      ensures r.Configured? || r.ReloadFailed? || (old(CacheTrue()) && r.Skipped?) ==>
        UpToDate(host, lb.Value(), tcpcm, udpcm, tables.Value())
      ensures r.Configured? || r.ReloadFailed? ==> FlushedFor(host, lb.Value(), tcpcm, udpcm, flushed)
      ensures !r.Configured? && !r.ReloadFailed? ==> tables.Value() == old(tables.Value()) && flushed == old(flushed)
      ensures r.Configured? ==>
        cacheLb == lb && Lists(cacheTcps, ExportedTCP(lb.spec, tcpcm)) && Lists(cacheUdps, ExportedUDP(udpcm))
      ensures !r.Configured? ==> Cached() == old(Cached()) && cacheTcps == old(cacheTcps) && cacheUdps == old(cacheUdps)
      ensures r.Invalid? <==> !Valid(host, lb.spec)
      ensures r.Skipped? <==>
        Valid(host, lb.spec) && old(Cached().Some? && SameLB(Cached().value, lb.Value())) &&
        Lists(old(cacheTcps), ExportedTCP(lb.spec, tcpcm)) && Lists(old(cacheUdps), ExportedUDP(udpcm))
      ensures Valid(host, lb.spec) && !r.Skipped? ==>
        r == Verdict(host, old(lb.Value()), old(api.stored), old(Cached().None? || !SameLB(Cached().value, lb.Value())),
                     updateFails, reloadFails)
      ensures !r.GivenUp? ==> lb.Value() == old(lb.Value()) && api.stored == old(api.stored)
      ensures r.GivenUp? ==>
        (var a := Attempted(host, old(lb.Value()), old(api.stored), updateFails);
         lb.Value() == a.copy && api.stored == a.store)
    {
      hide Verdict, Installed, UpToDate, SameLB, Valid, Attempted, Unchanged, Programmed, OwnIface, ProgramOf, SameChains,
           CacheMatchesFlush, FlushedFor, CacheStands;
      var valid := Validate(lb);
      if !valid {
        return Invalid;
      }
      var lbChange := IsLBChanged(lb);
      var portChange, tcps, udps := IsListenPortChanged(lb, tcpcm, udpcm);
      if !lbChange && !portChange {
        SkipOutcome(lb, tcpcm, udpcm);
        return Skipped;
      }
      r := Configure(lb, lbChange, tcps, udps, api, updateFails, reloadFails);
      if r.Configured? || r.ReloadFailed? {
        FlushOutcome(host, lb.Value(), tcps, udps, tcpcm, udpcm, tables.Value());
      }
    }
  }
}
