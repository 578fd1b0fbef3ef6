/** What the directors agree on when they compile the same object independently of each other. */
module Agreement {
  import opened Basics
  import opened Sorting
  import opened ObjectModel
  import opened Registration
  import opened NodeNetwork
  import opened Keepalived

  // ---- Priorities and the master ----

  lemma {:induction false} DistinctCounts<T>(s: seq<T>)
    requires Distinct(s)
    ensures forall x :: x in s ==> multiset(s)[x] == 1
  {
    if s != [] {
      DistinctCounts(s[..|s| - 1]);
      assert s == s[..|s| - 1] + [s[|s| - 1]];
    }
  }

  lemma {:induction false} CountsDistinct<T>(s: seq<T>)
    requires forall x :: x in s ==> multiset(s)[x] == 1
    ensures Distinct(s)
  {
    if s != [] {
      var init, last := s[..|s| - 1], s[|s| - 1];
      assert s == init + [last];
      assert last !in init by { assert last in s; }
      forall x | x in init ensures multiset(init)[x] == 1 {
        assert x in s;
      }
      CountsDistinct(init);
    }
  }

  lemma SortedDistinct(names: seq<string>)
    requires Distinct(names)
    ensures Distinct(Sort(names, Id)) && |Sort(names, Id)| == |names|
    ensures forall n :: n in Sort(names, Id) <==> n in names
  {
    SortSorts(names, Id);
    DistinctCounts(names);
    CountsDistinct(Sort(names, Id));
  }

  /** Priorities start at 100 and rise by 60 in sorted order, so no two nodes share one. */
  lemma PriorityLadder(names: seq<string>)
    requires Distinct(names)
    ensures var nodes := Sort(names, Id);
      && |nodes| == |names|
      && (forall i :: 0 <= i < |nodes| ==> Priority(nodes, nodes[i]) == 100 + 60 * i)
      && (forall a, b :: a in names && b in names && a != b ==> Priority(nodes, a) != Priority(nodes, b))
  {
    var nodes := Sort(names, Id);
    SortedDistinct(names);
    forall i | 0 <= i < |nodes| ensures Priority(nodes, nodes[i]) == 100 + 60 * i {
      PosOfElement(nodes, i);
    }
    forall a, b | a in names && b in names && a != b ensures Priority(nodes, a) != Priority(nodes, b) {
      var i :| 0 <= i < |nodes| && nodes[i] == a;
      var j :| 0 <= j < |nodes| && nodes[j] == b;
      assert i != j;
    }
  }

  /** ActivePassive has exactly one master, and it is the node of highest priority. */
  lemma OneMaster(names: seq<string>, kl: KeepalivedProvider) returns (master: string)
    requires Distinct(names) && names != [] && kl.haMode == ActivePassive
    ensures var nodes := Sort(names, Id);
      && master in names
      && (forall n :: n in names ==> (StateOf(n, nodes, kl) == "MASTER" <==> n == master))
      && (forall n :: n in names && n != master ==> Priority(nodes, n) < Priority(nodes, master))
  {
    var nodes := Sort(names, Id);
    SortedDistinct(names);
    PriorityLadder(names);
    master := nodes[|nodes| - 1];
    forall n | n in names && n != master ensures Priority(nodes, n) < Priority(nodes, master) {
      var i :| 0 <= i < |nodes| && nodes[i] == n;
    }
  }

  /** Section 5.2.4 of RFC 5798: priorities of backup routers are 1 to 254. */
  lemma PrioritiesFitIff(names: seq<string>)
    requires Distinct(names)
    ensures (forall n :: n in names ==> 1 <= Priority(Sort(names, Id), n) <= 254) <==> |names| <= 3
  {
    var nodes := Sort(names, Id);
    SortedDistinct(names);
    PriorityLadder(names);
    if |names| > 3 {
      assert nodes[3] in names;
    }
    forall n | n in names && |names| <= 3 ensures 1 <= Priority(nodes, n) <= 254 {
      var i :| 0 <= i < |nodes| && nodes[i] == n;
    }
  }

  /** The fourth node in sorted order gets 280. */
  lemma FourthPriority(names: seq<string>) returns (n: string)
    requires Distinct(names) && |names| > 3
    ensures n in names && Priority(Sort(names, Id), n) == 280
  {
    SortedDistinct(names);
    PriorityLadder(names);
    n := Sort(names, Id)[3];
  }

  // ---- VRIDs ----

  lemma {:induction false} FrameBlockUniform(parse: Parser, f: Frame, considered: seq<Considered>, vi: VrrpInstance)
    requires vi in FrameBlock(parse, f, considered).instances
    ensures vi.vrid == f.vrid && vi.state == f.state && vi.priority == f.priority
    ensures exists c :: (c in considered && c.vip == vi.vip && vi == InstanceFor(parse, f, c) &&
                         IPOf(parse, f.mine, c.version) != "")
  {
    var init, c := considered[..|considered| - 1], considered[|considered| - 1];
    if vi in FrameBlock(parse, f, init).instances {
      FrameBlockUniform(parse, f, init, vi);
    }
  }

  lemma {:induction false} FrameBlockServers(parse: Parser, f: Frame, considered: seq<Considered>, vs: VirtualServer)
    requires vs in FrameBlock(parse, f, considered).servers
    ensures exists c :: c in considered && vs == ServerFor(parse, f, c)
  {
    var init, c := considered[..|considered| - 1], considered[|considered| - 1];
    if vs in FrameBlock(parse, f, init).servers {
      FrameBlockServers(parse, f, init, vs);
    }
  }

  lemma {:induction false} ConsideredFromVIPs(parse: Parser, vips: seq<string>, c: Considered)
    requires c in ConsideredVIPs(parse, vips)
    ensures c.vip in vips && parse(c.vip).Some? && c.version == parse(c.vip).value.version
  {
    var init := vips[..|vips| - 1];
    if c in ConsideredVIPs(parse, init) {
      ConsideredFromVIPs(parse, init, c);
    }
  }

  lemma BlockUniform(
      parse: Parser, nodeName: string, nodes: seq<string>, selectors: Selectors, nets: Nets,
      kl: KeepalivedProvider, priority: int, vrid: int, vi: VrrpInstance)
    requires forall n :: n in nodes ==> n in selectors
    requires var b := BlockOf(parse, nodeName, nodes, selectors, nets, kl, priority, vrid);
      b.Some? && vi in b.value.instances
    ensures vi.vrid == vrid && vi.priority == priority && vi.state == StateOf(nodeName, nodes, kl)
    ensures vi.vip in VIPsOf(kl)
  {
    var mine := OwnNet(nodeName, nodes, selectors, nets, kl.bind).value;
    var f := Frame(kl, StateOf(nodeName, nodes, kl), priority, vrid, mine, NodeNets(nodes, selectors, nets, kl.bind));
    var considered := ConsideredVIPs(parse, VIPsOf(kl));
    FrameBlockUniform(parse, f, considered, vi);
    var c :| c in considered && c.vip == vi.vip;
    ConsideredFromVIPs(parse, VIPsOf(kl), c);
  }

  function SlaveVrid(slaves: seq<KeepalivedProvider>, base: int, k: nat): int
    requires k < |slaves|
  {
    base + PassiveCount(slaves[..k + 1])
  }

  lemma {:induction false} PassiveCountMonotone(slaves: seq<KeepalivedProvider>, i: nat, j: nat)
    requires i <= j <= |slaves|
    ensures PassiveCount(slaves[..i]) <= PassiveCount(slaves[..j])
  {
    if i < j {
      PassiveCountMonotone(slaves, i, j - 1);
      assert slaves[..j][..j - 1] == slaves[..j - 1];
    }
  }

  /** An ActivePassive slave counts itself. */
  lemma CountsItself(slaves: seq<KeepalivedProvider>, k: nat)
    requires k < |slaves| && slaves[k].haMode == ActivePassive
    ensures PassiveCount(slaves[..k + 1]) == PassiveCount(slaves[..k]) + 1
  {
    assert slaves[..k + 1][..k] == slaves[..k];
  }

  /** ActivePassive slaves have VRIDs above the base and no larger than the base plus their number. */
  lemma SlaveVridBounds(slaves: seq<KeepalivedProvider>, base: int, k: nat)
    requires k < |slaves| && slaves[k].haMode == ActivePassive
    ensures base < SlaveVrid(slaves, base, k) <= base + PassiveCount(slaves)
  {
    CountsItself(slaves, k);
    PassiveCountMonotone(slaves, k + 1, |slaves|);
    assert slaves[..|slaves|] == slaves;
  }

  /** Their VRIDs strictly rise with their position. */
  lemma SlaveVridsRise(slaves: seq<KeepalivedProvider>, base: int, i: nat, j: nat)
    requires i < j < |slaves| && slaves[j].haMode == ActivePassive
    ensures SlaveVrid(slaves, base, i) < SlaveVrid(slaves, base, j)
  {
    CountsItself(slaves, j);
    PassiveCountMonotone(slaves, i + 1, j);
  }

  /** An instance of the main provider (k == -1) or of slave k, with the VRID that the object gives it. */
  ghost predicate FromProvider(p: IpvsdrProvider, base: int, k: int, vi: VrrpInstance) {
    if k == -1 then vi.vrid == base && vi.vip in VIPsOf(p.main)
    else 0 <= k < |p.slaves| && p.slaves[k].haMode == ActivePassive &&
         vi.vrid == SlaveVrid(p.slaves, base, k) && vi.vip in VIPsOf(p.slaves[k])
  }

  /** Every instance comes from the main block or from the block of some slave. */
  lemma {:induction false} InstanceSource(
      parse: Parser, nodeName: string, nodes: seq<string>, selectors: Selectors, nets: Nets,
      slaves: seq<KeepalivedProvider>, base: int, k: nat, main: Block, vi: VrrpInstance) returns (source: int)
    requires forall n :: n in nodes ==> n in selectors
    requires k <= |slaves|
    requires vi in WithSlaves(parse, nodeName, nodes, selectors, nets, slaves, base, k, main).instances
    ensures -1 <= source < k
    ensures source == -1 ==> vi in main.instances
    ensures source >= 0 ==>
      var b := SlaveBlock(parse, nodeName, nodes, selectors, nets, slaves, base, source);
      b.Some? && vi in b.value.instances
  {
    if k == 0 {
      return -1;
    }
    var before := WithSlaves(parse, nodeName, nodes, selectors, nets, slaves, base, k - 1, main);
    if vi in before.instances {
      source := InstanceSource(parse, nodeName, nodes, selectors, nets, slaves, base, k - 1, main, vi);
    } else {
      source := k - 1;
    }
  }

  lemma SlaveInstance(
      parse: Parser, nodeName: string, nodes: seq<string>, selectors: Selectors, nets: Nets,
      slaves: seq<KeepalivedProvider>, base: int, k: nat, vi: VrrpInstance)
    requires k < |slaves| && forall n :: n in nodes ==> n in selectors
    requires var b := SlaveBlock(parse, nodeName, nodes, selectors, nets, slaves, base, k);
      b.Some? && vi in b.value.instances
    ensures slaves[k].haMode == ActivePassive && vi.vrid == SlaveVrid(slaves, base, k) && vi.vip in VIPsOf(slaves[k])
  {
    BlockUniform(parse, nodeName, nodes, selectors, nets, slaves[k], Priority(nodes, nodeName),
                 SlaveVrid(slaves, base, k), vi);
  }

  lemma ConfigProviders(
      parse: Parser, nodeName: string, nodes: seq<string>, selectors: Selectors, nets: Nets,
      p: IpvsdrProvider, base: int, vi: VrrpInstance) returns (source: int)
    requires forall n :: n in nodes ==> n in selectors
    requires var c := ConfigOf(parse, nodeName, nodes, selectors, nets, p, base);
      c.Some? && vi in c.value.instances
    ensures FromProvider(p, base, source, vi)
  {
    var prio := Priority(nodes, nodeName);
    var main := BlockOf(parse, nodeName, nodes, selectors, nets, p.main, prio, base).value;
    source := InstanceSource(parse, nodeName, nodes, selectors, nets, p.slaves, base, |p.slaves|, main, vi);
    if source == -1 {
      BlockUniform(parse, nodeName, nodes, selectors, nets, p.main, prio, base, vi);
    } else {
      SlaveInstance(parse, nodeName, nodes, selectors, nets, p.slaves, base, source, vi);
    }
  }

  /** Group-wide, a VRID names one provider of the object: instances with equal VRIDs on any two nodes serve the
      same provider, even when other blocks failed on either node. */
  lemma VridsNameProviders(
      parse: Parser, nodes: seq<string>, selectors: Selectors, p: IpvsdrProvider, base: int,
      a: string, netsA: Nets, va: VrrpInstance, b: string, netsB: Nets, vb: VrrpInstance) returns (source: int)
    requires forall n :: n in nodes ==> n in selectors
    requires var ca := ConfigOf(parse, a, nodes, selectors, netsA, p, base); ca.Some? && va in ca.value.instances
    requires var cb := ConfigOf(parse, b, nodes, selectors, netsB, p, base); cb.Some? && vb in cb.value.instances
    ensures va.vrid == vb.vrid ==> FromProvider(p, base, source, va) && FromProvider(p, base, source, vb)
  {
    source := ConfigProviders(parse, a, nodes, selectors, netsA, p, base, va);
    var other := ConfigProviders(parse, b, nodes, selectors, netsB, p, base, vb);
    if source >= 0 {
      SlaveVridBounds(p.slaves, base, source);
    }
    if other >= 0 {
      SlaveVridBounds(p.slaves, base, other);
    }
    if 0 <= source < other {
      SlaveVridsRise(p.slaves, base, source, other);
    } else if 0 <= other < source {
      SlaveVridsRise(p.slaves, base, other, source);
    }
  }

  lemma {:induction false} LastPassive(slaves: seq<KeepalivedProvider>, base: int) returns (k: nat)
    requires PassiveCount(slaves) > 0
    ensures k < |slaves| && slaves[k].haMode == ActivePassive
    ensures SlaveVrid(slaves, base, k) == base + PassiveCount(slaves)
  {
    k := |slaves| - 1;
    if slaves[k].haMode == ActivePassive {
      assert slaves[..k + 1] == slaves;
    } else {
      k := LastPassive(slaves[..k], base);
      assert slaves[..|slaves| - 1][..k + 1] == slaves[..k + 1];
    }
  }

  /** Section 5.2.3 of RFC 5798: VRIDs are 1 to 255. */
  lemma VridsFitIff(p: IpvsdrProvider, base: int)
    ensures (1 <= base <= 255 &&
             forall k :: 0 <= k < |p.slaves| && p.slaves[k].haMode == ActivePassive ==>
               1 <= SlaveVrid(p.slaves, base, k) <= 255)
      <==> 1 <= base && base + PassiveCount(p.slaves) <= 255
  {
    if PassiveCount(p.slaves) > 0 {
      var k := LastPassive(p.slaves, base);
    }
    forall k | 0 <= k < |p.slaves| && p.slaves[k].haMode == ActivePassive
      ensures base < SlaveVrid(p.slaves, base, k) <= base + PassiveCount(p.slaves)
    {
      SlaveVridBounds(p.slaves, base, k);
    }
  }

  // ---- Peer lists ----

  /** With a quiescent status every node goes on with the same map: the reports of all spec nodes. */
  lemma QuiescentNets(names: seq<string>, reports: map<string, NodeStatus>, s: seq<NodeStatus>, a: string)
    requires Reporting(names, reports) && Quiescent(names, reports, s) && a in names
    ensures var nets := Known(a, reports[a], names, s);
      forall n :: n in names ==> n in nets && nets[n] == reports[n]
  {
    var nets := Known(a, reports[a], names, s);
    forall n | n in names ensures n in nets && nets[n] == reports[n] {
      FirstOfMerge(n, reports[n], names, s, n);
      KnownMember(a, reports[a], names, s, n);
    }
  }

  lemma OwnIPListed(
      parse: Parser, node: string, nodes: seq<string>, selectors: Selectors, nets: Nets, bind: Option<Bind>, v: Version)
    requires forall n :: n in nodes ==> n in selectors
    requires OwnNet(node, nodes, selectors, nets, bind).Some?
    ensures var ip := IPOf(parse, OwnNet(node, nodes, selectors, nets, bind).value, v);
      ip != "" ==> ip in PeerIPs(parse, NodeNets(nodes, selectors, nets, bind), v)
  {
    NodeNetsMember(nodes, selectors, nets, bind, OwnNet(node, nodes, selectors, nets, bind).value);
  }

  /** Two nodes that hold the same reports emit, for a virtual address, identical peer lists, in content and order,
      and the list holds both nodes' own addresses. */
  lemma PeerListsAgree(
      parse: Parser, nodes: seq<string>, selectors: Selectors, kl: KeepalivedProvider, vrid: int,
      a: string, netsA: Nets, prioA: int, va: VrrpInstance, b: string, netsB: Nets, prioB: int, vb: VrrpInstance)
    requires forall n :: n in nodes ==> n in selectors && n in netsA && n in netsB && netsA[n] == netsB[n]
    requires var ba := BlockOf(parse, a, nodes, selectors, netsA, kl, prioA, vrid); ba.Some? && va in ba.value.instances
    requires var bb := BlockOf(parse, b, nodes, selectors, netsB, kl, prioB, vrid); bb.Some? && vb in bb.value.instances
    requires va.vip == vb.vip
    ensures va.allIPs == vb.allIPs
    ensures va.myIP in va.allIPs && vb.myIP in va.allIPs
  {
    NodeNetsExtensional(nodes, selectors, netsA, netsB, kl.bind);
    var considered := ConsideredVIPs(parse, VIPsOf(kl));
    var ca := ConsideredOf(parse, nodes, selectors, kl, vrid, a, netsA, prioA, va);
    var cb := ConsideredOf(parse, nodes, selectors, kl, vrid, b, netsB, prioB, vb);
    OwnIPListed(parse, a, nodes, selectors, netsA, kl.bind, ca.version);
    OwnIPListed(parse, b, nodes, selectors, netsB, kl.bind, cb.version);
  }

  /** The considered address behind an emitted instance. */
  lemma ConsideredOf(
      parse: Parser, nodes: seq<string>, selectors: Selectors, kl: KeepalivedProvider, vrid: int,
      a: string, nets: Nets, prio: int, vi: VrrpInstance) returns (c: Considered)
    requires forall n :: n in nodes ==> n in selectors
    requires var b := BlockOf(parse, a, nodes, selectors, nets, kl, prio, vrid); b.Some? && vi in b.value.instances
    ensures parse(vi.vip).Some? && c == Considered(vi.vip, parse(vi.vip).value.version)
    ensures OwnNet(a, nodes, selectors, nets, kl.bind).Some?
    ensures vi.myIP != "" && vi.myIP == IPOf(parse, OwnNet(a, nodes, selectors, nets, kl.bind).value, c.version)
    ensures vi.allIPs == PeerIPs(parse, NodeNets(nodes, selectors, nets, kl.bind), c.version)
  {
    var mine := OwnNet(a, nodes, selectors, nets, kl.bind).value;
    var f := Frame(kl, StateOf(a, nodes, kl), prio, vrid, mine, NodeNets(nodes, selectors, nets, kl.bind));
    var considered := ConsideredVIPs(parse, VIPsOf(kl));
    FrameBlockUniform(parse, f, considered, vi);
    c :| c in considered && c.vip == vi.vip && vi == InstanceFor(parse, f, c) && IPOf(parse, f.mine, c.version) != "";
    ConsideredFromVIPs(parse, VIPsOf(kl), c);
  }

  /** The same for the real servers of the virtual servers. */
  lemma RealServersAgree(
      parse: Parser, nodes: seq<string>, selectors: Selectors, kl: KeepalivedProvider, vrid: int,
      a: string, netsA: Nets, prioA: int, sa: VirtualServer, b: string, netsB: Nets, prioB: int, sb: VirtualServer)
    requires forall n :: n in nodes ==> n in selectors && n in netsA && n in netsB && netsA[n] == netsB[n]
    requires var ba := BlockOf(parse, a, nodes, selectors, netsA, kl, prioA, vrid); ba.Some? && sa in ba.value.servers
    requires var bb := BlockOf(parse, b, nodes, selectors, netsB, kl, prioB, vrid); bb.Some? && sb in bb.value.servers
    requires sa.vip == sb.vip
    ensures sa == sb
  {
    NodeNetsExtensional(nodes, selectors, netsA, netsB, kl.bind);
    ServerShape(parse, nodes, selectors, kl, vrid, a, netsA, prioA, sa);
    ServerShape(parse, nodes, selectors, kl, vrid, b, netsB, prioB, sb);
  }

  lemma ServerShape(
      parse: Parser, nodes: seq<string>, selectors: Selectors, kl: KeepalivedProvider, vrid: int,
      a: string, nets: Nets, prio: int, vs: VirtualServer)
    requires forall n :: n in nodes ==> n in selectors
    requires var b := BlockOf(parse, a, nodes, selectors, nets, kl, prio, vrid); b.Some? && vs in b.value.servers
    ensures parse(vs.vip).Some?
    ensures vs == VirtualServer(1, vs.vip, kl.scheduler,
      PeerIPs(parse, NodeNets(nodes, selectors, nets, kl.bind), parse(vs.vip).value.version))
  {
    var mine := OwnNet(a, nodes, selectors, nets, kl.bind).value;
    var f := Frame(kl, StateOf(a, nodes, kl), prio, vrid, mine, NodeNets(nodes, selectors, nets, kl.bind));
    var considered := ConsideredVIPs(parse, VIPsOf(kl));
    FrameBlockServers(parse, f, considered, vs);
    var c :| c in considered && vs == ServerFor(parse, f, c);
    ConsideredFromVIPs(parse, VIPsOf(kl), c);
  }

  /** Once the status is quiescent, any two spec nodes emit identical peer lists for a virtual address. */
  lemma QuiescentPeerLists(
      parse: Parser, names: seq<string>, reports: map<string, NodeStatus>, s: seq<NodeStatus>, selectors: Selectors,
      kl: KeepalivedProvider, vrid: int, a: string, prioA: int, va: VrrpInstance, b: string, prioB: int, vb: VrrpInstance)
    requires Reporting(names, reports) && Quiescent(names, reports, s) && a in names && b in names
    requires forall n :: n in names ==> n in selectors
    requires forall n :: n in Sort(names, Id) ==> n in selectors
    requires var ba := BlockOf(parse, a, Sort(names, Id), selectors, Known(a, reports[a], names, s), kl, prioA, vrid);
      ba.Some? && va in ba.value.instances
    requires var bb := BlockOf(parse, b, Sort(names, Id), selectors, Known(b, reports[b], names, s), kl, prioB, vrid);
      bb.Some? && vb in bb.value.instances
    requires va.vip == vb.vip
    ensures va.allIPs == vb.allIPs && va.myIP in va.allIPs && vb.myIP in va.allIPs
  {
    SortSorts(names, Id);
    QuiescentNets(names, reports, s, a);
    QuiescentNets(names, reports, s, b);
    PeerListsAgree(parse, Sort(names, Id), selectors, kl, vrid,
                   a, Known(a, reports[a], names, s), prioA, va, b, Known(b, reports[b], names, s), prioB, vb);
  }
}
