/** The keepalived configuration that each director compiles from the agreed object. */
module Keepalived {
  import opened Basics
  import opened Sorting
  import opened ObjectModel
  import opened Registration
  import opened NodeNetwork

  datatype VrrpInstance = VrrpInstance(
    name: string, state: string, vrid: int, priority: int, iface: string, myIP: string, allIPs: seq<string>, vip: string)

  datatype VirtualServer = VirtualServer(acceptMark: nat, vip: string, scheduler: string, realServers: seq<string>)

  datatype Block = Block(instances: seq<VrrpInstance>, servers: seq<VirtualServer>)

  type Selectors = map<string, Selector>
  type Nets = map<string, NodeStatus>

  // ---- The interfaces of the group ----

  function NetOfNode(selectors: Selectors, nets: Nets, bind: Option<Bind>, node: string): Option<PreferredNet>
    requires node in selectors
  {
    if node in nets then NodeNetworkOf(selectors[node], nets[node].ifaces, bind) else None
  }

  function NodeNets(nodes: seq<string>, selectors: Selectors, nets: Nets, bind: Option<Bind>): (r: seq<PreferredNet>)
    requires forall n :: n in nodes ==> n in selectors
  {
    if nodes == [] then []
    else
      var last := nodes[|nodes| - 1];
      NodeNets(nodes[..|nodes| - 1], selectors, nets, bind) +
      match NetOfNode(selectors, nets, bind, last)
      case Some(n) => [n]
      case None => []
  }

  function OwnNet(nodeName: string, nodes: seq<string>, selectors: Selectors, nets: Nets, bind: Option<Bind>): Option<PreferredNet>
    requires forall n :: n in nodes ==> n in selectors
  {
    if nodeName in nodes then NetOfNode(selectors, nets, bind, nodeName) else None
  }

  method GetIPs(nodeName: string, nodes: seq<string>, selectors: Selectors, nets: Nets, bind: Option<Bind>)
    returns (mine: Option<PreferredNet>, all: seq<PreferredNet>)
    requires forall n :: n in nodes ==> n in selectors
    ensures mine == OwnNet(nodeName, nodes, selectors, nets, bind)
    ensures all == NodeNets(nodes, selectors, nets, bind)
  {
    mine, all := None, [];
    for i := 0 to |nodes|
      invariant mine == OwnNet(nodeName, nodes[..i], selectors, nets, bind)
      invariant all == NodeNets(nodes[..i], selectors, nets, bind)
    {
      var node := nodes[i];
      assert nodes[..i + 1] == nodes[..i] + [node];
      assert nodes[..i + 1][..i] == nodes[..i];
      if node !in nets {
        continue;
      }
      var net := GetNodeNetwork(selectors[node], nets[node].ifaces, bind);
      if net.Some? {
        all := all + [net.value];
      }
      if node == nodeName {
        mine := net;
      }
    }
    assert nodes[..|nodes|] == nodes;
  }

  lemma {:induction false} NodeNetsMember(nodes: seq<string>, selectors: Selectors, nets: Nets, bind: Option<Bind>, x: PreferredNet)
    requires forall n :: n in nodes ==> n in selectors
    ensures x in NodeNets(nodes, selectors, nets, bind) <==>
      exists n :: n in nodes && NetOfNode(selectors, nets, bind, n) == Some(x)
  {
    if nodes != [] {
      var init, last := nodes[..|nodes| - 1], nodes[|nodes| - 1];
      NodeNetsMember(init, selectors, nets, bind, x);
      assert nodes == init + [last];
      assert forall n :: n in nodes <==> n in init || n == last;
    }
  }

  lemma {:induction false} NodeNetsExtensional(
      nodes: seq<string>, selectors: Selectors, a: Nets, b: Nets, bind: Option<Bind>)
    requires forall n :: n in nodes ==> n in selectors
    requires forall n :: n in nodes ==> n in a && n in b && a[n] == b[n]
    ensures NodeNets(nodes, selectors, a, bind) == NodeNets(nodes, selectors, b, bind)
  {
    if nodes != [] {
      NodeNetsExtensional(nodes[..|nodes| - 1], selectors, a, b, bind);
    }
  }

  // ---- One block ----

  function VIPsOf(kl: KeepalivedProvider): seq<string> {
    if |kl.vips| > 0 then kl.vips else [kl.vip]
  }

  datatype Considered = Considered(vip: string, version: Version)

  /** The addresses a block considers: unparsable ones and repetitions of the previous family are skipped. */
  function ConsideredVIPs(parse: Parser, vips: seq<string>): seq<Considered> {
    if vips == [] then []
    else
      var before := ConsideredVIPs(parse, vips[..|vips| - 1]);
      var vip := vips[|vips| - 1];
      match parse(vip)
      case None => before
      case Some(ip) =>
        if before != [] && before[|before| - 1].version == ip.version then before
        else before + [Considered(vip, ip.version)]
  }

  /** The addresses of one family of all ready nodes, in node order. */
  function PeerIPs(parse: Parser, peers: seq<PreferredNet>, v: Version): (r: seq<string>)
    ensures forall n :: n in peers && IPOf(parse, n, v) != "" ==> IPOf(parse, n, v) in r
  {
    if peers == [] then []
    else
      var last := IPOf(parse, peers[|peers| - 1], v);
      assert peers == peers[..|peers| - 1] + [peers[|peers| - 1]];
      PeerIPs(parse, peers[..|peers| - 1], v) + if last != "" then [last] else []
  }

  method CollectIPs(parse: Parser, peers: seq<PreferredNet>, v: Version) returns (ips: seq<string>)
    ensures ips == PeerIPs(parse, peers, v)
  {
    ips := [];
    for i := 0 to |peers|
      invariant ips == PeerIPs(parse, peers[..i], v)
    {
      assert peers[..i + 1][..i] == peers[..i];
      var ip := GetIP(parse, peers[i], v);
      if ip == "" {
        continue;
      }
      ips := ips + [ip];
    }
    assert peers[..|peers|] == peers;
  }

  predicate IsWordChar(c: char) {
    'a' <= c <= 'z' || 'A' <= c <= 'Z' || '0' <= c <= '9' || c == '_'
  }

  /** Every character outside the word class becomes an underscore. */
  function WordName(name: string): string {
    seq(|name|, i requires 0 <= i < |name| => if IsWordChar(name[i]) then name[i] else '_')
  }

  function VersionDigit(v: Version): string {
    match v
    case V4 => "4"
    case V6 => "6"
    case Unknown => "unknown"
  }

  /** What stays the same over the addresses of one block. */
  datatype Frame = Frame(
    kl: KeepalivedProvider, state: string, priority: int, vrid: int, mine: PreferredNet, peers: seq<PreferredNet>)

  function InstanceFor(parse: Parser, f: Frame, c: Considered): VrrpInstance {
    VrrpInstance(
      WordName(f.mine.iface.name + "_" + VersionDigit(c.version)), f.state, f.vrid, f.priority,
      f.mine.iface.name, IPOf(parse, f.mine, c.version), PeerIPs(parse, f.peers, c.version), c.vip)
  }

  function ServerFor(parse: Parser, f: Frame, c: Considered): VirtualServer {
    VirtualServer(1, c.vip, f.kl.scheduler, PeerIPs(parse, f.peers, c.version))
  }

  function FrameBlock(parse: Parser, f: Frame, considered: seq<Considered>): Block {
    if considered == [] then Block([], [])
    else
      var c := considered[|considered| - 1];
      var before := FrameBlock(parse, f, considered[..|considered| - 1]);
      if IPOf(parse, f.mine, c.version) == "" then before
      else Block(
        before.instances + [InstanceFor(parse, f, c)],
        before.servers + if f.kl.haMode != ActivePassive then [ServerFor(parse, f, c)] else [])
  }

  function StateOf(nodeName: string, nodes: seq<string>, kl: KeepalivedProvider): string {
    if kl.haMode == ActivePassive && nodes != [] && nodes[|nodes| - 1] == nodeName then "MASTER" else "BACKUP"
  }

  /** The block of one provider on one node; None when the node's own interface is missing. */
  function BlockOf(
      parse: Parser, nodeName: string, nodes: seq<string>, selectors: Selectors, nets: Nets,
      kl: KeepalivedProvider, priority: int, vrid: int): Option<Block>
    requires forall n :: n in nodes ==> n in selectors
  {
    match OwnNet(nodeName, nodes, selectors, nets, kl.bind)
    case None => None
    case Some(mine) =>
      var f := Frame(kl, StateOf(nodeName, nodes, kl), priority, vrid, mine, NodeNets(nodes, selectors, nets, kl.bind));
      Some(FrameBlock(parse, f, ConsideredVIPs(parse, VIPsOf(kl))))
  }

  lemma FrameBlockAppend(parse: Parser, f: Frame, considered: seq<Considered>, c: Considered)
    ensures var before := FrameBlock(parse, f, considered);
      FrameBlock(parse, f, considered + [c]) ==
      if IPOf(parse, f.mine, c.version) == "" then before
      else Block(
        before.instances + [InstanceFor(parse, f, c)],
        before.servers + if f.kl.haMode != ActivePassive then [ServerFor(parse, f, c)] else [])
  {
    assert (considered + [c])[..|considered|] == considered;
  }

  /** The instance, and in active mode the virtual server, of one considered address, if this node has an address
      of its family. */
  method AppendInstance(parse: Parser, f: Frame, b: Block, ghost considered: seq<Considered>, c: Considered)
    returns (r: Block)
    requires b == FrameBlock(parse, f, considered)
    ensures r == FrameBlock(parse, f, considered + [c])
  {
    FrameBlockAppend(parse, f, considered, c);
    var myIP := GetIP(parse, f.mine, c.version);
    if myIP == "" {
      return b;
    }
    var allIPs := CollectIPs(parse, f.peers, c.version);
    var name := WordName(f.mine.iface.name + "_" + VersionDigit(c.version));
    var vi := VrrpInstance(name, f.state, f.vrid, f.priority, f.mine.iface.name, myIP, allIPs, c.vip);
    var servers := b.servers;
    if f.kl.haMode != ActivePassive {
      servers := servers + [VirtualServer(1, c.vip, f.kl.scheduler, allIPs)];
    }
    return Block(b.instances + [vi], servers);
  }

  lemma ConsideredNext(parse: Parser, vips: seq<string>, i: nat)
    requires i < |vips|
    ensures var before := ConsideredVIPs(parse, vips[..i]);
      ConsideredVIPs(parse, vips[..i + 1]) ==
      if parse(vips[i]).None? then before
      else
        var version := parse(vips[i]).value.version;
        if before != [] && before[|before| - 1].version == version then before
        else before + [Considered(vips[i], version)]
  {
    assert vips[..i + 1][..i] == vips[..i];
  }

  lemma NothingConsidered(parse: Parser, f: Frame, vips: seq<string>)
    ensures ConsideredVIPs(parse, vips[..0]) == [] && FrameBlock(parse, f, []) == Block([], [])
  {
  }

  method BuildBlock(parse: Parser, f: Frame) returns (b: Block)
    ensures b == FrameBlock(parse, f, ConsideredVIPs(parse, VIPsOf(f.kl)))
  {
    var vips := VIPsOf(f.kl);
    var previous: Option<Version> := None;
    ghost var considered: seq<Considered> := [];
    b := Block([], []);
    hide *;
    NothingConsidered(parse, f, vips);
    for i := 0 to |vips|
      invariant considered == ConsideredVIPs(parse, vips[..i])
      invariant previous == if considered == [] then None else Some(considered[|considered| - 1].version)
      invariant b == FrameBlock(parse, f, considered)
    {
      ConsideredNext(parse, vips, i);
      var ip := parse(vips[i]);
      if ip.None? {
        continue;
      }
      var version := ip.value.version;
      if previous == Some(version) {
        continue;
      }
      previous := Some(version);
      b := AppendInstance(parse, f, b, considered, Considered(vips[i], version));
      considered := considered + [Considered(vips[i], version)];
    }
    assert vips[..|vips|] == vips;
  }

  method GetKeepalivedConfigBlock(
      parse: Parser, nodeName: string, nodes: seq<string>, selectors: Selectors, nets: Nets,
      kl: KeepalivedProvider, priority: int, vrid: int)
    returns (r: Option<Block>)
    requires forall n :: n in nodes ==> n in selectors
    ensures r == BlockOf(parse, nodeName, nodes, selectors, nets, kl, priority, vrid)
  {
    var mine, peers := GetIPs(nodeName, nodes, selectors, nets, kl.bind);
    if mine.None? {
      return None;
    }
    var state := "BACKUP";
    if kl.haMode == ActivePassive {
      if nodes[|nodes| - 1] == nodeName {
        state := "MASTER";
      }
    }
    var b := BuildBlock(parse, Frame(kl, state, priority, vrid, mine.value, peers));
    return Some(b);
  }

  // ---- Priorities ----

  function Pos(nodes: seq<string>, node: string): int {
    if nodes == [] then -1
    else if nodes[0] == node then 0
    else var p := Pos(nodes[1..], node); if p < 0 then -1 else p + 1
  }

  /** `stringSlice.pos`: the position of the first occurrence, -1 when there is none. */
  method FindPos(nodes: seq<string>, node: string) returns (p: int)
    ensures p == Pos(nodes, node)
    ensures p == -1 <==> node !in nodes
    ensures p != -1 ==> 0 <= p < |nodes| && nodes[p] == node && node !in nodes[..p]
  {
    for i := 0 to |nodes|
      invariant node !in nodes[..i]
      invariant Pos(nodes, node) == if Pos(nodes[i..], node) < 0 then -1 else Pos(nodes[i..], node) + i
    {
      if nodes[i] == node {
        return i;
      }
      assert nodes[i..][1..] == nodes[i + 1..];
    }
    return -1;
  }

  lemma {:induction false} PosOfElement(nodes: seq<string>, i: nat)
    requires Distinct(nodes) && i < |nodes|
    ensures Pos(nodes, nodes[i]) == i
  {
    if i > 0 {
      assert nodes[1..][i - 1] == nodes[i];
      PosOfElement(nodes[1..], i - 1);
    }
  }

  function Priority(nodes: seq<string>, node: string): int {
    100 + Pos(nodes, node) * 60
  }

  // ---- The whole configuration ----

  function PassiveCount(slaves: seq<KeepalivedProvider>): nat {
    if slaves == [] then 0
    else PassiveCount(slaves[..|slaves| - 1]) + if slaves[|slaves| - 1].haMode == ActivePassive then 1 else 0
  }

  const DEFAULT_VRID := 110

  /** The block of one slave, None when it is skipped or fails. */
  function SlaveBlock(
      parse: Parser, nodeName: string, nodes: seq<string>, selectors: Selectors, nets: Nets,
      slaves: seq<KeepalivedProvider>, vrid: int, k: nat): Option<Block>
    requires forall n :: n in nodes ==> n in selectors
    requires k < |slaves|
  {
    if slaves[k].haMode != ActivePassive then None
    else BlockOf(parse, nodeName, nodes, selectors, nets, slaves[k], Priority(nodes, nodeName),
                 vrid + PassiveCount(slaves[..k + 1]))
  }

  function Extend(b: Block, more: Option<Block>): Block {
    match more
    case None => b
    case Some(m) => Block(b.instances + m.instances, b.servers + m.servers)
  }

  /** A block followed by those of the first k slaves; a slave that fails still uses up its VRID. */
  function WithSlaves(
      parse: Parser, nodeName: string, nodes: seq<string>, selectors: Selectors, nets: Nets,
      slaves: seq<KeepalivedProvider>, vrid: int, k: nat, main: Block): Block
    requires forall n :: n in nodes ==> n in selectors
    requires k <= |slaves|
  {
    if k == 0 then main
    else Extend(WithSlaves(parse, nodeName, nodes, selectors, nets, slaves, vrid, k - 1, main),
                SlaveBlock(parse, nodeName, nodes, selectors, nets, slaves, vrid, k - 1))
  }

  function ConfigOf(
      parse: Parser, nodeName: string, nodes: seq<string>, selectors: Selectors, nets: Nets,
      p: IpvsdrProvider, vrid: int): Option<Block>
    requires forall n :: n in nodes ==> n in selectors
  {
    match BlockOf(parse, nodeName, nodes, selectors, nets, p.main, Priority(nodes, nodeName), vrid)
    case None => None
    case Some(main) => Some(WithSlaves(parse, nodeName, nodes, selectors, nets, p.slaves, vrid, |p.slaves|, main))
  }

  function BaseVrid(spec: Spec): int {
    spec.vrid.GetOr(DEFAULT_VRID)
  }

  lemma WithNextSlave(
      parse: Parser, nodeName: string, nodes: seq<string>, selectors: Selectors, nets: Nets,
      slaves: seq<KeepalivedProvider>, base: int, i: nat, main: Block)
    requires i < |slaves| && forall n :: n in nodes ==> n in selectors
    ensures PassiveCount(slaves[..i + 1]) == PassiveCount(slaves[..i]) + if slaves[i].haMode == ActivePassive then 1 else 0
    ensures WithSlaves(parse, nodeName, nodes, selectors, nets, slaves, base, i + 1, main) ==
      Extend(WithSlaves(parse, nodeName, nodes, selectors, nets, slaves, base, i, main),
             if slaves[i].haMode != ActivePassive then None
             else BlockOf(parse, nodeName, nodes, selectors, nets, slaves[i], Priority(nodes, nodeName),
                          base + PassiveCount(slaves[..i]) + 1))
  {
    assert slaves[..i + 1][..i] == slaves[..i];
  }

  /** The loop over the slaves: the VRID is taken before the block can fail. */
  method AppendSlaves(
      parse: Parser, nodeName: string, nodes: seq<string>, selectors: Selectors, nets: Nets,
      slaves: seq<KeepalivedProvider>, priority: int, base: int, main: Block)
    returns (config: Block)
    requires forall n :: n in nodes ==> n in selectors
    requires priority == Priority(nodes, nodeName)
    ensures config == WithSlaves(parse, nodeName, nodes, selectors, nets, slaves, base, |slaves|, main)
  {
    var vrid := base;
    config := main;
    for i := 0 to |slaves|
      invariant vrid == base + PassiveCount(slaves[..i])
      invariant config == WithSlaves(parse, nodeName, nodes, selectors, nets, slaves, base, i, main)
    {
      WithNextSlave(parse, nodeName, nodes, selectors, nets, slaves, base, i, main);
      if slaves[i].haMode != ActivePassive {
        continue;
      }
      vrid := vrid + 1;
      var b := GetKeepalivedConfigBlock(parse, nodeName, nodes, selectors, nets, slaves[i], priority, vrid);
      if b.None? {
        continue;
      }
      config := Block(config.instances + b.value.instances, config.servers + b.value.servers);
    }
  }

  method BuildKeepalivedConfig(
      parse: Parser, nodeName: string, spec: Spec, selectors: Selectors, nets: Nets)
    returns (r: Option<Block>)
    requires spec.ipvsdr.Some? && forall n :: n in spec.names ==> n in selectors
    ensures (forall n :: n in Sort(spec.names, Id) ==> n in selectors) &&
      r == ConfigOf(parse, nodeName, Sort(spec.names, Id), selectors, nets, spec.ipvsdr.value, BaseVrid(spec))
  {
    SortSorts(spec.names, Id);
    var nodes := Sort(spec.names, Id);
    var vrid := DEFAULT_VRID;
    if spec.vrid.Some? {
      vrid := spec.vrid.value;
    }
    var p := spec.ipvsdr.value;
    var position := FindPos(nodes, nodeName);
    var priority := 100 + position * 60;
    var main := GetKeepalivedConfigBlock(parse, nodeName, nodes, selectors, nets, p.main, priority, vrid);
    if main.None? {
      return None;
    }
    var config := AppendSlaves(parse, nodeName, nodes, selectors, nets, p.slaves, priority, vrid, main.value);
    return Some(config);
  }
}
