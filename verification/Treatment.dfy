/** What a director's chains do to packets, in terms of the object and the port maps. */
module Treatment {
  import opened Basics
  import opened ObjectModel
  import opened NodeNetwork
  import opened Decimals
  import opened Ports
  import opened Chain
  import opened Keepalived
  import opened Director
  import opened Views

  // ---- Ports ----

  predicate HasKey(cm: ConfigMap, port: string) {
    cm.Some? && port in cm.value
  }

  /** The exported TCP ports: two reserved ones, the proxy's own two, and the keys of the map. */
  predicate TCPPort(spec: Spec, cm: ConfigMap, port: string) {
    || port == "450" || port == "451"
    || port == Itoa(if 1 < spec.httpPort < 65535 then spec.httpPort else 80)
    || port == Itoa(if 1 < spec.httpsPort < 65535 then spec.httpsPort else 443)
    || HasKey(cm, port)
  }

  lemma ExportedTCPAre(spec: Spec, cm: ConfigMap, port: string)
    ensures port in ExportedTCP(spec, cm) <==> TCPPort(spec, cm, port)
    ensures |ExportedTCP(spec, cm)| == 4 + if cm.Some? then |cm.value| else 0
  {
    var four := RESERVED_TCP_PORTS + [Itoa(HTTPPort(spec)), Itoa(HTTPSPort(spec))];
    assert RESERVED_TCP_PORTS == ["450", "451"];
    assert port in multiset(four) <==> port in four;
    assert |multiset(four)| == |four|;
    if cm.Some? {
      KeyCount(cm.value);
    }
  }

  lemma KeyCount(data: map<string, string>)
    ensures |data.Keys| == |data|
  {
  }

  lemma ExportedUDPAre(cm: ConfigMap, port: string)
    ensures port in ExportedUDP(cm) <==> HasKey(cm, port)
    ensures |ExportedUDP(cm)| == if cm.Some? then |cm.value| else 0
  {
    if cm.Some? {
      KeyCount(cm.value);
    }
  }

  /** The proxy's default ports in decimal. */
  lemma DefaultPortTexts()
    ensures Itoa(80) == "80" && Itoa(443) == "443"
  {
  }

  // ---- Packets ----

  /** A virtual address of the provider, in the packet's family. */
  ghost predicate VirtualAddress(parse: Parser, main: KeepalivedProvider, v6: bool, dst: string) {
    exists vip: string ::
      (if |main.vips| > 0 then vip in main.vips else vip == main.vip) && vip != "" &&
      parse(vip).Some? && parse(vip).value.version.V6? == v6 && parse(vip).value.text == dst
  }

  /** The packet carries the MAC address of the interface that some node of the object uses. */
  ghost predicate FromGroup(h: Host, o: Stored, mac: string)
    requires Resolvable(h, o.spec)
  {
    mac != "" && exists n, net ::
      n in o.spec.names && IfaceOn(h, o, o.spec.ipvsdr.value.main.bind, n) == Some(net) && net.iface.mac == mac
  }

  ghost predicate ToExported(covers: Covers, spec: Spec, tcpcm: ConfigMap, udpcm: ConfigMap, p: Packet) {
    || (p.proto == "tcp" && exists port :: TCPPort(spec, tcpcm, port) && (port == "" || covers(port, p.dport)))
    || (p.proto == "udp" && exists port :: HasKey(udpcm, port) && (port == "" || covers(port, p.dport)))
  }

  /** The promised treatment. In ActivePassive mode every packet keeps its mark. Otherwise, on the way to a virtual
      address on the own interface, a packet of the group loses the mark bit and any other packet to an exported port
      gets it; every other packet keeps its mark. */
  ghost function Treated(
      h: Host, o: Stored, tcpcm: ConfigMap, udpcm: ConfigMap, covers: Covers, v: Version, p: Packet, mark: Mark): Mark
    requires Resolvable(h, o.spec)
  {
    var main := o.spec.ipvsdr.value.main;
    var own := IfaceOn(h, o, main.bind, h.nodeName);
    if main.haMode == ActivePassive || own.None? || p.iface != own.value.iface.name ||
       !VirtualAddress(h.parse, main, v.V6?, p.dst) then mark
    else if FromGroup(h, o, p.mac) then mark - mark % 2
    else if ToExported(covers, o.spec, tcpcm, udpcm, p) then mark - mark % 2 + 1
    else mark
  }

  lemma VipsAre(parse: Parser, main: KeepalivedProvider, v6: bool, dst: string)
    ensures IsVip(parse, VIPsOf(main), v6, dst) <==> VirtualAddress(parse, main, v6, dst)
  {
    forall vip: string ensures vip in VIPsOf(main) <==> (if |main.vips| > 0 then vip in main.vips else vip == main.vip) {
    }
  }

  lemma GroupIs(h: Host, o: Stored, mac: string)
    requires Resolvable(h, o.spec)
    ensures FromNeighbour(IfacesOn(h, o, o.spec.ipvsdr.value.main.bind, o.spec.names), mac) <==> FromGroup(h, o, mac)
  {
    hide IfacesOn, IfaceOn;
    var bind := o.spec.ipvsdr.value.main.bind;
    forall net ensures net in IfacesOn(h, o, bind, o.spec.names) <==>
      exists n :: n in o.spec.names && IfaceOn(h, o, bind, n) == Some(net)
    {
      IfacesMember(h, o, bind, o.spec.names, net);
    }
  }

  lemma CoveredIs(covers: Covers, ports: seq<string>, all: multiset<string>, dport: nat)
    requires multiset(ports) == all
    ensures PortCovered(covers, ports, dport) <==> exists port :: port in all && (port == "" || covers(port, dport))
  {
    forall port ensures port in ports <==> port in all {
      assert port in ports <==> port in multiset(ports);
    }
  }

  lemma ExportedIs(
      covers: Covers, g: Program, spec: Spec, tcpcm: ConfigMap, udpcm: ConfigMap, p: Packet)
    requires multiset(g.tcps) == ExportedTCP(spec, tcpcm) && multiset(g.udps) == ExportedUDP(udpcm)
    ensures Exported(covers, g, p) <==> ToExported(covers, spec, tcpcm, udpcm, p)
  {
    CoveredIs(covers, g.tcps, ExportedTCP(spec, tcpcm), p.dport);
    CoveredIs(covers, g.udps, ExportedUDP(udpcm), p.dport);
    hide ExportedTCP, ExportedUDP, TCPPort, HasKey, PortCovered;
    forall port ensures port in ExportedTCP(spec, tcpcm) <==> TCPPort(spec, tcpcm, port) {
      ExportedTCPAre(spec, tcpcm, port);
    }
    forall port ensures port in ExportedUDP(udpcm) <==> HasKey(udpcm, port) {
      ExportedUDPAre(udpcm, port);
    }
  }

  /** Chains installed for an object treat every packet as promised. */
  lemma InstalledTreats(
      h: Host, o: Stored, tcps: seq<string>, udps: seq<string>, t: Tables, tcpcm: ConfigMap, udpcm: ConfigMap,
      covers: Covers, v: Version, p: Packet, mark: Mark)
    requires Installed(h, o, tcps, udps, t)
    requires multiset(tcps) == ExportedTCP(o.spec, tcpcm) && multiset(udps) == ExportedUDP(udpcm)
    ensures Eval(covers, t.For(v), p, mark) == Treated(h, o, tcpcm, udpcm, covers, v, p, mark)
  {
    var main, g := o.spec.ipvsdr.value.main, ProgramOf(h, o, tcps, udps);
    ChainClassifies(h.parse, covers, g, t, v, p, mark);
    OwnNetIs(h, o, main.bind, o.spec.names);
    NodeNetsAre(h, o, main.bind, o.spec.names);
    hide Eval, Programmed, IfaceOn, IfacesOn, NodeNets, OwnNet, SelectorsOf, KnownNets, IsVip, VirtualAddress, FromNeighbour,
         FromGroup, Exported, ToExported, ExportedTCP, ExportedUDP;
    VipsAre(h.parse, main, v.V6?, p.dst);
    GroupIs(h, o, p.mac);
    ExportedIs(covers, g, o.spec, tcpcm, udpcm, p);
  }

  lemma {:induction false} ListOf(s: set<string>) returns (r: seq<string>)
    ensures multiset(r) == multiset(s)
  {
    if s == {} {
      r := [];
    } else {
      var x :| x in s;
      r := ListOf(s - {x});
      r := r + [x];
      assert s == (s - {x}) + {x};
    }
  }

  /** Chains that are up to date treat every packet as the object and the port maps promise. */
  lemma UpToDateTreats(
      h: Host, o: Stored, tcpcm: ConfigMap, udpcm: ConfigMap, t: Tables, covers: Covers, v: Version, p: Packet, mark: Mark)
    requires UpToDate(h, o, tcpcm, udpcm, t)
    ensures Resolvable(h, o.spec) && IfaceOn(h, o, o.spec.ipvsdr.value.main.bind, h.nodeName).Some?
    ensures Eval(covers, t.For(v), p, mark) == Treated(h, o, tcpcm, udpcm, covers, v, p, mark)
  {
    var extra := ListOf(Ports.KeysOf(tcpcm));
    var tcps := RESERVED_TCP_PORTS + [Itoa(HTTPPort(o.spec)), Itoa(HTTPSPort(o.spec))] + extra;
    var udps := ListOf(Ports.KeysOf(udpcm));
    assert multiset(tcps) == ExportedTCP(o.spec, tcpcm) && multiset(udps) == ExportedUDP(udpcm);
    assert Installed(h, o, tcps, udps, t);
    hide Installed, ExportedTCP, ExportedUDP, IfaceOn, Treated, Eval;
    InstalledTreats(h, o, tcps, udps, t, tcpcm, udpcm, covers, v, p, mark);
    InstalledHasOwn(h, o, tcps, udps, t);
  }

  lemma InstalledHasOwn(h: Host, o: Stored, tcps: seq<string>, udps: seq<string>, t: Tables)
    requires Installed(h, o, tcps, udps, t)
    ensures Resolvable(h, o.spec) && IfaceOn(h, o, o.spec.ipvsdr.value.main.bind, h.nodeName).Some?
  {
    OwnNetIs(h, o, o.spec.ipvsdr.value.main.bind, o.spec.names);
  }

  /** In ActivePassive mode every packet keeps its mark. */
  lemma ActivePassiveKeepsMarks(
      h: Host, o: Stored, tcps: seq<string>, udps: seq<string>, t: Tables, covers: Covers, v: Version, p: Packet, mark: Mark)
    requires Installed(h, o, tcps, udps, t) && o.spec.ipvsdr.value.main.haMode == ActivePassive
    ensures Eval(covers, t.For(v), p, mark) == mark
  {
    ChainClassifies(h.parse, covers, ProgramOf(h, o, tcps, udps), t, v, p, mark);
  }
}
