/** The group-wide promise: a packet that a director forwards is not accepted again by another director. */
module Forwarding {
  import opened Basics
  import opened Sorting
  import opened ObjectModel
  import opened Registration
  import opened RegistrationRuns
  import opened Convergence
  import opened NodeNetwork
  import opened Chain
  import opened Keepalived
  import opened Agreement
  import opened Director

  /** The directors of one object: what they report, and what every one of them reads. */
  datatype Group = Group(
    parse: Parser, spec: Spec, status: seq<NodeStatus>, reports: map<string, NodeStatus>, nodes: K8sNodes)

  /** The status is quiescent and every node of the spec is known. */
  ghost predicate GroupSettled(g: Group) {
    && g.spec.ipvsdr.Some?
    && Reporting(g.spec.names, g.reports)
    && Quiescent(g.spec.names, g.reports, g.status)
    && forall n :: n in g.spec.names ==> n in g.nodes
  }

  /** After any run of the registration protocol, two rounds over the spec nodes settle the group if and only if the
      store already listed all reports or some node that has something to write can see it. */
  lemma RegistrationSettles(
      s: State, steps: seq<Step>, first: seq<string>, second: seq<string>, reports: map<string, NodeStatus>,
      parse: Parser, nodes: K8sNodes)
    requires Init(s) && Runs(s, steps)
    requires var names := s.history[0].spec.names;
      && names != [] && FixedWorld(steps, names, reports) && Reporting(names, reports)
      && Visits(first, names) && Visits(second, names)
    ensures Tracked(After(s, steps), s.history[0].spec.names, reports)
    ensures var names, t := s.history[0].spec.names, After(s, steps);
      var end := Current(TwoRounds(t, first, second, names, reports));
      end.spec.ipvsdr.Some? && (forall n :: n in names ==> n in nodes) ==>
      (GroupSettled(Group(parse, end.spec, end.status, reports, nodes)) <==>
        || Current(t).status == AllReports(names, reports)
        || exists n :: n in names && NeedsWrite(t, n, reports[n]) && !Deaf(s, steps, n))
  {
    var names := s.history[0].spec.names;
    RoundsConvergeIff(s, steps, first, second, names, reports);
    var end := Current(TwoRounds(After(s, steps), first, second, names, reports));
    assert end.spec.names == names;
    QuiescentIffAllReports(names, reports, end.status);
  }

  function GroupSelectors(g: Group): Selectors
    requires g.spec.ipvsdr.Some? && forall n :: n in g.spec.names ==> n in g.nodes
  {
    map n | n in g.spec.names :: SelectorFor(g.parse, g.nodes[n], AllBinds(g.spec.ipvsdr.value))
  }

  /** The interface that director d uses, chosen from its own report. */
  function IfaceOf(g: Group, d: string): Option<PreferredNet>
    requires g.spec.ipvsdr.Some? && (forall n :: n in g.spec.names ==> n in g.nodes)
    requires d in g.spec.names && d in g.reports
  {
    NodeNetworkOf(GroupSelectors(g)[d], g.reports[d].ifaces, g.spec.ipvsdr.value.main.bind)
  }

  /** Every director's interface can be selected and has a MAC address. */
  ghost predicate Reachable(g: Group)
    requires GroupSettled(g)
  {
    forall d :: d in g.spec.names ==> IfaceOf(g, d).Some? && IfaceOf(g, d).value.iface.mac != ""
  }

  /** The host of director d in this group: its interfaces are the ones its report was made from. */
  ghost predicate HostOf(g: Group, d: string, h: Host)
    requires GroupSettled(g)
  {
    && d in g.spec.names
    && h.parse == g.parse && h.nodeName == d && h.nodes == g.nodes
    && ReportOf(h, g.spec.ipvsdr.value) == g.reports[d]
  }

  /** A packet on its way through a director, with the mark it arrives with. */
  datatype Hop = Hop(director: string, version: Version, packet: Packet, mark: Mark)

  /** Whether the director hands the packet to the virtual server. */
  predicate Accepts(covers: Covers, t: Tables, hop: Hop) {
    Eval(covers, t.For(hop.version), hop.packet, hop.mark) % 2 == ACCEPT_MARK
  }

  /** On every director, every other director is a neighbour of its program. */
  lemma EveryDirectorIsNeighbour(g: Group, h: Host, d: string, e: string, version: nat, tcps: seq<string>, udps: seq<string>)
    requires GroupSettled(g) && Reachable(g) && HostOf(g, d, h) && e in g.spec.names
    requires Resolvable(h, g.spec)
    ensures var o := Stored(version, g.spec, g.status);
      OwnIface(h, o).Some? &&
      FromNeighbour(ProgramOf(h, o, tcps, udps).neighbours, IfaceOf(g, e).value.iface.mac)
  {
    var o := Stored(version, g.spec, g.status);
    var p := g.spec.ipvsdr.value;
    QuiescentNets(g.spec.names, g.reports, g.status, d);
    assert SelectorsOf(h, p, g.spec.names) == GroupSelectors(g);
    assert KnownNets(h, o)[e] == g.reports[e] && KnownNets(h, o)[d] == g.reports[d];
    NodeNetsMember(g.spec.names, GroupSelectors(g), KnownNets(h, o), p.main.bind, IfaceOf(g, e).value);
    assert NetOfNode(GroupSelectors(g), KnownNets(h, o), p.main.bind, e) == Some(IfaceOf(g, e).value);
  }

  /** A packet that carries a director's MAC address leaves every director's chain with mark bit 0,
      given that it arrived with mark bit 0. */
  lemma DirectorIgnoresDirector(
      g: Group, h: Host, d: string, e: string, version: nat, tcps: seq<string>, udps: seq<string>,
      covers: Covers, t: Tables, hop: Hop)
    requires GroupSettled(g) && Reachable(g) && HostOf(g, d, h) && e in g.spec.names
    requires g.spec.ipvsdr.value.main.haMode == ActiveActive
    requires Installed(h, Stored(version, g.spec, g.status), tcps, udps, t)
    requires hop.packet.mac == IfaceOf(g, e).value.iface.mac && hop.mark % 2 == 0
    ensures !Accepts(covers, t, hop)
  {
    var o := Stored(version, g.spec, g.status);
    EveryDirectorIsNeighbour(g, h, d, e, version, tcps, udps);
    ChainClassifies(g.parse, covers, ProgramOf(h, o, tcps, udps), t, hop.version, hop.packet, hop.mark);
  }

  /** What each director has installed, possibly from different versions of the object and port maps. */
  datatype Setup = Setup(host: Host, version: nat, tcps: seq<string>, udps: seq<string>, tables: Tables)

  ghost predicate Configured(g: Group, setups: map<string, Setup>)
    requires GroupSettled(g)
  {
    forall d :: d in g.spec.names ==>
      d in setups && HostOf(g, d, setups[d].host) &&
      Installed(setups[d].host, Stored(setups[d].version, g.spec, g.status), setups[d].tcps, setups[d].udps, setups[d].tables)
  }

  /** A forwarding path: each hop is at a director, arrives unmarked, and after the first hop comes from the
      interface of the director before it. */
  ghost predicate Path(g: Group, hops: seq<Hop>)
    requires GroupSettled(g) && Reachable(g)
  {
    && (forall i :: 0 <= i < |hops| ==> hops[i].director in g.spec.names && hops[i].mark % 2 == 0)
    && (forall i :: 0 < i < |hops| ==> hops[i].packet.mac == IfaceOf(g, hops[i - 1].director).value.iface.mac)
  }

  /** No forwarding loop: along any path only the first director can accept, so at most one does. */
  lemma NoForwardingLoop(g: Group, setups: map<string, Setup>, covers: Covers, hops: seq<Hop>)
    requires GroupSettled(g) && Reachable(g) && Configured(g, setups) && Path(g, hops)
    requires g.spec.ipvsdr.value.main.haMode == ActiveActive
    ensures forall i :: 0 < i < |hops| ==> !Accepts(covers, setups[hops[i].director].tables, hops[i])
    ensures forall i, j | 0 <= i < |hops| && 0 <= j < |hops| ::
      (Accepts(covers, setups[hops[i].director].tables, hops[i]) &&
       Accepts(covers, setups[hops[j].director].tables, hops[j])) ==> i == j
  {
    forall i | 0 < i < |hops| ensures !Accepts(covers, setups[hops[i].director].tables, hops[i]) {
      var d := hops[i].director;
      var s := setups[d];
      DirectorIgnoresDirector(g, s.host, d, hops[i - 1].director, s.version, s.tcps, s.udps, covers, s.tables, hops[i]);
    }
  }
}
