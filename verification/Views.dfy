/** What one director sees of every node of an object, in terms of the object itself. */
module Views {
  import opened Basics
  import opened Sorting
  import opened ObjectModel
  import opened Registration
  import opened NodeNetwork
  import opened Keepalived
  import opened Director

  /** What the director goes by for a node: its own host, or the node's first entry in the status. */
  function SeenIfaces(h: Host, o: Stored, node: string): Option<seq<InterfaceNet>>
    requires h.nodeName in h.nodes && o.spec.ipvsdr.Some?
  {
    if node == h.nodeName then
      var s := SelectorFor(h.parse, h.nodes[h.nodeName], AllBinds(o.spec.ipvsdr.value));
      Some(Report(h.nodeName, s, h.ifaces).ifaces)
    else match First(o.status, node)
      case Some(entry) => Some(entry.ifaces)
      case None => None
  }

  /** The interface chosen for a bind on a node of the object. */
  function IfaceOn(h: Host, o: Stored, bind: Option<Bind>, node: string): Option<PreferredNet>
    requires h.nodeName in h.nodes && o.spec.ipvsdr.Some? && node in h.nodes
  {
    match SeenIfaces(h, o, node)
    case None => None
    case Some(ifaces) =>
      NodeNetworkOf(SelectorFor(h.parse, h.nodes[node], AllBinds(o.spec.ipvsdr.value)), ifaces, bind)
  }

  /** The values that are there, in order. */
  function Present<T>(s: seq<Option<T>>): seq<T> {
    if s == [] then []
    else Present(s[..|s| - 1]) + match s[|s| - 1] case Some(x) => [x] case None => []
  }

  lemma PresentAppend<T>(s: seq<Option<T>>, x: Option<T>)
    ensures Present(s + [x]) == Present(s) + match x case Some(y) => [y] case None => []
  {
    assert (s + [x])[..|s|] == s;
  }

  lemma {:induction false} PresentMember<T>(s: seq<Option<T>>, x: T)
    ensures x in Present(s) <==> Some(x) in s
  {
    if s != [] {
      PresentMember(s[..|s| - 1], x);
      assert s == s[..|s| - 1] + [s[|s| - 1]];
    }
  }

  /** The chosen interfaces of some nodes, in their order; nodes without one are left out. */
  function IfacesOn(h: Host, o: Stored, bind: Option<Bind>, nodes: seq<string>): seq<PreferredNet>
    requires h.nodeName in h.nodes && o.spec.ipvsdr.Some? && forall n :: n in nodes ==> n in h.nodes
  {
    Present(seq(|nodes|, i requires 0 <= i < |nodes| => IfaceOn(h, o, bind, nodes[i])))
  }

  lemma SelectorsAre(h: Host, o: Stored, node: string)
    requires Resolvable(h, o.spec) && node in o.spec.names
    ensures var p := o.spec.ipvsdr.value;
      SelectorsOf(h, p, o.spec.names)[node] == SelectorFor(h.parse, h.nodes[node], AllBinds(p))
  {
  }

  lemma NetOfNodeIs(h: Host, o: Stored, bind: Option<Bind>, node: string)
    requires Resolvable(h, o.spec) && node in o.spec.names
    ensures NetOfNode(SelectorsOf(h, o.spec.ipvsdr.value, o.spec.names), KnownNets(h, o), bind, node) ==
      IfaceOn(h, o, bind, node)
  {
    var p := o.spec.ipvsdr.value;
    SelectorsAre(h, o, node);
    KnownMember(h.nodeName, ReportOf(h, p), o.spec.names, o.status, node);
    hide SelectorsOf, SelectorFor, AllBinds, Report, Known, NodeNetworkOf;
  }

  lemma OwnNetIs(h: Host, o: Stored, bind: Option<Bind>, nodes: seq<string>)
    requires Resolvable(h, o.spec) && h.nodeName in nodes && forall n :: n in nodes ==> n in o.spec.names
    ensures OwnNet(h.nodeName, nodes, SelectorsOf(h, o.spec.ipvsdr.value, o.spec.names), KnownNets(h, o), bind) ==
      IfaceOn(h, o, bind, h.nodeName)
  {
    NetOfNodeIs(h, o, bind, h.nodeName);
    hide SelectorsOf, KnownNets, IfaceOn, NetOfNode;
  }

  lemma IfacesAppend(h: Host, o: Stored, bind: Option<Bind>, init: seq<string>, last: string)
    requires h.nodeName in h.nodes && o.spec.ipvsdr.Some? && (forall n :: n in init ==> n in h.nodes) && last in h.nodes
    ensures forall n :: n in init + [last] ==> n in h.nodes
    ensures IfacesOn(h, o, bind, init + [last]) ==
      IfacesOn(h, o, bind, init) + match IfaceOn(h, o, bind, last) case Some(net) => [net] case None => []
  {
    hide IfaceOn, Present;
    var nodes := init + [last];
    var options := seq(|init|, i requires 0 <= i < |init| => IfaceOn(h, o, bind, init[i]));
    PresentAppend(options, IfaceOn(h, o, bind, last));
    assert seq(|nodes|, i requires 0 <= i < |nodes| => IfaceOn(h, o, bind, nodes[i])) ==
      options + [IfaceOn(h, o, bind, last)];
  }

  lemma {:induction false} NodeNetsAre(h: Host, o: Stored, bind: Option<Bind>, nodes: seq<string>)
    requires Resolvable(h, o.spec) && forall n :: n in nodes ==> n in o.spec.names
    ensures NodeNets(nodes, SelectorsOf(h, o.spec.ipvsdr.value, o.spec.names), KnownNets(h, o), bind) ==
      IfacesOn(h, o, bind, nodes)
  {
    if nodes != [] {
      hide SelectorsOf, KnownNets, IfaceOn, NetOfNode, IfacesOn;
      var init, last := nodes[..|nodes| - 1], nodes[|nodes| - 1];
      assert nodes == init + [last];
      NodeNetsAre(h, o, bind, init);
      NetOfNodeIs(h, o, bind, last);
      IfacesAppend(h, o, bind, init, last);
    }
  }

  /** An interface is among the chosen ones exactly when some node has it. */
  lemma IfacesMember(h: Host, o: Stored, bind: Option<Bind>, nodes: seq<string>, net: PreferredNet)
    requires h.nodeName in h.nodes && o.spec.ipvsdr.Some? && forall n :: n in nodes ==> n in h.nodes
    ensures net in IfacesOn(h, o, bind, nodes) <==> exists n :: n in nodes && IfaceOn(h, o, bind, n) == Some(net)
  {
    hide IfaceOn;
    var options := seq(|nodes|, i requires 0 <= i < |nodes| => IfaceOn(h, o, bind, nodes[i]));
    PresentMember(options, net);
    if n :| n in nodes && IfaceOn(h, o, bind, n) == Some(net) {
      var i :| 0 <= i < |nodes| && nodes[i] == n;
      assert options[i] == Some(net);
    }
    if Some(net) in options {
      var i :| 0 <= i < |options| && options[i] == Some(net);
      assert nodes[i] in nodes;
    }
  }
}
