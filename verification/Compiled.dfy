/** The compiled keepalived configuration in terms of the object, provider by provider and address by address. */
module Compiled {
  import opened Basics
  import opened Sorting
  import opened ObjectModel
  import opened NodeNetwork
  import opened Keepalived
  import opened Agreement
  import opened Director
  import opened Views

  // ---- Considered addresses ----

  function Parses(parse: Parser): string -> bool {
    vip => parse(vip).Some?
  }

  /** An address that parses and follows none of its own family. */
  predicate StartsRun(parse: Parser, vips: seq<string>, j: nat)
    requires j < |vips| && parse(vips[j]).Some?
  {
    j == 0 || (parse(vips[j - 1]).Some? && parse(vips[j]).value.version != parse(vips[j - 1]).value.version)
  }

  ghost predicate Rising(at: seq<nat>) {
    forall a, b :: 0 <= a < b < |at| ==> at[a] < at[b]
  }

  /** Of the addresses that parse, exactly those that start a run of their family are considered, in their order. */
  ghost predicate ConsideredAt(parse: Parser, ps: seq<string>, cs: seq<Considered>, at: seq<nat>) {
    && (forall j :: 0 <= j < |ps| ==> parse(ps[j]).Some?)
    && |at| == |cs| && Rising(at)
    && (forall m :: 0 <= m < |at| ==>
          at[m] < |ps| && cs[m] == Considered(ps[at[m]], parse(ps[at[m]]).value.version))
    && (forall j :: 0 <= j < |ps| ==> (j in at <==> StartsRun(parse, ps, j)))
  }

  lemma ConsideredStep(parse: Parser, ps: seq<string>, cs: seq<Considered>, at: seq<nat>, vip: string)
    requires ConsideredAt(parse, ps, cs, at) && parse(vip).Some?
    ensures var v := parse(vip).value.version;
      if ps == [] || parse(ps[|ps| - 1]).value.version != v
      then ConsideredAt(parse, ps + [vip], cs + [Considered(vip, v)], at + [|ps|])
      else ConsideredAt(parse, ps + [vip], cs, at)
  {
    var qs := ps + [vip];
    forall j | 0 <= j < |ps| ensures StartsRun(parse, qs, j) == StartsRun(parse, ps, j) {
      assert qs[j] == ps[j] && (j > 0 ==> qs[j - 1] == ps[j - 1]);
    }
    forall m | 0 <= m < |at| ensures at[m] < |ps| && qs[at[m]] == ps[at[m]] {
    }
    var more := at + [|ps|];
    assert forall j :: j in more <==> j in at || j == |ps|;
    assert |ps| !in at;
  }

  /** The family of the last address that parses is the one considered last. */
  ghost predicate LastAgrees(parse: Parser, ps: seq<string>, cs: seq<Considered>) {
    if ps == [] then cs == []
    else
      && cs != [] && parse(ps[|ps| - 1]).Some?
      && cs[|cs| - 1].version == parse(ps[|ps| - 1]).value.version
  }

  lemma ConsideredAppend(parse: Parser, init: seq<string>, vip: string)
    ensures var cs := ConsideredVIPs(parse, init);
      ConsideredVIPs(parse, init + [vip]) ==
      if parse(vip).None? || (cs != [] && cs[|cs| - 1].version == parse(vip).value.version) then cs
      else cs + [Considered(vip, parse(vip).value.version)]
  {
    assert (init + [vip])[..|init|] == init;
  }

  lemma ConsideredOfMore(parse: Parser, init: seq<string>, vip: string)
    requires LastAgrees(parse, Filter(init, Parses(parse)), ConsideredVIPs(parse, init))
    ensures var ps, cs := Filter(init, Parses(parse)), ConsideredVIPs(parse, init);
      && Filter(init + [vip], Parses(parse)) == (if parse(vip).Some? then ps + [vip] else ps)
      && ConsideredVIPs(parse, init + [vip]) ==
         (if parse(vip).None? then cs
          else if ps == [] || parse(ps[|ps| - 1]).value.version != parse(vip).value.version
          then cs + [Considered(vip, parse(vip).value.version)]
          else cs)
      && LastAgrees(parse, Filter(init + [vip], Parses(parse)), ConsideredVIPs(parse, init + [vip]))
  {
    hide Filter, ConsideredVIPs;
    FilterAppend(init, vip, Parses(parse));
    ConsideredAppend(parse, init, vip);
  }

  ghost predicate ConsideredBy(parse: Parser, vips: seq<string>, at: seq<nat>) {
    && ConsideredAt(parse, Filter(vips, Parses(parse)), ConsideredVIPs(parse, vips), at)
    && LastAgrees(parse, Filter(vips, Parses(parse)), ConsideredVIPs(parse, vips))
  }

  lemma ConsideredMore(parse: Parser, init: seq<string>, vip: string, at: seq<nat>) returns (more: seq<nat>)
    requires ConsideredBy(parse, init, at)
    ensures ConsideredBy(parse, init + [vip], more)
  {
    hide ConsideredAt, ConsideredVIPs, Filter, Parses;
    var ps := Filter(init, Parses(parse));
    ConsideredOfMore(parse, init, vip);
    more := at;
    if parse(vip).Some? {
      ConsideredStep(parse, ps, ConsideredVIPs(parse, init), at, vip);
      if ps == [] || parse(ps[|ps| - 1]).value.version != parse(vip).value.version {
        more := at + [|ps|];
      }
    }
  }

  lemma {:induction false} ConsideredPlaces(parse: Parser, vips: seq<string>) returns (at: seq<nat>)
    ensures ConsideredBy(parse, vips, at)
  {
    if vips == [] {
      at := [];
    } else {
      hide ConsideredBy;
      var init, vip := vips[..|vips| - 1], vips[|vips| - 1];
      assert vips == init + [vip];
      at := ConsideredPlaces(parse, init);
      at := ConsideredMore(parse, init, vip, at);
    }
  }

  /** The considered addresses of a list, by their places among those that parse. */
  lemma ConsideredAre(parse: Parser, vips: seq<string>) returns (at: seq<nat>)
    ensures ConsideredAt(parse, Filter(vips, Parses(parse)), ConsideredVIPs(parse, vips), at)
  {
    hide ConsideredAt, ConsideredVIPs, Filter, Parses;
    at := ConsideredPlaces(parse, vips);
  }

  // ---- One block ----

  /** A letter, a digit or an underscore. */
  predicate WordChar(c: char) {
    c == '_' || '0' <= c <= '9' || 'A' <= c <= 'Z' || 'a' <= c <= 'z'
  }

  /** The interface and the family, with every other character replaced. */
  ghost predicate NameIs(name: string, iface: string, v: Version) {
    var whole := iface + (match v case V4 => "_4" case V6 => "_6" case Unknown => "_unknown");
    |name| == |whole| && forall i :: 0 <= i < |name| ==> name[i] == if WordChar(whole[i]) then whole[i] else '_'
  }

  function Addresses(parse: Parser, nets: seq<PreferredNet>, v: Version): seq<string> {
    seq(|nets|, i requires 0 <= i < |nets| => IPOf(parse, nets[i], v))
  }

  function NotEmpty(s: string): bool { s != "" }

  function HasAddress(parse: Parser, mine: PreferredNet): Considered -> bool {
    (c: Considered) => IPOf(parse, mine, c.version) != ""
  }

  ghost predicate InstanceIs(
      parse: Parser, c: Considered, mine: PreferredNet, nets: seq<PreferredNet>, state: string, vrid: int, priority: int,
      vi: VrrpInstance)
  {
    && vi.vip == c.vip && vi.state == state && vi.vrid == vrid && vi.priority == priority
    && NameIs(vi.name, mine.iface.name, c.version)
    && vi.iface == mine.iface.name
    && vi.myIP == IPOf(parse, mine, c.version)
    && vi.allIPs == Filter(Addresses(parse, nets, c.version), NotEmpty)
  }

  /** One instance, in order, per considered address of whose family the own interface has an address; and one virtual
      server each, for the same peers, unless the mode is ActivePassive. */
  ghost predicate BlockIs(
      parse: Parser, kl: KeepalivedProvider, considered: seq<Considered>, mine: PreferredNet, nets: seq<PreferredNet>,
      state: string, vrid: int, priority: int, b: Block)
  {
    var own := Filter(considered, HasAddress(parse, mine));
    && |b.instances| == |own|
    && (forall j :: 0 <= j < |own| ==> InstanceIs(parse, own[j], mine, nets, state, vrid, priority, b.instances[j]))
    && (if kl.haMode == ActivePassive then b.servers == []
        else |b.servers| == |own| && forall j :: 0 <= j < |own| ==>
          b.servers[j] == VirtualServer(1, own[j].vip, kl.scheduler, b.instances[j].allIPs))
  }

  lemma NameOfInstance(iface: string, v: Version)
    ensures NameIs(WordName(iface + "_" + VersionDigit(v)), iface, v)
  {
    assert iface + (match v case V4 => "_4" case V6 => "_6" case Unknown => "_unknown") == iface + "_" + VersionDigit(v);
  }

  lemma AddressesAppend(parse: Parser, init: seq<PreferredNet>, net: PreferredNet, v: Version)
    ensures Addresses(parse, init + [net], v) == Addresses(parse, init, v) + [IPOf(parse, net, v)]
  {
    hide IPOf;
  }

  lemma {:induction false} PeerIPsAre(parse: Parser, nets: seq<PreferredNet>, v: Version)
    ensures PeerIPs(parse, nets, v) == Filter(Addresses(parse, nets, v), NotEmpty)
  {
    if nets != [] {
      hide IPOf, Addresses, Filter;
      var init, last := nets[..|nets| - 1], nets[|nets| - 1];
      assert nets == init + [last];
      PeerIPsAre(parse, init, v);
      AddressesAppend(parse, init, last, v);
      FilterAppend(Addresses(parse, init, v), IPOf(parse, last, v), NotEmpty);
    }
  }

  lemma InstanceOfFrame(parse: Parser, f: Frame, c: Considered)
    ensures InstanceIs(parse, c, f.mine, f.peers, f.state, f.vrid, f.priority, InstanceFor(parse, f, c))
    ensures ServerFor(parse, f, c) == VirtualServer(1, c.vip, f.kl.scheduler, InstanceFor(parse, f, c).allIPs)
  {
    NameOfInstance(f.mine.iface.name, c.version);
    PeerIPsAre(parse, f.peers, c.version);
    hide NameIs, WordName, IPOf, PeerIPs, Addresses, Filter;
  }

  lemma BlockIsAppend(parse: Parser, f: Frame, considered: seq<Considered>, c: Considered, b: Block)
    requires BlockIs(parse, f.kl, considered, f.mine, f.peers, f.state, f.vrid, f.priority, b)
    ensures BlockIs(parse, f.kl, considered + [c], f.mine, f.peers, f.state, f.vrid, f.priority,
      if IPOf(parse, f.mine, c.version) == "" then b
      else Block(
        b.instances + [InstanceFor(parse, f, c)],
        b.servers + if f.kl.haMode != ActivePassive then [ServerFor(parse, f, c)] else []))
  {
    hide InstanceIs, InstanceFor, ServerFor, IPOf, Filter;
    FilterAppend(considered, c, HasAddress(parse, f.mine));
    InstanceOfFrame(parse, f, c);
  }

  lemma {:induction false} FrameBlockIs(parse: Parser, f: Frame, considered: seq<Considered>)
    ensures BlockIs(parse, f.kl, considered, f.mine, f.peers, f.state, f.vrid, f.priority, FrameBlock(parse, f, considered))
  {
    if considered != [] {
      hide BlockIs, InstanceFor, ServerFor, IPOf;
      var init, c := considered[..|considered| - 1], considered[|considered| - 1];
      assert considered == init + [c];
      FrameBlockIs(parse, f, init);
      BlockIsAppend(parse, f, init, c, FrameBlock(parse, f, init));
    }
  }

  // ---- The whole configuration ----

  function IsPassive(kl: KeepalivedProvider): bool { kl.haMode == ActivePassive }

  /** The status's VRID, or 110, and one more for each ActivePassive slave among the first k. */
  function VridAt(o: Stored, k: nat): int
    requires o.spec.ipvsdr.Some? && k <= |o.spec.ipvsdr.value.slaves|
  {
    (match o.spec.vrid case Some(v) => v case None => 110) + |Filter(o.spec.ipvsdr.value.slaves[..k], IsPassive)|
  }

  /** What one provider contributes on the i-th of the sorted nodes; nothing if it is left out or its own interface is
      missing. */
  ghost predicate PartIs(
      h: Host, o: Stored, nodes: seq<string>, i: nat, kl: KeepalivedProvider, vrid: int, included: bool, b: Block)
    requires h.nodeName in h.nodes && o.spec.ipvsdr.Some? && forall n :: n in nodes ==> n in h.nodes
  {
    var mine := IfaceOn(h, o, kl.bind, h.nodeName);
    if !included || mine.None? then b == Block([], [])
    else BlockIs(
      h.parse, kl, ConsideredVIPs(h.parse, if |kl.vips| > 0 then kl.vips else [kl.vip]), mine.value,
      IfacesOn(h, o, kl.bind, nodes), if IsPassive(kl) && i == |nodes| - 1 then "MASTER" else "BACKUP", vrid, 100 + 60 * i, b)
  }

  function Joined(parts: seq<Block>): Block {
    if parts == [] then Block([], [])
    else
      var before, last := Joined(parts[..|parts| - 1]), parts[|parts| - 1];
      Block(before.instances + last.instances, before.servers + last.servers)
  }

  /** The main provider's part, then one for each slave: those that are ActivePassive are included. */
  ghost predicate ConfigIs(h: Host, o: Stored, nodes: seq<string>, i: nat, c: Block, parts: seq<Block>)
    requires h.nodeName in h.nodes && o.spec.ipvsdr.Some? && forall n :: n in nodes ==> n in h.nodes
  {
    var p := o.spec.ipvsdr.value;
    && |parts| == 1 + |p.slaves|
    && c == Joined(parts)
    && PartIs(h, o, nodes, i, p.main, VridAt(o, 0), true, parts[0])
    && forall k :: 0 <= k < |p.slaves| ==>
         PartIs(h, o, nodes, i, p.slaves[k], VridAt(o, k + 1), IsPassive(p.slaves[k]), parts[k + 1])
  }

  /** The nodes of the object in sorted order, and the place of the director among them. */
  ghost predicate PlacedAt(h: Host, o: Stored, nodes: seq<string>, i: nat) {
    && Resolvable(h, o.spec) && Distinct(nodes)
    && SortedBy(nodes, Id) && multiset(nodes) == multiset(o.spec.names)
    && i < |nodes| && nodes[i] == h.nodeName
  }

  lemma SameMembers(a: seq<string>, b: seq<string>)
    requires multiset(a) == multiset(b)
    ensures forall n :: n in a <==> n in b
  {
    forall n ensures n in a <==> n in b {
      assert n in multiset(a) <==> n in multiset(b);
    }
  }

  lemma PlacedNodes(h: Host, o: Stored, nodes: seq<string>, i: nat)
    requires PlacedAt(h, o, nodes, i)
    ensures Resolvable(h, o.spec) && nodes == Sort(o.spec.names, Id)
    ensures forall n :: n in nodes <==> n in o.spec.names
    ensures Priority(nodes, h.nodeName) == 100 + 60 * i
    ensures nodes != [] && (nodes[|nodes| - 1] == h.nodeName <==> i == |nodes| - 1)
  {
    hide SortedBy, Resolvable, Valid, Sort, Pos;
    assert KeyInjective(nodes, Id);
    SortSorts(o.spec.names, Id);
    SortedUnique(nodes, Sort(o.spec.names, Id), Id);
    PosOfElement(nodes, i);
    SameMembers(nodes, o.spec.names);
  }

  /** The block that the director compiles for one provider. */
  function BlockFor(h: Host, o: Stored, nodes: seq<string>, kl: KeepalivedProvider, vrid: int): Option<Block>
    requires Resolvable(h, o.spec) && forall n :: n in nodes ==> n in o.spec.names
  {
    BlockOf(h.parse, h.nodeName, nodes, SelectorsOf(h, o.spec.ipvsdr.value, o.spec.names), KnownNets(h, o), kl,
            Priority(nodes, h.nodeName), vrid)
  }

  lemma BlockForIs(h: Host, o: Stored, nodes: seq<string>, kl: KeepalivedProvider, vrid: int)
    requires Resolvable(h, o.spec) && h.nodeName in nodes && forall n :: n in nodes ==> n in o.spec.names
    ensures var mine := IfaceOn(h, o, kl.bind, h.nodeName);
      BlockFor(h, o, nodes, kl, vrid) ==
      if mine.None? then None
      else
        var f := Frame(kl, StateOf(h.nodeName, nodes, kl), Priority(nodes, h.nodeName), vrid, mine.value,
                       IfacesOn(h, o, kl.bind, nodes));
        Some(FrameBlock(h.parse, f, ConsideredVIPs(h.parse, VIPsOf(kl))))
  {
    OwnNetIs(h, o, kl.bind, nodes);
    NodeNetsAre(h, o, kl.bind, nodes);
    hide FrameBlock, IfaceOn, IfacesOn, SelectorsOf, KnownNets, NodeNets, OwnNet, ConsideredVIPs, Priority, StateOf, VIPsOf;
  }

  lemma StateIs(h: Host, o: Stored, nodes: seq<string>, i: nat, kl: KeepalivedProvider)
    requires PlacedAt(h, o, nodes, i)
    ensures StateOf(h.nodeName, nodes, kl) == if IsPassive(kl) && i == |nodes| - 1 then "MASTER" else "BACKUP"
  {
    hide Priority, Sort, Resolvable, Distinct, SortedBy;
    PlacedNodes(h, o, nodes, i);
  }

  lemma BlockIsPart(h: Host, o: Stored, nodes: seq<string>, i: nat, kl: KeepalivedProvider, vrid: int)
    requires PlacedAt(h, o, nodes, i)
    ensures forall n :: n in nodes ==> n in o.spec.names
    ensures var b := BlockFor(h, o, nodes, kl, vrid);
      && (b.Some? <==> IfaceOn(h, o, kl.bind, h.nodeName).Some?)
      && PartIs(h, o, nodes, i, kl, vrid, true, b.GetOr(Block([], [])))
  {
    hide BlockIs, FrameBlock, IfaceOn, IfacesOn, ConsideredVIPs, Priority, Distinct, SortedBy, BlockFor, Sort, PlacedAt,
         StateOf;
    PlacedNodes(h, o, nodes, i);
    StateIs(h, o, nodes, i, kl);
    BlockForIs(h, o, nodes, kl, vrid);
    var mine := IfaceOn(h, o, kl.bind, h.nodeName);
    if mine.Some? {
      var f := Frame(kl, StateOf(h.nodeName, nodes, kl), Priority(nodes, h.nodeName), vrid, mine.value,
                     IfacesOn(h, o, kl.bind, nodes));
      FrameBlockIs(h.parse, f, ConsideredVIPs(h.parse, VIPsOf(kl)));
    }
  }

  lemma {:induction false} PassivesCounted(slaves: seq<KeepalivedProvider>)
    ensures PassiveCount(slaves) == |Filter(slaves, IsPassive)|
  {
    if slaves != [] {
      PassivesCounted(slaves[..|slaves| - 1]);
    }
  }

  lemma JoinedAppend(parts: seq<Block>, last: Block)
    ensures Joined(parts + [last]) ==
      Block(Joined(parts).instances + last.instances, Joined(parts).servers + last.servers)
  {
    assert (parts + [last])[..|parts|] == parts;
  }

  /** The block of slave k, empty when it is left out. */
  function SlavePart(h: Host, o: Stored, nodes: seq<string>, k: nat): Block
    requires Resolvable(h, o.spec) && (forall n :: n in nodes ==> n in o.spec.names) && k < |o.spec.ipvsdr.value.slaves|
  {
    var p := o.spec.ipvsdr.value;
    SlaveBlock(h.parse, h.nodeName, nodes, SelectorsOf(h, p, o.spec.names), KnownNets(h, o), p.slaves, BaseVrid(o.spec), k)
    .GetOr(Block([], []))
  }

  function WithParts(h: Host, o: Stored, nodes: seq<string>, k: nat, main: Block): Block
    requires Resolvable(h, o.spec) && (forall n :: n in nodes ==> n in o.spec.names) && k <= |o.spec.ipvsdr.value.slaves|
  {
    var p := o.spec.ipvsdr.value;
    WithSlaves(h.parse, h.nodeName, nodes, SelectorsOf(h, p, o.spec.names), KnownNets(h, o), p.slaves, BaseVrid(o.spec), k,
               main)
  }

  lemma OnlyMain(h: Host, o: Stored, nodes: seq<string>, main: Block)
    requires Resolvable(h, o.spec) && forall n :: n in nodes ==> n in o.spec.names
    ensures Joined([main]) == main == WithParts(h, o, nodes, 0, main)
  {
    hide SelectorsOf, KnownNets, SlaveBlock, BaseVrid;
    JoinedAppend([], main);
    assert [] + [main] == [main];
  }

  lemma WithNextPart(h: Host, o: Stored, nodes: seq<string>, k: nat, main: Block)
    requires Resolvable(h, o.spec) && (forall n :: n in nodes ==> n in o.spec.names) && k < |o.spec.ipvsdr.value.slaves|
    ensures WithParts(h, o, nodes, k + 1, main) ==
      Block(WithParts(h, o, nodes, k, main).instances + SlavePart(h, o, nodes, k).instances,
            WithParts(h, o, nodes, k, main).servers + SlavePart(h, o, nodes, k).servers)
  {
    hide SelectorsOf, KnownNets, SlaveBlock, BaseVrid;
  }

  lemma VridIs(o: Stored, k: nat)
    requires o.spec.ipvsdr.Some? && k <= |o.spec.ipvsdr.value.slaves|
    ensures BaseVrid(o.spec) + PassiveCount(o.spec.ipvsdr.value.slaves[..k]) == VridAt(o, k)
  {
    PassivesCounted(o.spec.ipvsdr.value.slaves[..k]);
    hide PassiveCount, Filter;
  }

  lemma SlavePartIs(h: Host, o: Stored, nodes: seq<string>, k: nat)
    requires Resolvable(h, o.spec) && (forall n :: n in nodes ==> n in o.spec.names) && k < |o.spec.ipvsdr.value.slaves|
    ensures SlavePart(h, o, nodes, k) ==
      var kl := o.spec.ipvsdr.value.slaves[k];
      if IsPassive(kl) then BlockFor(h, o, nodes, kl, VridAt(o, k + 1)).GetOr(Block([], [])) else Block([], [])
  {
    hide BlockOf, SelectorsOf, KnownNets, Priority, PassiveCount, VridAt, BaseVrid;
    VridIs(o, k + 1);
  }

  lemma SlaveIsPart(h: Host, o: Stored, nodes: seq<string>, i: nat, k: nat)
    requires PlacedAt(h, o, nodes, i) && k < |o.spec.ipvsdr.value.slaves|
    ensures forall n :: n in nodes ==> n in o.spec.names
    ensures var kl := o.spec.ipvsdr.value.slaves[k];
      PartIs(h, o, nodes, i, kl, VridAt(o, k + 1), IsPassive(kl), SlavePart(h, o, nodes, k))
  {
    BlockIsPart(h, o, nodes, i, o.spec.ipvsdr.value.slaves[k], VridAt(o, k + 1));
    SlavePartIs(h, o, nodes, k);
    hide SlavePart, BlockFor, IfaceOn, IfacesOn, BlockIs, VridAt, ConsideredVIPs;
  }

  /** The parts of the main block and the first k slaves, joined. */
  lemma {:induction false} SlavesJoined(h: Host, o: Stored, nodes: seq<string>, i: nat, main: Block, k: nat)
      returns (parts: seq<Block>)
    requires PlacedAt(h, o, nodes, i) && k <= |o.spec.ipvsdr.value.slaves|
    ensures forall n :: n in nodes ==> n in o.spec.names
    ensures |parts| == k + 1 && parts[0] == main && Joined(parts) == WithParts(h, o, nodes, k, main)
    ensures forall j :: 0 <= j < k ==>
      var kl := o.spec.ipvsdr.value.slaves[j];
      PartIs(h, o, nodes, i, kl, VridAt(o, j + 1), IsPassive(kl), parts[j + 1])
  {
    hide PartIs, SlavePart, WithParts, VridAt, Joined, PlacedAt, Priority, Sort;
    PlacedNodes(h, o, nodes, i);
    if k == 0 {
      parts := [main];
      OnlyMain(h, o, nodes, main);
    } else {
      parts := SlavesJoined(h, o, nodes, i, main, k - 1);
      SlaveIsPart(h, o, nodes, i, k - 1);
      WithNextPart(h, o, nodes, k - 1, main);
      JoinedAppend(parts, SlavePart(h, o, nodes, k - 1));
      parts := parts + [SlavePart(h, o, nodes, k - 1)];
    }
  }

  lemma KeepalivedIs(h: Host, o: Stored, nodes: seq<string>)
    requires Resolvable(h, o.spec) && nodes == Sort(o.spec.names, Id) && forall n :: n in nodes ==> n in o.spec.names
    ensures var p := o.spec.ipvsdr.value;
      var main := BlockFor(h, o, nodes, p.main, VridAt(o, 0));
      KeepalivedOf(h, o) == if main.None? then None else Some(WithParts(h, o, nodes, |p.slaves|, main.value))
  {
    assert VridAt(o, 0) == BaseVrid(o.spec);
    hide BlockOf, WithSlaves, SelectorsOf, KnownNets, Sort, Priority, VridAt, BaseVrid;
  }

  /** The configuration that a director compiles for an object: there is one exactly when its own interface for the main
      provider is found, and then it is the promised one. */
  lemma ConfigurationIs(h: Host, o: Stored, nodes: seq<string>, i: nat) returns (parts: seq<Block>)
    requires PlacedAt(h, o, nodes, i)
    ensures forall n :: n in nodes ==> n in h.nodes
    ensures KeepalivedOf(h, o).Some? <==> IfaceOn(h, o, o.spec.ipvsdr.value.main.bind, h.nodeName).Some?
    ensures KeepalivedOf(h, o).Some? ==> ConfigIs(h, o, nodes, i, KeepalivedOf(h, o).value, parts)
  {
    hide PartIs, BlockFor, WithParts, KeepalivedOf, IfaceOn, VridAt, Joined, Priority, Sort, SortedBy, Distinct;
    var p := o.spec.ipvsdr.value;
    PlacedNodes(h, o, nodes, i);
    KeepalivedIs(h, o, nodes);
    BlockIsPart(h, o, nodes, i, p.main, VridAt(o, 0));
    parts := [];
    if KeepalivedOf(h, o).Some? {
      parts := SlavesJoined(h, o, nodes, i, BlockFor(h, o, nodes, p.main, VridAt(o, 0)).value, |p.slaves|);
    }
  }

  // ---- What every instance carries ----

  lemma {:induction false} JoinedMember(parts: seq<Block>, vi: VrrpInstance) returns (k: nat)
    requires vi in Joined(parts).instances
    ensures k < |parts| && vi in parts[k].instances
  {
    var init := parts[..|parts| - 1];
    if vi in Joined(init).instances {
      k := JoinedMember(init, vi);
    } else {
      k := |parts| - 1;
    }
  }

  /** On the i-th of the sorted nodes every emitted instance, of the main provider and of the slaves, has priority
      100 + 60 * i, and is MASTER exactly when its provider is ActivePassive and the node is the last one. */
  lemma EmittedPriority(h: Host, o: Stored, nodes: seq<string>, i: nat, vi: VrrpInstance) returns (kl: KeepalivedProvider)
    requires PlacedAt(h, o, nodes, i) && KeepalivedOf(h, o).Some? && vi in KeepalivedOf(h, o).value.instances
    ensures kl == o.spec.ipvsdr.value.main || (kl in o.spec.ipvsdr.value.slaves && kl.haMode == ActivePassive)
    ensures vi.priority == 100 + 60 * i
    ensures vi.state == if kl.haMode == ActivePassive && i == |nodes| - 1 then "MASTER" else "BACKUP"
  {
    hide KeepalivedOf, IfaceOn, IfacesOn, ConsideredVIPs, Joined, PlacedAt, VridAt, Filter;
    PlacedNodes(h, o, nodes, i);
    var parts := ConfigurationIs(h, o, nodes, i);
    var k := JoinedMember(parts, vi);
    var p := o.spec.ipvsdr.value;
    kl := if k == 0 then p.main else p.slaves[k - 1];
    assert PartIs(h, o, nodes, i, kl, VridAt(o, k), k == 0 || IsPassive(kl), parts[k]);
    var j :| 0 <= j < |parts[k].instances| && parts[k].instances[j] == vi;
  }

  /** A MASTER instance of one director has a higher priority than every instance of every other director of the object. */
  lemma MasterOutranks(
      o: Stored, nodes: seq<string>, a: Host, i: nat, va: VrrpInstance, b: Host, j: nat, vb: VrrpInstance)
    requires PlacedAt(a, o, nodes, i) && KeepalivedOf(a, o).Some? && va in KeepalivedOf(a, o).value.instances
    requires PlacedAt(b, o, nodes, j) && KeepalivedOf(b, o).Some? && vb in KeepalivedOf(b, o).value.instances
    requires va.state == "MASTER" && a.nodeName != b.nodeName
    ensures vb.priority < va.priority && vb.state == "BACKUP"
  {
    var ka := EmittedPriority(a, o, nodes, i, va);
    var kb := EmittedPriority(b, o, nodes, j, vb);
    assert i == |nodes| - 1 && i != j;
  }
}
