/** What a call of `OnUpdate` comes to, case by case. */
module Verdicts {
  import opened Basics
  import opened Sorting
  import opened ObjectModel
  import opened Registration
  import opened NodeNetwork
  import opened Keepalived
  import opened Director
  import opened Views
  import opened Compiled

  /** Two versions are the same to the change test when they differ at most in version, ports, VRID and validity. */
  lemma SameLBIs(a: Stored, b: Stored)
    ensures SameLB(a, b) <==>
      && a.status == b.status
      && a.spec.(httpPort := 0, httpsPort := 0, vrid := None, valid := false) ==
         b.spec.(httpPort := 0, httpsPort := 0, vrid := None, valid := false)
  {
  }

  /** An object is rejected when it is deleted, has no provider, lists no nodes or not this one, or fails the API's own
      validation. */
  lemma InvalidIs(h: Host, spec: Spec)
    ensures !Valid(h, spec) <==>
      spec.deleted || spec.ipvsdr == None || |spec.names| == 0 || h.nodeName !in spec.names || !spec.valid
  {
  }

  /** The report that a director makes of its own host. */
  function OwnReport(h: Host, o: Stored): NodeStatus
    requires h.nodeName in h.nodes && o.spec.ipvsdr.Some?
  {
    Report(h.nodeName, SelectorFor(h.parse, h.nodes[h.nodeName], AllBinds(o.spec.ipvsdr.value)), h.ifaces)
  }

  /** The director wants to change the stored status. */
  ghost predicate WantsToRegister(h: Host, o: Stored)
    requires h.nodeName in h.nodes && o.spec.ipvsdr.Some?
  {
    Merge(h.nodeName, OwnReport(h, o), o.spec.names, o.status) != o.status
  }

  /** A director compiles a configuration for every object for which it has built its chains. */
  lemma CompilesAfterFlush(h: Host, o: Stored)
    requires Resolvable(h, o.spec)
    ensures KeepalivedOf(h, o).Some? <==> OwnIface(h, o).Some?
    ensures OwnIface(h, o) == IfaceOn(h, o, o.spec.ipvsdr.value.main.bind, h.nodeName)
  {
    var nodes := Sort(o.spec.names, Id);
    SortSorts(o.spec.names, Id);
    OwnNetIs(h, o, o.spec.ipvsdr.value.main.bind, o.spec.names);
    KeepalivedIs(h, o, nodes);
    hide KeepalivedOf, BlockFor, WithParts, OwnNet, SelectorsOf, KnownNets, Sort, IfaceOn;
    BlockForIs(h, o, nodes, o.spec.ipvsdr.value.main, VridAt(o, 0));
  }

  /** An unknown node, an attempt to register with its outcome, a missing own interface, a failed reload, or success. As
      the configuration can always be compiled once the chains are built, a call fails after the flush only by the
      reload. */
  lemma VerdictIs(h: Host, o: Stored, store: Stored, lbChange: bool, updateFails: bool, reloadFails: bool)
    requires Valid(h, o.spec)
    ensures var r := Verdict(h, o, store, lbChange, updateFails, reloadFails);
      if h.nodeName !in h.nodes then r == NodeMissing
      else if WantsToRegister(h, o) then
        r == GivenUp(if updateFails then Failed else if o.version == store.version then Updated else Conflict)
      else if exists n :: n in o.spec.names && n !in h.nodes then r == NodeMissing
      else if IfaceOn(h, o, o.spec.ipvsdr.value.main.bind, h.nodeName).None? then r == NoOwnIface
      else if !lbChange then r == Configured(None)
      else
        KeepalivedOf(h, o).Some? && r == if reloadFails then ReloadFailed(KeepalivedOf(h, o)) else Configured(KeepalivedOf(h, o))
  {
    if Resolvable(h, o.spec) {
      CompilesAfterFlush(h, o);
    }
    hide KeepalivedOf, OwnIface, Report, SelectorFor, AllBinds, IfaceOn, Merge;
  }

  /** An attempt leaves the merge in the copy, and in the store, one version on, exactly when it succeeds. */
  lemma AttemptIs(h: Host, o: Stored, store: Stored, updateFails: bool)
    requires Valid(h, o.spec) && h.nodeName in h.nodes && WantsToRegister(h, o)
    ensures var a := Attempted(h, o, store, updateFails);
      var merged := Merge(h.nodeName, OwnReport(h, o), o.spec.names, o.status);
      && a.copy == Stored(o.version, o.spec, merged)
      && a.store == if !updateFails && o.version == store.version then Stored(o.version + 1, o.spec, merged) else store
  {
    hide Merge, Report, SelectorFor, AllBinds;
  }
}
