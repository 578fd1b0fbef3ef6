/** Registration of every director's network report in the shared object. */
module Registration {
  import opened Basics
  import opened ObjectModel

  /** The first entry for a node, as the scan over the old statuses finds it. */
  function First(statuses: seq<NodeStatus>, name: string): (r: Option<NodeStatus>)
    ensures r.None? <==> forall s :: s in statuses ==> s.name != name
    ensures r.Some? ==> r.value in statuses && r.value.name == name
  {
    if statuses == [] then None
    else if statuses[0].name == name then Some(statuses[0])
    else First(statuses[1..], name)
  }

  /** What one spec node contributes to the merged status. */
  function Entry(me: string, report: NodeStatus, old_: seq<NodeStatus>, name: string): seq<NodeStatus> {
    if name == me then [report]
    else match First(old_, name)
      case Some(s) => [s]
      case None => []
  }

  /** The status a node wants to store: its own report, the known reports of the others, in spec order. */
  function Merge(me: string, report: NodeStatus, names: seq<string>, old_: seq<NodeStatus>): seq<NodeStatus> {
    if names == [] then []
    else Merge(me, report, names[..|names| - 1], old_) + Entry(me, report, old_, names[|names| - 1])
  }

  /** The reports by node that a node goes on with once its merge changes nothing. */
  function Known(me: string, report: NodeStatus, names: seq<string>, old_: seq<NodeStatus>): map<string, NodeStatus> {
    if names == [] then map[me := report]
    else
      var last := names[|names| - 1];
      var before := Known(me, report, names[..|names| - 1], old_);
      if last != me && First(old_, last).Some? then before[last := First(old_, last).value] else before
  }

  lemma {:induction false} KnownMember(
      me: string, report: NodeStatus, names: seq<string>, old_: seq<NodeStatus>, n: string)
    ensures var known := Known(me, report, names, old_);
      && (n in known <==> n == me || (n in names && First(old_, n).Some?))
      && (n in known ==> known[n] == if n == me then report else First(old_, n).value)
  {
    if names != [] {
      var init, last := names[..|names| - 1], names[|names| - 1];
      KnownMember(me, report, init, old_, n);
      assert n in names <==> n in init || n == last;
    }
  }

  // ---- The algebra of merging ----

  lemma {:induction false} FirstConcat(a: seq<NodeStatus>, b: seq<NodeStatus>, name: string)
    ensures First(a + b, name) == if First(a, name).Some? then First(a, name) else First(b, name)
  {
    if a == [] {
      assert a + b == b;
    } else {
      assert (a + b)[1..] == a[1..] + b;
      FirstConcat(a[1..], b, name);
    }
  }

  /** Looking a node up after a merge. */
  lemma {:induction false} FirstOfMerge(
      me: string, report: NodeStatus, names: seq<string>, old_: seq<NodeStatus>, name: string)
    requires report.name == me
    ensures First(Merge(me, report, names, old_), name) ==
      if name !in names then None else if name == me then Some(report) else First(old_, name)
  {
    if names != [] {
      var init, last := names[..|names| - 1], names[|names| - 1];
      FirstOfMerge(me, report, init, old_, name);
      FirstConcat(Merge(me, report, init, old_), Entry(me, report, old_, last), name);
      assert name in names <==> name in init || name == last;
    }
  }

  /** Two merges agree when every spec node contributes the same to both. */
  lemma {:induction false} MergeExtensional(
      a: string, ra: NodeStatus, sa: seq<NodeStatus>, b: string, rb: NodeStatus, sb: seq<NodeStatus>,
      names: seq<string>)
    requires forall n :: n in names ==> Entry(a, ra, sa, n) == Entry(b, rb, sb, n)
    ensures Merge(a, ra, names, sa) == Merge(b, rb, names, sb)
  {
    if names != [] {
      MergeExtensional(a, ra, sa, b, rb, sb, names[..|names| - 1]);
    }
  }

  lemma MergesCommute(a: string, ra: NodeStatus, b: string, rb: NodeStatus, names: seq<string>, s: seq<NodeStatus>)
    requires a != b && ra.name == a && rb.name == b
    ensures Merge(a, ra, names, Merge(b, rb, names, s)) == Merge(b, rb, names, Merge(a, ra, names, s))
  {
    var ma, mb := Merge(a, ra, names, s), Merge(b, rb, names, s);
    forall n | n in names ensures Entry(a, ra, mb, n) == Entry(b, rb, ma, n) {
      FirstOfMerge(a, ra, names, s, n);
      FirstOfMerge(b, rb, names, s, n);
    }
    MergeExtensional(a, ra, mb, b, rb, ma, names);
  }

  /** Once stored, a report survives every other node's merge, and its node has nothing left to write. */
  lemma MergeKeepsSettled(
      w: string, rw: NodeStatus, m: string, rm: NodeStatus, names: seq<string>, s: seq<NodeStatus>)
    requires rw.name == w && rm.name == m
    requires w != m ==> First(s, w) == Some(rw)
    requires w == m ==> rw == rm
    ensures Merge(w, rw, names, Merge(m, rm, names, s)) == Merge(m, rm, names, s)
  {
    var x := Merge(m, rm, names, s);
    forall n | n in names ensures Entry(w, rw, x, n) == Entry(m, rm, s, n) {
      FirstOfMerge(m, rm, names, s, n);
    }
    MergeExtensional(w, rw, x, m, rm, s, names);
  }

  /** Every node of the spec has a report under its own name. */
  ghost predicate Reporting(names: seq<string>, reports: map<string, NodeStatus>) {
    forall n :: n in names ==> n in reports && reports[n].name == n
  }

  /** The reports of all spec nodes, in spec order. */
  function AllReports(names: seq<string>, reports: map<string, NodeStatus>): seq<NodeStatus>
    requires Reporting(names, reports)
  {
    seq(|names|, i requires 0 <= i < |names| => reports[names[i]])
  }

  ghost predicate Quiescent(names: seq<string>, reports: map<string, NodeStatus>, s: seq<NodeStatus>)
    requires Reporting(names, reports)
  {
    forall n :: n in names ==> Merge(n, reports[n], names, s) == s
  }

  lemma {:induction false} FirstOfAllReports(names: seq<string>, reports: map<string, NodeStatus>, name: string)
    requires Reporting(names, reports)
    ensures First(AllReports(names, reports), name) == if name in names then Some(reports[name]) else None
  {
    if names != [] {
      FirstOfAllReports(names[1..], reports, name);
      assert AllReports(names, reports)[1..] == AllReports(names[1..], reports);
      assert names == [names[0]] + names[1..];
    }
  }

  /** A merge that finds every report is the list of all reports. */
  lemma {:induction false} FullMerge(
      me: string, names: seq<string>, reports: map<string, NodeStatus>, s: seq<NodeStatus>, k: nat)
    requires Reporting(names, reports) && me in names && k <= |names|
    requires forall n :: n in names && n != me ==> First(s, n) == Some(reports[n])
    ensures Merge(me, reports[me], names[..k], s) == AllReports(names, reports)[..k]
  {
    if k > 0 {
      FullMerge(me, names, reports, s, k - 1);
      assert names[..k][..k - 1] == names[..k - 1] && names[k - 1] in names;
      assert Entry(me, reports[me], s, names[k - 1]) == [reports[names[k - 1]]];
      assert AllReports(names, reports)[..k] == AllReports(names, reports)[..k - 1] + [reports[names[k - 1]]];
    }
  }

  /** Every node sees "no change" exactly when the stored status lists all reports in spec order. */
  lemma QuiescentIffAllReports(names: seq<string>, reports: map<string, NodeStatus>, s: seq<NodeStatus>)
    requires Reporting(names, reports) && names != []
    ensures Quiescent(names, reports, s) <==> s == AllReports(names, reports)
  {
    if Quiescent(names, reports, s) {
      forall n | n in names ensures First(s, n) == Some(reports[n]) {
        FirstOfMerge(n, reports[n], names, s, n);
      }
      var me := names[0];
      FullMerge(me, names, reports, s, |names|);
      assert names[..|names|] == names;
    }
    if s == AllReports(names, reports) {
      forall n | n in names ensures Merge(n, reports[n], names, s) == s {
        forall m ensures First(s, m) == if m in names then Some(reports[m]) else None {
          FirstOfAllReports(names, reports, m);
        }
        FullMerge(n, names, reports, s, |names|);
        assert names[..|names|] == names;
      }
    }
  }

  /** The merges of `order`, one after the other. */
  function MergeAll(order: seq<string>, names: seq<string>, reports: map<string, NodeStatus>, s: seq<NodeStatus>): seq<NodeStatus>
    requires forall n :: n in order ==> n in reports
  {
    if order == [] then s
    else
      var last := order[|order| - 1];
      Merge(last, reports[last], names, MergeAll(order[..|order| - 1], names, reports, s))
  }

  /** After the merges of `order`, looking up a spec node finds its report if it merged and the old entry if not. */
  lemma {:induction false} FirstOfMergeAll(
      order: seq<string>, names: seq<string>, reports: map<string, NodeStatus>, s: seq<NodeStatus>, name: string)
    requires Reporting(order, reports) && name in names
    ensures First(MergeAll(order, names, reports, s), name) ==
      if name in order then Some(reports[name]) else First(s, name)
  {
    if order != [] {
      var init, last := order[..|order| - 1], order[|order| - 1];
      assert order == init + [last];
      FirstOfMergeAll(init, names, reports, s, name);
      FirstOfMerge(last, reports[last], names, MergeAll(init, names, reports, s), name);
    }
  }

  /** From any status, one merge by each spec node, in any order and however often, lists all reports. */
  lemma EveryOrderConverges(
      order: seq<string>, names: seq<string>, reports: map<string, NodeStatus>, s: seq<NodeStatus>)
    requires Reporting(names, reports) && order != []
    requires forall n :: n in order <==> n in names
    ensures MergeAll(order, names, reports, s) == AllReports(names, reports)
  {
    var init, last := order[..|order| - 1], order[|order| - 1];
    assert order == init + [last];
    var t := MergeAll(init, names, reports, s);
    forall n | n in names && n != last ensures First(t, n) == Some(reports[n]) {
      FirstOfMergeAll(init, names, reports, s, n);
    }
    FullMerge(last, names, reports, t, |names|);
    assert names[..|names|] == names;
  }

  // ---- One attempt ----

  /** One attempt against the store: the copy afterwards, the store afterwards, and what the caller is told.
      A changed merge overwrites the copy before the outcome of the Update is known. */
  datatype Outcome = Outcome(copy: Stored, store: Stored, changed: bool, result: UpdateResult)

  function TryRegister(me: string, report: NodeStatus, copy: Stored, store: Stored, fault: bool): Outcome {
    var merged := Merge(me, report, copy.spec.names, copy.status);
    if merged == copy.status then Outcome(copy, store, false, Updated)
    else
      var overwritten := copy.(status := merged);
      if fault then Outcome(overwritten, store, true, Failed)
      else if copy.version != store.version then Outcome(overwritten, store, true, Conflict)
      else Outcome(overwritten, overwritten.(version := copy.version + 1), true, Updated)
  }

  /** The scan of the old statuses for one node. */
  method FindStatus(statuses: seq<NodeStatus>, name: string) returns (found: Option<NodeStatus>)
    ensures found == First(statuses, name)
  {
    for idx := 0 to |statuses|
      invariant First(statuses[idx..], name) == First(statuses, name)
    {
      if statuses[idx].name == name {
        return Some(statuses[idx]);
      }
      assert statuses[idx..][1..] == statuses[idx + 1..];
    }
    return None;
  }

  method RegisterNodeNetwork(
      nodeName: string, report: NodeStatus, lb: LoadBalancer, api: ApiServer, fault: bool)
    returns (nets: map<string, NodeStatus>, updated: bool, err: UpdateResult)
    modifies lb`status, api
    ensures var a := TryRegister(nodeName, report, old(lb.Value()), old(api.stored), fault);
      lb.Value() == a.copy && api.stored == a.store && updated == a.changed && err == a.result
    ensures !updated ==> nets == Known(nodeName, report, lb.spec.names, old(lb.status))
  {
    var names, before := lb.spec.names, lb.status;
    nets := map[nodeName := report];
    var merged: seq<NodeStatus> := [];
    for i := 0 to |names|
      modifies {}
      invariant merged == Merge(nodeName, report, names[..i], before)
      invariant nets == Known(nodeName, report, names[..i], before)
    {
      var n := names[i];
      assert names[..i + 1][..i] == names[..i];
      if n == nodeName {
        merged := merged + [report];
        continue;
      }
      var found := FindStatus(before, n);
      if found.Some? {
        merged := merged + [found.value];
        nets := nets[n := found.value];
      }
    }
    assert names[..|names|] == names;
    if merged == before {
      return nets, false, Updated;
    }
    lb.status := merged;
    err := api.Update(lb, fault);
    nets, updated := map[], true;
  }
}
