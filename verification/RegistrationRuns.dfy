/** All runs of the registration protocol: one versioned store, one informer copy per node that may be
    stale or already overwritten by an attempt whose Update failed. */
module RegistrationRuns {
  import opened Basics
  import opened ObjectModel
  import opened Registration

  /** `history[v]` is the object at version v. */
  datatype State = State(history: seq<Stored>, copies: map<string, Stored>)

  datatype Step =
    | Deliver(node: string, version: nat)
    | Attempt(node: string, report: NodeStatus, fault: bool)
    | Rewrite(spec: Spec)

  function Current(s: State): Stored
    requires s.history != []
  {
    s.history[|s.history| - 1]
  }

  /** An informer may deliver any version; a node attempts only with an object that lists it. */
  predicate Enabled(s: State, step: Step) {
    match step
    case Deliver(_, version) => version < |s.history|
    case Attempt(node, report, _) =>
      report.name == node && node in s.copies && node in s.copies[node].spec.names
    case Rewrite(_) => true
  }

  /** Whether a step is a successful Update by its node. */
  predicate Writes(s: State, step: Step)
    requires s.history != [] && Enabled(s, step)
  {
    step.Attempt? &&
    var a := TryRegister(step.node, step.report, s.copies[step.node], Current(s), step.fault);
    a.changed && a.result.Updated?
  }

  function Apply(s: State, step: Step): State
    requires s.history != [] && Enabled(s, step)
  {
    match step
    case Deliver(node, version) => s.(copies := s.copies[node := s.history[version]])
    case Attempt(node, report, fault) =>
      var a := TryRegister(node, report, s.copies[node], Current(s), fault);
      State(if Writes(s, step) then s.history + [a.store] else s.history, s.copies[node := a.copy])
    case Rewrite(spec) =>
      s.(history := s.history + [Stored(|s.history|, spec, Current(s).status)])
  }

  /** A copy agrees with its version of the object, on every spec node but its holder. */
  ghost predicate CopyAgrees(node: string, copy: Stored, origin: Stored) {
    && copy.version == origin.version
    && copy.spec == origin.spec
    && forall n :: n in copy.spec.names && n != node ==> First(copy.status, n) == First(origin.status, n)
  }

  ghost predicate Inv(s: State) {
    && s.history != []
    && (forall v :: 0 <= v < |s.history| ==> s.history[v].version == v)
    && (forall node :: node in s.copies ==>
          s.copies[node].version < |s.history| &&
          CopyAgrees(node, s.copies[node], s.history[s.copies[node].version]))
  }

  ghost predicate Init(s: State) {
    |s.history| == 1 && s.history[0].version == 0 && s.copies == map[]
  }

  /** The early overwrite changes nothing a copy holds about other spec nodes. */
  lemma AttemptAgrees(me: string, report: NodeStatus, copy: Stored, store: Stored, fault: bool, origin: Stored)
    requires report.name == me && CopyAgrees(me, copy, origin)
    ensures CopyAgrees(me, TryRegister(me, report, copy, store, fault).copy, origin)
  {
    forall n | n in copy.spec.names && n != me
      ensures First(Merge(me, report, copy.spec.names, copy.status), n) == First(copy.status, n)
    {
      FirstOfMerge(me, report, copy.spec.names, copy.status, n);
    }
  }

  lemma StepKeepsInv(s: State, step: Step)
    requires Inv(s) && Enabled(s, step)
    ensures Inv(Apply(s, step))
  {
    if step.Attempt? {
      var copy := s.copies[step.node];
      AttemptAgrees(step.node, step.report, copy, Current(s), step.fault, s.history[copy.version]);
    }
  }

  /** After a successful Update the store holds the writer's merge of its copy, under the same spec. */
  lemma WriteEffect(s: State, step: Step)
    requires Inv(s) && Enabled(s, step) && Writes(s, step)
    ensures var copy := s.copies[step.node];
      && copy.version == Current(s).version && copy.spec == Current(s).spec
      && CopyAgrees(step.node, copy, Current(s))
      && Current(Apply(s, step)) ==
         Stored(copy.version + 1, copy.spec, Merge(step.node, step.report, copy.spec.names, copy.status))
  {
  }

  /** What one step may do to the stored entry of a node: nothing, put that node's own report there,
      or drop it when the spec does not list the node. An attempt never changes the stored spec. */
  lemma StepKeepsRegistrations(s: State, step: Step, n: string)
    requires Inv(s) && Enabled(s, step)
    ensures var before, after := First(Current(s).status, n), First(Current(Apply(s, step)).status, n);
      || after == before
      || (step.Attempt? && step.node == n && after == Some(step.report))
      || (after.None? && n !in Current(s).spec.names)
    ensures step.Attempt? ==> Current(Apply(s, step)).spec == Current(s).spec
  {
    if Writes(s, step) {
      WriteEffect(s, step);
      var copy := s.copies[step.node];
      FirstOfMerge(step.node, step.report, copy.spec.names, copy.status, n);
    } else {
      assert Current(Apply(s, step)).status == Current(s).status;
    }
  }

  // ---- Runs ----

  ghost predicate Runs(s: State, steps: seq<Step>)
    requires Inv(s)
    ensures steps == [] ==> Runs(s, steps)
    decreases |steps|, 0
  {
    steps == [] ||
    (Runs(s, steps[..|steps| - 1]) && Enabled(After(s, steps[..|steps| - 1]), steps[|steps| - 1]))
  }

  ghost function After(s: State, steps: seq<Step>): (t: State)
    requires Inv(s) && Runs(s, steps)
    ensures Inv(t)
    decreases |steps|, 1
  {
    if steps == [] then s
    else
      var before := After(s, steps[..|steps| - 1]);
      StepKeepsInv(before, steps[|steps| - 1]);
      Apply(before, steps[|steps| - 1])
  }

  /** In every run, what is stored for a node was stored at the start or is a report that node made. */
  lemma {:induction false} StoredEntriesAreReports(s: State, steps: seq<Step>, n: string, e: NodeStatus)
    requires Inv(s) && Runs(s, steps)
    requires First(Current(After(s, steps)).status, n) == Some(e)
    ensures First(Current(s).status, n) == Some(e) ||
      exists k, fault :: 0 <= k < |steps| && steps[k] == Attempt(n, e, fault)
  {
    if steps != [] {
      var init, last := steps[..|steps| - 1], steps[|steps| - 1];
      var before := After(s, init);
      StepKeepsRegistrations(before, last, n);
      if First(Current(before).status, n) == Some(e) {
        StoredEntriesAreReports(s, init, n, e);
        if First(Current(s).status, n) != Some(e) {
          var k, fault :| 0 <= k < |init| && init[k] == Attempt(n, e, fault);
          assert steps[k] == Attempt(n, e, fault);
        }
      } else {
        assert steps[|steps| - 1] == Attempt(n, e, last.fault);
      }
    }
  }

  lemma RegisteredAfterStep(s: State, step: Step, n: string)
    requires Inv(s) && Enabled(s, step)
    requires n in Current(s).spec.names && First(Current(s).status, n).Some?
    requires step.Rewrite? ==> n in step.spec.names
    ensures First(Current(Apply(s, step)).status, n).Some?
    ensures n in Current(Apply(s, step)).spec.names
  {
    StepKeepsRegistrations(s, step, n);
  }

  /** In every run whose specs all list a node, the node's registration is never lost. */
  lemma {:induction false} RegistrationPersists(s: State, steps: seq<Step>, n: string)
    requires Inv(s) && Runs(s, steps)
    requires n in Current(s).spec.names && First(Current(s).status, n).Some?
    requires forall k :: 0 <= k < |steps| && steps[k].Rewrite? ==> n in steps[k].spec.names
    ensures First(Current(After(s, steps)).status, n).Some?
    ensures n in Current(After(s, steps)).spec.names
  {
    if steps != [] {
      var init, last := steps[..|steps| - 1], steps[|steps| - 1];
      RegistrationPersists(s, init, n);
      RegisteredAfterStep(After(s, init), last, n);
    }
  }

  // ---- Convergence for a fixed node list and fixed host reports ----

  /** Every attempt reports what the host really has, and the node list stays. */
  ghost predicate FixedWorld(steps: seq<Step>, names: seq<string>, reports: map<string, NodeStatus>) {
    forall k :: 0 <= k < |steps| ==>
      match steps[k]
      case Attempt(node, report, _) => node in reports && report == reports[node]
      case Rewrite(spec) => spec.names == names
      case Deliver(_, _) => true
  }

  /** The nodes whose Update succeeded, in order. */
  ghost function Writers(s: State, steps: seq<Step>): seq<string>
    requires Inv(s) && Runs(s, steps)
  {
    if steps == [] then []
    else
      var init, last := steps[..|steps| - 1], steps[|steps| - 1];
      Writers(s, init) + if Writes(After(s, init), last) then [last.node] else []
  }

  /** A node has nothing left to write: neither against the store nor from a copy at the store's version. */
  ghost predicate Settled(s: State, names: seq<string>, w: string, rw: NodeStatus)
    requires Inv(s)
  {
    && First(Current(s).status, w) == Some(rw)
    && Merge(w, rw, names, Current(s).status) == Current(s).status
    && (w in s.copies && s.copies[w].version == Current(s).version ==>
          Merge(w, rw, names, s.copies[w].status) == s.copies[w].status)
  }

  ghost predicate SameNames(s: State, names: seq<string>) {
    forall v :: 0 <= v < |s.history| ==> s.history[v].spec.names == names
  }

  lemma WriterSettles(s: State, step: Step, names: seq<string>)
    requires Inv(s) && SameNames(s, names) && Enabled(s, step) && Writes(s, step)
    ensures Inv(Apply(s, step)) && Settled(Apply(s, step), names, step.node, step.report)
  {
    StepKeepsInv(s, step);
    WriteEffect(s, step);
    var copy := s.copies[step.node];
    FirstOfMerge(step.node, step.report, names, copy.status, step.node);
    MergeKeepsSettled(step.node, step.report, step.node, step.report, names, copy.status);
  }

  lemma SettledUnderWrite(s: State, step: Step, names: seq<string>, w: string, rw: NodeStatus)
    requires Inv(s) && SameNames(s, names) && Enabled(s, step) && Writes(s, step)
    requires rw.name == w && w in names && Settled(s, names, w, rw)
    requires step.node == w ==> step.report == rw
    ensures Inv(Apply(s, step)) && Settled(Apply(s, step), names, w, rw)
    ensures step.node != w
  {
    WriteEffect(s, step);
    var copy := s.copies[step.node];
    assert step.node != w;
    assert First(copy.status, w) == Some(rw);
    FirstOfMerge(step.node, step.report, names, copy.status, w);
    MergeKeepsSettled(w, rw, step.node, step.report, names, copy.status);
    StepKeepsInv(s, step);
  }

  lemma SettledUnderIdleAttempt(s: State, step: Step, names: seq<string>, w: string, rw: NodeStatus)
    requires Inv(s) && SameNames(s, names) && Enabled(s, step) && step.Attempt? && !Writes(s, step)
    requires rw.name == w && Settled(s, names, w, rw)
    requires step.node == w ==> step.report == rw
    ensures Inv(Apply(s, step)) && Settled(Apply(s, step), names, w, rw)
  {
    StepKeepsInv(s, step);
    assert Apply(s, step).history == s.history;
  }

  lemma SettledStays(s: State, step: Step, names: seq<string>, w: string, rw: NodeStatus)
    requires Inv(s) && SameNames(s, names) && Enabled(s, step)
    requires rw.name == w && w in names && Settled(s, names, w, rw)
    requires step.Attempt? && step.node == w ==> step.report == rw
    ensures Inv(Apply(s, step)) && Settled(Apply(s, step), names, w, rw)
    ensures Writes(s, step) ==> step.node != w
  {
    if Writes(s, step) {
      SettledUnderWrite(s, step, names, w, rw);
    } else if step.Attempt? {
      SettledUnderIdleAttempt(s, step, names, w, rw);
    } else {
      StepKeepsInv(s, step);
    }
  }

  lemma NamesStay(s: State, step: Step, names: seq<string>)
    requires Inv(s) && SameNames(s, names) && Enabled(s, step)
    requires step.Rewrite? ==> step.spec.names == names
    ensures Inv(Apply(s, step)) && SameNames(Apply(s, step), names)
    ensures Writes(s, step) ==> step.node in names
  {
    StepKeepsInv(s, step);
    if Writes(s, step) {
      WriteEffect(s, step);
    }
  }

  /** Distinct spec nodes, all of them settled with their reports. */
  ghost predicate AllSettled(s: State, names: seq<string>, reports: map<string, NodeStatus>, ws: seq<string>) {
    && Inv(s) && Distinct(ws)
    && forall w :: w in ws ==> w in names && w in reports && reports[w].name == w && Settled(s, names, w, reports[w])
  }

  lemma AllStaySettled(
      s: State, step: Step, names: seq<string>, reports: map<string, NodeStatus>, ws: seq<string>)
    requires AllSettled(s, names, reports, ws) && SameNames(s, names) && Enabled(s, step)
    requires step.Attempt? ==> step.node in reports && step.report == reports[step.node]
    ensures AllSettled(Apply(s, step), names, reports, ws)
    ensures Writes(s, step) ==> step.node !in ws
  {
    StepKeepsInv(s, step);
    hide Merge, Apply, Enabled, Settled, SameNames, Writes, Inv, Distinct;
    forall w | w in ws
      ensures Settled(Apply(s, step), names, w, reports[w])
      ensures Writes(s, step) ==> step.node != w
    {
      SettledStays(s, step, names, w, reports[w]);
    }
  }

  /** After one more step, the writers, with the new one if there is one, are settled. */
  lemma WriterJoins(
      s: State, step: Step, names: seq<string>, reports: map<string, NodeStatus>, ws: seq<string>)
    requires AllSettled(s, names, reports, ws) && SameNames(s, names) && Enabled(s, step)
    requires step.Rewrite? ==> step.spec.names == names
    requires step.Attempt? ==> step.node in reports && step.report == reports[step.node]
    ensures SameNames(Apply(s, step), names)
    ensures AllSettled(Apply(s, step), names, reports, ws + if Writes(s, step) then [step.node] else [])
  {
    NamesStay(s, step, names);
    AllStaySettled(s, step, names, reports, ws);
    if Writes(s, step) {
      WriterSettles(s, step, names);
      DistinctAppend(ws, step.node);
    } else {
      assert ws + [] == ws;
    }
    hide Merge, Apply, Settled, SameNames, Inv, Distinct;
  }

  lemma {:induction false} WritersSettled(s: State, steps: seq<Step>, names: seq<string>, reports: map<string, NodeStatus>)
    requires Init(s) && Runs(s, steps) && s.history[0].spec.names == names
    requires FixedWorld(steps, names, reports)
    ensures SameNames(After(s, steps), names)
    ensures AllSettled(After(s, steps), names, reports, Writers(s, steps))
  {
    if steps != [] {
      hide AllSettled, Apply, Enabled, SameNames, Writes, Inv;
      var init, last := steps[..|steps| - 1], steps[|steps| - 1];
      assert last == steps[|steps| - 1];
      WritersSettled(s, init, names, reports);
      WriterJoins(After(s, init), last, names, reports, Writers(s, init));
    }
  }

  /** With a fixed node list and fixed reports, each node makes at most one successful Update and there are
      at most as many as spec nodes, under every interleaving with stale copies, conflicts and failures. */
  lemma BoundedUpdates(s: State, steps: seq<Step>, names: seq<string>, reports: map<string, NodeStatus>)
    requires Init(s) && Runs(s, steps) && s.history[0].spec.names == names
    requires FixedWorld(steps, names, reports)
    ensures Distinct(Writers(s, steps))
    ensures Elements(Writers(s, steps)) <= Elements(names)
    ensures |Writers(s, steps)| <= |Elements(names)|
  {
    WritersSettled(s, steps, names, reports);
    DistinctSize(Writers(s, steps));
    SubsetSize(Elements(Writers(s, steps)), Elements(names));
  }
}
