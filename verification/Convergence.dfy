/** Whether and when registration converges, with copies that failed Updates may have overwritten. */
module Convergence {
  import opened Basics
  import opened ObjectModel
  import opened Registration
  import opened RegistrationRuns

  // ---- What "no change" is worth ----

  predicate SeesNoChange(s: State, n: string, report: NodeStatus)
    requires n in s.copies
  {
    Merge(n, report, s.copies[n].spec.names, s.copies[n].status) == s.copies[n].status
  }

  /** The stored status lacks what the node would write. */
  predicate NeedsWrite(s: State, n: string, report: NodeStatus)
    requires s.history != []
  {
    Merge(n, report, Current(s).spec.names, Current(s).status) != Current(s).status
  }

  predicate HoldsNewest(s: State, n: string)
    requires s.history != []
  {
    n in s.copies && s.copies[n].version == |s.history| - 1
  }

  /** Since its last delivery, the node has made a changing attempt whose Update did not succeed. */
  ghost predicate Overwritten(s: State, steps: seq<Step>, n: string)
    requires Inv(s) && Runs(s, steps)
  {
    steps != [] &&
    var init, last := steps[..|steps| - 1], steps[|steps| - 1];
    OverwrittenAfter(After(s, init), last, n, Overwritten(s, init, n))
  }

  predicate OverwrittenAfter(t: State, step: Step, n: string, before: bool)
    requires t.history != [] && Enabled(t, step)
  {
    match step
    case Deliver(node, _) => node != n && before
    case Rewrite(_) => before
    case Attempt(node, report, fault) =>
      before ||
      (node == n &&
       var a := TryRegister(node, report, t.copies[node], Current(t), fault);
       a.changed && !a.result.Updated?)
  }

  /** An overwritten copy hides a write that its version of the object lacks; any other copy is its version of the
      object, or an older version overwritten by a successful Update. */
  ghost predicate CopyStory(t: State, n: string, report: NodeStatus, names: seq<string>, overwritten: bool)
    requires Inv(t)
  {
    n in t.copies ==>
      var copy := t.copies[n];
      var origin := t.history[copy.version];
      if overwritten then
        Merge(n, report, names, copy.status) == copy.status && Merge(n, report, names, origin.status) != origin.status
      else
        copy == origin || (copy.version < |t.history| - 1 && Merge(n, report, names, copy.status) == copy.status)
  }

  lemma StoryAfterOwnAttempt(t: State, step: Step, n: string, names: seq<string>, overwritten: bool)
    requires Inv(t) && SameNames(t, names) && Enabled(t, step) && step.Attempt? && step.node == n
    requires CopyStory(t, n, step.report, names, overwritten)
    ensures Inv(Apply(t, step))
    ensures CopyStory(Apply(t, step), n, step.report, names, OverwrittenAfter(t, step, n, overwritten))
  {
    StepKeepsInv(t, step);
    var copy := t.copies[n];
    assert copy.spec.names == names;
    MergeKeepsSettled(n, step.report, n, step.report, names, copy.status);
  }

  lemma StoryAfterStep(
      t: State, step: Step, n: string, report: NodeStatus, names: seq<string>, overwritten: bool)
    requires Inv(t) && SameNames(t, names) && Enabled(t, step)
    requires step.Attempt? && step.node == n ==> step.report == report
    requires CopyStory(t, n, report, names, overwritten)
    ensures Inv(Apply(t, step))
    ensures CopyStory(Apply(t, step), n, report, names, OverwrittenAfter(t, step, n, overwritten))
  {
    StepKeepsInv(t, step);
    if step.Attempt? && step.node == n {
      StoryAfterOwnAttempt(t, step, n, names, overwritten);
    }
  }

  lemma {:induction false} StoryOfRun(
      s: State, steps: seq<Step>, names: seq<string>, reports: map<string, NodeStatus>, n: string)
    requires Init(s) && Runs(s, steps) && s.history[0].spec.names == names
    requires FixedWorld(steps, names, reports) && n in reports
    ensures SameNames(After(s, steps), names)
    ensures CopyStory(After(s, steps), n, reports[n], names, Overwritten(s, steps, n))
  {
    if steps != [] {
      var init, last := steps[..|steps| - 1], steps[|steps| - 1];
      StoryOfRun(s, init, names, reports, n);
      NamesStay(After(s, init), last, names);
      StoryAfterStep(After(s, init), last, n, reports[n], names, Overwritten(s, init, n));
    }
  }

  /** On a copy of the newest version, the store lacks nothing exactly when the copy equals what is stored. */
  lemma NoChangeAgainstStore(s: State, n: string, report: NodeStatus)
    requires Inv(s) && HoldsNewest(s, n) && report.name == n && SeesNoChange(s, n, report)
    ensures !NeedsWrite(s, n, report) <==> s.copies[n].status == Current(s).status
  {
    var copy, store := s.copies[n], Current(s);
    assert store == s.history[copy.version];
    MergeExtensional(n, report, copy.status, n, report, store.status, store.spec.names);
  }

  /** In every run with a fixed node list and fixed reports: when a node that holds the newest version sees "no
      change", the store lacks nothing of it if and only if the node has made no changing attempt whose Update did not
      succeed since its last delivery. */
  lemma NoChangeIsGenuineIff(
      s: State, steps: seq<Step>, names: seq<string>, reports: map<string, NodeStatus>, n: string)
    requires Init(s) && Runs(s, steps) && s.history[0].spec.names == names
    requires FixedWorld(steps, names, reports) && n in reports && reports[n].name == n
    requires HoldsNewest(After(s, steps), n) && SeesNoChange(After(s, steps), n, reports[n])
    ensures !NeedsWrite(After(s, steps), n, reports[n]) <==> !Overwritten(s, steps, n)
  {
    hide Merge, Overwritten, After, Runs;
    StoryOfRun(s, steps, names, reports, n);
    NoChangeAgainstStore(After(s, steps), n, reports[n]);
  }

  /** A failed Update hides a missing registration: after it, the node sees "no change" on a copy of the newest
      version although nothing is stored for it. */
  lemma FailedUpdateHidesMissingRegistration(s: State, n: string, report: NodeStatus)
    requires Init(s) && s.history[0].status == [] && s.history[0].spec.names == [n] && report.name == n
    ensures var steps := [Deliver(n, 0), Attempt(n, report, true)];
      Runs(s, steps) &&
      var t := After(s, steps);
      HoldsNewest(t, n) && SeesNoChange(t, n, report) && Overwritten(s, steps, n) && First(Current(t).status, n).None?
  {
    var steps := [Deliver(n, 0), Attempt(n, report, true)];
    var first := [Deliver(n, 0)];
    assert steps[..1] == first && first[..0] == [];
    assert Runs(s, []) && After(s, []) == s;
    assert Runs(s, first) && After(s, first) == Apply(s, Deliver(n, 0));
    assert Runs(s, steps);
    var t := After(s, steps);
    assert t == Apply(After(s, first), Attempt(n, report, true));
    assert [n][..0] == [];
    assert Merge(n, report, [n], []) == [report];
    assert t.copies[n].status == [report];
    assert Merge(n, report, [n], [report]) == [report];
  }

  // ---- Rounds ----

  /** The node's copy hides from it that the store needs its write. */
  predicate Blind(s: State, n: string, report: NodeStatus)
    requires s.history != []
  {
    HoldsNewest(s, n) && SeesNoChange(s, n, report) && NeedsWrite(s, n, report)
  }

  ghost predicate NoneBlind(s: State, names: seq<string>, reports: map<string, NodeStatus>)
    requires s.history != [] && Reporting(names, reports)
  {
    forall n :: n in names ==> !Blind(s, n, reports[n])
  }

  /** Every copy of the newest version is what is stored, or its holder is blind. */
  ghost predicate Tracked(s: State, names: seq<string>, reports: map<string, NodeStatus>) {
    && Inv(s) && SameNames(s, names) && Reporting(names, reports)
    && forall n :: n in names && HoldsNewest(s, n) ==> s.copies[n] == Current(s) || Blind(s, n, reports[n])
  }

  /** After a run, the blind nodes are those whose copy of the newest version has been overwritten in vain. */
  lemma BlindIffOverwritten(
      s: State, steps: seq<Step>, names: seq<string>, reports: map<string, NodeStatus>, n: string)
    requires Init(s) && Runs(s, steps) && s.history[0].spec.names == names
    requires FixedWorld(steps, names, reports) && n in reports && reports[n].name == n
    ensures Blind(After(s, steps), n, reports[n]) <==> HoldsNewest(After(s, steps), n) && Overwritten(s, steps, n)
    ensures HoldsNewest(After(s, steps), n) && !Overwritten(s, steps, n) ==>
      After(s, steps).copies[n] == Current(After(s, steps))
  {
    hide Merge, Overwritten, After, Runs;
    StoryOfRun(s, steps, names, reports, n);
  }

  lemma RunIsTracked(s: State, steps: seq<Step>, names: seq<string>, reports: map<string, NodeStatus>)
    requires Init(s) && Runs(s, steps) && s.history[0].spec.names == names
    requires FixedWorld(steps, names, reports) && Reporting(names, reports) && names != []
    ensures Tracked(After(s, steps), names, reports)
  {
    hide Merge, Overwritten, CopyStory, After, Runs, NeedsWrite, SeesNoChange, Blind;
    StoryOfRun(s, steps, names, reports, names[0]);
    forall n | n in names && HoldsNewest(After(s, steps), n)
      ensures After(s, steps).copies[n] == Current(After(s, steps)) || Blind(After(s, steps), n, reports[n])
    {
      BlindIffOverwritten(s, steps, names, reports, n);
    }
  }

  /** The node's copy before it attempts: a newer version is delivered if there is one. */
  function Seen(s: State, n: string): State
    requires s.history != []
  {
    if HoldsNewest(s, n) then s else Apply(s, Deliver(n, |s.history| - 1))
  }

  /** A node receives the newest version unless it holds it, and attempts. */
  ghost function Turn(s: State, n: string, report: NodeStatus): State
    requires Inv(s) && report.name == n && n in Current(s).spec.names
  {
    Apply(Seen(s, n), Attempt(n, report, false))
  }

  lemma SeenIsCurrent(s: State, names: seq<string>, reports: map<string, NodeStatus>, n: string)
    requires Tracked(s, names, reports) && n in names && !Blind(s, n, reports[n])
    ensures var t := Seen(s, n);
      && Inv(t) && SameNames(t, names) && t.history == s.history
      && n in t.copies && t.copies[n] == Current(s) && OthersKeep(s, t, n)
  {
  }

  /** What an attempt on the stored object does. */
  lemma AttemptOnCurrent(t: State, n: string, report: NodeStatus, names: seq<string>)
    requires Inv(t) && SameNames(t, names) && n in names && report.name == n
    requires n in t.copies && t.copies[n] == Current(t)
    ensures var u := Apply(t, Attempt(n, report, false));
      && Current(u).status == Merge(n, report, names, Current(t).status)
      && (NeedsWrite(t, n, report) ==> u.history == t.history + [Current(u)] && Current(u).spec == Current(t).spec)
      && (!NeedsWrite(t, n, report) ==> u.history == t.history && u.copies[n] == Current(u))
      && n in u.copies && u.copies[n].version == Current(t).version
      && OthersKeep(t, u, n)
  {
    hide Merge, CopyAgrees;
  }

  /** A blind node's turn changes nothing. */
  lemma BlindTurn(s: State, names: seq<string>, reports: map<string, NodeStatus>, n: string)
    requires Tracked(s, names, reports) && n in names && Blind(s, n, reports[n])
    ensures Turn(s, n, reports[n]) == s
  {
    var u := Turn(s, n, reports[n]);
    assert u.copies == s.copies;
  }

  /** One copy at most has changed. */
  ghost predicate OthersKeep(s: State, u: State, n: string) {
    forall m :: m != n ==> (m in u.copies <==> m in s.copies) && (m in u.copies ==> u.copies[m] == s.copies[m])
  }

  /** A write leaves every copy older than the store. */
  lemma StateAfterWrite(s: State, u: State, names: seq<string>, reports: map<string, NodeStatus>, n: string)
    requires Tracked(s, names, reports) && Inv(u) && OthersKeep(s, u, n)
    requires u.history == s.history + [Current(u)] && Current(u).spec == Current(s).spec
    requires n in u.copies && u.copies[n].version < |s.history|
    ensures Tracked(u, names, reports) && NoneBlind(u, names, reports)
  {
    hide Merge, CopyAgrees;
    assert Current(s) == s.history[|s.history| - 1];
    assert SameNames(u, names);
    forall m ensures !HoldsNewest(u, m) {
      if m != n && m in u.copies {
        assert u.copies[m].version == s.copies[m].version < |s.history|;
      }
    }
  }

  lemma StateAfterIdle(s: State, u: State, names: seq<string>, reports: map<string, NodeStatus>, n: string)
    requires Tracked(s, names, reports) && Inv(u) && OthersKeep(s, u, n)
    requires u.history == s.history && n in u.copies && u.copies[n] == Current(s)
    requires n in names && !Blind(s, n, reports[n])
    ensures Tracked(u, names, reports)
    ensures forall m :: m in names ==> Blind(u, m, reports[m]) == Blind(s, m, reports[m])
  {
    hide Merge, CopyAgrees;
    assert !Blind(u, n, reports[n]);
    forall m | m in names ensures Blind(u, m, reports[m]) == Blind(s, m, reports[m]) {
      assert m != n ==> HoldsNewest(u, m) == HoldsNewest(s, m);
    }
  }

  lemma OthersKeepOn(s: State, t: State, u: State, n: string)
    requires OthersKeep(s, t, n) && OthersKeep(t, u, n)
    ensures OthersKeep(s, u, n)
  {
  }

  /** The turn of a node that is not blind stores its merge. */
  lemma TurnEffect(s: State, names: seq<string>, reports: map<string, NodeStatus>, n: string)
    requires Tracked(s, names, reports) && n in names && !Blind(s, n, reports[n])
    ensures var u := Turn(s, n, reports[n]);
      && Inv(u) && OthersKeep(s, u, n) && n in u.copies && u.copies[n].version < |s.history|
      && Current(u).status == Merge(n, reports[n], names, Current(s).status)
      && (if NeedsWrite(s, n, reports[n])
          then u.history == s.history + [Current(u)] && Current(u).spec == Current(s).spec
          else u.history == s.history && u.copies[n] == Current(s))
  {
    SeenIsCurrent(s, names, reports, n);
    var t, attempt := Seen(s, n), Attempt(n, reports[n], false);
    hide Seen, Merge, CopyAgrees, Blind, Apply;
    StepKeepsInv(t, attempt);
    AttemptOnCurrent(t, n, reports[n], names);
    OthersKeepOn(s, t, Apply(t, attempt), n);
    hide OthersKeep, SameNames;
  }

  lemma SeeingTurn(s: State, names: seq<string>, reports: map<string, NodeStatus>, n: string)
    requires Tracked(s, names, reports) && n in names && !Blind(s, n, reports[n])
    ensures var u := Turn(s, n, reports[n]);
      && Tracked(u, names, reports)
      && Current(u).status == Merge(n, reports[n], names, Current(s).status)
      && (NeedsWrite(s, n, reports[n]) ==> NoneBlind(u, names, reports))
      && (!NeedsWrite(s, n, reports[n]) ==>
            u.history == s.history && forall m :: m in names ==> Blind(u, m, reports[m]) == Blind(s, m, reports[m]))
  {
    var u := Turn(s, n, reports[n]);
    TurnEffect(s, names, reports, n);
    hide *;
    if NeedsWrite(s, n, reports[n]) {
      StateAfterWrite(s, u, names, reports, n);
    } else {
      StateAfterIdle(s, u, names, reports, n);
    }
  }

  /** A turn for each node of `order`. */
  ghost function Round(s: State, order: seq<string>, names: seq<string>, reports: map<string, NodeStatus>): (t: State)
    requires Tracked(s, names, reports) && forall n :: n in order ==> n in names
    ensures Tracked(t, names, reports)
  {
    if order == [] then s
    else
      var n := order[|order| - 1];
      var before := Round(s, order[..|order| - 1], names, reports);
      TurnKeepsTracked(before, names, reports, n);
      Turn(before, n, reports[n])
  }

  lemma TurnKeepsTracked(s: State, names: seq<string>, reports: map<string, NodeStatus>, n: string)
    requires Tracked(s, names, reports) && n in names
    ensures Tracked(Turn(s, n, reports[n]), names, reports)
  {
    if Blind(s, n, reports[n]) {
      BlindTurn(s, names, reports, n);
    } else {
      SeeingTurn(s, names, reports, n);
    }
  }

  /** Among nodes that see, a round stores the merges of all. */
  lemma {:induction false} SeeingRound(
      s: State, order: seq<string>, names: seq<string>, reports: map<string, NodeStatus>)
    requires Tracked(s, names, reports) && NoneBlind(s, names, reports) && forall n :: n in order ==> n in names
    ensures Current(Round(s, order, names, reports)).status == MergeAll(order, names, reports, Current(s).status)
    ensures NoneBlind(Round(s, order, names, reports), names, reports)
  {
    if order != [] {
      var init, n := order[..|order| - 1], order[|order| - 1];
      SeeingRound(s, init, names, reports);
      SeeingTurn(Round(s, init, names, reports), names, reports, n);
    }
  }

  /** Some node of `order` has something to write and is not blind. */
  ghost predicate SomeoneWrites(s: State, order: seq<string>, reports: map<string, NodeStatus>)
    requires s.history != [] && Reporting(order, reports)
  {
    exists n :: n in order && NeedsWrite(s, n, reports[n]) && !Blind(s, n, reports[n])
  }

  lemma SomeoneAppend(s: State, init: seq<string>, n: string, reports: map<string, NodeStatus>)
    requires s.history != [] && Reporting(init + [n], reports)
    ensures n in init + [n] && Reporting(init, reports)
    ensures SomeoneWrites(s, init + [n], reports) <==>
      SomeoneWrites(s, init, reports) || (NeedsWrite(s, n, reports[n]) && !Blind(s, n, reports[n]))
  {
    hide NeedsWrite, Blind;
    assert forall m :: m in init + [n] <==> m in init || m == n;
  }

  lemma SameNeed(s: State, t: State, n: string, report: NodeStatus)
    requires s.history != [] && t.history == s.history
    ensures NeedsWrite(t, n, report) == NeedsWrite(s, n, report)
  {
  }

  /** A round changes the store exactly when someone writes; then no node is blind any more. */
  lemma {:induction false} RoundEffect(
      s: State, order: seq<string>, names: seq<string>, reports: map<string, NodeStatus>)
    requires Tracked(s, names, reports) && forall n :: n in order ==> n in names
    ensures var t := Round(s, order, names, reports);
      if SomeoneWrites(s, order, reports) then NoneBlind(t, names, reports)
      else t.history == s.history && forall m :: m in names ==> Blind(t, m, reports[m]) == Blind(s, m, reports[m])
  {
    if order != [] {
      var init, n := order[..|order| - 1], order[|order| - 1];
      assert order == init + [n];
      hide Merge, Blind, Turn, Inv, SameNames, HoldsNewest, NeedsWrite, SomeoneWrites;
      var before := Round(s, init, names, reports);
      SomeoneAppend(s, init, n, reports);
      RoundEffect(s, init, names, reports);
      if before.history == s.history {
        SameNeed(s, before, n, reports[n]);
      }
      if Blind(before, n, reports[n]) {
        BlindTurn(before, names, reports, n);
      } else {
        SeeingTurn(before, names, reports, n);
      }
    }
  }

  ghost predicate Visits(order: seq<string>, names: seq<string>) {
    forall n :: n in order <==> n in names
  }

  /** Two rounds, in any orders. */
  ghost function TwoRounds(
      s: State, first: seq<string>, second: seq<string>, names: seq<string>, reports: map<string, NodeStatus>): (t: State)
    requires Tracked(s, names, reports)
    requires (forall n :: n in first ==> n in names) && forall n :: n in second ==> n in names
    ensures Tracked(t, names, reports)
  {
    Round(Round(s, first, names, reports), second, names, reports)
  }

  lemma SameWriters(
      s: State, t: State, order: seq<string>, other: seq<string>, names: seq<string>, reports: map<string, NodeStatus>)
    requires s.history != [] && t.history == s.history && Reporting(names, reports)
    requires Visits(order, names) && Visits(other, names)
    requires forall m :: m in names ==> Blind(t, m, reports[m]) == Blind(s, m, reports[m])
    ensures SomeoneWrites(t, other, reports) <==> SomeoneWrites(s, order, reports)
  {
    hide Merge, Blind;
    forall n | n in names ensures NeedsWrite(t, n, reports[n]) == NeedsWrite(s, n, reports[n]) {
    }
  }

  lemma TwoRoundsOutcome(
      s: State, first: seq<string>, second: seq<string>, names: seq<string>, reports: map<string, NodeStatus>)
    requires Tracked(s, names, reports) && names != [] && Visits(first, names) && Visits(second, names)
    ensures Current(TwoRounds(s, first, second, names, reports)).status == AllReports(names, reports) <==>
      Current(s).status == AllReports(names, reports) || SomeoneWrites(s, names, reports)
  {
    hide Merge, MergeAll, Round, NeedsWrite, Blind, SomeoneWrites, NoneBlind;
    var t := Round(s, first, names, reports);
    RoundEffect(s, first, names, reports);
    SameWriters(s, s, first, names, names, reports);
    assert names[0] in second;
    if SomeoneWrites(s, names, reports) {
      SeeingRound(t, second, names, reports);
      EveryOrderConverges(second, names, reports, Current(t).status);
    } else {
      SameWriters(s, t, first, second, names, reports);
      RoundEffect(t, second, names, reports);
    }
  }

  /** What a node would write, it does not see: it holds the newest version, overwritten in vain. */
  ghost predicate Deaf(s: State, steps: seq<Step>, n: string)
    requires Inv(s) && Runs(s, steps)
  {
    HoldsNewest(After(s, steps), n) && Overwritten(s, steps, n)
  }

  /** After any run with a fixed node list and fixed reports, two rounds over the spec nodes, delivering only versions
      newer than a node's copy, store exactly all reports if and only if the store already lists them or some node that
      still has something to write holds no copy of the newest version that a failed Update has overwritten. */
  lemma RoundsConvergeIff(
      s: State, steps: seq<Step>, first: seq<string>, second: seq<string>, names: seq<string>,
      reports: map<string, NodeStatus>)
    requires Init(s) && Runs(s, steps) && s.history[0].spec.names == names && names != []
    requires FixedWorld(steps, names, reports) && Reporting(names, reports)
    requires Visits(first, names) && Visits(second, names)
    ensures Tracked(After(s, steps), names, reports)
    ensures var t := After(s, steps);
      Current(TwoRounds(t, first, second, names, reports)).status == AllReports(names, reports) <==>
      || Current(t).status == AllReports(names, reports)
      || exists n :: n in names && NeedsWrite(t, n, reports[n]) && !Deaf(s, steps, n)
  {
    RunIsTracked(s, steps, names, reports);
    TwoRoundsOutcome(After(s, steps), first, second, names, reports);
    forall n | n in names ensures Blind(After(s, steps), n, reports[n]) <==> Deaf(s, steps, n) {
      BlindIffOverwritten(s, steps, names, reports, n);
    }
  }

  lemma FaultlessStep(t: State, step: Step, n: string, overwritten: bool)
    requires Inv(t) && Enabled(t, step) && (step.Attempt? ==> !step.fault)
    requires overwritten ==> !HoldsNewest(t, n)
    ensures Apply(t, step).history != []
    ensures OverwrittenAfter(t, step, n, overwritten) ==> !HoldsNewest(Apply(t, step), n)
  {
    hide Merge, CopyAgrees;
  }

  /** Conflicts alone never make a node deaf: its copy is then older than the store. */
  lemma {:induction false} FaultlessIsNotDeaf(s: State, steps: seq<Step>, n: string)
    requires Init(s) && Runs(s, steps)
    requires forall k :: 0 <= k < |steps| && steps[k].Attempt? ==> !steps[k].fault
    ensures Overwritten(s, steps, n) ==> !HoldsNewest(After(s, steps), n)
  {
    if steps != [] {
      hide Apply, OverwrittenAfter, HoldsNewest, Enabled;
      var init, last := steps[..|steps| - 1], steps[|steps| - 1];
      FaultlessIsNotDeaf(s, init, n);
      FaultlessStep(After(s, init), last, n, Overwritten(s, init, n));
    }
  }

  /** After such a run the condition of convergence holds. */
  lemma FaultlessCanConverge(s: State, steps: seq<Step>, names: seq<string>, reports: map<string, NodeStatus>)
    requires Init(s) && Runs(s, steps) && s.history[0].spec.names == names && names != []
    requires FixedWorld(steps, names, reports) && Reporting(names, reports)
    requires forall k :: 0 <= k < |steps| && steps[k].Attempt? ==> !steps[k].fault
    ensures var t := After(s, steps);
      || Current(t).status == AllReports(names, reports)
      || exists n :: n in names && NeedsWrite(t, n, reports[n]) && !Deaf(s, steps, n)
  {
    hide Merge, Overwritten, After, Runs;
    var t := After(s, steps);
    QuiescentIffAllReports(names, reports, Current(t).status);
    StoryOfRun(s, steps, names, reports, names[0]);
    if Current(t).status != AllReports(names, reports) {
      var n :| n in names && Merge(n, reports[n], names, Current(t).status) != Current(t).status;
      FaultlessIsNotDeaf(s, steps, n);
      assert NeedsWrite(t, n, reports[n]) && !Deaf(s, steps, n);
    }
  }

  /** After any run without failures other than conflicts, one round in any order stores exactly all reports, and then
      every node sees "no change". */
  lemma RoundConverges(
      s: State, steps: seq<Step>, order: seq<string>, names: seq<string>, reports: map<string, NodeStatus>)
    requires Init(s) && Runs(s, steps) && s.history[0].spec.names == names && names != []
    requires FixedWorld(steps, names, reports) && Reporting(names, reports) && Visits(order, names)
    requires forall k :: 0 <= k < |steps| && steps[k].Attempt? ==> !steps[k].fault
    ensures Tracked(After(s, steps), names, reports)
    ensures Current(Round(After(s, steps), order, names, reports)).status == AllReports(names, reports)
    ensures Quiescent(names, reports, Current(Round(After(s, steps), order, names, reports)).status)
  {
    hide Merge, MergeAll, Round, NeedsWrite, Blind, Tracked, Overwritten, After, Runs;
    RunIsTracked(s, steps, names, reports);
    forall n | n in names ensures !Blind(After(s, steps), n, reports[n]) {
      BlindIffOverwritten(s, steps, names, reports, n);
      FaultlessIsNotDeaf(s, steps, n);
    }
    SeeingRound(After(s, steps), order, names, reports);
    assert names[0] in order;
    EveryOrderConverges(order, names, reports, Current(After(s, steps)).status);
    QuiescentIffAllReports(names, reports, AllReports(names, reports));
  }
}
