/** Membership of network interfaces in the load balancer's backend pool. */
module BackendPools {
  import opened Basics
  import opened AsciiText
  import opened ResourceIds
  import opened AzureStore

  type Nics = map<Key, Nic>

  function NicID(id: string): Option<Key> {
    GetGroupAndName(id, NETWORK_INTERFACES)
  }

  function OtherThan(poolID: string): string -> bool {
    p => !EqualFold(p, poolID)
  }

  // ---- One interface ----

  function PoolsOf(c: IPConfig): seq<string> {
    c.pools.GetOr([])
  }

  predicate ConfigInPool(c: IPConfig, poolID: string) {
    exists p :: p in PoolsOf(c) && EqualFold(p, poolID)
  }

  ghost predicate InPool(nic: Nic, poolID: string) {
    nic.ipConfigs.Some? && exists c :: c in nic.ipConfigs.value && ConfigInPool(c, poolID)
  }

  /** The other pools of a configuration, in their order. */
  function OtherPools(c: IPConfig, poolID: string): seq<string> {
    Filter(PoolsOf(c), OtherThan(poolID))
  }

  function DetachConfig(c: IPConfig, poolID: string): IPConfig {
    if ConfigInPool(c, poolID) then c.(pools := Some(OtherPools(c, poolID))) else c
  }

  function AttachConfig(c: IPConfig, poolID: string): IPConfig {
    if ConfigInPool(c, poolID) then c else c.(pools := Some(PoolsOf(c) + [poolID]))
  }

  function DetachNic(nic: Nic, poolID: string): Nic {
    if nic.ipConfigs.None? then nic
    else
      var cs := nic.ipConfigs.value;
      nic.(ipConfigs := Some(seq(|cs|, i requires 0 <= i < |cs| => DetachConfig(cs[i], poolID))))
  }

  function AttachNic(nic: Nic, poolID: string): Nic {
    if nic.ipConfigs.None? then nic
    else
      var cs := nic.ipConfigs.value;
      nic.(ipConfigs := Some(seq(|cs|, i requires 0 <= i < |cs| => AttachConfig(cs[i], poolID))))
  }

  /** Detaching leaves the pool and keeps every other pool in its order. */
  lemma DetachConfigLeaves(c: IPConfig, poolID: string)
    ensures !ConfigInPool(DetachConfig(c, poolID), poolID)
    ensures OtherPools(DetachConfig(c, poolID), poolID) == OtherPools(c, poolID)
    ensures DetachConfig(c, poolID).rest == c.rest
  {
    FilterAll(OtherPools(c, poolID), OtherThan(poolID));
  }

  /** Attaching enters the pool and keeps every other pool in its order. */
  lemma AttachConfigEnters(c: IPConfig, poolID: string)
    ensures ConfigInPool(AttachConfig(c, poolID), poolID)
    ensures OtherPools(AttachConfig(c, poolID), poolID) == OtherPools(c, poolID)
    ensures AttachConfig(c, poolID).rest == c.rest
  {
    if !ConfigInPool(c, poolID) {
      FilterAppend(PoolsOf(c), poolID, OtherThan(poolID));
      assert poolID in PoolsOf(AttachConfig(c, poolID));
    }
  }

  /** Detaching takes every occurrence of the pool out and leaves a list of the others. */
  lemma DetachRemoves(c: IPConfig, poolID: string)
    ensures var after := DetachConfig(c, poolID);
      if exists p :: p in PoolsOf(c) && EqualFold(p, poolID)
      then after == IPConfig(Some(Filter(PoolsOf(c), (p: string) => !EqualFold(p, poolID))), c.rest)
      else after == c
  {
    SamePredicate(PoolsOf(c), OtherThan(poolID), (p: string) => !EqualFold(p, poolID));
  }

  lemma {:induction false} SamePredicate(s: seq<string>, p: string -> bool, q: string -> bool)
    requires forall x :: p(x) == q(x)
    ensures Filter(s, p) == Filter(s, q)
  {
    if s != [] {
      SamePredicate(s[..|s| - 1], p, q);
    }
  }

  /** Attaching adds the pool once, behind the others, unless it is there. */
  lemma AttachAddsOnce(c: IPConfig, poolID: string)
    ensures var after := AttachConfig(c, poolID);
      if exists p :: p in PoolsOf(c) && EqualFold(p, poolID) then after == c
      else after == IPConfig(Some(PoolsOf(c) + [poolID]), c.rest)
  {
  }

  predicate HasConfig(nic: Nic) {
    nic.ipConfigs.Some? && nic.ipConfigs.value != []
  }

  lemma DetachNicLeaves(nic: Nic, poolID: string)
    ensures !InPool(DetachNic(nic, poolID), poolID)
  {
    if nic.ipConfigs.Some? {
      var cs := nic.ipConfigs.value;
      forall i | 0 <= i < |cs| ensures !ConfigInPool(DetachNic(nic, poolID).ipConfigs.value[i], poolID) {
        DetachConfigLeaves(cs[i], poolID);
      }
    }
  }

  /** An interface can be attached exactly when it has an IP configuration. */
  lemma AttachNicEntersIff(nic: Nic, poolID: string)
    ensures InPool(AttachNic(nic, poolID), poolID) <==> HasConfig(nic)
  {
    if HasConfig(nic) {
      var c := nic.ipConfigs.value[0];
      AttachConfigEnters(c, poolID);
      assert AttachNic(nic, poolID).ipConfigs.value[0] == AttachConfig(c, poolID);
    }
  }

  /** An interface with an empty list of configurations stays as it is, and out of the pool. */
  lemma EmptyNicNeverEnters(nic: Nic, poolID: string)
    requires nic.ipConfigs == Some([])
    ensures AttachNic(nic, poolID) == nic && !InPool(nic, poolID)
  {
    assert AttachNic(nic, poolID).ipConfigs.value == [];
  }

  /** Both operations keep the number of configurations, and of each one the other pools in order and all else. */
  ghost predicate KeepsOthers(before: Nic, after: Nic, poolID: string) {
    && after.(ipConfigs := None) == before.(ipConfigs := None)
    && (after.ipConfigs.Some? <==> before.ipConfigs.Some?)
    && (before.ipConfigs.Some? ==>
          && |after.ipConfigs.value| == |before.ipConfigs.value|
          && forall i :: 0 <= i < |before.ipConfigs.value| ==>
               after.ipConfigs.value[i].rest == before.ipConfigs.value[i].rest &&
               OtherPools(after.ipConfigs.value[i], poolID) == OtherPools(before.ipConfigs.value[i], poolID))
  }

  lemma NicKeepsOthers(nic: Nic, poolID: string)
    ensures KeepsOthers(nic, DetachNic(nic, poolID), poolID)
    ensures KeepsOthers(nic, AttachNic(nic, poolID), poolID)
  {
    if nic.ipConfigs.Some? {
      var cs := nic.ipConfigs.value;
      forall i | 0 <= i < |cs|
        ensures OtherPools(DetachConfig(cs[i], poolID), poolID) == OtherPools(cs[i], poolID)
        ensures OtherPools(AttachConfig(cs[i], poolID), poolID) == OtherPools(cs[i], poolID)
      {
        DetachConfigLeaves(cs[i], poolID);
        AttachConfigEnters(cs[i], poolID);
      }
    }
  }

  // ---- The operations ----

  predicate Stored(nics: Nics, id: string) {
    NicID(id).Some? && NicID(id).value in nics
  }

  predicate Attachable(nics: Nics, id: string) {
    Stored(nics, id) && nics[NicID(id).value].ipConfigs.Some?
  }

  method RemovePool(pools: seq<string>, poolID: string) returns (newPools: seq<string>, found: bool)
    ensures newPools == Filter(pools, OtherThan(poolID))
    ensures found <==> exists p :: p in pools && EqualFold(p, poolID)
  {
    newPools, found := [], false;
    for i := 0 to |pools|
      invariant newPools == Filter(pools[..i], OtherThan(poolID))
      invariant found <==> exists p :: p in pools[..i] && EqualFold(p, poolID)
    {
      assert pools[..i + 1] == pools[..i] + [pools[i]];
      FilterAppend(pools[..i], pools[i], OtherThan(poolID));
      if EqualFold(pools[i], poolID) {
        found := true;
      } else {
        newPools := newPools + [pools[i]];
      }
    }
    assert pools[..|pools|] == pools;
  }

  method DetachConfigs(cs: seq<IPConfig>, poolID: string) returns (r: seq<IPConfig>, needUpdate: bool)
    ensures |r| == |cs| && forall i :: 0 <= i < |cs| ==> r[i] == DetachConfig(cs[i], poolID)
    ensures !needUpdate ==> r == cs
  {
    r, needUpdate := cs, false;
    for i := 0 to |cs|
      invariant |r| == |cs|
      invariant forall j :: 0 <= j < |cs| ==> r[j] == if j < i then DetachConfig(cs[j], poolID) else cs[j]
      invariant !needUpdate ==> r == cs
    {
      if cs[i].pools.None? || cs[i].pools.value == [] {
        continue;
      }
      var newPools, found := RemovePool(cs[i].pools.value, poolID);
      if found {
        r, needUpdate := r[i := cs[i].(pools := Some(newPools))], true;
      }
    }
  }

  method DetachNetworkInterface(az: Azure, id: string, poolID: string) returns (ok: bool)
    modifies az`nics
    ensures ok <==> Stored(old(az.nics), id)
    ensures ok ==> az.nics == old(az.nics)[NicID(id).value := DetachNic(old(az.nics)[NicID(id).value], poolID)]
    ensures !ok ==> az.nics == old(az.nics)
  {
    var key := NicID(id);
    if key.None? || key.value !in az.nics {
      return false;
    }
    var nic := az.nics[key.value];
    if nic.ipConfigs.None? {
      assert az.nics == az.nics[key.value := nic];
      return true;
    }
    var cs, needUpdate := DetachConfigs(nic.ipConfigs.value, poolID);
    assert cs == DetachNic(nic, poolID).ipConfigs.value;
    if needUpdate {
      az.PutNic(key.value, nic.(ipConfigs := Some(cs)));
    } else {
      assert az.nics == az.nics[key.value := nic];
    }
    return true;
  }

  method AttachConfigs(cs: seq<IPConfig>, poolID: string) returns (r: seq<IPConfig>, needUpdate: bool)
    ensures |r| == |cs| && forall i :: 0 <= i < |cs| ==> r[i] == AttachConfig(cs[i], poolID)
    ensures !needUpdate ==> r == cs
  {
    r, needUpdate := cs, false;
    for i := 0 to |cs|
      invariant |r| == |cs|
      invariant forall j :: 0 <= j < |cs| ==> r[j] == if j < i then AttachConfig(cs[j], poolID) else cs[j]
      invariant !needUpdate ==> r == cs
    {
      var pools, found := PoolsOf(cs[i]), false;
      for j := 0 to |pools|
        invariant !found && forall p :: p in pools[..j] ==> !EqualFold(p, poolID)
      {
        if EqualFold(pools[j], poolID) {
          found := true;
          break;
        }
      }
      assert !found ==> pools[..|pools|] == pools;
      assert found <==> ConfigInPool(cs[i], poolID);
      if !found {
        r, needUpdate := r[i := cs[i].(pools := Some(pools + [poolID]))], true;
      }
    }
  }

  /** Unlike detaching, attaching fails when the interface has no list of IP configurations. */
  method AttachNetworkInterface(az: Azure, id: string, poolID: string) returns (ok: bool)
    modifies az`nics
    ensures ok <==> Attachable(old(az.nics), id)
    ensures ok ==> az.nics == old(az.nics)[NicID(id).value := AttachNic(old(az.nics)[NicID(id).value], poolID)]
    ensures !ok ==> az.nics == old(az.nics)
  {
    var key := NicID(id);
    if key.None? || key.value !in az.nics {
      return false;
    }
    var nic := az.nics[key.value];
    if nic.ipConfigs.None? {
      return false;
    }
    var cs, needUpdate := AttachConfigs(nic.ipConfigs.value, poolID);
    assert cs == AttachNic(nic, poolID).ipConfigs.value;
    if needUpdate {
      az.PutNic(key.value, nic.(ipConfigs := Some(cs)));
    } else {
      assert az.nics == az.nics[key.value := nic];
    }
    return true;
  }

  // ---- Any sequence of operations ----

  datatype Op = Detach(key: Key) | Attach(key: Key)

  function ApplyOp(nics: Nics, op: Op, poolID: string): Nics {
    if op.key !in nics then nics
    else match op
      case Detach(k) => nics[k := DetachNic(nics[k], poolID)]
      case Attach(k) => nics[k := AttachNic(nics[k], poolID)]
  }

  function ApplyOps(nics: Nics, ops: seq<Op>, poolID: string): Nics {
    if ops == [] then nics else ApplyOp(ApplyOps(nics, ops[..|ops| - 1], poolID), ops[|ops| - 1], poolID)
  }

  ghost predicate DistinctKeys(ops: seq<Op>) {
    forall i, j :: 0 <= i < j < |ops| ==> ops[i].key != ops[j].key
  }

  lemma {:induction false} OpsKeepKeys(nics: Nics, ops: seq<Op>, poolID: string)
    ensures ApplyOps(nics, ops, poolID).Keys == nics.Keys
  {
    if ops != [] {
      OpsKeepKeys(nics, ops[..|ops| - 1], poolID);
    }
  }

  /** What a set of operations does to one interface. */
  function FinalNic(nic: Nic, ops: seq<Op>, k: Key, poolID: string): Nic {
    if Detach(k) in ops then DetachNic(nic, poolID)
    else if Attach(k) in ops then AttachNic(nic, poolID)
    else nic
  }

  /** What operations on distinct interfaces do to one interface does not depend on their order. */
  lemma {:induction false} OpsPointwise(nics: Nics, ops: seq<Op>, poolID: string, k: Key)
    requires DistinctKeys(ops) && k in nics
    ensures k in ApplyOps(nics, ops, poolID)
    ensures ApplyOps(nics, ops, poolID)[k] == FinalNic(nics[k], ops, k, poolID)
  {
    if ops != [] {
      var init, last := ops[..|ops| - 1], ops[|ops| - 1];
      assert ops == init + [last];
      OpsPointwise(nics, init, poolID, k);
      assert forall op :: op in init ==> op.key != last.key;
    }
  }

  lemma OrderIrrelevant(nics: Nics, ops: seq<Op>, other: seq<Op>, poolID: string)
    requires DistinctKeys(ops) && DistinctKeys(other) && forall op :: op in ops <==> op in other
    ensures ApplyOps(nics, ops, poolID) == ApplyOps(nics, other, poolID)
  {
    OpsKeepKeys(nics, ops, poolID);
    OpsKeepKeys(nics, other, poolID);
    var a, b := ApplyOps(nics, ops, poolID), ApplyOps(nics, other, poolID);
    assert a.Keys == b.Keys;
    forall k | k in nics ensures k in a && k in b && a[k] == b[k] {
      OpsPointwise(nics, ops, poolID, k);
      OpsPointwise(nics, other, poolID, k);
    }
  }

  // ---- The whole sync ----

  /** The interface IDs cut from the pool's IP configuration IDs; IDs that cannot be cut are skipped. */
  function ViewOf(configs: seq<string>): set<string> {
    set id | id in configs && GetIPIDFromIPConfig(id).Some? :: GetIPIDFromIPConfig(id).value
  }

  method GetAzureBackendPoolIP(configs: seq<string>) returns (ids: set<string>)
    ensures ids == ViewOf(configs)
  {
    ids := {};
    for i := 0 to |configs|
      invariant ids == ViewOf(configs[..i])
    {
      assert configs[..i + 1] == configs[..i] + [configs[i]];
      assert forall x :: x in configs[..i + 1] <==> x in configs[..i] || x == configs[i];
      var cut := GetIPIDFromIPConfig(configs[i]);
      if cut.None? {
        continue;
      }
      ids := ids + {cut.value};
    }
    assert configs[..|configs|] == configs;
  }

  /** The IDs in one set but not in the other, in any order. */
  method GetDiff(one: set<string>, two: set<string>) returns (diff: seq<string>)
    ensures Distinct(diff) && Elements(diff) == one - two
  {
    diff := [];
    var rest := one;
    while rest != {}
      invariant rest <= one && Distinct(diff) && Elements(diff) == (one - rest) - two
      decreases rest
    {
      var id := AnyOf(rest);
      DistinctAppend(diff, id);
      if id !in two {
        assert id !in Elements(diff);
        diff := diff + [id];
      }
      rest := rest - {id};
    }
  }

  /** The operation for an ID. An ID that names nothing gets a placeholder, which a run never comes to. */
  function OpFor(id: string, detach: bool): Op {
    var key := NicID(id).GetOr(Key("", ""));
    if detach then Detach(key) else Attach(key)
  }

  function OpsFor(ids: seq<string>, detach: bool): seq<Op> {
    seq(|ids|, i requires 0 <= i < |ids| => OpFor(ids[i], detach))
  }

  lemma OpsStep(nics: Nics, ids: seq<string>, i: nat, detach: bool, poolID: string)
    requires i < |ids|
    ensures ApplyOps(nics, OpsFor(ids[..i + 1], detach), poolID) ==
            ApplyOp(ApplyOps(nics, OpsFor(ids[..i], detach), poolID), OpFor(ids[i], detach), poolID)
  {
    var ops := OpsFor(ids[..i + 1], detach);
    assert ops[..|ops| - 1] == OpsFor(ids[..i], detach);
  }

  lemma {:induction false} OpsKeepStored(nics: Nics, ops: seq<Op>, poolID: string, id: string)
    ensures Stored(ApplyOps(nics, ops, poolID), id) <==> Stored(nics, id)
    ensures Attachable(ApplyOps(nics, ops, poolID), id) <==> Attachable(nics, id)
  {
    if ops != [] {
      OpsKeepStored(nics, ops[..|ops| - 1], poolID, id);
    }
  }

  /** Whether the operation can be carried out. */
  predicate CanDo(nics: Nics, id: string, detach: bool) {
    if detach then Stored(nics, id) else Attachable(nics, id)
  }

  /** The first i interfaces could be handled and have been. */
  ghost predicate DoneUpTo(before: Nics, after: Nics, ids: seq<string>, i: nat, detach: bool, poolID: string) {
    && i <= |ids|
    && after == ApplyOps(before, OpsFor(ids[..i], detach), poolID)
    && forall j :: 0 <= j < i ==> CanDo(before, ids[j], detach)
  }

  /** All interfaces up to the first one that cannot be handled have been. */
  ghost predicate Handled(before: Nics, after: Nics, ids: seq<string>, done: nat, detach: bool, poolID: string) {
    && DoneUpTo(before, after, ids, done, detach, poolID)
    && (done < |ids| ==> !CanDo(before, ids[done], detach))
  }

  lemma DoneNext(before: Nics, after: Nics, ids: seq<string>, i: nat, detach: bool, poolID: string)
    requires DoneUpTo(before, after, ids, i, detach, poolID) && i < |ids|
    requires CanDo(after, ids[i], detach)
    ensures var nic := after[NicID(ids[i]).value];
      var next := if detach then DetachNic(nic, poolID) else AttachNic(nic, poolID);
      DoneUpTo(before, after[NicID(ids[i]).value := next], ids, i + 1, detach, poolID)
  {
    OpsKeepStored(before, OpsFor(ids[..i], detach), poolID, ids[i]);
    OpsStep(before, ids, i, detach, poolID);
  }

  lemma DoneStops(before: Nics, after: Nics, ids: seq<string>, i: nat, detach: bool, poolID: string)
    requires DoneUpTo(before, after, ids, i, detach, poolID) && i < |ids|
    requires !CanDo(after, ids[i], detach)
    ensures Handled(before, after, ids, i, detach, poolID)
  {
    OpsKeepStored(before, OpsFor(ids[..i], detach), poolID, ids[i]);
  }

  /** Stops at the first interface that is not stored, with the earlier ones detached. */
  method DetachAll(az: Azure, ids: seq<string>, poolID: string) returns (ok: bool, ghost done: nat)
    modifies az`nics
    ensures Handled(old(az.nics), az.nics, ids, done, true, poolID)
    ensures done <= |ids| && (ok <==> done == |ids|)
  {
    done := 0;
    for i := 0 to |ids|
      invariant done == i && DoneUpTo(old(az.nics), az.nics, ids, i, true, poolID)
    {
      if Stored(az.nics, ids[i]) {
        DoneNext(old(az.nics), az.nics, ids, i, true, poolID);
      } else {
        DoneStops(old(az.nics), az.nics, ids, i, true, poolID);
      }
      var detached := DetachNetworkInterface(az, ids[i], poolID);
      if !detached {
        return false, done;
      }
      done := done + 1;
    }
    ok := true;
  }

  /** Stops at the first interface that cannot be attached, with the earlier ones attached. */
  method AttachAll(az: Azure, ids: seq<string>, poolID: string) returns (ok: bool, ghost done: nat)
    modifies az`nics
    ensures Handled(old(az.nics), az.nics, ids, done, false, poolID)
    ensures done <= |ids| && (ok <==> done == |ids|)
  {
    done := 0;
    for i := 0 to |ids|
      invariant done == i && DoneUpTo(old(az.nics), az.nics, ids, i, false, poolID)
    {
      if Attachable(az.nics, ids[i]) {
        DoneNext(old(az.nics), az.nics, ids, i, false, poolID);
      } else {
        DoneStops(old(az.nics), az.nics, ids, i, false, poolID);
      }
      var attached := AttachNetworkInterface(az, ids[i], poolID);
      if !attached {
        return false, done;
      }
      done := done + 1;
    }
    ok := true;
  }

  datatype Pool = Pool(id: string, configs: seq<string>)

  /** The planned operations: detach what only the pool lists, then attach what only the nodes have. */
  function Plan(detached: seq<string>, attached: seq<string>): seq<Op> {
    OpsFor(detached, true) + OpsFor(attached, false)
  }

  ghost predicate Planned(view: set<string>, desired: set<string>, detached: seq<string>, attached: seq<string>) {
    && Distinct(detached) && Elements(detached) == view - desired
    && Distinct(attached) && Elements(attached) == desired - view
  }

  predicate Feasible(nics: Nics, view: set<string>, desired: set<string>) {
    && (forall id :: id in view - desired ==> Stored(nics, id))
    && (forall id :: id in desired - view ==> Attachable(nics, id))
  }

  lemma DetachPrefix(nics: Nics, detached: seq<string>, attached: seq<string>, done: nat, poolID: string)
    requires done <= |detached|
    ensures done <= |Plan(detached, attached)|
    ensures ApplyOps(nics, Plan(detached, attached)[..done], poolID) ==
            ApplyOps(nics, OpsFor(detached[..done], true), poolID)
  {
    assert Plan(detached, attached)[..done] == OpsFor(detached[..done], true);
  }

  lemma AttachPrefix(nics: Nics, detached: seq<string>, attached: seq<string>, done: nat, poolID: string)
    requires done <= |attached|
    ensures |Plan(detached, attached)| == |detached| + |attached|
    ensures ApplyOps(nics, Plan(detached, attached)[..|detached| + done], poolID) ==
            ApplyOps(ApplyOps(nics, OpsFor(detached, true), poolID), OpsFor(attached[..done], false), poolID)
    ensures done == |attached| ==> Plan(detached, attached)[..|detached| + done] == Plan(detached, attached)
  {
    var a, b := OpsFor(detached, true), OpsFor(attached[..done], false);
    assert Plan(detached, attached)[..|detached| + done] == a + b;
    ApplyOpsConcat(nics, a, b, poolID);
  }

  /** One run: the store reflects the first `done` planned operations; the run succeeds, and does them all, exactly
      when every interface can be handled. */
  ghost predicate SyncRun(
      before: Nics, after: Nics, pools: seq<Pool>, desired: set<string>, ok: bool, detached: seq<string>,
      attached: seq<string>, done: nat)
  {
    if pools == [] then !ok && after == before
    else
      && Planned(ViewOf(pools[0].configs), desired, detached, attached)
      && done <= |Plan(detached, attached)|
      && after == ApplyOps(before, Plan(detached, attached)[..done], pools[0].id)
      && (ok <==> Feasible(before, ViewOf(pools[0].configs), desired))
      && (ok ==> done == |Plan(detached, attached)|)
  }

  /** The first `done` operations of the plan have been carried out; the next one, if any, cannot be. */
  ghost predicate Carried(before: Nics, after: Nics, detached: seq<string>, attached: seq<string>, done: nat, poolID: string) {
    && done <= |Plan(detached, attached)|
    && after == ApplyOps(before, Plan(detached, attached)[..done], poolID)
    && (done == |Plan(detached, attached)| <==>
          && (forall id :: id in detached ==> CanDo(before, id, true))
          && (forall id :: id in attached ==> CanDo(before, id, false)))
  }

  lemma StoppedDetaching(
      before: Nics, after: Nics, detached: seq<string>, attached: seq<string>, done: nat, poolID: string)
    requires Handled(before, after, detached, done, true, poolID) && done < |detached|
    ensures Carried(before, after, detached, attached, done, poolID)
  {
    DetachPrefix(before, detached, attached, done, poolID);
    assert detached[done] in detached;
  }

  lemma AllDone(before: Nics, after: Nics, ids: seq<string>, done: nat, detach: bool, poolID: string)
    requires Handled(before, after, ids, done, detach, poolID)
    ensures done == |ids| <==> forall id :: id in ids ==> CanDo(before, id, detach)
    ensures done == |ids| ==> after == ApplyOps(before, OpsFor(ids, detach), poolID)
  {
    if done == |ids| {
      assert ids[..done] == ids;
    }
  }

  lemma DoneAttaching(
      before: Nics, middle: Nics, after: Nics, detached: seq<string>, attached: seq<string>, done: nat, poolID: string)
    requires Handled(before, middle, detached, |detached|, true, poolID)
    requires Handled(middle, after, attached, done, false, poolID)
    ensures |Plan(detached, attached)| == |detached| + |attached|
    ensures Carried(before, after, detached, attached, |detached| + done, poolID)
  {
    AllDone(before, middle, detached, |detached|, true, poolID);
    AllDone(middle, after, attached, done, false, poolID);
    AttachPrefix(before, detached, attached, done, poolID);
    forall id ensures CanDo(middle, id, false) <==> CanDo(before, id, false) {
      OpsKeepStored(before, OpsFor(detached, true), poolID, id);
    }
  }

  method ApplyPlan(az: Azure, detached: seq<string>, attached: seq<string>, poolID: string)
    returns (ok: bool, ghost done: nat)
    modifies az`nics
    ensures Carried(old(az.nics), az.nics, detached, attached, done, poolID)
    ensures ok <==> done == |Plan(detached, attached)|
  {
    hide *;
    ok, done := DetachAll(az, detached, poolID);
    if !ok {
      StoppedDetaching(old(az.nics), az.nics, detached, attached, done, poolID);
      return;
    }
    ghost var middle, more := az.nics, 0;
    ok, more := AttachAll(az, attached, poolID);
    DoneAttaching(old(az.nics), middle, az.nics, detached, attached, more, poolID);
    done := done + more;
  }

  lemma RunCarried(
      before: Nics, after: Nics, pools: seq<Pool>, desired: set<string>, ok: bool, detached: seq<string>,
      attached: seq<string>, done: nat)
    requires pools != [] && Planned(ViewOf(pools[0].configs), desired, detached, attached)
    requires Carried(before, after, detached, attached, done, pools[0].id)
    requires ok <==> done == |Plan(detached, attached)|
    ensures SyncRun(before, after, pools, desired, ok, detached, attached, done)
  {
    assert forall id :: id in detached <==> id in Elements(detached);
    assert forall id :: id in attached <==> id in Elements(attached);
  }

  lemma RunOutcome(
      before: Nics, after: Nics, pools: seq<Pool>, desired: set<string>, detached: seq<string>,
      attached: seq<string>, done: nat)
    requires SyncRun(before, after, pools, desired, true, detached, attached, done)
    ensures SyncOutcome(before, after, pools, desired, detached, attached)
  {
    assert Plan(detached, attached)[..done] == Plan(detached, attached);
  }

  /** `desired` are the interface IDs of the nodes' machines. */
  method SyncBackendPools(az: Azure, pools: seq<Pool>, desired: set<string>)
    returns (ok: bool, detached: seq<string>, ghost attached: seq<string>, ghost done: nat)
    modifies az`nics
    ensures SyncRun(old(az.nics), az.nics, pools, desired, ok, detached, attached, done)
    ensures ok ==> SyncOutcome(old(az.nics), az.nics, pools, desired, detached, attached)
  {
    detached, attached, done := [], [], 0;
    if pools == [] {
      return false, detached, attached, done;
    }
    var view := GetAzureBackendPoolIP(pools[0].configs);
    detached := GetDiff(view, desired);
    var attachs := GetDiff(desired, view);
    attached := attachs;
    ok, done := ApplyPlan(az, detached, attachs, pools[0].id);
    RunCarried(old(az.nics), az.nics, pools, desired, ok, detached, attached, done);
    if ok {
      RunOutcome(old(az.nics), az.nics, pools, desired, detached, attached, done);
    }
  }

  ghost predicate SyncOutcome(
      before: Nics, after: Nics, pools: seq<Pool>, desired: set<string>, detached: seq<string>, attached: seq<string>)
  {
    && pools != []
    && Planned(ViewOf(pools[0].configs), desired, detached, attached)
    && Feasible(before, ViewOf(pools[0].configs), desired)
    && after == ApplyOps(before, Plan(detached, attached), pools[0].id)
  }

  lemma {:induction false} ApplyOpsConcat(nics: Nics, a: seq<Op>, b: seq<Op>, poolID: string)
    ensures ApplyOps(nics, a + b, poolID) == ApplyOps(ApplyOps(nics, a, poolID), b, poolID)
  {
    if b == [] {
      assert a + b == a;
    } else {
      assert (a + b)[..|a + b| - 1] == a + b[..|b| - 1];
      ApplyOpsConcat(nics, a, b[..|b| - 1], poolID);
    }
  }

  function KeysFor(ids: set<string>): set<Key> {
    set id | id in ids && NicID(id).Some? :: NicID(id).value
  }

  /** Different IDs name different interfaces. */
  ghost predicate NamesApart(ids: set<string>) {
    forall a, b :: a in ids && b in ids && a != b && NicID(a).Some? ==> NicID(a) != NicID(b)
  }

  /** The pool lists exactly the interfaces that are in it. */
  ghost predicate ViewAgrees(nics: Nics, view: set<string>, poolID: string) {
    forall k :: k in nics ==> (InPool(nics[k], poolID) <==> k in KeysFor(view))
  }

  /** The IDs behind a plan. */
  lemma PlanIDs(detached: seq<string>, attached: seq<string>, i: nat)
    requires i < |detached| + |attached|
    requires forall id :: id in detached || id in attached ==> NicID(id).Some?
    ensures |Plan(detached, attached)| == |detached| + |attached|
    ensures NicID((detached + attached)[i]) == Some(Plan(detached, attached)[i].key)
  {
    assert (detached + attached)[i] in detached || (detached + attached)[i] in attached;
  }

  lemma IDsDistinct(detached: seq<string>, attached: seq<string>)
    requires Distinct(detached) && Distinct(attached) && Elements(detached) !! Elements(attached)
    ensures Distinct(detached + attached)
    ensures Elements(detached + attached) == Elements(detached) + Elements(attached)
  {
    forall x | x in attached ensures x !in detached {
      assert x in Elements(attached) && (x in detached ==> x in Elements(detached));
    }
    DistinctConcat(detached, attached);
  }

  lemma OpsDistinct(detached: seq<string>, attached: seq<string>)
    requires Distinct(detached) && Distinct(attached) && Elements(detached) !! Elements(attached)
    requires NamesApart(Elements(detached) + Elements(attached))
    requires forall id :: id in detached || id in attached ==> NicID(id).Some?
    ensures DistinctKeys(Plan(detached, attached))
  {
    IDsDistinct(detached, attached);
    var ids, ops := detached + attached, Plan(detached, attached);
    forall i, j | 0 <= i < j < |ops| ensures ops[i].key != ops[j].key {
      PlanIDs(detached, attached, i);
      PlanIDs(detached, attached, j);
      assert ids[i] in Elements(ids) && ids[j] in Elements(ids) && ids[i] != ids[j];
    }
  }

  lemma OpsMember(ids: seq<string>, detach: bool, op: Op)
    requires forall id :: id in ids ==> NicID(id).Some?
    ensures op in OpsFor(ids, detach) <==> op.Detach? == detach && op.key in KeysFor(Elements(ids))
  {
    var ops := OpsFor(ids, detach);
    if op in ops {
      var i :| 0 <= i < |ops| && ops[i] == op;
      assert ids[i] in Elements(ids) && NicID(ids[i]) == Some(op.key);
    }
    if op.Detach? == detach && op.key in KeysFor(Elements(ids)) {
      var id :| id in Elements(ids) && NicID(id) == Some(op.key);
      var i :| 0 <= i < |ids| && ids[i] == id;
      assert ops[i] == op;
    }
  }

  lemma PlanDistinct(
      before: Nics, pools: seq<Pool>, desired: set<string>, detached: seq<string>, attached: seq<string>)
    requires pools != [] && Planned(ViewOf(pools[0].configs), desired, detached, attached)
    requires Feasible(before, ViewOf(pools[0].configs), desired) && NamesApart(ViewOf(pools[0].configs) + desired)
    ensures forall id :: id in detached || id in attached ==> NicID(id).Some?
    ensures DistinctKeys(Plan(detached, attached))
  {
    forall id | id in detached || id in attached ensures NicID(id).Some? {
      assert id in Elements(detached) || id in Elements(attached);
      assert Stored(before, id);
    }
    OpsDistinct(detached, attached);
  }

  /** Each interface after the sync. */
  lemma SyncedNic(
      before: Nics, after: Nics, pools: seq<Pool>, desired: set<string>, detached: seq<string>, attached: seq<string>, k: Key)
    requires SyncOutcome(before, after, pools, desired, detached, attached) && k in before
    requires NamesApart(ViewOf(pools[0].configs) + desired)
    ensures after.Keys == before.Keys
    ensures after[k] ==
      if k in KeysFor(ViewOf(pools[0].configs) - desired) then DetachNic(before[k], pools[0].id)
      else if k in KeysFor(desired - ViewOf(pools[0].configs)) then AttachNic(before[k], pools[0].id)
      else before[k]
  {
    var ops := Plan(detached, attached);
    PlanDistinct(before, pools, desired, detached, attached);
    OpsKeepKeys(before, ops, pools[0].id);
    OpsPointwise(before, ops, pools[0].id, k);
    OpsMember(detached, true, Detach(k));
    OpsMember(attached, false, Detach(k));
    OpsMember(detached, true, Attach(k));
    OpsMember(attached, false, Attach(k));
  }

  lemma KeysApart(view: set<string>, desired: set<string>, k: Key)
    requires NamesApart(view + desired)
    ensures k in KeysFor(view - desired) <==> k in KeysFor(view) && k !in KeysFor(desired)
    ensures k in KeysFor(desired - view) <==> k in KeysFor(desired) && k !in KeysFor(view)
  {
    forall a, b | a in view && b in desired && NicID(a) == Some(k) && NicID(b) == Some(k) ensures a == b {
      assert a in view + desired && b in view + desired;
    }
    if k in KeysFor(view) && k !in KeysFor(desired) {
      var a :| a in view && NicID(a) == Some(k);
      assert a in view - desired;
    }
    if k in KeysFor(desired) && k !in KeysFor(view) {
      var a :| a in desired && NicID(a) == Some(k);
      assert a in desired - view;
    }
  }

  /** With a pool that lists its members and IDs that name different interfaces, a successful sync reaches the target,
      the members being exactly the nodes' interfaces, exactly when every interface to attach has an IP
      configuration. */
  lemma TargetReachedIff(
      before: Nics, after: Nics, pools: seq<Pool>, desired: set<string>, detached: seq<string>, attached: seq<string>)
    requires SyncOutcome(before, after, pools, desired, detached, attached)
    requires NamesApart(ViewOf(pools[0].configs) + desired)
    requires ViewAgrees(before, ViewOf(pools[0].configs), pools[0].id)
    ensures (forall k :: k in before ==> k in after && (InPool(after[k], pools[0].id) <==> k in KeysFor(desired))) <==>
      (forall k :: k in before && k in KeysFor(desired - ViewOf(pools[0].configs)) ==> HasConfig(before[k]))
  {
    var view, poolID := ViewOf(pools[0].configs), pools[0].id;
    forall k | k in before
      ensures k in after
      ensures (InPool(after[k], poolID) <==> k in KeysFor(desired)) <==>
        (k in KeysFor(desired - view) ==> HasConfig(before[k]))
    {
      SyncedNic(before, after, pools, desired, detached, attached, k);
      KeysApart(view, desired, k);
      DetachNicLeaves(before[k], poolID);
      AttachNicEntersIff(before[k], poolID);
    }
  }

  /** Interfaces outside the difference are untouched; of the others, only this pool's membership changes. */
  lemma SyncKeepsOthers(
      before: Nics, after: Nics, pools: seq<Pool>, desired: set<string>, detached: seq<string>, attached: seq<string>, k: Key)
    requires SyncOutcome(before, after, pools, desired, detached, attached) && k in before
    requires NamesApart(ViewOf(pools[0].configs) + desired)
    ensures k in after && KeepsOthers(before[k], after[k], pools[0].id)
    ensures (k in KeysFor(desired) <==> k in KeysFor(ViewOf(pools[0].configs))) ==> after[k] == before[k]
  {
    SyncedNic(before, after, pools, desired, detached, attached, k);
    KeysApart(ViewOf(pools[0].configs), desired, k);
    NicKeepsOthers(before[k], pools[0].id);
  }

  /** Any other order of the same detaches and attaches, interleaved or not, gives the same store. */
  lemma SyncOrderIrrelevant(
      before: Nics, after: Nics, pools: seq<Pool>, desired: set<string>, detached: seq<string>, attached: seq<string>, ops: seq<Op>)
    requires SyncOutcome(before, after, pools, desired, detached, attached)
    requires NamesApart(ViewOf(pools[0].configs) + desired)
    requires DistinctKeys(ops)
    requires forall op :: op in ops <==> op in Plan(detached, attached)
    ensures ApplyOps(before, ops, pools[0].id) == after
  {
    PlanDistinct(before, pools, desired, detached, attached);
    OrderIrrelevant(before, ops, Plan(detached, attached), pools[0].id);
  }

  // ---- A pool that is as it should be ----

  lemma ViewMember(configs: seq<string>, nic: string)
    ensures nic in ViewOf(configs) <==> exists id :: id in configs && CutsTo(id, nic)
  {
    forall id ensures GetIPIDFromIPConfig(id) == Some(nic) <==> CutsTo(id, nic) {
      CutIs(id, nic);
    }
    hide GetIPIDFromIPConfig, CutsTo;
    if nic in ViewOf(configs) {
      var id :| id in configs && GetIPIDFromIPConfig(id) == Some(nic);
      assert CutsTo(id, nic);
    }
    if id :| id in configs && CutsTo(id, nic) {
      assert GetIPIDFromIPConfig(id).Some? && GetIPIDFromIPConfig(id).value == nic;
    }
  }

  /** The pool lists IP configurations of the desired interfaces, at least one of each, and of no others. */
  ghost predicate ListsExactly(configs: seq<string>, desired: set<string>) {
    && (forall id, nic :: id in configs && CutsTo(id, nic) ==> nic in desired)
    && (forall nic :: nic in desired ==> exists id :: id in configs && CutsTo(id, nic))
  }

  lemma ViewIsDesired(configs: seq<string>, desired: set<string>)
    ensures ListsExactly(configs, desired) <==> ViewOf(configs) == desired
  {
    hide CutsTo, ViewOf;
    forall nic ensures nic in ViewOf(configs) <==> exists id :: id in configs && CutsTo(id, nic) {
      ViewMember(configs, nic);
    }
  }

  /** With such a pool a run succeeds, detaches and attaches nothing, and leaves the store as it is. */
  lemma CorrectPoolIsIdle(
      before: Nics, after: Nics, pools: seq<Pool>, desired: set<string>, ok: bool, detached: seq<string>,
      attached: seq<string>, done: nat)
    requires SyncRun(before, after, pools, desired, ok, detached, attached, done)
    requires pools != [] && ListsExactly(pools[0].configs, desired)
    ensures ok && detached == [] && attached == [] && after == before
  {
    ViewIsDesired(pools[0].configs, desired);
    hide ListsExactly, ViewOf;
    NoElements(detached);
    NoElements(attached);
    assert Plan([], []) == [];
  }

  lemma NoElements(ids: seq<string>)
    ensures Elements(ids) == {} <==> ids == []
  {
    if ids != [] {
      assert ids[0] in Elements(ids);
    }
  }
}
