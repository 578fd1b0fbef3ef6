/** Security groups over a whole run: which are stripped, which are synchronized, which stay. */
module GroupSync {
  import opened Basics
  import opened PortMaps
  import opened ResourceIds
  import opened SecurityRules
  import opened SecurityResults
  import opened AzureStore

  type Groups = map<Key, seq<SecurityRule>>

  function GroupID(id: string): Option<Key> {
    GetGroupAndName(id, SECURITY_GROUPS)
  }

  /** The keys of the groups that some of the IDs name. */
  function KeysOf(ids: set<string>): set<Key> {
    set id | id in ids && GroupID(id).Some? :: GroupID(id).value
  }

  lemma KeysOfAppend(ids: set<string>, id: string)
    requires GroupID(id).Some?
    ensures KeysOf(ids + {id}) == KeysOf(ids) + {GroupID(id).value}
  {
  }

  /** Every ID names a stored group. */
  predicate AllStored(groups: Groups, ids: set<string>) {
    forall id :: id in ids ==> GroupID(id).Some? && GroupID(id).value in groups
  }

  /** Different IDs name different groups. */
  ghost predicate NamesApart(ids: set<string>) {
    forall a, b :: a in ids && b in ids && a != b ==> GroupID(a) != GroupID(b)
  }

  // ---- Stripping ----

  method StripRules(rules: seq<SecurityRule>) returns (newRules: seq<SecurityRule>, change: bool)
    ensures newRules == Strip(rules)
    ensures change <==> newRules != rules
  {
    newRules, change := [], false;
    for i := 0 to |rules|
      invariant newRules == Strip(rules[..i])
      invariant change <==> exists r :: r in rules[..i] && !User(r)
    {
      assert rules[..i + 1] == rules[..i] + [rules[i]];
      FilterAppend(rules[..i], rules[i], User);
      var name := Text(rules[i].name);
      if TCP_PREFIX <= name || UDP_PREFIX <= name {
        change := true;
      } else {
        newRules := newRules + [rules[i]];
      }
    }
    assert rules[..|rules|] == rules;
    if !change {
      FilterAll(rules, User);
    }
  }

  ghost predicate StrippedAt(before: Groups, after: Groups, keys: set<Key>) {
    && after.Keys == before.Keys
    && forall k :: k in before ==> after[k] == if k in keys then Strip(before[k]) else before[k]
  }

  lemma StripTwice(rules: seq<SecurityRule>)
    ensures Strip(Strip(rules)) == Strip(rules)
  {
    FilterAll(Strip(rules), User);
  }

  lemma StrippedFurther(before: Groups, after: Groups, keys: set<Key>, key: Key)
    requires StrippedAt(before, after, keys) && key in after
    ensures StrippedAt(before, after[key := Strip(after[key])], keys + {key})
  {
    StripTwice(before[key]);
  }

  /** All IDs but `rest` have been visited. */
  ghost predicate StrippedBut(before: Groups, after: Groups, ids: set<string>, rest: set<string>) {
    && rest <= ids
    && AllStored(before, ids - rest)
    && StrippedAt(before, after, KeysOf(ids - rest))
  }

  lemma StrippedNext(before: Groups, after: Groups, ids: set<string>, rest: set<string>, id: string)
    requires StrippedBut(before, after, ids, rest) && id in rest
    requires GroupID(id).Some? && GroupID(id).value in after
    ensures StrippedBut(before, after[GroupID(id).value := Strip(after[GroupID(id).value])], ids, rest - {id})
  {
    assert ids - (rest - {id}) == (ids - rest) + {id};
    KeysOfAppend(ids - rest, id);
    StrippedFurther(before, after, KeysOf(ids - rest), GroupID(id).value);
  }

  lemma StrippedStops(before: Groups, after: Groups, ids: set<string>, rest: set<string>, id: string)
    requires StrippedBut(before, after, ids, rest) && id in rest
    requires GroupID(id).None? || GroupID(id).value !in after
    ensures !AllStored(before, ids)
  {
    assert id in ids;
  }

  lemma StrippedAll(before: Groups, after: Groups, ids: set<string>)
    requires StrippedBut(before, after, ids, {})
    ensures AllStored(before, ids) && StrippedAt(before, after, KeysOf(ids))
  {
    assert ids - {} == ids;
  }

  /** Strips every named group; stops at the first ID that does not name one. */
  method DeleteUselessSecurityRules(az: Azure, ids: set<string>) returns (ok: bool, ghost stripped: set<string>)
    modifies az`groups
    ensures stripped <= ids && StrippedAt(old(az.groups), az.groups, KeysOf(stripped))
    ensures ok <==> AllStored(old(az.groups), ids)
    ensures ok ==> stripped == ids
  {
    var rest := ids;
    assert KeysOf(ids - rest) == {};
    while rest != {}
      invariant StrippedBut(old(az.groups), az.groups, ids, rest)
      decreases rest
    {
      var id := AnyOf(rest);
      var key := GroupID(id);
      if key.None? || key.value !in az.groups {
        StrippedStops(old(az.groups), az.groups, ids, rest, id);
        return false, ids - rest;
      }
      StrippedNext(old(az.groups), az.groups, ids, rest, id);
      var rules, change := StripRules(az.groups[key.value]);
      if change {
        az.PutGroup(key.value, rules);
      } else {
        assert az.groups == az.groups[key.value := rules];
      }
      rest := rest - {id};
    }
    StrippedAll(old(az.groups), az.groups, ids);
    ok, stripped := true, ids;
  }

  // ---- Synchronizing ----

  function RulesAt(groups: Groups, key: Key): seq<SecurityRule> {
    if key in groups then groups[key] else []
  }

  function RulesOf(groups: Groups, keys: seq<Key>): seq<seq<SecurityRule>> {
    seq(|keys|, i requires 0 <= i < |keys| => RulesAt(groups, keys[i]))
  }

  lemma RulesOfAppend(groups: Groups, keys: seq<Key>, key: Key)
    ensures RulesOf(groups, keys + [key]) == RulesOf(groups, keys) + [RulesAt(groups, key)]
  {
  }

  lemma RulesOfUnchanged(groups: Groups, keys: seq<Key>, key: Key, rules: seq<SecurityRule>)
    requires key !in keys
    ensures RulesOf(groups[key := rules], keys) == RulesOf(groups, keys)
  {
  }

  /** The groups at `keys` have been synchronized one after the other, and no other group has changed. */
  ghost predicate SyncedInOrder(before: Groups, after: Groups, keys: seq<Key>, ports: Ports) {
    && after.Keys == before.Keys
    && (forall k :: k in keys ==> k in before)
    && (forall k :: k in before && k !in keys ==> after[k] == before[k])
    && (Distinct(keys) ==> AllSynced(RulesOf(before, keys), ports, RulesOf(after, keys)))
  }

  lemma SyncedNext(before: Groups, after: Groups, keys: seq<Key>, ports: Ports, key: Key, rules: seq<SecurityRule>)
    requires SyncedInOrder(before, after, keys, ports) && key in after
    requires Distinct(keys) ==> Synced(ScanRules(after[key], EntryPorts(RulesOf(before, keys), ports)), rules)
    ensures SyncedInOrder(before, after[key := rules], keys + [key], ports)
  {
    var end := after[key := rules];
    DistinctAppend(keys, key);
    assert forall x :: x in keys + [key] <==> x in keys || x == key;
    if Distinct(keys + [key]) {
      RulesOfAppend(before, keys, key);
      RulesOfAppend(end, keys, key);
      RulesOfUnchanged(after, keys, key, rules);
      AllSyncedNext(RulesOf(before, keys), ports, RulesOf(after, keys), before[key], rules);
    }
  }

  lemma AllSyncedNext(
      olds: seq<seq<SecurityRule>>, ports: Ports, news: seq<seq<SecurityRule>>, o: seq<SecurityRule>, n: seq<SecurityRule>)
    requires AllSynced(olds, ports, news) && Synced(ScanRules(o, EntryPorts(olds, ports)), n)
    ensures AllSynced(olds + [o], ports, news + [n])
  {
    forall k | 0 <= k < |olds + [o]|
      ensures Synced(ScanRules((olds + [o])[k], EntryPorts((olds + [o])[..k], ports)), (news + [n])[k])
    {
      if k < |olds| {
        assert (olds + [o])[..k] == olds[..k];
      } else {
        assert (olds + [o])[..k] == olds;
      }
    }
  }

  lemma EntryPortsNext(before: Groups, after: Groups, keys: seq<Key>, ports: Ports, key: Key)
    requires SyncedInOrder(before, after, keys, ports) && key in before
    ensures Distinct(keys + [key]) ==>
      EntryPorts(RulesOf(before, keys + [key]), ports) ==
      ScanRules(after[key], EntryPorts(RulesOf(before, keys), ports)).ports
  {
    DistinctAppend(keys, key);
    var olds := RulesOf(before, keys);
    RulesOfAppend(before, keys, key);
    assert (olds + [RulesAt(before, key)])[..|olds|] == olds;
  }

  /** After some visits: the visited groups are synchronized in the order of `keys`, and `left` is what the next
      group will be entered with. */
  ghost predicate Visited(
      before: Groups, after: Groups, visited: set<string>, keys: seq<Key>, ports: Ports, left: Ports)
  {
    && AllStored(before, visited)
    && Elements(keys) == KeysOf(visited)
    && (NamesApart(visited) ==> Distinct(keys))
    && SyncedInOrder(before, after, keys, ports)
    && (Distinct(keys) ==> left == EntryPorts(RulesOf(before, keys), ports))
  }

  lemma VisitNext(
      before: Groups, now: Groups, visited: set<string>, keys: seq<Key>, ports: Ports, left: Ports,
      id: string, key: Key, rules: seq<SecurityRule>)
    requires Visited(before, now, visited, keys, ports, left) && id !in visited
    requires GroupID(id) == Some(key) && key in now && Synced(ScanRules(now[key], left), rules)
    ensures Visited(before, now[key := rules], visited + {id}, keys + [key], ports, ScanRules(now[key], left).ports)
  {
    EntryPortsNext(before, now, keys, ports, key);
    SyncedNext(before, now, keys, ports, key, rules);
    KeysApart(visited, keys, id);
    KeysOfAppend(visited, id);
  }

  lemma VisitStart(groups: Groups, ports: Ports)
    ensures Visited(groups, groups, {}, [], ports, ports)
  {
  }

  /** The ID names a stored group, and the ports it lacks fit into its pool of priorities. */
  predicate CanSync(groups: Groups, id: string, left: Ports) {
    GroupID(id).Some? && GroupID(id).value in groups &&
    var s := ScanRules(groups[GroupID(id).value], left);
    |s.ports.tcp| + |s.ports.udp| <= |Pool(s.used, s.freed)|
  }

  /** One group's iteration. */
  method SyncOneGroup(az: Azure, id: string, left: Ports) returns (ok: bool, left': Ports)
    modifies az`groups
    ensures ok <==> CanSync(old(az.groups), id, left)
    ensures !ok ==> az.groups == old(az.groups)
    ensures ok ==> (var key := GroupID(id).value;
      var s := ScanRules(old(az.groups)[key], left);
      key in az.groups && az.groups == old(az.groups)[key := az.groups[key]] &&
      Synced(s, az.groups[key]) && left' == s.ports)
  {
    left' := left;
    var key := GroupID(id);
    if key.None? || key.value !in az.groups {
      return false, left;
    }
    var rules := az.groups[key.value];
    var fits, change, rules', after := SyncRules(rules, left);
    if !fits {
      return false, left;
    }
    if change {
      az.PutGroup(key.value, rules');
    } else {
      NoChangeMeansSame(rules, left, rules');
      assert az.groups == az.groups[key.value := rules'];
    }
    return true, after;
  }

  /** One group's iteration, seen after a number of visits. */
  method VisitGroup(
      az: Azure, id: string, ghost start: Groups, ghost visited: set<string>, ghost keys: seq<Key>, ghost ports: Ports,
      left: Ports)
    returns (ok: bool, ghost keys': seq<Key>, left': Ports)
    requires Visited(start, az.groups, visited, keys, ports, left) && id !in visited
    modifies az`groups
    ensures ok <==> CanSync(old(az.groups), id, left)
    ensures !ok ==> az.groups == old(az.groups)
    ensures ok ==> Visited(start, az.groups, visited + {id}, keys', ports, left')
  {
    ghost var now := az.groups;
    keys' := keys;
    ok, left' := SyncOneGroup(az, id, left);
    if ok {
      ghost var key := GroupID(id).value;
      ghost var rules := az.groups[key];
      assert az.groups == now[key := rules];
      VisitNext(start, now, visited, keys, ports, left, id, key, rules);
      keys' := keys + [key];
    }
  }

  /** Visits the groups in any order, with one pair of port maps that every group consumes. A group whose missing
      ports do not fit is not written, and neither are the groups after it. */
  method EnsureSyncRulesToSecurityGroups(az: Azure, ids: set<string>, ports: Ports)
    returns (ok: bool, ghost visited: set<string>, ghost keys: seq<Key>, left: Ports)
    modifies az`groups
    ensures visited <= ids && Visited(old(az.groups), az.groups, visited, keys, ports, left)
    ensures ok ==> visited == ids
    ensures !ok ==> exists id :: id in ids - visited && !CanSync(az.groups, id, left)
  {
    hide Visited, CanSync;
    var rest := ids;
    ghost var start := az.groups;
    left, visited, keys := ports, {}, [];
    VisitStart(start, ports);
    while rest != {}
      invariant rest <= ids && visited == ids - rest
      invariant Visited(start, az.groups, visited, keys, ports, left)
      decreases rest
    {
      var id := AnyOf(rest);
      var done, keys', left' := VisitGroup(az, id, start, visited, keys, ports, left);
      if !done {
        return false, visited, keys, left;
      }
      visited, keys, rest, left := visited + {id}, keys', rest - {id}, left';
    }
    ok := true;
  }

  lemma KeysApart(visited: set<string>, keys: seq<Key>, id: string)
    requires Elements(keys) == KeysOf(visited) && (NamesApart(visited) ==> Distinct(keys))
    requires id !in visited && GroupID(id).Some?
    ensures var all := keys + [GroupID(id).value];
      Elements(all) == Elements(keys) + {GroupID(id).value} && (NamesApart(visited + {id}) ==> Distinct(all)) &&
      (Distinct(all) ==> Distinct(keys))
  {
    var key := GroupID(id).value;
    DistinctAppend(keys, key);
    if NamesApart(visited + {id}) {
      assert key !in keys by {
        forall a | a in visited ensures GroupID(a) != Some(key) {
          assert a in visited + {id} && id in visited + {id};
        }
        assert key !in KeysOf(visited);
        assert key in keys ==> key in Elements(keys);
      }
    }
  }

  // ---- Which groups ----

  type Nics = map<Key, Nic>

  /** The security group ID of an interface, if the interface exists and has one. */
  function SecurityGroupOf(nics: Nics, id: string): Option<string> {
    match GetGroupAndName(id, NETWORK_INTERFACES)
    case None => None
    case Some(key) => if key in nics then nics[key].securityGroup else None
  }

  function GroupsOf(nics: Nics, ids: set<string>): set<string> {
    set id | id in ids && SecurityGroupOf(nics, id).Some? :: SecurityGroupOf(nics, id).value
  }

  /** The groups of the stored interfaces that the IDs name. */
  lemma GroupsOfAre(nics: Nics, ids: set<string>, sg: string)
    ensures sg in GroupsOf(nics, ids) <==> exists id, key ::
      id in ids && GetGroupAndName(id, "networkInterfaces") == Some(key) && key in nics && nics[key].securityGroup == Some(sg)
  {
    hide GetGroupAndName;
    if sg in GroupsOf(nics, ids) {
      var id :| id in ids && SecurityGroupOf(nics, id) == Some(sg);
      assert GetGroupAndName(id, "networkInterfaces").Some?;
    }
    if id, key :| (id in ids && GetGroupAndName(id, "networkInterfaces") == Some(key) && key in nics &&
                   nics[key].securityGroup == Some(sg)) {
      assert SecurityGroupOf(nics, id) == Some(sg);
    }
  }

  /** The keys of the groups that the IDs name. */
  lemma KeysOfAre(ids: set<string>, key: Key)
    ensures key in KeysOf(ids) <==> exists id :: id in ids && GetGroupAndName(id, "networkSecurityGroups") == Some(key)
  {
    hide GetGroupAndName;
  }

  method GetSuitableSecurityGroup(az: Azure, detached: seq<string>, desired: set<string>)
    returns (ok: bool, deleteSg: set<string>, syncSg: set<string>)
    ensures ok <==> forall id :: id in detached || id in desired ==> SecurityGroupOf(az.nics, id).Some?
    ensures ok ==> syncSg == GroupsOf(az.nics, desired)
    ensures ok ==> deleteSg == GroupsOf(az.nics, Elements(detached)) - GroupsOf(az.nics, desired)
  {
    deleteSg, syncSg := {}, {};
    for i := 0 to |detached|
      invariant forall id :: id in detached[..i] ==> SecurityGroupOf(az.nics, id).Some?
      invariant deleteSg == GroupsOf(az.nics, Elements(detached[..i]))
    {
      assert detached[..i + 1] == detached[..i] + [detached[i]];
      DistinctAppend(detached[..i], detached[i]);
      var sg := SecurityGroupOf(az.nics, detached[i]);
      if sg.None? {
        return false, {}, {};
      }
      deleteSg := deleteSg + {sg.value};
    }
    assert detached[..|detached|] == detached;
    var rest := desired;
    while rest != {}
      invariant rest <= desired
      invariant forall id :: id in desired - rest ==> SecurityGroupOf(az.nics, id).Some?
      invariant syncSg == GroupsOf(az.nics, desired - rest)
      decreases rest
    {
      var id := AnyOf(rest);
      var sg := SecurityGroupOf(az.nics, id);
      if sg.None? {
        return false, {}, {};
      }
      assert desired - (rest - {id}) == (desired - rest) + {id};
      syncSg, rest := syncSg + {sg.value}, rest - {id};
    }
    assert desired - {} == desired;
    return true, deleteSg - syncSg, syncSg;
  }

  /** A whole run: strip the groups that only detached interfaces use, then synchronize those in use. */
  method SyncSecurityGroupRules(az: Azure, ports: Ports, detached: seq<string>, desired: set<string>)
    returns (ok: bool, ghost middle: Groups, ghost keys: seq<Key>, ghost left: Ports)
    modifies az`groups
    ensures ok ==> RunOutcome(az.nics, ports, detached, desired, old(az.groups), middle, az.groups, keys)
    ensures !ok ==> Blocked(az.nics, detached, desired, old(az.groups), az.groups, left)
  {
    middle, keys, left := az.groups, [], ports;
    var chosen, deleteSg, syncSg := GetSuitableSecurityGroup(az, detached, desired);
    if !chosen {
      return false, middle, keys, left;
    }
    var stripped, done := DeleteUselessSecurityRules(az, deleteSg);
    middle := az.groups;
    if !stripped {
      return false, middle, keys, left;
    }
    ghost var visited;
    ok, visited, keys, left := EnsureSyncRulesToSecurityGroups(az, syncSg, ports);
  }

  /** What stops a run: an interface without a group, a group to strip that is not stored, or a group in use that
      cannot be synchronized. */
  ghost predicate Blocked(
      nics: Nics, detached: seq<string>, desired: set<string>, before: Groups, after: Groups, left: Ports)
  {
    || (exists id :: (id in detached || id in desired) && SecurityGroupOf(nics, id).None?)
    || !AllStored(before, GroupsOf(nics, Elements(detached)) - GroupsOf(nics, desired))
    || (exists id :: id in GroupsOf(nics, desired) && !CanSync(after, id, left))
  }

  ghost predicate RunOutcome(
      nics: Nics, ports: Ports, detached: seq<string>, desired: set<string>,
      before: Groups, middle: Groups, after: Groups, keys: seq<Key>)
  {
    && StrippedAt(before, middle, KeysOf(GroupsOf(nics, Elements(detached)) - GroupsOf(nics, desired)))
    && SyncedInOrder(middle, after, keys, ports)
    && Elements(keys) == KeysOf(GroupsOf(nics, desired))
    && (NamesApart(GroupsOf(nics, desired)) ==> Distinct(keys))
  }

  lemma StripKeepsIff(rules: seq<SecurityRule>)
    ensures Strip(rules) == rules <==> forall r :: r in rules ==> User(r)
  {
    if forall r :: r in rules ==> User(r) {
      FilterAll(rules, User);
    }
  }

  lemma StripsUsedIff(
      before: Groups, middle: Groups, left: set<string>, used: set<string>, key: Key)
    requires StrippedAt(before, middle, KeysOf(left - used)) && key in before
    ensures middle[key] == before[key] <==>
      || (forall id :: id in left - used ==> GroupID(id) != Some(key))
      || (forall r :: r in before[key] ==> User(r))
  {
    StripKeepsIff(before[key]);
  }

  /** Over a whole run: a group that no desired interface uses is stripped exactly when a detached one uses it, and
      otherwise untouched. A group in use keeps its rules through the strip if and only if no ID of a detached interface
      names it, except IDs in use themselves, or it has no managed rule; so it does when different IDs name different
      groups. */
  lemma StripsExactlyUnused(
      nics: Nics, ports: Ports, detached: seq<string>, desired: set<string>,
      before: Groups, middle: Groups, after: Groups, keys: seq<Key>, key: Key)
    requires RunOutcome(nics, ports, detached, desired, before, middle, after, keys) && key in before
    ensures key !in KeysOf(GroupsOf(nics, desired)) ==>
      after[key] == if key in KeysOf(GroupsOf(nics, Elements(detached))) then Strip(before[key]) else before[key]
    ensures key in KeysOf(GroupsOf(nics, desired)) ==>
      (middle[key] == before[key] <==>
        || (forall id :: id in GroupsOf(nics, Elements(detached)) - GroupsOf(nics, desired) ==> GroupID(id) != Some(key))
        || (forall r :: r in before[key] ==> User(r)))
    ensures NamesApart(GroupsOf(nics, Elements(detached)) + GroupsOf(nics, desired)) ==>
      key in KeysOf(GroupsOf(nics, desired)) ==> middle[key] == before[key]
  {
    var used, left := GroupsOf(nics, desired), GroupsOf(nics, Elements(detached));
    assert key in keys <==> key in Elements(keys);
    StripsUsedIff(before, middle, left, used, key);
    if key !in KeysOf(used) {
      UnusedKeys(left, used, key);
    } else if NamesApart(left + used) {
      KeysOfDifference(left, used, key);
    }
  }

  lemma UnusedKeys(left: set<string>, used: set<string>, key: Key)
    requires key !in KeysOf(used)
    ensures key in KeysOf(left - used) <==> key in KeysOf(left)
  {
    if key in KeysOf(left) {
      var a :| a in left && GroupID(a) == Some(key);
      assert a in left - used;
    }
  }

  /** Such a run leaves every group in use exact for the wanted ports exactly when no group but the last one visited
      already had a managed rule for one of them. */
  lemma RunIsExactIff(
      nics: Nics, ports: Ports, detached: seq<string>, desired: set<string>,
      before: Groups, middle: Groups, after: Groups, keys: seq<Key>)
    requires NamesApart(GroupsOf(nics, desired))
    requires RunOutcome(nics, ports, detached, desired, before, middle, after, keys)
    ensures (forall k :: k in KeysOf(GroupsOf(nics, desired)) ==> k in after && Exact(after[k], ports)) <==>
      (forall i :: 0 <= i < |keys| - 1 ==> keys[i] in middle && !Retains(middle[keys[i]], ports))
  {
    hide Exact, Retains, AllSynced, KeysOf, GroupsOf, NamesApart, StrippedAt;
    var olds, news := RulesOf(middle, keys), RulesOf(after, keys);
    AllGroupsExactIff(olds, ports, news);
    assert forall k :: k in KeysOf(GroupsOf(nics, desired)) <==> k in Elements(keys);
    assert forall i :: 0 <= i < |keys| ==> keys[i] in Elements(keys) && olds[i] == middle[keys[i]] && news[i] == after[keys[i]];
  }

  lemma KeysOfDifference(left: set<string>, used: set<string>, key: Key)
    requires NamesApart(left + used)
    ensures key in KeysOf(left - used) <==> key in KeysOf(left) && key !in KeysOf(used)
  {
    forall a, b | a in left - used && b in used ensures GroupID(a) != GroupID(b) {
      assert a in left + used && b in left + used;
    }
    if key in KeysOf(left) && key !in KeysOf(used) {
      var a :| a in left && GroupID(a) == Some(key);
      assert a in left - used;
    }
  }

  /** Different IDs can name one group: a slash at the end is not read. */
  lemma AliasNamesSameGroup(id: string)
    requires GroupID(id).Some?
    ensures id + "/" != id && GroupID(id + "/") == GroupID(id)
  {
    SpecifyNameSurvivesTail(id, "/", RESOURCE_GROUPS);
    SpecifyNameSurvivesTail(id, "/", SECURITY_GROUPS);
    assert |id + "/"| == |id| + 1;
  }

  /** The ID of a resource in the example below. */
  function ExampleID(kind: string, name: string): string {
    FormatID("s", "g", kind, name)
  }

  lemma ExampleParses(kind: string, name: string)
    requires (kind == SECURITY_GROUPS || kind == NETWORK_INTERFACES) && '/' !in name
    ensures GetGroupAndName(ExampleID(kind, name), kind) == Some(Key("g", name))
  {
    SecurityGroupsAreKind();
    InterfacesAreKind();
    TooLong("s", RESOURCE_GROUPS);
    TooLong("s", kind);
    TooLong("g", kind);
    FormattedIDParsesIff("s", "g", kind, name);
  }

  /** Two interfaces whose security group IDs differ and name one group. */
  function ExampleNics(): Nics {
    var sg := ExampleID(SECURITY_GROUPS, "sg");
    map[Key("g", "old") := Nic(None, Some(sg), ""), Key("g", "new") := Nic(None, Some(sg + "/"), "")]
  }

  lemma ExampleGroups()
    ensures var sg := ExampleID(SECURITY_GROUPS, "sg");
      && SecurityGroupOf(ExampleNics(), ExampleID(NETWORK_INTERFACES, "old")) == Some(sg)
      && SecurityGroupOf(ExampleNics(), ExampleID(NETWORK_INTERFACES, "new")) == Some(sg + "/")
  {
    hide ExampleID, GetGroupAndName;
    ExampleParses(NETWORK_INTERFACES, "old");
    ExampleParses(NETWORK_INTERFACES, "new");
  }

  lemma GroupsOfOne(nics: Nics, id: string, sg: string)
    requires SecurityGroupOf(nics, id) == Some(sg)
    ensures GroupsOf(nics, {id}) == {sg} && GroupsOf(nics, Elements([id])) == {sg}
  {
    assert Elements([id]) == {id};
  }

  /** The exception is real: a detached and a desired interface name one group by different IDs, and although the group
      is in use it is stripped first. */
  lemma AliasedGroupIsStripped(ports: Ports, before: Groups, middle: Groups, after: Groups, keys: seq<Key>)
    requires RunOutcome(ExampleNics(), ports, [ExampleID(NETWORK_INTERFACES, "old")],
                        {ExampleID(NETWORK_INTERFACES, "new")}, before, middle, after, keys)
    requires Key("g", "sg") in before
    ensures Key("g", "sg") in keys && middle[Key("g", "sg")] == Strip(before[Key("g", "sg")])
  {
    hide ExampleID, ExampleNics, GetGroupAndName, SecurityGroupOf, GroupsOf, KeysOf, SyncedInOrder, Strip, NamesApart;
    var sg, key := ExampleID(SECURITY_GROUPS, "sg"), Key("g", "sg");
    ExampleParses(SECURITY_GROUPS, "sg");
    AliasNamesSameGroup(sg);
    ExampleGroups();
    GroupsOfOne(ExampleNics(), ExampleID(NETWORK_INTERFACES, "old"), sg);
    GroupsOfOne(ExampleNics(), ExampleID(NETWORK_INTERFACES, "new"), sg + "/");
    AliasedKey(sg, sg + "/", key);
    assert key in Elements(keys);
  }

  lemma AliasedKey(a: string, b: string, key: Key)
    requires a != b && GroupID(a) == Some(key) && GroupID(b) == Some(key)
    ensures key in KeysOf({b}) && key in KeysOf({a} - {b})
  {
    assert a in {a} - {b} && b in {b};
  }
}
