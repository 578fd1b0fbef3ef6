/** What a successful sync of a security group guarantees. */
module SecurityResults {
  import opened Basics
  import opened PortMaps
  import opened SecurityRules

  predicate Managed(r: SecurityRule) { ProtoOf(r).Some? }

  predicate User(r: SecurityRule) { ProtoOf(r).None? }

  /** Exactly one managed rule per wanted port, in default shape, and no other managed rule. */
  ghost predicate Exact(rules: seq<SecurityRule>, ports: Ports) {
    && (forall i :: 0 <= i < |rules| && Managed(rules[i]) ==>
          DefaultShaped(rules[i]) && PortOf(rules[i]) in Of(ports, ProtoOf(rules[i]).value))
    && (forall i, j :: 0 <= i < j < |rules| && Managed(rules[i]) && ProtoOf(rules[i]) == ProtoOf(rules[j]) ==>
          PortOf(rules[i]) != PortOf(rules[j]))
    && (forall p: Proto, port: string :: port in Of(ports, p) ==> Serves(rules, p, port))
  }

  ghost predicate Serves(rules: seq<SecurityRule>, p: Proto, port: string) {
    exists r :: r in rules && ProtoOf(r) == Some(p) && PortOf(r) == port
  }

  /** The scan's kept rules serve exactly the ports it has taken. */
  ghost predicate ScanServes(s: Scan, ports: Ports) {
    s.ports.tcp <= ports.tcp && s.ports.udp <= ports.udp && Exact(s.kept, Taken(ports, s.ports))
  }

  /** The scan keeps the user's rules, accounts for every priority, and tells whether it changed anything. */
  ghost predicate ScanAccounts(s: Scan, rules: seq<SecurityRule>) {
    && Filter(s.kept, User) == Filter(rules, User)
    && s.used == Elements(Priorities(s.kept))
    && s.used + s.freed == Elements(Priorities(rules))
    && (!s.modified ==> s.kept == rules)
  }

  lemma ServesMore(rules: seq<SecurityRule>, r: SecurityRule, ports: Ports, p: Proto, port: string)
    requires Exact(rules, ports) && port in Of(ports, p)
    ensures Serves(rules + [r], p, port)
  {
    assert Serves(rules, p, port);
    var w :| w in rules && ProtoOf(w) == Some(p) && PortOf(w) == port;
    assert w in rules + [r];
  }

  lemma ExactAppendUser(rules: seq<SecurityRule>, r: SecurityRule, ports: Ports)
    requires Exact(rules, ports) && User(r)
    ensures Exact(rules + [r], ports)
  {
    forall p: Proto, port: string | port in Of(ports, p) ensures Serves(rules + [r], p, port) {
      ServesMore(rules, r, ports, p, port);
    }
  }

  lemma ExactAppendManaged(rules: seq<SecurityRule>, r: SecurityRule, p: Proto, ports: Ports)
    requires Exact(rules, ports) && DefaultShaped(r) && ProtoOf(r) == Some(p) && PortOf(r) !in Of(ports, p)
    ensures Exact(rules + [r], Plus(ports, p, {PortOf(r)}))
  {
    var all, wider := rules + [r], Plus(ports, p, {PortOf(r)});
    forall q: Proto, port: string | port in Of(wider, q) ensures Serves(all, q, port) {
      if port in Of(ports, q) {
        ServesMore(rules, r, ports, q, port);
      } else {
        assert r in all;
      }
    }
    forall i, j | 0 <= i < j < |all| && Managed(all[i]) && ProtoOf(all[i]) == ProtoOf(all[j])
      ensures PortOf(all[i]) != PortOf(all[j])
    {
      assert all[i] == rules[i];
      assert PortOf(rules[i]) in Of(ports, ProtoOf(rules[i]).value);
    }
  }

  lemma ElementsAppend(a: seq<SecurityRule>, r: SecurityRule)
    ensures Elements(Priorities(a + [r])) == Elements(Priorities(a)) + {PriorityOf(r)}
  {
    assert Priorities(a + [r]) == Priorities(a) + [PriorityOf(r)];
    DistinctAppend(Priorities(a), PriorityOf(r));
  }

  lemma ScanStepServes(s: Scan, ports: Ports, r: SecurityRule)
    requires ScanServes(s, ports)
    ensures ScanServes(ScanStep(s, r), ports)
  {
    var taken := Taken(ports, s.ports);
    match ProtoOf(r)
    case None => ExactAppendUser(s.kept, r, taken);
    case Some(p) =>
      if PortOf(r) in Of(s.ports, p) {
        ResetShape(r);
        ExactAppendManaged(s.kept, Reset(p, r), p, taken);
        assert Plus(taken, p, {PortOf(r)}) == Taken(ports, Without(s.ports, p, PortOf(r)));
      }
  }

  /** A rule stays, perhaps reset, with its priority and its owner. */
  lemma KeptAccounts(s: Scan, rules: seq<SecurityRule>, r: SecurityRule, kept: SecurityRule, modified: bool, ports: Ports)
    requires ScanAccounts(s, rules)
    requires PriorityOf(kept) == PriorityOf(r) && (User(r) ==> kept == r) && (User(kept) ==> User(r))
    requires modified <==> s.modified || kept != r
    ensures ScanAccounts(Scan(s.kept + [kept], s.used + {PriorityOf(r)}, s.freed, modified, ports), rules + [r])
  {
    ElementsAppend(rules, r);
    FilterAppend(rules, r, User);
    ElementsAppend(s.kept, kept);
    FilterAppend(s.kept, kept, User);
  }

  lemma FreedAccounts(s: Scan, rules: seq<SecurityRule>, r: SecurityRule)
    requires ScanAccounts(s, rules) && Managed(r)
    ensures ScanAccounts(s.(freed := s.freed + {PriorityOf(r)}, modified := true), rules + [r])
  {
    ElementsAppend(rules, r);
    FilterAppend(rules, r, User);
  }

  lemma ScanStepAccounts(s: Scan, rules: seq<SecurityRule>, r: SecurityRule)
    requires ScanAccounts(s, rules)
    ensures ScanAccounts(ScanStep(s, r), rules + [r])
  {
    match ProtoOf(r)
    case None => KeptAccounts(s, rules, r, r, s.modified, s.ports);
    case Some(p) =>
      if PortOf(r) in Of(s.ports, p) {
        ResetShape(r);
        KeptAccounts(s, rules, r, Reset(p, r), s.modified || !DefaultShaped(r), Without(s.ports, p, PortOf(r)));
      } else {
        FreedAccounts(s, rules, r);
      }
  }

  lemma {:induction false} ScanKeepsInv(rules: seq<SecurityRule>, ports: Ports)
    ensures ScanServes(ScanRules(rules, ports), ports)
    ensures ScanAccounts(ScanRules(rules, ports), rules)
  {
    if rules != [] {
      var init, r := rules[..|rules| - 1], rules[|rules| - 1];
      assert rules == init + [r];
      ScanKeepsInv(init, ports);
      ScanStepServes(ScanRules(init, ports), ports, r);
      ScanStepAccounts(ScanRules(init, ports), init, r);
    }
  }

  // ---- Exactness ----

  lemma PortTextsAppend(init: seq<SecurityRule>, last: SecurityRule)
    requires Distinct(PortTexts(init + [last]))
    ensures Distinct(PortTexts(init)) && PortOf(last) !in Elements(PortTexts(init))
    ensures Elements(PortTexts(init + [last])) == Elements(PortTexts(init)) + {PortOf(last)}
  {
    assert PortTexts(init + [last]) == PortTexts(init) + [PortOf(last)];
    DistinctAppend(PortTexts(init), PortOf(last));
  }

  /** Adding default rules for further ports of one protocol. */
  lemma {:induction false} ExactAppendAdded(
      rules: seq<SecurityRule>, ports: Ports, p: Proto, more: set<string>, added: seq<SecurityRule>)
    requires Exact(rules, ports) && Of(ports, p) !! more
    requires Distinct(PortTexts(added)) && Elements(PortTexts(added)) == more
    requires forall r :: r in added ==> r == GetDefaultSecurityGroupRule(p, PortOf(r), r.priority)
    ensures Exact(rules + added, Plus(ports, p, more))
  {
    if added == [] {
      assert rules + added == rules && Plus(ports, p, {}) == ports;
    } else {
      hide Exact, Distinct, Elements, PortTexts, GetDefaultSecurityGroupRule;
      var init, last := added[..|added| - 1], added[|added| - 1];
      var port := PortOf(last);
      assert added == init + [last];
      PortTextsAppend(init, last);
      assert Elements(PortTexts(init)) == more - {port};
      ExactAppendAdded(rules, ports, p, more - {port}, init);
      DefaultRuleProto(p, port, last.priority);
      ExactAppendManaged(rules + init, last, p, Plus(ports, p, more - {port}));
      assert rules + added == (rules + init) + [last];
      assert Plus(Plus(ports, p, more - {port}), p, {port}) == Plus(ports, p, more);
    }
  }

  lemma AddedAreManaged(p: Proto, ports: set<string>, added: seq<SecurityRule>)
    requires AddedFor(p, ports, added)
    ensures Filter(added, User) == []
  {
    forall r | r in added ensures !User(r) {
      DefaultRuleProto(p, PortOf(r), r.priority);
    }
    FilterNone(added, User);
  }

  lemma SyncedParts(s: Scan, rules': seq<SecurityRule>) returns (addedU: seq<SecurityRule>, addedT: seq<SecurityRule>)
    requires Synced(s, rules')
    ensures rules' == s.kept + addedU + addedT
    ensures AddedFor(Udp, s.ports.udp, addedU) && AddedFor(Tcp, s.ports.tcp, addedT)
  {
    var k, u := |s.kept|, |s.ports.udp|;
    addedU, addedT := rules'[k..k + u], rules'[k + u..];
    assert rules' == rules'[..k] + rules'[k..k + u] + rules'[k + u..];
  }

  lemma PartExact(
      rules: seq<SecurityRule>, ports: Ports, p: Proto, more: set<string>, added: seq<SecurityRule>, wider: Ports)
    requires Exact(rules, ports) && Of(ports, p) !! more && AddedFor(p, more, added) && wider == Plus(ports, p, more)
    ensures Exact(rules + added, wider)
  {
    ExactAppendAdded(rules, ports, p, more, added);
  }

  lemma TakenPlusLeft(ports: Ports, left: Ports)
    requires left.tcp <= ports.tcp && left.udp <= ports.udp
    ensures Ports(ports.tcp - left.tcp, ports.udp) == Plus(Taken(ports, left), Udp, left.udp)
    ensures ports == Plus(Ports(ports.tcp - left.tcp, ports.udp), Tcp, left.tcp)
  {
  }

  lemma PartsExact(
      kept: seq<SecurityRule>, ports: Ports, left: Ports, addedU: seq<SecurityRule>, addedT: seq<SecurityRule>)
    requires left.tcp <= ports.tcp && left.udp <= ports.udp && Exact(kept, Taken(ports, left))
    requires AddedFor(Udp, left.udp, addedU) && AddedFor(Tcp, left.tcp, addedT)
    ensures Exact(kept + addedU + addedT, ports)
  {
    TakenPlusLeft(ports, left);
    var half := Ports(ports.tcp - left.tcp, ports.udp);
    PartExact(kept, Taken(ports, left), Udp, left.udp, addedU, half);
    PartExact(kept + addedU, half, Tcp, left.tcp, addedT, ports);
  }

  /** On success there is exactly one default-shaped rule per wanted port and no other managed rule, and the user's
      own rules are unchanged and in their order. */
  lemma SyncIsExact(rules: seq<SecurityRule>, ports: Ports, rules': seq<SecurityRule>)
    requires Synced(ScanRules(rules, ports), rules')
    ensures Exact(rules', ports)
    ensures Filter(rules', User) == Filter(rules, User)
  {
    ScanKeepsInv(rules, ports);
    var s := ScanRules(rules, ports);
    var addedU, addedT := SyncedParts(s, rules');
    PartsExact(s.kept, ports, s.ports, addedU, addedT);
    AddedAreManaged(Udp, s.ports.udp, addedU);
    AddedAreManaged(Tcp, s.ports.tcp, addedT);
    FilterConcat(s.kept + addedU, addedT, User);
    FilterConcat(s.kept, addedU, User);
  }

  // ---- Priorities ----

  /** Kept rules are the old ones, with their priorities, in the old order; the others freed theirs. */
  lemma {:induction false} KeptPriorities(rules: seq<SecurityRule>, ports: Ports)
    requires Distinct(Priorities(rules))
    ensures Distinct(Priorities(ScanRules(rules, ports).kept))
    ensures ScanRules(rules, ports).used !! ScanRules(rules, ports).freed
  {
    if rules != [] {
      var init, r := rules[..|rules| - 1], rules[|rules| - 1];
      assert rules == init + [r];
      assert Priorities(rules) == Priorities(init) + [PriorityOf(r)];
      DistinctAppend(Priorities(init), PriorityOf(r));
      KeptPriorities(init, ports);
      ScanKeepsInv(init, ports);
      var s := ScanRules(init, ports);
      assert PriorityOf(r) !in Elements(Priorities(init));
      DistinctAppend(Priorities(s.kept), PriorityOf(r));
      if ProtoOf(r).None? {
        assert Priorities(s.kept + [r]) == Priorities(s.kept) + [PriorityOf(r)];
      } else if PortOf(r) in Of(s.ports, ProtoOf(r).value) {
        var reset := Reset(ProtoOf(r).value, r);
        assert Priorities(s.kept + [reset]) == Priorities(s.kept) + [PriorityOf(r)];
      }
    }
  }

  /** Every issued priority was freed by a removed rule or is a grid slot that no kept rule holds; kept rules come
      first and are the scan's. */
  lemma IssuedPriorities(rules: seq<SecurityRule>, ports: Ports, rules': seq<SecurityRule>, i: nat)
    requires Synced(ScanRules(rules, ports), rules')
    requires |ScanRules(rules, ports).kept| <= i < |rules'|
    ensures var s := ScanRules(rules, ports);
      rules'[..|s.kept|] == s.kept &&
      (PriorityOf(rules'[i]) in s.freed ||
       (PriorityOf(rules'[i]) in Grid() && PriorityOf(rules'[i]) !in Elements(Priorities(s.kept))))
  {
    var s := ScanRules(rules, ports);
    ScanKeepsInv(rules, ports);
    var k := |s.kept|;
    assert Priorities(rules'[k..])[i - k] == PriorityOf(rules'[i]);
    assert PriorityOf(rules'[i]) in Elements(Priorities(rules'[k..]));
  }

  /** If a group's priorities were pairwise distinct, they are after a successful sync. */
  lemma PrioritiesStayUnique(rules: seq<SecurityRule>, ports: Ports, rules': seq<SecurityRule>)
    requires Distinct(Priorities(rules)) && Synced(ScanRules(rules, ports), rules')
    ensures Distinct(Priorities(rules'))
  {
    var s := ScanRules(rules, ports);
    KeptPriorities(rules, ports);
    ScanKeepsInv(rules, ports);
    UniqueTogether(s, rules');
  }

  lemma PrioritiesConcat(a: seq<SecurityRule>, b: seq<SecurityRule>)
    ensures Priorities(a + b) == Priorities(a) + Priorities(b)
  {
  }

  lemma DistinctFromElements<T>(a: seq<T>, b: seq<T>)
    requires Distinct(a) && Distinct(b) && Elements(a) !! Elements(b)
    ensures Distinct(a + b)
  {
    forall x | x in b ensures x !in a {
      assert x in Elements(b) && (x in a ==> x in Elements(a));
    }
    DistinctConcat(a, b);
  }

  lemma PoolAvoidsUsed(used: set<int>, freed: set<int>)
    requires used !! freed
    ensures Pool(used, freed) !! used
  {
  }

  lemma UniqueTogether(s: Scan, rules': seq<SecurityRule>)
    requires Synced(s, rules') && s.used == Elements(Priorities(s.kept)) && s.used !! s.freed
    requires Distinct(Priorities(s.kept))
    ensures Distinct(Priorities(rules'))
  {
    var k := |s.kept|;
    hide AddedFor, Priorities, Elements, Distinct, Pool, Grid;
    PoolAvoidsUsed(s.used, s.freed);
    assert rules' == rules'[..k] + rules'[k..];
    PrioritiesConcat(rules'[..k], rules'[k..]);
    DistinctFromElements(Priorities(rules'[..k]), Priorities(rules'[k..]));
  }

  // ---- Names ----

  function Names(rules: seq<SecurityRule>): seq<string> {
    seq(|rules|, i requires 0 <= i < |rules| => Text(rules[i].name))
  }

  lemma ManagedApart(rules: seq<SecurityRule>, ports: Ports, i: nat, j: nat)
    requires Exact(rules, ports) && i < j < |rules| && Managed(rules[i]) && Managed(rules[j])
    ensures Text(rules[i].name) != Text(rules[j].name)
  {
    hide DefaultShaped, ProtoOf, PortOf, Serves;
    DistinctManagedNames(rules[i], rules[j]);
  }

  lemma UserApartFromManaged(a: SecurityRule, b: SecurityRule)
    requires User(a) && Managed(b)
    ensures Text(a.name) != Text(b.name)
  {
  }

  lemma NamesApartAt(rules: seq<SecurityRule>, ports: Ports, i: nat, j: nat)
    requires Exact(rules, ports) && Distinct(Names(Filter(rules, User))) && i < j < |rules|
    ensures Text(rules[i].name) != Text(rules[j].name)
  {
    hide Exact, Distinct, ProtoOf, Filter, Names;
    if User(rules[i]) && User(rules[j]) {
      DistinctInFilter(rules, i, j);
    } else if Managed(rules[i]) && Managed(rules[j]) {
      ManagedApart(rules, ports, i, j);
    } else if User(rules[i]) {
      UserApartFromManaged(rules[i], rules[j]);
    } else {
      UserApartFromManaged(rules[j], rules[i]);
    }
  }

  /** Names stay distinct if the user's were. */
  lemma NamesStayDistinct(rules: seq<SecurityRule>, ports: Ports, rules': seq<SecurityRule>)
    requires Synced(ScanRules(rules, ports), rules')
    requires Distinct(Names(Filter(rules, User)))
    ensures Distinct(Names(rules'))
  {
    hide Synced, Exact, ScanRules, Filter;
    SyncIsExact(rules, ports, rules');
    forall i, j | 0 <= i < j < |rules'| ensures Names(rules')[i] != Names(rules')[j] {
      NamesApartAt(rules', ports, i, j);
    }
  }

  lemma DistinctManagedNames(a: SecurityRule, b: SecurityRule)
    requires DefaultShaped(a) && DefaultShaped(b) && (ProtoOf(a) == ProtoOf(b) ==> PortOf(a) != PortOf(b))
    ensures Text(a.name) != Text(b.name)
  {
    var p, q := ProtoOf(a).value, ProtoOf(b).value;
    assert Text(a.name) == Prefix(p) + PortOf(a) && Text(b.name) == Prefix(q) + PortOf(b);
    if p == q {
      assert (Prefix(p) + PortOf(a))[|Prefix(p)|..] == PortOf(a);
      assert (Prefix(q) + PortOf(b))[|Prefix(q)|..] == PortOf(b);
    } else {
      assert Text(a.name)[7] == Prefix(p)[7] && Text(b.name)[7] == Prefix(q)[7];
      assert TCP_PREFIX[7] == 't' && UDP_PREFIX[7] == 'u';
    }
  }

  /** Two user rules at different places have different names when the filtered list has. */
  lemma DistinctInFilter(rules: seq<SecurityRule>, i: nat, j: nat)
    requires i < j < |rules| && User(rules[i]) && User(rules[j])
    requires Distinct(Names(Filter(rules, User)))
    ensures Text(rules[i].name) != Text(rules[j].name)
  {
    var before, after := rules[..j], rules[j..];
    assert rules == before + after && after[0] == rules[j] && before[i] == rules[i];
    FilterConcat(before, after, User);
    FilterHead(after, User);
    var a, b := Filter(before, User), Filter(after, User);
    assert b[0] == rules[j];
    assert rules[i] in before;
    var k :| 0 <= k < |a| && a[k] == rules[i];
    assert Filter(rules, User) == a + b;
    assert Names(a + b)[k] != Names(a + b)[|a|];
  }

  // ---- Fixed point ----

  /** What the scan has reached after a prefix of exact rules: nothing changed, and the ports that are left are
      those not yet served. */
  ghost predicate Passed(s: Scan, prefix: seq<SecurityRule>, ports: Ports) {
    && s.kept == prefix && !s.modified
    && forall p: Proto, port: string :: port in Of(s.ports, p) <==> port in Of(ports, p) && !Serves(prefix, p, port)
  }

  lemma PassedStep(s: Scan, prefix: seq<SecurityRule>, ports: Ports, r: SecurityRule)
    requires Passed(s, prefix, ports)
    requires Managed(r) ==> DefaultShaped(r) && PortOf(r) in Of(ports, ProtoOf(r).value)
    requires Managed(r) ==> !Serves(prefix, ProtoOf(r).value, PortOf(r))
    ensures Passed(ScanStep(s, r), prefix + [r], ports)
  {
    ServesAppend(prefix, r);
    if Managed(r) {
      ResetShape(r);
    }
  }

  lemma FirstToServe(rules: seq<SecurityRule>, ports: Ports, k: nat)
    requires Exact(rules, ports) && k < |rules| && Managed(rules[k])
    ensures !Serves(rules[..k], ProtoOf(rules[k]).value, PortOf(rules[k]))
  {
    forall w | w in rules[..k] && ProtoOf(w) == ProtoOf(rules[k]) ensures PortOf(w) != PortOf(rules[k]) {
      var i :| 0 <= i < k && rules[i] == w;
    }
  }

  /** Scanning exact rules changes nothing and takes every port. */
  lemma {:induction false} ScanOfExact(rules: seq<SecurityRule>, ports: Ports, k: nat)
    requires Exact(rules, ports) && k <= |rules|
    ensures Passed(ScanRules(rules[..k], ports), rules[..k], ports)
  {
    if k > 0 {
      ScanOfExact(rules, ports, k - 1);
      assert rules[..k][..k - 1] == rules[..k - 1] && rules[..k] == rules[..k - 1] + [rules[k - 1]];
      if Managed(rules[k - 1]) {
        FirstToServe(rules, ports, k - 1);
      }
      PassedStep(ScanRules(rules[..k - 1], ports), rules[..k - 1], ports, rules[k - 1]);
    }
  }

  lemma ServesAppend(init: seq<SecurityRule>, r: SecurityRule)
    ensures forall p: Proto, port: string :: Serves(init + [r], p, port) <==>
      Serves(init, p, port) || (ProtoOf(r) == Some(p) && PortOf(r) == port)
  {
    assert forall x :: x in init + [r] <==> x in init || x == r;
  }

  /** A second run with the same ports succeeds, changes nothing and writes nothing. */
  lemma SecondRunIsIdle(rules: seq<SecurityRule>, ports: Ports, rules': seq<SecurityRule>)
    requires Synced(ScanRules(rules, ports), rules')
    ensures var s := ScanRules(rules', ports);
      && s.kept == rules' && !s.modified && s.ports == Ports({}, {})
      && (forall rules'' :: Synced(s, rules'') ==> rules'' == rules')
  {
    SyncIsExact(rules, ports, rules');
    ScanOfExact(rules', ports, |rules'|);
    assert rules'[..|rules'|] == rules';
    var s := ScanRules(rules', ports);
    forall p: Proto, port: string ensures port !in Of(s.ports, p) {
      assert port in Of(ports, p) ==> Serves(rules', p, port);
    }
    assert Of(s.ports, Tcp) == {} && Of(s.ports, Udp) == {};
    forall rules'' | Synced(s, rules'') ensures rules'' == rules' {
      assert rules'' == rules''[..|s.kept|];
    }
  }

  /** A group that is not written keeps exactly its old rules. */
  lemma NoChangeMeansSame(rules: seq<SecurityRule>, ports: Ports, rules': seq<SecurityRule>)
    requires var s := ScanRules(rules, ports);
      Synced(s, rules') && !s.modified && s.ports.tcp == {} && s.ports.udp == {}
    ensures rules' == rules
  {
    ScanKeepsInv(rules, ports);
    assert rules' == rules'[..|ScanRules(rules, ports).kept|];
  }

  // ---- Cleanup ----

  /** Stripping removes every managed rule. */
  function Strip(rules: seq<SecurityRule>): seq<SecurityRule> {
    Filter(rules, User)
  }

  /** Stripping a group is syncing it with no ports. */
  lemma {:induction false} StripIsEmptySync(rules: seq<SecurityRule>)
    ensures var s := ScanRules(rules, Ports({}, {}));
      s.kept == Strip(rules) && s.ports == Ports({}, {}) && (s.modified <==> Strip(rules) != rules)
    ensures |Strip(rules)| <= |rules|
  {
    if rules != [] {
      var init := rules[..|rules| - 1];
      StripIsEmptySync(init);
      assert rules == init + [rules[|rules| - 1]];
    }
  }

  /** Stripping after any successful sync leaves what stripping before it would have left. */
  lemma StripUndoesSync(rules: seq<SecurityRule>, ports: Ports, rules': seq<SecurityRule>)
    requires Synced(ScanRules(rules, ports), rules')
    ensures Strip(rules') == Strip(rules)
    ensures forall stripped :: Synced(ScanRules(rules', Ports({}, {})), stripped) ==> stripped == Strip(rules)
  {
    SyncIsExact(rules, ports, rules');
    StripIsEmptySync(rules');
    forall stripped | Synced(ScanRules(rules', Ports({}, {})), stripped) ensures stripped == Strip(rules) {
      assert stripped == stripped[..|Strip(rules')|];
    }
  }

  // ---- One pair of port maps for several groups ----

  /** The ports with which each group in turn is entered: the ones that earlier groups have kept are gone. */
  function EntryPorts(groups: seq<seq<SecurityRule>>, ports: Ports): Ports {
    if groups == [] then ports
    else ScanRules(groups[|groups| - 1], EntryPorts(groups[..|groups| - 1], ports)).ports
  }

  /** The groups after a successful run over all of them. */
  ghost predicate AllSynced(groups: seq<seq<SecurityRule>>, ports: Ports, results: seq<seq<SecurityRule>>) {
    && |results| == |groups|
    && forall k :: 0 <= k < |groups| ==> Synced(ScanRules(groups[k], EntryPorts(groups[..k], ports)), results[k])
  }

  /** A group that already has a managed rule for a wanted port. */
  ghost predicate Retains(rules: seq<SecurityRule>, ports: Ports) {
    exists r :: r in rules && Managed(r) && PortOf(r) in Of(ports, ProtoOf(r).value)
  }

  lemma {:induction false} RetainsIff(rules: seq<SecurityRule>, ports: Ports)
    ensures ScanRules(rules, ports).ports == ports <==> !Retains(rules, ports)
    ensures ScanRules(rules, ports).ports.tcp <= ports.tcp && ScanRules(rules, ports).ports.udp <= ports.udp
  {
    if rules != [] {
      var init, r := rules[..|rules| - 1], rules[|rules| - 1];
      assert rules == init + [r];
      assert forall x :: x in rules <==> x in init || x == r;
      RetainsIff(init, ports);
    }
  }

  lemma {:induction false} EntryPortsKept(groups: seq<seq<SecurityRule>>, ports: Ports)
    requires forall k :: 0 <= k < |groups| ==> !Retains(groups[k], ports)
    ensures EntryPorts(groups, ports) == ports
  {
    if groups != [] {
      EntryPortsKept(groups[..|groups| - 1], ports);
      RetainsIff(groups[|groups| - 1], ports);
    }
  }

  lemma {:induction false} EntryPortsShrink(groups: seq<seq<SecurityRule>>, ports: Ports)
    ensures EntryPorts(groups, ports).tcp <= ports.tcp && EntryPorts(groups, ports).udp <= ports.udp
    ensures (exists k :: 0 <= k < |groups| && Retains(groups[k], ports)) ==> EntryPorts(groups, ports) != ports
  {
    if groups != [] {
      var init, last := groups[..|groups| - 1], groups[|groups| - 1];
      EntryPortsShrink(init, ports);
      RetainsIff(last, EntryPorts(init, ports));
      if k :| 0 <= k < |groups| && Retains(groups[k], ports) {
        if k < |init| {
          assert Retains(init[k], ports);
        }
      }
    }
  }

  lemma ExactDeterminesPorts(rules: seq<SecurityRule>, a: Ports, b: Ports)
    requires Exact(rules, a) && Exact(rules, b)
    ensures a == b
  {
    forall p: Proto ensures Of(a, p) == Of(b, p) {
      forall port: string ensures port in Of(a, p) <==> port in Of(b, p) {
        ServesIff(rules, a, p, port);
        ServesIff(rules, b, p, port);
      }
    }
    assert Of(a, Tcp) == Of(b, Tcp) && Of(a, Udp) == Of(b, Udp);
  }

  lemma ServesIff(rules: seq<SecurityRule>, ports: Ports, p: Proto, port: string)
    requires Exact(rules, ports)
    ensures port in Of(ports, p) <==> Serves(rules, p, port)
  {
    if r :| r in rules && ProtoOf(r) == Some(p) && PortOf(r) == port {
      var i :| 0 <= i < |rules| && rules[i] == r;
    }
  }

  /** The maps are shared by all groups of a run and consumed, so the run leaves every group exact for the original
      ports exactly when no group but the last one visited already has a managed rule for one of those ports. */
  lemma AllGroupsExactIff(groups: seq<seq<SecurityRule>>, ports: Ports, results: seq<seq<SecurityRule>>)
    requires AllSynced(groups, ports, results)
    ensures (forall k :: 0 <= k < |groups| ==> Exact(results[k], ports)) <==>
      (forall k :: 0 <= k < |groups| - 1 ==> !Retains(groups[k], ports))
  {
    forall k | 0 <= k < |groups| ensures Exact(results[k], EntryPorts(groups[..k], ports)) {
      SyncIsExact(groups[k], EntryPorts(groups[..k], ports), results[k]);
    }
    if forall k :: 0 <= k < |groups| - 1 ==> !Retains(groups[k], ports) {
      forall k | 0 <= k < |groups| ensures Exact(results[k], ports) {
        EntryPortsKept(groups[..k], ports);
      }
    }
    if forall k :: 0 <= k < |groups| ==> Exact(results[k], ports) {
      forall k | 0 <= k < |groups| - 1 ensures !Retains(groups[k], ports) {
        ExactDeterminesPorts(results[k + 1], ports, EntryPorts(groups[..k + 1], ports));
        assert groups[..k + 1][k] == groups[k];
        EntryPortsShrink(groups[..k + 1], ports);
      }
    }
  }

  ghost predicate AllExact(results: seq<seq<SecurityRule>>, ports: Ports) {
    forall k :: 0 <= k < |results| ==> Exact(results[k], ports)
  }

  ghost predicate Rearranges(order: seq<seq<SecurityRule>>, groups: seq<seq<SecurityRule>>) {
    multiset(order) == multiset(groups)
  }

  lemma SameMembers<T>(a: seq<T>, b: seq<T>)
    requires multiset(a) == multiset(b)
    ensures |a| == |b| && forall x :: x in a <==> x in b
  {
    assert |multiset(a)| == |a| && |multiset(b)| == |b|;
    forall x ensures x in a <==> x in b {
      assert x in multiset(a) <==> x in multiset(b);
    }
  }

  lemma MovedToFront<T>(s: seq<T>, k: nat) returns (r: seq<T>)
    requires k < |s|
    ensures multiset(r) == multiset(s) && |r| == |s| && r[0] == s[k]
  {
    r := [s[k]] + s[..k] + s[k + 1..];
    assert s == s[..k] + [s[k]] + s[k + 1..];
  }

  /** No caller chooses the order of the visits. When every order succeeds, all orders leave all groups exact if and only
      if there is at most one group or none has a managed rule for a wanted port. */
  lemma EveryOrderExactIff(groups: seq<seq<SecurityRule>>, ports: Ports)
    requires forall order :: Rearranges(order, groups) ==> exists results :: AllSynced(order, ports, results)
    ensures (forall order, results :: Rearranges(order, groups) && AllSynced(order, ports, results) ==>
               AllExact(results, ports)) <==>
      |groups| <= 1 || (forall g :: g in groups ==> !Retains(g, ports))
  {
    if |groups| <= 1 || (forall g :: g in groups ==> !Retains(g, ports)) {
      forall order, results | Rearranges(order, groups) && AllSynced(order, ports, results) ensures AllExact(results, ports) {
        SameMembers(order, groups);
        AllGroupsExactIff(order, ports, results);
      }
    } else {
      var k :| 0 <= k < |groups| && Retains(groups[k], ports);
      var order := MovedToFront(groups, k);
      assert Rearranges(order, groups);
      var results :| AllSynced(order, ports, results);
      AllGroupsExactIff(order, ports, results);
      assert !AllExact(results, ports);
    }
  }

  lemma ScanOfOne(rule: SecurityRule, ports: Ports)
    ensures ScanRules([rule], ports) == ScanStep(Scan([], {}, {}, false, ports), rule)
  {
    var rules := [rule];
    assert rules[..|rules| - 1] == [];
    assert ScanRules([], ports) == Scan([], {}, {}, false, ports);
  }

  lemma NothingMissing(s: Scan)
    requires s.ports == Ports({}, {})
    ensures Synced(s, s.kept)
  {
    var k := |s.kept|;
    assert s.kept[..k] == s.kept && s.kept[k..] == [] && s.kept[k..k] == [];
    assert AddedFor(Udp, {}, []) && AddedFor(Tcp, {}, []);
    assert Elements(Priorities(s.kept[k..])) == {};
  }

  /** The condition matters: a group that already serves the only port takes it from the group after it, which is
      then left without a rule although the run succeeds. */
  lemma SharedMapsLosePorts(port: string, priority: int)
    ensures var rule := GetDefaultSecurityGroupRule(Tcp, port, Some(priority));
      var ports := Ports({port}, {});
      AllSynced([[rule], []], ports, [[rule], []]) && Exact([rule], ports) && !Exact([], ports)
  {
    var rule := GetDefaultSecurityGroupRule(Tcp, port, Some(priority));
    var groups, ports := [[rule], []], Ports({port}, {});
    DefaultRuleProto(Tcp, port, Some(priority));
    ScanOfOne(rule, ports);
    var s := ScanRules([rule], ports);
    assert Reset(Tcp, rule) == rule && Without(ports, Tcp, port) == Ports({}, {});
    assert s.kept == [rule] && s.ports == Ports({}, {});
    NothingMissing(s);
    SyncIsExact([rule], ports, [rule]);
    NothingMissing(ScanRules([], Ports({}, {})));
    assert groups[..0] == [] && EntryPorts([], ports) == ports;
    assert groups[..1] == [[rule]] && EntryPorts([[rule]], ports) == s.ports by {
      assert [[rule]][..0] == [];
    }
    assert !Serves([], Tcp, port) && port in Of(ports, Tcp);
  }
}
