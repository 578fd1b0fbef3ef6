/** What the load-balancing rule writers guarantee, alone and together. */
module RuleResults {
  import opened Basics
  import opened Decimals
  import opened PortMaps
  import opened LoadBalancingRules

  /** Rules of one protocol and port. */
  function At(p: Proto, port: Port): Rule -> bool {
    r => RuleProto(r) == Some(p) && PortOf(r) == port
  }

  predicate OtherProtocol(r: Rule) { RuleProto(r).None? }

  /** A properly named rule of one protocol and port. */
  ghost predicate HasNamed(rules: seq<Rule>, p: Proto, port: Port) {
    exists r :: r in rules && At(p, port)(r) && Named(r)
  }

  /** A key is canonical when it is the decimal text of the 32-bit number that it is read as. */
  predicate Canonical(key: string) {
    match Atoi(key)
    case None => false
    case Some(port) => Itoa(Int32(port)) == key
  }

  ghost predicate AllCanonical(ports: Ports) {
    forall p: Proto, key: string :: key in Of(ports, p) ==> Canonical(key)
  }

  lemma PrintedIsCanonical(port: Port)
    ensures Canonical(Itoa(port))
  {
    AtoiItoa(port);
  }

  // ---- Old rules ----

  lemma HasNamedAppend(rules: seq<Rule>, r: Rule, p: Proto, port: Port)
    ensures HasNamed(rules + [r], p, port) <==> HasNamed(rules, p, port) || (At(p, port)(r) && Named(r))
  {
    assert forall x :: x in rules + [r] <==> x in rules || x == r;
  }

  lemma LeftStep(s: Remain, r: Rule, p: Proto, port: Port)
    ensures Itoa(port) in Of(RemainStep(s, r).ports, p) <==> Itoa(port) in Of(s.ports, p) && !(At(p, port)(r) && Named(r))
  {
    if RuleProto(r) == Some(p) && Itoa(PortOf(r)) == Itoa(port) {
      ItoaInjective(PortOf(r), port);
    }
    hide Named;
  }

  /** A wanted key is left over exactly when no old rule serves it under its proper name. */
  lemma {:induction false} LeftOver(rules: seq<Rule>, ports: Ports, p: Proto, port: Port)
    ensures Itoa(port) in Of(RemainConstant(rules, ports).ports, p) <==>
      Itoa(port) in Of(ports, p) && !HasNamed(rules, p, port)
  {
    if rules != [] {
      hide RemainStep, At, Named, HasNamed, Itoa, Of;
      var init, r := rules[..|rules| - 1], rules[|rules| - 1];
      LeftOver(init, ports, p, port);
      assert rules == init + [r];
      HasNamedAppend(init, r, p, port);
      LeftStep(RemainConstant(init, ports), r, p, port);
    }
  }

  /** Keys that are not the text of a 32-bit number are always left over. */
  lemma {:induction false} NonCanonicalLeft(rules: seq<Rule>, ports: Ports, p: Proto, key: string)
    requires key in Of(ports, p) && !Canonical(key)
    ensures key in Of(RemainConstant(rules, ports).ports, p)
  {
    if rules != [] {
      NonCanonicalLeft(rules[..|rules| - 1], ports, p, key);
      PrintedIsCanonical(PortOf(rules[|rules| - 1]));
    }
  }

  lemma {:induction false} LeftIsWanted(rules: seq<Rule>, ports: Ports)
    ensures RemainConstant(rules, ports).ports.tcp <= ports.tcp
    ensures RemainConstant(rules, ports).ports.udp <= ports.udp
  {
    if rules != [] {
      LeftIsWanted(rules[..|rules| - 1], ports);
    }
  }

  lemma ProtectedStep(s: Remain, r: Rule, p: Rule -> bool)
    requires p(r) ==> OtherProtocol(r) || IsDefaultRule(r)
    ensures Filter(RemainStep(s, r).rules, p) == Filter(s.rules, p) + if p(r) then [r] else []
  {
    if RemainStep(s, r).rules == s.rules + [r] {
      FilterAppend(s.rules, r, p);
    }
  }

  /** Rules of other protocols, and TCP rules for 80 and 443, all stay, in order. */
  lemma {:induction false} ProtectedStay(rules: seq<Rule>, ports: Ports, p: Rule -> bool)
    requires forall r :: p(r) ==> OtherProtocol(r) || IsDefaultRule(r)
    ensures Filter(RemainConstant(rules, ports).rules, p) == Filter(rules, p)
  {
    if rules != [] {
      var init, r := rules[..|rules| - 1], rules[|rules| - 1];
      ProtectedStay(init, ports, p);
      ProtectedStep(RemainConstant(init, ports), r, p);
    }
  }

  lemma KeptStep(s: Remain, r: Rule, p: Proto, port: Port)
    requires !IsDefaultPort(p, port)
    ensures Of(RemainStep(s, r).ports, p) <= Of(s.ports, p)
    ensures |Filter(RemainStep(s, r).rules, At(p, port))| == |Filter(s.rules, At(p, port))| +
      if Itoa(port) in Of(s.ports, p) - Of(RemainStep(s, r).ports, p) then 1 else 0
  {
    if RemainStep(s, r).rules == s.rules + [r] {
      FilterAppend(s.rules, r, At(p, port));
    }
    if RuleProto(r) == Some(p) && Itoa(PortOf(r)) == Itoa(port) {
      ItoaInjective(PortOf(r), port);
    }
  }

  /** Of the rules for any other pair, exactly one stays if the pair was wanted and is served, else none. */
  lemma {:induction false} KeptCount(rules: seq<Rule>, ports: Ports, p: Proto, port: Port)
    requires !IsDefaultPort(p, port)
    ensures Of(RemainConstant(rules, ports).ports, p) <= Of(ports, p)
    ensures |Filter(RemainConstant(rules, ports).rules, At(p, port))| ==
      if Itoa(port) in Of(ports, p) - Of(RemainConstant(rules, ports).ports, p) then 1 else 0
  {
    if rules != [] {
      KeptCount(rules[..|rules| - 1], ports, p, port);
      KeptStep(RemainConstant(rules[..|rules| - 1], ports), rules[|rules| - 1], p, port);
    }
  }

  /** A kept rule that is neither protected nor of another protocol carries its name and serves a wanted key. */
  lemma {:induction false} KeptAreWanted(rules: seq<Rule>, ports: Ports, r: Rule)
    requires r in RemainConstant(rules, ports).rules && RuleProto(r).Some? && !IsDefaultRule(r)
    ensures Named(r) && Itoa(PortOf(r)) in Of(ports, RuleProto(r).value)
  {
    var init, last := rules[..|rules| - 1], rules[|rules| - 1];
    LeftIsWanted(init, ports);
    if r in RemainConstant(init, ports).rules {
      KeptAreWanted(init, ports, r);
    }
  }

  /** A wanted key that is no longer left over is served by a kept rule with its name. */
  lemma {:induction false} KeptServe(rules: seq<Rule>, ports: Ports, p: Proto, port: Port)
    requires var s := RemainConstant(rules, ports);
      Itoa(port) in Of(ports, p) && Itoa(port) !in Of(s.ports, p)
    ensures HasNamed(RemainConstant(rules, ports).rules, p, port)
  {
    var init, r := rules[..|rules| - 1], rules[|rules| - 1];
    var before := RemainConstant(init, ports);
    HasNamedAppend(before.rules, r, p, port);
    if Itoa(port) !in Of(before.ports, p) {
      KeptServe(init, ports, p, port);
    } else if PortOf(r) != port && Itoa(PortOf(r)) == Itoa(port) {
      ItoaInjective(PortOf(r), port);
    }
  }

  // ---- New rules ----

  lemma NewRuleForCanonical(c: Config, key: string, p: Proto) returns (port: Port)
    requires Configured(c) && Canonical(key)
    ensures Itoa(port) == key
    ensures NewRuleWithConfig(c, key, p) == Some(RuleFor(c, p, port))
    ensures At(p, port)(RuleFor(c, p, port)) && Named(RuleFor(c, p, port))
  {
    port := Int32(Atoi(key).value);
  }

  /** What one more canonical key adds. */
  lemma NewStep(c: Config, p: Proto, init: seq<string>, key: string, q: Proto, port: Port)
    requires Configured(c) && Canonical(key)
    ensures |Filter(NewRules(c, p, init + [key]), At(q, port))| ==
      |Filter(NewRules(c, p, init), At(q, port))| + if p == q && Itoa(port) == key then 1 else 0
    ensures HasNamed(NewRules(c, p, init + [key]), p, port) <==> HasNamed(NewRules(c, p, init), p, port) || Itoa(port) == key
  {
    var n := NewRuleForCanonical(c, key, p);
    var rules, r := NewRules(c, p, init), RuleFor(c, p, n);
    assert (init + [key])[..|init|] == init;
    assert NewRules(c, p, init + [key]) == rules + [r];
    if Itoa(n) == Itoa(port) {
      ItoaInjective(n, port);
    }
    assert At(p, port)(r) <==> n == port;
    assert At(q, port)(r) <==> p == q && n == port;
    hide NewRules, Filter, Itoa, HasNamed, At, RuleFor, Named;
    FilterAppend(rules, r, At(q, port));
    HasNamedAppend(rules, r, p, port);
  }

  /** Canonical keys give one rule each. */
  lemma {:induction false} NewCount(c: Config, p: Proto, order: seq<string>, q: Proto, port: Port)
    requires Configured(c) && Distinct(order) && forall key :: key in order ==> Canonical(key)
    ensures |Filter(NewRules(c, p, order), At(q, port))| == if p == q && Itoa(port) in order then 1 else 0
    ensures p == q && Itoa(port) in order ==> HasNamed(NewRules(c, p, order), p, port)
  {
    if order != [] {
      var init, key := order[..|order| - 1], order[|order| - 1];
      assert order == init + [key];
      hide Filter, NewRules, At, HasNamed, Itoa, Canonical, Configured, Distinct, Elements;
      DistinctAppend(init, key);
      NewCount(c, p, init, q, port);
      NewStep(c, p, init, key, q, port);
      assert Itoa(port) in order <==> Itoa(port) in init || Itoa(port) == key;
    }
  }

  lemma {:induction false} NewAreWanted(c: Config, p: Proto, order: seq<string>, r: Rule)
    requires Configured(c) && (forall key :: key in order ==> Canonical(key)) && r in NewRules(c, p, order)
    ensures RuleProto(r) == Some(p) && Named(r) && Itoa(PortOf(r)) in order
  {
    var init, key := order[..|order| - 1], order[|order| - 1];
    var n := NewRuleForCanonical(c, key, p);
    if r in NewRules(c, p, init) {
      NewAreWanted(c, p, init, r);
    }
  }

  lemma MadeUpCanonical(c: Config, rules: seq<Rule>, ports: Ports, rules': seq<Rule>, tcps: seq<string>, udps: seq<string>)
    requires MadeUp(c, rules, ports, rules', tcps, udps) && AllCanonical(ports)
    ensures forall key :: key in tcps ==> Canonical(key) && key in ports.tcp
    ensures forall key :: key in udps ==> Canonical(key) && key in ports.udp
  {
    LeftIsWanted(rules, ports);
    forall key | key in tcps ensures Canonical(key) && key in ports.tcp {
      assert key in Elements(tcps) && Of(ports, Tcp) == ports.tcp;
    }
    forall key | key in udps ensures Canonical(key) && key in ports.udp {
      assert key in Elements(udps) && Of(ports, Udp) == ports.udp;
    }
  }

  // ---- Exactness ----

  /** The rules of a pair after a run are the kept ones and a new one if its key is left over. */
  lemma CountTogether(
      c: Config, rules: seq<Rule>, ports: Ports, rules': seq<Rule>, tcps: seq<string>, udps: seq<string>, p: Proto, port: Port)
    requires Configured(c) && AllCanonical(ports) && MadeUp(c, rules, ports, rules', tcps, udps)
    ensures var s := RemainConstant(rules, ports);
      |Filter(rules', At(p, port))| ==
      |Filter(s.rules, At(p, port))| + if Itoa(port) in Of(s.ports, p) then 1 else 0
  {
    var s := RemainConstant(rules, ports);
    MadeUpCanonical(c, rules, ports, rules', tcps, udps);
    NewCount(c, Tcp, tcps, p, port);
    NewCount(c, Udp, udps, p, port);
    FilterConcat(s.rules + NewRules(c, Tcp, tcps), NewRules(c, Udp, udps), At(p, port));
    FilterConcat(s.rules, NewRules(c, Tcp, tcps), At(p, port));
    assert Itoa(port) in tcps <==> Itoa(port) in Elements(tcps);
    assert Itoa(port) in udps <==> Itoa(port) in Elements(udps);
    hide Filter, NewRules, RemainConstant, At, Itoa, AllCanonical, Configured, HasNamed, Distinct;
  }

  /** How many rules of each pair a run leaves: for a protected pair the old ones, and one more if it is wanted and
      no old one carries its name; for every other pair one if it is wanted, else none. */
  lemma RuleCounts(
      c: Config, rules: seq<Rule>, ports: Ports, rules': seq<Rule>, tcps: seq<string>, udps: seq<string>, p: Proto, port: Port)
    requires Configured(c) && AllCanonical(ports) && MadeUp(c, rules, ports, rules', tcps, udps)
    ensures |Filter(rules', At(p, port))| ==
      if IsDefaultPort(p, port) then
        |Filter(rules, At(p, port))| + (if Itoa(port) in Of(ports, p) && !HasNamed(rules, p, port) then 1 else 0)
      else if Itoa(port) in Of(ports, p) then 1 else 0
  {
    if IsDefaultPort(p, port) {
      assert forall r :: At(p, port)(r) ==> IsDefaultRule(r);
    }
    hide Filter, RemainConstant, At, Itoa, AllCanonical, MadeUp, Configured, HasNamed, Of, OtherProtocol, IsDefaultRule;
    CountTogether(c, rules, ports, rules', tcps, udps, p, port);
    LeftOver(rules, ports, p, port);
    if IsDefaultPort(p, port) {
      ProtectedStay(rules, ports, At(p, port));
    } else {
      KeptCount(rules, ports, p, port);
    }
  }

  lemma HasNamedPositive(rules: seq<Rule>, p: Proto, port: Port)
    requires HasNamed(rules, p, port)
    ensures |Filter(rules, At(p, port))| >= 1
  {
    var r :| r in rules && At(p, port)(r) && Named(r);
    assert r in Filter(rules, At(p, port));
  }

  /** A run leaves every pair at most once, so each wanted pair exactly once, exactly when 80 and 443 had at most one
      old TCP rule each, carrying its proper name if the port is wanted. */
  lemma OncePerPairIff(
      c: Config, rules: seq<Rule>, ports: Ports, rules': seq<Rule>, tcps: seq<string>, udps: seq<string>)
    requires Configured(c) && AllCanonical(ports) && MadeUp(c, rules, ports, rules', tcps, udps)
    ensures (forall p: Proto, port: Port :: |Filter(rules', At(p, port))| <= 1) <==>
      (forall port: Port :: IsDefaultPort(Tcp, port) ==>
         |Filter(rules, At(Tcp, port))| <= 1 &&
         (Itoa(port) in ports.tcp && Filter(rules, At(Tcp, port)) != [] ==> HasNamed(rules, Tcp, port)))
    ensures forall p: Proto, port: Port :: Itoa(port) in Of(ports, p) ==> |Filter(rules', At(p, port))| >= 1
  {
    forall p: Proto, port: Port
      ensures Itoa(port) in Of(ports, p) ==> |Filter(rules', At(p, port))| >= 1
      ensures !IsDefaultPort(p, port) ==> |Filter(rules', At(p, port))| <= 1
      ensures IsDefaultPort(p, port) ==> (|Filter(rules', At(p, port))| <= 1 <==>
        |Filter(rules, At(Tcp, port))| <= 1 &&
        (Itoa(port) in ports.tcp && Filter(rules, At(Tcp, port)) != [] ==> HasNamed(rules, Tcp, port)))
    {
      RuleCounts(c, rules, ports, rules', tcps, udps, p, port);
      if HasNamed(rules, p, port) {
        HasNamedPositive(rules, p, port);
      }
    }
  }

  /** The condition matters: an old TCP rule for 80 under another name stays beside the new one. */
  lemma RenamedDefaultIsDoubled(
      c: Config, rules: seq<Rule>, ports: Ports, rules': seq<Rule>, tcps: seq<string>, udps: seq<string>)
    requires Configured(c) && AllCanonical(ports) && MadeUp(c, rules, ports, rules', tcps, udps)
    requires |rules| == 1 && At(Tcp, 80)(rules[0]) && !Named(rules[0]) && Itoa(80) in ports.tcp
    ensures |Filter(rules', At(Tcp, 80))| == 2
  {
    RuleCounts(c, rules, ports, rules', tcps, udps, Tcp, 80);
    assert rules[..0] == [] && Filter(rules, At(Tcp, 80)) == [rules[0]];
  }

  /** Every rule of the result is of another protocol, an old protected rule, or named and wanted; rules of other
      protocols keep their order. */
  lemma OnlyWantedRules(
      c: Config, rules: seq<Rule>, ports: Ports, rules': seq<Rule>, tcps: seq<string>, udps: seq<string>)
    requires Configured(c) && AllCanonical(ports) && MadeUp(c, rules, ports, rules', tcps, udps)
    ensures Filter(rules', OtherProtocol) == Filter(rules, OtherProtocol)
    ensures forall r :: r in rules' && RuleProto(r).Some? ==>
      (r in rules && IsDefaultRule(r)) || (Named(r) && Itoa(PortOf(r)) in Of(ports, RuleProto(r).value))
  {
    var s := RemainConstant(rules, ports);
    var newT, newU := NewRules(c, Tcp, tcps), NewRules(c, Udp, udps);
    MadeUpCanonical(c, rules, ports, rules', tcps, udps);
    ProtectedStay(rules, ports, OtherProtocol);
    forall r | r in newT ensures RuleProto(r) == Some(Tcp) && Named(r) && Itoa(PortOf(r)) in ports.tcp {
      NewAreWanted(c, Tcp, tcps, r);
    }
    forall r | r in newU ensures RuleProto(r) == Some(Udp) && Named(r) && Itoa(PortOf(r)) in ports.udp {
      NewAreWanted(c, Udp, udps, r);
    }
    FilterNone(newT, OtherProtocol);
    FilterNone(newU, OtherProtocol);
    FilterConcat(s.rules + newT, newU, OtherProtocol);
    FilterConcat(s.rules, newT, OtherProtocol);
    forall r | r in s.rules && RuleProto(r).Some?
      ensures (r in rules && IsDefaultRule(r)) || (Named(r) && Itoa(PortOf(r)) in Of(ports, RuleProto(r).value))
    {
      KeptAreOld(rules, ports, r);
      if !IsDefaultRule(r) {
        KeptAreWanted(rules, ports, r);
      }
    }
  }

  lemma {:induction false} KeptAreOld(rules: seq<Rule>, ports: Ports, r: Rule)
    requires r in RemainConstant(rules, ports).rules
    ensures r in rules
  {
    var init := rules[..|rules| - 1];
    if r in RemainConstant(init, ports).rules {
      KeptAreOld(init, ports, r);
    }
  }

  // ---- Fixed point ----

  /** Rules that a run leaves as they are. */
  ghost predicate Settled(rules: seq<Rule>, ports: Ports) {
    && (forall r :: r in rules && RuleProto(r).Some? && !IsDefaultRule(r) ==>
          Named(r) && Itoa(PortOf(r)) in Of(ports, RuleProto(r).value))
    && (forall p: Proto, port: Port :: !IsDefaultPort(p, port) ==> |Filter(rules, At(p, port))| <= 1)
    && (forall p: Proto, port: Port :: Itoa(port) in Of(ports, p) ==> HasNamed(rules, p, port))
  }

  lemma RunSettles(
      c: Config, rules: seq<Rule>, ports: Ports, rules': seq<Rule>, tcps: seq<string>, udps: seq<string>)
    requires Configured(c) && AllCanonical(ports) && MadeUp(c, rules, ports, rules', tcps, udps)
    ensures Settled(rules', ports)
  {
    OnlyWantedRules(c, rules, ports, rules', tcps, udps);
    forall p: Proto, port: Port | !IsDefaultPort(p, port) ensures |Filter(rules', At(p, port))| <= 1 {
      RuleCounts(c, rules, ports, rules', tcps, udps, p, port);
    }
    forall p: Proto, port: Port | Itoa(port) in Of(ports, p) ensures HasNamed(rules', p, port) {
      ResultServes(c, rules, ports, rules', tcps, udps, p, port);
    }
  }

  lemma ResultServes(
      c: Config, rules: seq<Rule>, ports: Ports, rules': seq<Rule>, tcps: seq<string>, udps: seq<string>, p: Proto, port: Port)
    requires Configured(c) && AllCanonical(ports) && MadeUp(c, rules, ports, rules', tcps, udps)
    requires Itoa(port) in Of(ports, p)
    ensures HasNamed(rules', p, port)
  {
    var s := RemainConstant(rules, ports);
    MadeUpCanonical(c, rules, ports, rules', tcps, udps);
    if Itoa(port) !in Of(s.ports, p) {
      KeptServe(rules, ports, p, port);
      var r :| r in s.rules && At(p, port)(r) && Named(r);
      assert r in rules';
    } else {
      var order := if p == Tcp then tcps else udps;
      assert Itoa(port) in Elements(order);
      NewCount(c, p, order, p, port);
      var r :| r in NewRules(c, p, order) && At(p, port)(r) && Named(r);
      assert r in rules';
    }
  }

  /** An earlier rule of the same pair makes two. */
  lemma TwoAt(rules: seq<Rule>, k: nat, w: Rule, p: Proto, port: Port)
    requires k < |rules| && w in rules[..k] && At(p, port)(w) && At(p, port)(rules[k])
    ensures |Filter(rules, At(p, port))| >= 2
  {
    var before, after := rules[..k], rules[k..];
    assert rules == before + after;
    FilterConcat(before, after, At(p, port));
    FilterHead(after, At(p, port));
    assert w in Filter(before, At(p, port));
  }

  lemma {:induction false} SettledStays(rules: seq<Rule>, ports: Ports, k: nat)
    requires Settled(rules, ports) && k <= |rules|
    ensures !RemainConstant(rules[..k], ports).diff
  {
    if k > 0 {
      SettledStays(rules, ports, k - 1);
      var r := rules[k - 1];
      assert rules[..k][..k - 1] == rules[..k - 1] && r in rules;
      if RuleProto(r).Some? && !IsDefaultRule(r) {
        var p, port := RuleProto(r).value, PortOf(r);
        LeftOver(rules[..k - 1], ports, p, port);
        if HasNamed(rules[..k - 1], p, port) {
          var w :| w in rules[..k - 1] && At(p, port)(w) && Named(w);
          TwoAt(rules, k - 1, w, p, port);
        }
      }
    }
  }

  /** After a run, another run with the same ports finds no difference exactly when every key of both maps is
      canonical. */
  lemma SecondRunIdleIff(
      c: Config, rules: seq<Rule>, ports: Ports, rules': seq<Rule>, tcps: seq<string>, udps: seq<string>)
    requires Configured(c) && MadeUp(c, rules, ports, rules', tcps, udps)
    ensures !Differs(rules', ports) <==> AllCanonical(ports)
  {
    if AllCanonical(ports) {
      RunSettles(c, rules, ports, rules', tcps, udps);
      SettledIsIdle(rules', ports);
    } else {
      var p: Proto, key: string :| key in Of(ports, p) && !Canonical(key);
      NonCanonicalLeft(rules', ports, p, key);
    }
  }

  /** Such keys exist: a port written with a leading zero is read as its number, but never found again. */
  lemma PaddedKeyNeverSettles(
      c: Config, rules: seq<Rule>, ports: Ports, rules': seq<Rule>, tcps: seq<string>, udps: seq<string>)
    requires Configured(c) && MadeUp(c, rules, ports, rules', tcps, udps) && "080" in ports.tcp
    ensures Atoi("080") == Some(80) && Differs(rules', ports)
  {
    var key := "080";
    assert key[..2] == "08" && key[..2][..1] == "0";
    assert ParseNat("0") == Some(0) && ParseNat("08") == Some(8) && ParseNat(key) == Some(80);
    assert |Itoa(80)| == 2;
    assert key in Of(ports, Tcp) && !Canonical(key);
    SecondRunIdleIff(c, rules, ports, rules', tcps, udps);
  }

  lemma SettledIsIdle(rules: seq<Rule>, ports: Ports)
    requires Settled(rules, ports) && AllCanonical(ports)
    ensures !Differs(rules, ports)
  {
    SettledStays(rules, ports, |rules|);
    assert rules[..|rules|] == rules;
    LeftIsWanted(rules, ports);
    var left := RemainConstant(rules, ports).ports;
    forall p: Proto, key: string ensures key !in Of(left, p) {
      if key in Of(ports, p) {
        assert Canonical(key);
        var port: Port := Int32(Atoi(key).value);
        LeftOver(rules, ports, p, port);
      } else {
        assert Of(left, p) <= Of(ports, p);
      }
    }
    assert Of(left, Tcp) == {} && Of(left, Udp) == {};
  }

  // ---- With the default rules ----

  ghost predicate Covered(rules: seq<Rule>, d: Rule) {
    exists r :: r in rules && EqualRule(r, d)
  }

  lemma {:induction false} PatchCovers(rules: seq<Rule>, defaults: seq<Rule>)
    requires forall d :: d in defaults ==> EqualRule(d, d)
    ensures forall r :: r in rules ==> r in Patch(rules, defaults)
    ensures forall d :: d in defaults ==> Covered(Patch(rules, defaults), d)
  {
    if defaults != [] {
      var init, last := defaults[..|defaults| - 1], defaults[|defaults| - 1];
      PatchCovers(rules, init);
      assert defaults == init + [last];
      assert EqualRule(last, last);
      forall d | d in defaults ensures Covered(Patch(rules, defaults), d) {
        if d in init {
          assert Covered(Patch(rules, init), d);
          var r :| r in Patch(rules, init) && EqualRule(r, d);
          assert r in Patch(rules, defaults);
        }
      }
    }
  }

  lemma {:induction false} PatchIdle(rules: seq<Rule>, defaults: seq<Rule>)
    ensures Patch(rules, defaults) == rules <==> forall d :: d in defaults ==> Covered(rules, d)
    ensures |Patch(rules, defaults)| >= |rules|
  {
    if defaults != [] {
      var init, last := defaults[..|defaults| - 1], defaults[|defaults| - 1];
      PatchIdle(rules, init);
      assert defaults == init + [last];
      assert forall d :: d in defaults <==> d in init || d == last;
      assert Patch(rules, init) == rules ==> (Patch(rules, defaults) == rules <==> Covered(rules, last));
    }
  }

  /** The program's probes are for ports 80 and 443. */
  ghost predicate DefaultProbes(probes: seq<Probe>) {
    forall probe :: probe in probes ==> probe.port == Some(80) || probe.port == Some(443)
  }

  /** Synchronizing the user's rules never drops a rule that equals a default. */
  lemma SyncKeepsCovered(
      c: Config, rules: seq<Rule>, ports: Ports, rules': seq<Rule>, tcps: seq<string>, udps: seq<string>, d: Rule)
    requires MadeUp(c, rules, ports, rules', tcps, udps) && Covered(rules, d) && IsDefaultRule(d)
    ensures Covered(rules', d)
  {
    var r :| r in rules && EqualRule(r, d);
    ProtectedStay(rules, ports, IsDefaultRule);
    assert r in Filter(rules, IsDefaultRule);
    assert r in RemainConstant(rules, ports).rules;
    assert r in rules';
  }

  /** Patching the defaults of the probes and then synchronizing the user's rules reaches a state that patching again
      leaves alone; synchronizing again leaves it alone exactly when all keys are canonical. */
  lemma JointFixedPoint(
      c: Config, rules: seq<Rule>, ports: Ports, rules': seq<Rule>, tcps: seq<string>, udps: seq<string>)
    requires Configured(c) && DefaultProbes(c.probes)
    requires var defaults := Probes2Rules(c.frontends[0], c.backends[0], c.probes);
      MadeUp(c, Patch(rules, defaults), ports, rules', tcps, udps)
    ensures var defaults := Probes2Rules(c.frontends[0], c.backends[0], c.probes);
      Patch(rules', defaults) == rules' && (!Differs(Patch(rules', defaults), ports) <==> AllCanonical(ports))
  {
    var defaults := Probes2Rules(c.frontends[0], c.backends[0], c.probes);
    forall d | d in defaults ensures EqualRule(d, d) && IsDefaultRule(d) {
      var i :| 0 <= i < |defaults| && defaults[i] == d;
      assert c.probes[i] in c.probes;
    }
    PatchCovers(rules, defaults);
    forall d | d in defaults ensures Covered(rules', d) {
      SyncKeepsCovered(c, Patch(rules, defaults), ports, rules', tcps, udps, d);
    }
    PatchIdle(rules', defaults);
    SecondRunIdleIff(c, Patch(rules, defaults), ports, rules', tcps, udps);
  }

  /** A load balancer without rules gets the defaults as they are; patching then adds nothing. */
  lemma DefaultsAreFixed(defaults: seq<Rule>)
    requires forall d :: d in defaults ==> EqualRule(d, d)
    ensures Patch(defaults, defaults) == defaults
  {
    PatchIdle(defaults, defaults);
    forall d | d in defaults ensures Covered(defaults, d) {
      assert EqualRule(d, d);
    }
  }
}
