/** When a block considers at most one virtual address per family. */
module Families {
  import opened Basics
  import opened NodeNetwork
  import opened Keepalived

  /** The families of the parsable addresses, in their order. */
  function FamiliesOf(parse: Parser, vips: seq<string>): seq<Version> {
    if vips == [] then []
    else match parse(vips[|vips| - 1])
      case None => FamiliesOf(parse, vips[..|vips| - 1])
      case Some(ip) => FamiliesOf(parse, vips[..|vips| - 1]) + [ip.version]
  }

  function ConsideredFamilies(considered: seq<Considered>): seq<Version> {
    seq(|considered|, i requires 0 <= i < |considered| => considered[i].version)
  }

  /** A list without its immediate repetitions. */
  function Runs<T(==)>(s: seq<T>): seq<T> {
    if s == [] then []
    else
      var before := Runs(s[..|s| - 1]);
      if before != [] && before[|before| - 1] == s[|s| - 1] then before else before + [s[|s| - 1]]
  }

  /** An element comes back after a different one. */
  ghost predicate Returns<T>(s: seq<T>) {
    exists i, j, k :: 0 <= i < j < k < |s| && s[i] == s[k] && s[j] != s[k]
  }

  lemma ConsideredFamiliesAppend(considered: seq<Considered>, c: Considered)
    ensures ConsideredFamilies(considered + [c]) == ConsideredFamilies(considered) + [c.version]
  {
  }

  lemma RunsAppend<T>(s: seq<T>, x: T)
    ensures Runs(s + [x]) == if Runs(s) != [] && Runs(s)[|Runs(s)| - 1] == x then Runs(s) else Runs(s) + [x]
  {
    assert (s + [x])[..|s|] == s;
  }

  lemma ConsideredNextFamily(parse: Parser, vips: seq<string>, families: seq<Version>)
    requires vips != [] && parse(vips[|vips| - 1]).Some?
    requires ConsideredFamilies(ConsideredVIPs(parse, vips[..|vips| - 1])) == families
    ensures var v := parse(vips[|vips| - 1]).value.version;
      ConsideredFamilies(ConsideredVIPs(parse, vips)) ==
      if families != [] && families[|families| - 1] == v then families else families + [v]
  {
    var before, vip := ConsideredVIPs(parse, vips[..|vips| - 1]), vips[|vips| - 1];
    ConsideredFamiliesAppend(before, Considered(vip, parse(vip).value.version));
    assert before != [] ==> families[|families| - 1] == before[|before| - 1].version;
  }

  lemma {:induction false} ConsideredAreRuns(parse: Parser, vips: seq<string>)
    ensures ConsideredFamilies(ConsideredVIPs(parse, vips)) == Runs(FamiliesOf(parse, vips))
  {
    if vips == [] {
      assert ConsideredFamilies([]) == [] == Runs(FamiliesOf(parse, []));
    } else {
      var init, vip := vips[..|vips| - 1], vips[|vips| - 1];
      ConsideredAreRuns(parse, init);
      if parse(vip).Some? {
        hide Runs, ConsideredFamilies, ConsideredVIPs;
        RunsAppend(FamiliesOf(parse, init), parse(vip).value.version);
        ConsideredNextFamily(parse, vips, Runs(FamiliesOf(parse, init)));
      }
    }
  }

  lemma ReturnsAppend<T>(init: seq<T>, x: T)
    ensures Returns(init + [x]) <==> Returns(init) || (x in init && init[|init| - 1] != x)
  {
    var s := init + [x];
    if i, j, k :| 0 <= i < j < k < |s| && s[i] == s[k] && s[j] != s[k] {
      if k < |init| {
        assert init[i] == init[k] && init[j] != init[k];
      } else if init[|init| - 1] == x {
        assert init[i] == init[|init| - 1] && init[j] != init[|init| - 1];
      }
    }
    if i, j, k :| 0 <= i < j < k < |init| && init[i] == init[k] && init[j] != init[k] {
      assert s[i] == s[k] && s[j] != s[k];
    }
    if x in init && init[|init| - 1] != x {
      var i :| 0 <= i < |init| && init[i] == x;
      assert s[i] == s[|init|] && s[|init| - 1] != s[|init|];
    }
  }

  lemma {:induction false} RunsDistinctIff<T>(s: seq<T>)
    ensures Distinct(Runs(s)) <==> !Returns(s)
    ensures forall x :: x in Runs(s) <==> x in s
    ensures s != [] ==> Runs(s) != [] && Runs(s)[|Runs(s)| - 1] == s[|s| - 1]
  {
    if s != [] {
      var init, x := s[..|s| - 1], s[|s| - 1];
      assert s == init + [x];
      RunsDistinctIff(init);
      ReturnsAppend(init, x);
      DistinctAppend(Runs(init), x);
    }
  }

  /** No family is considered twice if and only if, among the parsable addresses, no family comes back after another
      one. */
  lemma OnePerFamilyIff(parse: Parser, vips: seq<string>)
    ensures Distinct(ConsideredFamilies(ConsideredVIPs(parse, vips))) <==> !Returns(FamiliesOf(parse, vips))
  {
    ConsideredAreRuns(parse, vips);
    RunsDistinctIff(FamiliesOf(parse, vips));
  }

  /** Families do come back: an IPv4, an IPv6 and another IPv4 address are all considered. */
  lemma FamilyConsideredTwice(parse: Parser, a: string, b: string, c: string)
    requires parse(a).Some? && parse(b).Some? && parse(c).Some?
    requires parse(a).value.version == V4 && parse(b).value.version == V6 && parse(c).value.version == V4
    ensures ConsideredVIPs(parse, [a, b, c]) == [Considered(a, V4), Considered(b, V6), Considered(c, V4)]
    ensures !Distinct(ConsideredFamilies(ConsideredVIPs(parse, [a, b, c])))
  {
    var vips := [a, b, c];
    assert vips[..2] == [a, b] && [a, b][..1] == [a] && [a][..0] == [];
    assert ConsideredVIPs(parse, [a]) == [Considered(a, V4)];
    assert ConsideredVIPs(parse, [a, b]) == [Considered(a, V4), Considered(b, V6)];
    var families := ConsideredFamilies(ConsideredVIPs(parse, vips));
    assert families[0] == families[2];
  }
}
