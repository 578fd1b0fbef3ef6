/** Reading resource group and resource names out of Azure resource IDs. */
module ResourceIds {
  import opened Basics

  const RESOURCE_GROUPS := "resourceGroups"
  const NETWORK_INTERFACES := "networkInterfaces"
  const SECURITY_GROUPS := "networkSecurityGroups"
  const IP_CONFIGURATIONS := "/ipConfigurations"

  ghost predicate OccursAt(s: string, w: string, i: int) {
    0 <= i && i + |w| <= |s| && s[i..i + |w|] == w
  }

  function IndexFrom(s: string, w: string, i: nat): (r: int)
    requires i <= |s|
    ensures r == -1 || i <= r
    ensures r != -1 ==> OccursAt(s, w, r)
    ensures forall j :: i <= j && (r == -1 || j < r) ==> !OccursAt(s, w, j)
    decreases |s| - i
  {
    if i + |w| > |s| then -1
    else if s[i..i + |w|] == w then i
    else if i == |s| then -1
    else IndexFrom(s, w, i + 1)
  }

  /** `strings.Index`. */
  function Index(s: string, w: string): int {
    IndexFrom(s, w, 0)
  }

  lemma IndexIs(s: string, w: string, i: nat)
    requires OccursAt(s, w, i) && forall j :: 0 <= j < i ==> !OccursAt(s, w, j)
    ensures Index(s, w) == i
  {
  }

  /** `strings.Split` at slashes. */
  function Split(s: string): (r: seq<string>)
    ensures r != []
  {
    var i := Index(s, "/");
    if i == -1 then [s] else [s[..i]] + Split(s[i + 1..])
  }

  /** The path segment after the one in which a keyword first occurs. */
  function GetSpecifyName(id: string, keyword: string): Option<string> {
    var i := Index(id, keyword);
    if i == -1 then None
    else
      var parts := Split(id[i..]);
      if |parts| < 2 then None else Some(parts[1])
  }

  datatype Key = Key(group: string, name: string)

  function GetGroupAndName(id: string, kind: string): Option<Key> {
    match GetSpecifyName(id, RESOURCE_GROUPS)
    case None => None
    case Some(group) =>
      match GetSpecifyName(id, kind)
      case None => None
      case Some(name) => Some(Key(group, name))
  }

  /** The interface ID in front of an IP configuration's own part. */
  function GetIPIDFromIPConfig(id: string): Option<string> {
    var i := Index(id, IP_CONFIGURATIONS);
    if i == -1 then None else Some(id[..i])
  }

  /** No slash occurs inside a slash-free start. */
  lemma SlashFree(s: string, start: string)
    requires start <= s && '/' !in start
    ensures forall j :: 0 <= j < |start| ==> !OccursAt(s, "/", j)
  {
    forall j | 0 <= j < |start| ensures !OccursAt(s, "/", j) {
      assert s[j..j + 1][0] == s[j] == start[j];
      assert start[j] in start;
    }
  }

  /** The first slash ends the first part. */
  lemma SplitAtSlash(head: string, tail: string)
    requires '/' !in head
    ensures Split(head + "/" + tail) == [head] + Split(tail)
  {
    var s := head + "/" + tail;
    assert s[|head|..|head| + 1] == "/";
    SlashFree(s, head);
    IndexIs(s, "/", |head|);
    assert s[..|head|] == head && s[|head| + 1..] == tail;
  }

  lemma NoSlash(s: string)
    requires '/' !in s
    ensures Split(s) == [s]
  {
    SlashFree(s, s);
    assert forall j :: j >= |s| ==> !OccursAt(s, "/", j);
  }

  lemma HeadOfSplit(value: string, rest: string)
    requires '/' !in value && (rest == "" || rest[0] == '/')
    ensures Split(value + rest)[0] == value
  {
    if rest == "" {
      assert value + rest == value;
      NoSlash(value);
    } else {
      assert rest == "/" + rest[1..];
      assert value + rest == value + "/" + rest[1..];
      SplitAtSlash(value, rest[1..]);
    }
  }

  /** The text between the first and the second slash. */
  lemma SecondPart(head: string, value: string, rest: string)
    requires '/' !in head && '/' !in value && (rest == "" || rest[0] == '/')
    ensures |Split(head + "/" + value + rest)| >= 2
    ensures Split(head + "/" + value + rest)[1] == value
  {
    var tail := value + rest;
    assert head + "/" + value + rest == head + "/" + tail;
    SplitAtSlash(head, tail);
    HeadOfSplit(value, rest);
  }

  /** The text up to the next slash, and what follows from that slash on. */
  lemma FirstPart(t: string) returns (value: string, rest: string)
    ensures t == value + rest && '/' !in value && (rest == "" || rest[0] == '/')
    ensures Split(t)[0] == value
    ensures |Split(t)| >= 2 ==> rest != "" && Split(t)[1..] == Split(rest[1..])
  {
    hide Split;
    var j := Index(t, "/");
    if j == -1 {
      NoSlashBefore(t, |t|);
      value, rest := t, "";
      assert t[..|t|] == t;
      NoSlash(t);
    } else {
      assert OccursAt(t, "/", j) && t[j..j + 1][0] == t[j];
      NoSlashBefore(t, j);
      value, rest := t[..j], t[j..];
      assert t == value + "/" + rest[1..];
      SplitAtSlash(value, rest[1..]);
    }
  }

  lemma Regroup(head: string, value: string, rest: string)
    ensures head + ("/" + (value + rest)) == head + "/" + value + rest
  {
  }

  /** A text that splits in two or more parts, seen as head, value and rest. */
  lemma SplitParts(s: string) returns (head: string, value: string, rest: string)
    requires |Split(s)| >= 2
    ensures s == head + "/" + value + rest
    ensures '/' !in head && '/' !in value && (rest == "" || rest[0] == '/')
    ensures Split(s)[1] == value
  {
    var tail: string;
    head, tail := FirstPart(s);
    value, rest := FirstPart(tail[1..]);
    assert Split(s)[1] == Split(s)[1..][0];
    assert tail == "/" + tail[1..];
    Regroup(head, value, rest);
  }

  lemma NoSlashBefore(s: string, i: nat)
    requires i <= |s| && forall j :: 0 <= j < i ==> !OccursAt(s, "/", j)
    ensures '/' !in s[..i]
  {
    if '/' in s[..i] {
      var j :| 0 <= j < i && s[..i][j] == '/';
      assert s[j..j + 1] == "/";
      assert OccursAt(s, "/", j);
    }
  }

  /** A name read from a cut ID is the name read from the whole ID, for every keyword, as long as the cut was made
      at a slash. */
  lemma SpecifyNameSurvivesTail(cut: string, tail: string, keyword: string)
    requires tail != "" && tail[0] == '/'
    requires GetSpecifyName(cut, keyword).Some?
    ensures GetSpecifyName(cut + tail, keyword) == GetSpecifyName(cut, keyword)
  {
    var full := cut + tail;
    var i := Index(cut, keyword);
    assert OccursAt(cut, keyword, i);
    assert full[i..i + |keyword|] == cut[i..i + |keyword|];
    forall j | 0 <= j < i ensures !OccursAt(full, keyword, j) {
      assert full[j..j + |keyword|] == cut[j..j + |keyword|];
      assert !OccursAt(cut, keyword, j);
    }
    IndexIs(full, keyword, i);
    var head, value, rest := SplitParts(cut[i..]);
    assert full[i..] == cut[i..] + tail;
    assert full[i..] == head + "/" + value + (rest + tail);
    SecondPart(head, value, rest + tail);
  }

  /** Whenever the interface ID cut from an IP configuration's ID parses, the whole ID parses to the same pair, so
      recovery, which passes whole IDs, and synchronization, which passes cut ones, detach the same interface. */
  lemma TruncationStable(id: string, kind: string)
    requires GetIPIDFromIPConfig(id).Some? && GetGroupAndName(GetIPIDFromIPConfig(id).value, kind).Some?
    ensures GetGroupAndName(id, kind) == GetGroupAndName(GetIPIDFromIPConfig(id).value, kind)
  {
    var i := Index(id, IP_CONFIGURATIONS);
    assert OccursAt(id, IP_CONFIGURATIONS, i);
    var cut, tail := id[..i], id[i..];
    assert id == cut + tail;
    assert tail[..|IP_CONFIGURATIONS|] == IP_CONFIGURATIONS;
    assert tail[0] == tail[..|IP_CONFIGURATIONS|][0] == '/';
    SpecifyNameSurvivesTail(cut, tail, RESOURCE_GROUPS);
    SpecifyNameSurvivesTail(cut, tail, kind);
  }

  // ---- Slash-separated segments ----

  ghost predicate Contains(s: string, w: string) {
    exists i :: OccursAt(s, w, i)
  }

  function Join(segments: seq<string>): string
    requires segments != []
  {
    if |segments| == 1 then segments[0] else segments[0] + "/" + Join(segments[1..])
  }

  ghost predicate SlashFreeAll(segments: seq<string>) {
    forall s :: s in segments ==> '/' !in s
  }

  /** The segment after the first one that contains the keyword. */
  ghost function Lookup(segments: seq<string>, keyword: string): Option<string> {
    if segments == [] then None
    else if Contains(segments[0], keyword) then (if |segments| == 1 then None else Some(segments[1]))
    else Lookup(segments[1..], keyword)
  }

  lemma CrossesSlash(head: string, tail: string, keyword: string, i: int)
    requires OccursAt(head + "/" + tail, keyword, i) && i <= |head| < i + |keyword|
    ensures '/' in keyword
  {
    var id := head + "/" + tail;
    assert id[i..i + |keyword|][|head| - i] == '/';
    assert keyword[|head| - i] == '/';
  }

  /** A slash-free keyword occurs before the slash, or after it, but not across it. */
  lemma OccursInHalves(head: string, tail: string, keyword: string, i: int)
    requires '/' !in head && '/' !in keyword && keyword != ""
    ensures OccursAt(head + "/" + tail, keyword, i) <==>
      OccursAt(head, keyword, i) || OccursAt(tail, keyword, i - |head| - 1)
  {
    var id := head + "/" + tail;
    if OccursAt(id, keyword, i) {
      if i + |keyword| <= |head| {
        assert head[i..i + |keyword|] == id[i..i + |keyword|];
      } else if i > |head| {
        assert tail[i - |head| - 1..i - |head| - 1 + |keyword|] == id[i..i + |keyword|];
      } else {
        CrossesSlash(head, tail, keyword, i);
        assert false;
      }
    }
    if OccursAt(head, keyword, i) {
      assert id[i..i + |keyword|] == head[i..i + |keyword|];
    }
    if OccursAt(tail, keyword, i - |head| - 1) {
      assert id[i..i + |keyword|] == tail[i - |head| - 1..i - |head| - 1 + |keyword|];
    }
  }

  lemma NoIndex(s: string, w: string)
    ensures Index(s, w) == -1 <==> !Contains(s, w)
  {
    if Contains(s, w) {
      var i :| OccursAt(s, w, i);
    }
  }

  /** A keyword in the head segment is looked up there. */
  lemma FoundInHead(head: string, value: string, rest: string, keyword: string)
    requires '/' !in head && '/' !in value && '/' !in keyword && keyword != "" && (rest == "" || rest[0] == '/')
    requires Contains(head, keyword)
    ensures GetSpecifyName(head + "/" + value + rest, keyword) == Some(value)
  {
    var id, tail := head + "/" + value + rest, value + rest;
    assert id == head + "/" + tail;
    NoIndex(head, keyword);
    var i := Index(head, keyword);
    OccursInHalves(head, tail, keyword, i);
    forall j | 0 <= j < i ensures !OccursAt(id, keyword, j) {
      OccursInHalves(head, tail, keyword, j);
    }
    IndexIs(id, keyword, i);
    assert '/' !in head[i..];
    assert id[i..] == head[i..] + "/" + value + rest;
    SecondPart(head[i..], value, rest);
  }

  lemma IndexSkipsHead(head: string, tail: string, keyword: string)
    requires '/' !in head && '/' !in keyword && keyword != "" && !Contains(head, keyword)
    ensures Index(head + "/" + tail, keyword) ==
      if Index(tail, keyword) == -1 then -1 else Index(tail, keyword) + |head| + 1
  {
    var id := head + "/" + tail;
    forall j ensures OccursAt(id, keyword, j) <==> OccursAt(tail, keyword, j - |head| - 1) {
      OccursInHalves(head, tail, keyword, j);
    }
    NoIndex(id, keyword);
    NoIndex(tail, keyword);
    hide OccursAt;
    var i := Index(tail, keyword);
    if i == -1 {
      forall j ensures !OccursAt(id, keyword, j) {
        assert !OccursAt(tail, keyword, j - |head| - 1);
      }
    } else {
      assert OccursAt(id, keyword, i + |head| + 1);
      IndexIs(id, keyword, i + |head| + 1);
    }
  }

  /** Otherwise the head segment plays no part. */
  lemma NotInHead(head: string, tail: string, keyword: string)
    requires '/' !in head && '/' !in keyword && keyword != "" && !Contains(head, keyword)
    ensures GetSpecifyName(head + "/" + tail, keyword) == GetSpecifyName(tail, keyword)
  {
    IndexSkipsHead(head, tail, keyword);
    var i := Index(tail, keyword);
    hide Split, Index, Contains;
    if i != -1 {
      assert (head + "/" + tail)[i + |head| + 1..] == tail[i..];
    }
  }

  lemma FoundInLast(last: string, keyword: string)
    requires '/' !in last
    ensures GetSpecifyName(last, keyword) == None
  {
    var i := Index(last, keyword);
    if i != -1 {
      NoSlash(last[i..]);
    }
  }

  /** Reading a name is looking its segment up. */
  lemma {:induction false} NameIsLookup(segments: seq<string>, keyword: string)
    requires segments != [] && SlashFreeAll(segments) && '/' !in keyword && keyword != ""
    ensures GetSpecifyName(Join(segments), keyword) == Lookup(segments, keyword)
  {
    var head := segments[0];
    if |segments| == 1 {
      FoundInLast(head, keyword);
    } else if Contains(head, keyword) {
      var rest := if |segments| == 2 then "" else "/" + Join(segments[2..]);
      assert segments[1..][1..] == segments[2..];
      assert Join(segments[1..]) == segments[1] + rest;
      assert Join(segments) == head + "/" + segments[1] + rest;
      FoundInHead(head, segments[1], rest, keyword);
    } else {
      NameIsLookup(segments[1..], keyword);
      NotInHead(head, Join(segments[1..]), keyword);
    }
  }

  // ---- Cutting IP configuration IDs ----

  /** The text is an interface ID followed by the part of one of its IP configurations. */
  ghost predicate CutsTo(id: string, nic: string) {
    && nic <= id && "/ipConfigurations" <= id[|nic|..]
    && forall j :: 0 <= j < |nic| ==> !OccursAt(id, "/ipConfigurations", j)
  }

  /** An ID is cut exactly in front of the first occurrence of the keyword. */
  lemma CutIs(id: string, nic: string)
    ensures GetIPIDFromIPConfig(id) == Some(nic) <==> CutsTo(id, nic)
  {
    if CutsTo(id, nic) {
      assert id[|nic|..][..17] == id[|nic|..|nic| + 17];
      IndexIs(id, IP_CONFIGURATIONS, |nic|);
      assert id[..|nic|] == nic;
    }
    if GetIPIDFromIPConfig(id) == Some(nic) {
      var i := Index(id, IP_CONFIGURATIONS);
      assert OccursAt(id, IP_CONFIGURATIONS, i) && |nic| == i;
      assert id[i..][..17] == id[i..i + 17];
    }
  }

  /** There is no cut exactly when the keyword does not occur. */
  lemma NoCutIff(id: string)
    ensures GetIPIDFromIPConfig(id) == None <==> !Contains(id, "/ipConfigurations")
  {
    NoIndex(id, IP_CONFIGURATIONS);
  }

  /** The ID of an IP configuration is cut to its interface's ID. */
  lemma CutOfConfig(nic: string, tail: string)
    requires forall j :: 0 <= j < |nic| ==> !OccursAt(nic + "/ipConfigurations" + tail, "/ipConfigurations", j)
    ensures GetIPIDFromIPConfig(nic + "/ipConfigurations" + tail) == Some(nic)
  {
    var id := nic + "/ipConfigurations" + tail;
    assert id[|nic|..] == "/ipConfigurations" + tail;
    CutIs(id, nic);
  }

  // ---- Formatted IDs ----

  /** The segments of a resource's ID. */
  function Segments(subscription: string, group: string, kind: string, name: string): seq<string> {
    ["", "subscriptions", subscription, RESOURCE_GROUPS, group, "providers", "Microsoft.Network", kind, name]
  }

  function FormatID(subscription: string, group: string, kind: string, name: string): string {
    Join(Segments(subscription, group, kind, name))
  }

  /** A kind of resource whose keyword is in none of the fixed segments. */
  ghost predicate Kind(kind: string) {
    && kind != "" && '/' !in kind
    && !Contains("subscriptions", kind) && !Contains(RESOURCE_GROUPS, kind)
    && !Contains("providers", kind) && !Contains("Microsoft.Network", kind)
  }

  lemma TooLong(s: string, w: string)
    requires |w| > |s|
    ensures !Contains(s, w)
  {
  }

  lemma ContainsItself(w: string)
    ensures Contains(w, w)
  {
    assert OccursAt(w, w, 0);
  }

  lemma SecurityGroupsAreKind()
    ensures Kind(SECURITY_GROUPS)
  {
    TooLong("subscriptions", SECURITY_GROUPS);
    TooLong(RESOURCE_GROUPS, SECURITY_GROUPS);
    TooLong("providers", SECURITY_GROUPS);
    TooLong("Microsoft.Network", SECURITY_GROUPS);
  }

  lemma InterfacesAreKind()
    ensures Kind(NETWORK_INTERFACES)
  {
    TooLong("subscriptions", NETWORK_INTERFACES);
    TooLong(RESOURCE_GROUPS, NETWORK_INTERFACES);
    TooLong("providers", NETWORK_INTERFACES);
    var provider := "Microsoft.Network";
    assert provider[0] != NETWORK_INTERFACES[0];
    assert forall i :: OccursAt(provider, NETWORK_INTERFACES, i) ==> i == 0;
  }

  /** The first segment that contains the keyword decides. */
  lemma {:induction false} LookupAt(segments: seq<string>, k: nat, keyword: string)
    requires k + 1 < |segments| && Contains(segments[k], keyword)
    requires forall j :: 0 <= j < k ==> !Contains(segments[j], keyword)
    ensures Lookup(segments, keyword) == Some(segments[k + 1])
  {
    hide Contains;
    if k > 0 {
      assert segments[1..][k - 1] == segments[k] && segments[1..][k] == segments[k + 1];
      forall j | 0 <= j < k - 1 ensures !Contains(segments[1..][j], keyword) {
        assert segments[1..][j] == segments[j + 1];
      }
      LookupAt(segments[1..], k - 1, keyword);
    }
  }

  lemma GroupRead(subscription: string, group: string, kind: string, name: string)
    ensures Lookup(Segments(subscription, group, kind, name), RESOURCE_GROUPS) ==
      Some(if Contains(subscription, RESOURCE_GROUPS) then RESOURCE_GROUPS else group)
  {
    TooLong("", RESOURCE_GROUPS);
    TooLong("subscriptions", RESOURCE_GROUPS);
    ContainsItself(RESOURCE_GROUPS);
    hide Lookup, Contains;
    LookupAt(Segments(subscription, group, kind, name), if Contains(subscription, RESOURCE_GROUPS) then 2 else 3, RESOURCE_GROUPS);
  }

  lemma NameRead(subscription: string, group: string, kind: string, name: string)
    requires Kind(kind)
    ensures Lookup(Segments(subscription, group, kind, name), kind) ==
      Some(if Contains(subscription, kind) then RESOURCE_GROUPS else if Contains(group, kind) then "providers" else name)
  {
    TooLong("", kind);
    ContainsItself(kind);
    hide Lookup, Contains;
    var k := if Contains(subscription, kind) then 2 else if Contains(group, kind) then 4 else 7;
    LookupAt(Segments(subscription, group, kind, name), k, kind);
  }

  /** Which segment of a formatted ID is read as the group, and which as the name. */
  lemma SegmentsRead(subscription: string, group: string, kind: string, name: string)
    requires Kind(kind) && '/' !in subscription && '/' !in group && '/' !in name
    ensures var id := FormatID(subscription, group, kind, name);
      && GetSpecifyName(id, RESOURCE_GROUPS) ==
         Some(if Contains(subscription, RESOURCE_GROUPS) then RESOURCE_GROUPS else group)
      && GetSpecifyName(id, kind) ==
         Some(if Contains(subscription, kind) then RESOURCE_GROUPS else if Contains(group, kind) then "providers" else name)
  {
    var s := Segments(subscription, group, kind, name);
    hide Lookup, Join, GetSpecifyName, Contains;
    assert SlashFreeAll(s) && '/' !in RESOURCE_GROUPS;
    NameIsLookup(s, RESOURCE_GROUPS);
    NameIsLookup(s, kind);
    GroupRead(subscription, group, kind, name);
    NameRead(subscription, group, kind, name);
  }

  /** A formatted ID is read back as its own group and name if and only if no keyword hides them: the subscription does
      not contain the group's keyword, and neither the subscription nor the group contains the kind, up to the names
      that happen to equal what is read instead. */
  lemma FormattedIDParsesIff(subscription: string, group: string, kind: string, name: string)
    requires Kind(kind) && '/' !in subscription && '/' !in group && '/' !in name
    ensures GetGroupAndName(FormatID(subscription, group, kind, name), kind) == Some(Key(group, name)) <==>
      && (Contains(subscription, RESOURCE_GROUPS) ==> group == RESOURCE_GROUPS)
      && (Contains(subscription, kind) ==> name == RESOURCE_GROUPS)
      && (!Contains(subscription, kind) && Contains(group, kind) ==> name == "providers")
  {
    SegmentsRead(subscription, group, kind, name);
    hide FormatID, GetSpecifyName, Contains, Kind;
  }

  /** A group named like the kind hides the resource's name. */
  lemma GroupNamedLikeKind(subscription: string, kind: string, name: string)
    requires Kind(kind) && '/' !in subscription && '/' !in name && !Contains(subscription, kind)
    ensures GetSpecifyName(FormatID(subscription, kind, kind, name), kind) == Some("providers")
  {
    SegmentsRead(subscription, kind, kind, name);
    ContainsItself(kind);
    hide FormatID, GetSpecifyName, Contains, Kind;
  }

  /** An ID as it is written, for a kind that is written out. */
  function Written(subscription: string, group: string, kind: string, name: string): string {
    "/subscriptions/" +
    (subscription + ("/resourceGroups/" + (group + ("/providers/Microsoft.Network/" + (kind + "/" + name)))))
  }

  lemma JoinCons(head: string, tail: seq<string>)
    requires tail != []
    ensures Join([head] + tail) == head + "/" + Join(tail)
  {
    assert ([head] + tail)[1..] == tail;
  }

  lemma JoinLast(name: string)
    ensures Join([name]) == name
  {
  }

  /** Literal pieces between slashes, put together. */
  lemma StartText(rest: string)
    ensures "" + "/" + ("subscriptions" + "/" + rest) == "/subscriptions/" + rest
  {
  }

  lemma GroupsText(a: string, rest: string)
    ensures a + "/" + ("resourceGroups" + "/" + rest) == a + ("/resourceGroups/" + rest)
  {
  }

  lemma ProviderText(a: string, rest: string)
    ensures a + "/" + ("providers" + "/" + ("Microsoft.Network" + "/" + rest)) == a + ("/providers/Microsoft.Network/" + rest)
  {
  }

  /** A formatted ID is the text that Azure uses. */
  lemma FormatIsWritten(subscription: string, group: string, kind: string, name: string)
    ensures FormatID(subscription, group, kind, name) == Written(subscription, group, kind, name)
  {
    var a := [kind] + [name];
    var b := ["providers"] + (["Microsoft.Network"] + a);
    var c := [group] + b;
    var d := ["resourceGroups"] + c;
    assert Segments(subscription, group, kind, name) == [""] + (["subscriptions"] + ([subscription] + d));
    JoinLast(name);
    JoinCons(kind, [name]);
    JoinCons("Microsoft.Network", a);
    JoinCons("providers", ["Microsoft.Network"] + a);
    JoinCons(group, b);
    JoinCons("resourceGroups", c);
    JoinCons(subscription, d);
    JoinCons("subscriptions", [subscription] + d);
    JoinCons("", ["subscriptions"] + ([subscription] + d));
    hide Join, Segments;
    ProviderText(group, kind + "/" + name);
    GroupsText(subscription, Join(c));
    StartText(Join([subscription] + d));
  }

  /** Written-out IDs of interfaces and security groups are read back as their group and name. */
  lemma WrittenIDsParse(subscription: string, group: string, name: string)
    requires '/' !in subscription && '/' !in group && '/' !in name
    requires forall w: string | w == "resourceGroups" || w == "networkInterfaces" || w == "networkSecurityGroups" ::
      !Contains(subscription, w) && !Contains(group, w)
    ensures GetGroupAndName(Written(subscription, group, "networkInterfaces", name), NETWORK_INTERFACES) ==
      Some(Key(group, name))
    ensures GetGroupAndName(Written(subscription, group, "networkSecurityGroups", name), SECURITY_GROUPS) ==
      Some(Key(group, name))
  {
    InterfacesAreKind();
    SecurityGroupsAreKind();
    FormatIsWritten(subscription, group, "networkInterfaces", name);
    FormatIsWritten(subscription, group, "networkSecurityGroups", name);
    hide FormatID, Written, GetGroupAndName, Contains, Kind;
    FormattedIDParsesIff(subscription, group, "networkInterfaces", name);
    FormattedIDParsesIff(subscription, group, "networkSecurityGroups", name);
  }
}
