/** The ports that the proxy listens on (`core/provider/ports.go`). */
module Ports {
  import opened Basics
  import opened Sorting
  import opened Decimals
  import opened ObjectModel

  const RESERVED_TCP_PORTS := ["450", "451"]

  type ConfigMap = Option<map<string, string>>

  method GetHTTPPort(spec: Spec) returns (p: int)
    ensures p == HTTPPort(spec) && 1 < p < 65535
    ensures p == spec.httpPort <==> 1 < spec.httpPort < 65535
    ensures p != spec.httpPort ==> p == 80
  {
    p := 80;
    if spec.httpPort > 1 && spec.httpPort < 65535 {
      p := spec.httpPort;
    }
  }

  method GetHTTPSPort(spec: Spec) returns (p: int)
    ensures p == HTTPSPort(spec) && 1 < p < 65535
    ensures p == spec.httpsPort <==> 1 < spec.httpsPort < 65535
    ensures p != spec.httpsPort ==> p == 443
  {
    p := 443;
    if spec.httpsPort > 1 && spec.httpsPort < 65535 {
      p := spec.httpsPort;
    }
  }

  function HTTPPort(spec: Spec): int {
    if 1 < spec.httpPort < 65535 then spec.httpPort else 80
  }

  function HTTPSPort(spec: Spec): int {
    if 1 < spec.httpsPort < 65535 then spec.httpsPort else 443
  }

  function KeysOf(cm: ConfigMap): set<string> {
    match cm
    case None => {}
    case Some(data) => data.Keys
  }

  /** The exported ports as multisets: the order in which a map is walked is arbitrary. */
  function ExportedTCP(spec: Spec, cm: ConfigMap): multiset<string> {
    multiset(RESERVED_TCP_PORTS + [Itoa(HTTPPort(spec)), Itoa(HTTPSPort(spec))]) + multiset(KeysOf(cm))
  }

  function ExportedUDP(cm: ConfigMap): multiset<string> {
    multiset(KeysOf(cm))
  }

  /** Walking the keys of a map appends each once, in any order. */
  method AppendKeys(ports: seq<string>, keys: set<string>) returns (r: seq<string>)
    ensures multiset(r) == multiset(ports) + multiset(keys)
  {
    r := ports;
    var rest := keys;
    while rest != {}
      invariant rest <= keys
      invariant multiset(r) == multiset(ports) + multiset(keys - rest)
      decreases rest
    {
      var port := AnyOf(rest);
      assert keys - (rest - {port}) == (keys - rest) + {port};
      r, rest := r + [port], rest - {port};
    }
    assert keys - {} == keys;
  }

  method GetExportedPorts(spec: Spec, tcpcm: ConfigMap, udpcm: ConfigMap) returns (tcps: seq<string>, udps: seq<string>)
    ensures multiset(tcps) == ExportedTCP(spec, tcpcm)
    ensures multiset(udps) == ExportedUDP(udpcm)
  {
    var http := GetHTTPPort(spec);
    var https := GetHTTPSPort(spec);
    tcps := RESERVED_TCP_PORTS + [Itoa(http), Itoa(https)];
    udps := [];
    if tcpcm.Some? {
      tcps := AppendKeys(tcps, tcpcm.value.Keys);
    }
    if udpcm.Some? {
      udps := AppendKeys(udps, udpcm.value.Keys);
    }
  }
}
