/** The LoadBalancer object as the API server stores it and as an informer hands it to a node. */
module ObjectModel {
  import opened Basics

  datatype InterfaceNet = InterfaceNet(name: string, mac: string, ips: seq<string>)

  datatype NodeStatus = NodeStatus(name: string, ifaces: seq<InterfaceNet>)

  datatype Bind = Bind(iface: string, nodeIPAnnotation: string)

  datatype HAMode = ActiveActive | ActivePassive

  datatype KeepalivedProvider = KeepalivedProvider(
    vip: string, vips: seq<string>, scheduler: string, haMode: HAMode, bind: Option<Bind>)

  datatype IpvsdrProvider = IpvsdrProvider(main: KeepalivedProvider, slaves: seq<KeepalivedProvider>)

  /** The part of the object that the directors only read. `valid` is the verdict of the API's own
      validation of the object. */
  datatype Spec = Spec(
    names: seq<string>, ipvsdr: Option<IpvsdrProvider>, httpPort: int, httpsPort: int,
    tcpConfigMap: string, udpConfigMap: string, vrid: Option<int>, deleted: bool, valid: bool)

  /** One version of the object. */
  datatype Stored = Stored(version: nat, spec: Spec, status: seq<NodeStatus>)

  /** An informer's copy of one version. `registerNodeNetwork` overwrites its status in place. */
  class LoadBalancer {
    const version: nat
    const spec: Spec
    var status: seq<NodeStatus>

    constructor (snapshot: Stored)
      ensures Value() == snapshot
    {
      version, spec, status := snapshot.version, snapshot.spec, snapshot.status;
    }

    function Value(): Stored
      reads this
    {
      Stored(version, spec, status)
    }
  }

  datatype UpdateResult = Updated | Conflict | Failed

  /** The versioned store behind `Update`. */
  class ApiServer {
    var stored: Stored

    constructor (snapshot: Stored)
      ensures stored == snapshot
    {
      stored := snapshot;
    }

    /** Rejects a stale version; `fault` is any other failure of the call. */
    method Update(lb: LoadBalancer, fault: bool) returns (result: UpdateResult)
      modifies this
      ensures result.Updated? <==> !fault && lb.version == old(stored.version)
      ensures result.Failed? <==> fault
      ensures stored ==
        if result.Updated? then lb.Value().(version := lb.version + 1) else old(stored)
    {
      if fault {
        return Failed;
      }
      if lb.version != stored.version {
        return Conflict;
      }
      stored := Stored(lb.version + 1, lb.spec, lb.status);
      return Updated;
    }
  }
}
