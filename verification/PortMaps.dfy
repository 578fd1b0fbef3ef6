/** The maps of exported TCP and UDP ports that the Azure reconcilers consume. */
module PortMaps {
  /** The ports still to be served. The values of the port maps are never read, so only their keys are kept. */
  datatype Ports = Ports(tcp: set<string>, udp: set<string>)

  datatype Proto = Tcp | Udp

  function Of(ports: Ports, p: Proto): set<string> {
    match p
    case Tcp => ports.tcp
    case Udp => ports.udp
  }

  function Without(ports: Ports, p: Proto, port: string): Ports {
    match p
    case Tcp => ports.(tcp := ports.tcp - {port})
    case Udp => ports.(udp := ports.udp - {port})
  }

  function ProtocolText(p: Proto): string {
    match p
    case Tcp => "Tcp"
    case Udp => "Udp"
  }

  function Plus(ports: Ports, p: Proto, more: set<string>): Ports {
    match p
    case Tcp => ports.(tcp := ports.tcp + more)
    case Udp => ports.(udp := ports.udp + more)
  }

  /** The ports that a scan has taken out of the maps. */
  function Taken(ports: Ports, left: Ports): Ports {
    Ports(ports.tcp - left.tcp, ports.udp - left.udp)
  }
}
