/** Peers and their addresses. */
module Peers {
  import opened Packet

  datatype Protocol = Udp | Tcp | Ws | Wss | Bluetooth

  type DeviceAddress = s: seq<byte> | |s| == 6 witness [0, 0, 0, 0, 0, 0]
  type Segments = s: seq<u16> | |s| == 8 witness [0, 0, 0, 0, 0, 0, 0, 0]

  datatype IpAddr =
    | V4(a: byte, b: byte, c: byte, d: byte)
    | V6(segments: Segments)

  datatype Address =
    | Ip(ip: IpAddr, port: u16)
    | Device(device: DeviceAddress, psm: u16)

  datatype Peer = Peer(protocol: Protocol, address: Address)
}
