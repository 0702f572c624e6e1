/**
 Values exchanged by the route-discovery core: the packets it buffers and the
 route requests it hands to the transport layer.
 */
module DiscoveryTypes {

  /** An IP address as the daemon passes it around (a string key). */
  type Addr = string

  /** A hardware address of a node. */
  type Mac = string

  newtype byte = x: int | 0 <= x < 256

  /** A packet that found no route: the `[src_ip, dst_ip, raw_data]` triple. */
  datatype Packet = Packet(srcIp: Addr, dstIp: Addr, rawData: seq<byte>)

  /** DSR header type of a route request service message. */
  const RreqMessageType: int := 2

  /** The logical RREQ payload. */
  datatype RouteRequest = RouteRequest(srcIp: Addr, dstIp: Addr, dsn: int, hopCount: int)

  /** The header the transport sends with an RREQ. */
  datatype DsrHeader = DsrHeader(msgType: int, srcMac: Mac, txMac: Mac)

  /** One call of the transport's send primitive: message, header and the neighbor set it goes to. */
  datatype Broadcast = Broadcast(rreq: RouteRequest, header: DsrHeader, neighbors: set<Addr>)
}
