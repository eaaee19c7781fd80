/** An already-decoded captured packet: the timestamp and the layers and
    fields the profiler reads. Decoding itself happens in the packet
    library and is not part of this model. */
module Packets {
  import opened Wrappers

  /** The decoded HTTP `Method` field (`verb`), e.g. "GET"; `None` when the
      layer has no such field, as in a response. */
  datatype HttpLayer = HttpLayer(verb: Option<string>)

  /** One DNS question record; only its query type is read. */
  datatype DnsQuestion = DnsQuestion(qtype: int)

  /** The DNS header flag `qr` (0 for a query, 1 for a response) and the
      question section `qd`. */
  datatype DnsLayer = DnsLayer(qr: int, qd: seq<DnsQuestion>)

  /** The ICMP message type code. */
  datatype IcmpLayer = IcmpLayer(msgType: int)

  /** A packet: capture timestamp in seconds, presence of the IP, TCP and
      UDP layers, and the optional decoded application layers. */
  datatype Packet = Packet(
    time: real,
    ip: bool,
    tcp: bool,
    udp: bool,
    http: Option<HttpLayer>,
    dns: Option<DnsLayer>,
    icmp: Option<IcmpLayer>)
}
