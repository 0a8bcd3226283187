/** TCP segments as values (tcp_header.hh, tcp_segment.hh, tcp_segment.cc). */
module TCPSegments {
  import opened Words

  datatype TCPHeader = TCPHeader(
    sport: U16, dport: U16, seqno: U32, ackno: U32, doff: U8,
    urg: bool, ack: bool, psh: bool, rst: bool, syn: bool, fin: bool,
    win: U16, cksum: U16, uptr: U16)

  datatype TCPSegment = TCPSegment(header: TCPHeader, payload: seq<Byte>)

  const DEFAULT_HEADER: TCPHeader :=
    TCPHeader(0, 0, 0, 0, 5, false, false, false, false, false, false, 0, 0, 0)

  /** `length_in_sequence_space`: SYN and FIN take one number each. */
  function Length(seg: TCPSegment): nat {
    |seg.payload| + (if seg.header.syn then 1 else 0) + (if seg.header.fin then 1 else 0)
  }
}
