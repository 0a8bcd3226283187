/** TCP segments inside IPv4 datagrams (tcp_over_ip.cc, fd_adapter.hh). */
module TCPOverIP {
  import opened Words
  import opened Parsers
  import opened InternetChecksums
  import opened TCPSegments
  import Codec = TCPCodec
  import IP = IPv4

  datatype Address = Address(ip: U32, port: U16)

  /** The adapter's configuration. */
  datatype Adapter = Adapter(source: Address, destination: Address, listening: bool)

  function WithPorts(a: Adapter, seg: TCPSegment): TCPSegment {
    seg.(header := seg.header.(sport := a.source.port, dport := a.destination.port))
  }

  /** The total length is cut to 16 bits. */
  function WrapHeader(a: Adapter, seg: TCPSegment): IP.IPv4Header {
    IP.DEFAULT_HEADER.(src := a.source.ip, dst := a.destination.ip,
                       len := (IP.DEFAULT_HEADER.hlen * 4 + seg.header.doff * 4 + |seg.payload|) % 0x1_0000)
  }

  /** `wrap_tcp_in_ip`; `None` where serialising the segment throws. */
  function Wrap(a: Adapter, seg: TCPSegment): Option<IP.IPv4Datagram> {
    var header := WrapHeader(a, seg);
    match Codec.SerializeSegment(WithPorts(a, seg), IP.PseudoChecksum(header))
    case None => None
    case Some(bytes) => Some(IP.IPv4Datagram(header, bytes))
  }

  /** `unwrap_tcp_in_ip`: the segment, if it is for us, and the configuration afterwards. */
  function Unwrap(a: Adapter, d: IP.IPv4Datagram): (Option<TCPSegment>, Adapter) {
    if !a.listening && d.header.dst != a.source.ip then (None, a)
    else if !a.listening && d.header.src != a.destination.ip then (None, a)
    else if d.header.proto != IP.PROTO_TCP then (None, a)
    else
      var (result, seg) := Codec.ParseSegment(d.payload, IP.PseudoChecksum(d.header));
      if result != NoError then (None, a)
      else if seg.header.dport != a.source.port then (None, a)
      else if a.listening && !(seg.header.syn && !seg.header.rst) then (None, a)
      else
        var b := if a.listening then Learned(a, d, seg) else a;
        if seg.header.sport != b.destination.port then (None, b) else (Some(seg), b)
  }

  /** A listening adapter takes the addresses of the datagram that opens the connection. */
  function Learned(a: Adapter, d: IP.IPv4Datagram, seg: TCPSegment): Adapter {
    Adapter(Address(d.header.dst, a.source.port), Address(d.header.src, seg.header.sport), false)
  }

  /** What arrives on the other side of the wire: the datagram serialised, parsed, and unwrapped if it parses. */
  function Deliver(b: Adapter, wire: seq<Byte>): (Option<TCPSegment>, Adapter) {
    var (result, d) := IP.ParseDatagram(wire);
    if result != NoError then (None, b) else Unwrap(b, d)
  }

  predicate Mirrors(b: Adapter, a: Adapter) {
    !b.listening && b.source == a.destination && b.destination == a.source
  }

  predicate Sendable(seg: TCPSegment) {
    5 <= seg.header.doff <= 15 && IP.LENGTH + 4 * seg.header.doff + |seg.payload| <= 0xffff
  }

  /** The segment with its ports and its checksum. */
  function Sent(a: Adapter, seg: TCPSegment): TCPSegment
    requires seg.header.doff >= 5
  {
    Codec.Checked(WithPorts(a, seg), IP.PseudoChecksum(WrapHeader(a, seg)))
  }

  /** The bytes of a wrapped segment. */
  function WireOf(a: Adapter, seg: TCPSegment): Option<seq<Byte>> {
    match Wrap(a, seg)
    case None => None
    case Some(d) => IP.SerializeDatagram(d)
  }

  lemma WrapIsWellFormed(a: Adapter, seg: TCPSegment)
    requires Sendable(seg)
    ensures Wrap(a, seg).Some?
    ensures IP.WellFormed(Wrap(a, seg).value.header, Wrap(a, seg).value.payload)
  {
    hide Codec.HeaderBytes, Codec.ChecksumOf;
    var sent := Sent(a, seg);
    Codec.HeaderLength(sent.header, sent.payload);
  }

  /** What `b` receives of what `a` wrapped is what `a` wrapped, up to the IP checksum. */
  lemma Arrives(a: Adapter, b: Adapter, seg: TCPSegment)
    requires Sendable(seg)
    ensures Wrap(a, seg).Some? && WireOf(a, seg).Some?
    ensures Deliver(b, WireOf(a, seg).value) == Unwrap(b, Wrap(a, seg).value)
  {
    hide IP.ParseDatagram, IP.SerializeDatagram, IP.Checked, Wrap, Unwrap, IP.WellFormed;
    WrapIsWellFormed(a, seg);
    LongEnough(Wrap(a, seg).value);
    IP.DatagramRoundTrip(Wrap(a, seg).value);
    SameUnwrap(b, Wrap(a, seg).value);
  }

  lemma LongEnough(d: IP.IPv4Datagram)
    requires IP.WellFormed(d.header, d.payload)
    ensures d.header.hlen >= 5
  {
  }

  /** Unwrapping never looks at the IP checksum. */
  lemma SameUnwrap(b: Adapter, d: IP.IPv4Datagram)
    requires d.header.hlen >= 5
    ensures Unwrap(b, d.(header := IP.Checked(d.header))) == Unwrap(b, d)
  {
    hide Codec.ParseSegment;
  }

  lemma PayloadParses(a: Adapter, seg: TCPSegment)
    requires Sendable(seg)
    ensures Wrap(a, seg).Some?
    ensures Codec.ParseSegment(Wrap(a, seg).value.payload, IP.PseudoChecksum(Wrap(a, seg).value.header)) ==
        (NoError, Sent(a, seg))
  {
    hide Codec.ParseSegment, Codec.HeaderBytes, Codec.ChecksumOf;
    Codec.SegmentRoundTrip(WithPorts(a, seg), IP.PseudoChecksum(WrapHeader(a, seg)));
  }

  /** The round trip through both formats: under the mirrored configuration the same segment comes out. */
  lemma MirrorReceives(a: Adapter, b: Adapter, seg: TCPSegment)
    requires Sendable(seg) && Mirrors(b, a)
    ensures WireOf(a, seg).Some? && Deliver(b, WireOf(a, seg).value) == (Some(Sent(a, seg)), b)
    ensures Sent(a, seg).payload == seg.payload
    ensures Sent(a, seg).header == seg.header.(sport := a.source.port, dport := a.destination.port,
                                               cksum := Sent(a, seg).header.cksum)
  {
    hide WireOf, Deliver, Codec.ParseSegment, Codec.ChecksumOf, IP.PseudoChecksum;
    Arrives(a, b, seg);
    PayloadParses(a, seg);
  }

  /** A listener on the right port takes exactly a SYN that is no RST, and then mirrors the sender, so both can talk. */
  lemma ListenerLearns(a: Adapter, b: Adapter, seg: TCPSegment)
    requires Sendable(seg) && !a.listening && b.listening && b.source.port == a.destination.port
    ensures WireOf(a, seg).Some?
    ensures var (got, after) := Deliver(b, WireOf(a, seg).value);
            && (got.Some? <==> seg.header.syn && !seg.header.rst)
            && (got.Some? ==> got.value == Sent(a, seg) && Mirrors(after, a) && Mirrors(a, after))
            && (got.None? ==> after == b)
  {
    hide WireOf, Deliver, Codec.ParseSegment, Codec.ChecksumOf, IP.PseudoChecksum;
    Arrives(a, b, seg);
    PayloadParses(a, seg);
  }

  /** Nobody but the peer is heard: other addresses or ports, in either role, deliver nothing and change nothing. */
  lemma OthersAreIgnored(a: Adapter, b: Adapter, seg: TCPSegment)
    requires Sendable(seg) && !b.listening && !Mirrors(b, a)
    ensures WireOf(a, seg).Some? && Deliver(b, WireOf(a, seg).value) == (None, b)
  {
    hide WireOf, Deliver, Codec.ParseSegment, Codec.ChecksumOf, IP.PseudoChecksum;
    Arrives(a, b, seg);
    PayloadParses(a, seg);
  }

  /**
   * Of all datagrams, exactly those are taken that carry TCP (protocol 6), parse with the checksum of their own pseudo-
   * header, and are for this port, and either come from the peer's address and port to this address, or, at a listener,
   * open a connection. Taking or refusing changes the adapter only at a listener that takes one.
   */
  lemma TakesExactly(a: Adapter, d: IP.IPv4Datagram)
    ensures var (result, seg) := Codec.ParseSegment(d.payload, IP.PseudoChecksum(d.header));
      var (got, after) := Unwrap(a, d);
      && (got.Some? <==>
            && d.header.proto == 6 && result == NoError && seg.header.dport == a.source.port
            && if a.listening then seg.header.syn && !seg.header.rst
               else && d.header.dst == a.source.ip && d.header.src == a.destination.ip
                    && seg.header.sport == a.destination.port)
      && (got.Some? ==> got.value == seg)
      && after == if a.listening && got.Some?
                  then Adapter(Address(d.header.dst, a.source.port), Address(d.header.src, seg.header.sport), false)
                  else a
  {
    hide Codec.ParseSegment;
  }

  /** The bytes of the TCP segment in a wrapped one. */
  function TCPLength(seg: TCPSegment): nat { 4 * seg.header.doff + |seg.payload| }

  /** Writing `hi` and `lo` at `at` changes the word there, also modulo 65535. */
  predicate Visible(bytes: seq<Byte>, at: nat, hi: Byte, lo: Byte)
    requires at + 2 <= |bytes|
  {
    (Word(hi, lo) - Word(bytes[at], bytes[at + 1])) % 0xffff != 0
  }

  /** With `hi` and `lo` written over the word at `at`, if that is visible, the bytes deliver nothing. */
  predicate DropsDamage(b: Adapter, wire: seq<Byte>, at: nat, hi: Byte, lo: Byte) {
    && at + 2 <= |wire|
    && (Visible(wire, at, hi, lo) ==> Deliver(b, wire[at := hi][at + 1 := lo]) == (None, b))
  }

  /**
   * Damage on the wire to one aligned word of the TCP bytes, not invisible modulo 65535, never reaches the
   * connection.
   */
  lemma DamageIsDropped(a: Adapter, b: Adapter, seg: TCPSegment, p: nat, hi: Byte, lo: Byte)
    requires Sendable(seg) && p % 2 == 0 && p + 2 <= TCPLength(seg)
    ensures WireOf(a, seg).Some? && DropsDamage(b, WireOf(a, seg).value, IP.LENGTH + p, hi, lo)
  {
    hide WireOf, Wrap, DropsDamage, Visible;
    WireParts(a, seg);
    var d := Wrap(a, seg).value;
    if Visible(d.payload, p, hi, lo) { DamagedPayload(a, seg, p, hi, lo); }
    DamageBehindHeader(b, d, WireOf(a, seg).value, p, hi, lo);
  }

  lemma DamageBehindHeader(b: Adapter, d: IP.IPv4Datagram, wire: seq<Byte>, p: nat, hi: Byte, lo: Byte)
    requires IP.WellFormed(d.header, d.payload) && IP.SerializeDatagram(d) == Some(wire) && d.header.hlen == 5
    requires |wire| == IP.LENGTH + |d.payload| && wire[IP.LENGTH..] == d.payload && p + 2 <= |d.payload|
    requires Visible(d.payload, p, hi, lo) ==>
      Codec.ParseSegment(d.payload[p := hi][p + 1 := lo], IP.PseudoChecksum(d.header)).0 == BadChecksum
    ensures DropsDamage(b, wire, IP.LENGTH + p, hi, lo)
  {
    hide Deliver, Visible, Codec.ParseSegment, IP.SerializeDatagram, IP.PseudoChecksum;
    VisibleBehind(wire, IP.LENGTH, p, hi, lo);
    if Visible(d.payload, p, hi, lo) {
      var damaged := d.payload[p := hi][p + 1 := lo];
      assert wire[IP.LENGTH + p := hi][IP.LENGTH + p + 1 := lo] == wire[..IP.LENGTH] + damaged;
      BadPayloadIsDropped(b, d, wire, damaged);
    }
  }

  lemma VisibleBehind(wire: seq<Byte>, n: nat, p: nat, hi: Byte, lo: Byte)
    requires n + p + 2 <= |wire|
    ensures Visible(wire, n + p, hi, lo) <==> Visible(wire[n..], p, hi, lo)
  {
    hide Word;
  }

  /** The header in front, the TCP bytes behind. */
  lemma WireParts(a: Adapter, seg: TCPSegment)
    requires Sendable(seg)
    ensures Wrap(a, seg).Some? && WireOf(a, seg) == IP.SerializeDatagram(Wrap(a, seg).value) && WireOf(a, seg).Some?
    ensures var d, wire := Wrap(a, seg).value, WireOf(a, seg).value;
            && IP.WellFormed(d.header, d.payload) && d.header.hlen == 5 && |d.payload| == TCPLength(seg)
            && |wire| == IP.LENGTH + TCPLength(seg) && wire[IP.LENGTH..] == d.payload
  {
    hide IP.SerializeDatagram, IP.ParseDatagram, IP.Checked, Wrap;
    WrapIsWellFormed(a, seg);
    var d := Wrap(a, seg).value;
    HeaderIsPlain(a, seg);
    IP.DatagramRoundTrip(d);
    TailOfWire(d, WireOf(a, seg).value);
  }

  lemma BadPayloadIsDropped(b: Adapter, d: IP.IPv4Datagram, wire: seq<Byte>, bad: seq<Byte>)
    requires IP.WellFormed(d.header, d.payload) && IP.SerializeDatagram(d) == Some(wire)
    requires d.header.hlen == 5 && |bad| == |d.payload| && |wire| >= IP.LENGTH
    requires Codec.ParseSegment(bad, IP.PseudoChecksum(d.header)).0 == BadChecksum
    ensures Deliver(b, wire[..IP.LENGTH] + bad) == (None, b)
  {
    hide Codec.ParseSegment, IP.ParseDatagram, IP.SerializeDatagram, IP.Checked, IP.PseudoChecksum;
    OtherPayload(d, wire, bad);
    SameSums(d.header);
  }

  lemma DamagedPayload(a: Adapter, seg: TCPSegment, p: nat, hi: Byte, lo: Byte)
    requires Sendable(seg) && Wrap(a, seg).Some? && p % 2 == 0 && p + 2 <= |Wrap(a, seg).value.payload|
    requires Visible(Wrap(a, seg).value.payload, p, hi, lo)
    ensures var d := Wrap(a, seg).value;
            Codec.ParseSegment(d.payload[p := hi][p + 1 := lo], IP.PseudoChecksum(d.header)).0 == BadChecksum
  {
    hide Codec.ParseSegment, Sum, Wrap;
    var d := Wrap(a, seg).value;
    PayloadParses(a, seg);
    Codec.WordChangeIsNoticed(d.payload, IP.PseudoChecksum(d.header), p, hi, lo);
  }

  lemma SameSums(h: IP.IPv4Header)
    requires h.hlen >= 5
    ensures IP.PseudoChecksum(IP.Checked(h)) == IP.PseudoChecksum(h)
  {
  }

  lemma HeaderIsPlain(a: Adapter, seg: TCPSegment)
    requires Wrap(a, seg).Some?
    ensures Wrap(a, seg).value.header.hlen == 5 && |Wrap(a, seg).value.payload| == TCPLength(seg)
  {
    hide Codec.ChecksumOf;
  }

  lemma TailOfWire(d: IP.IPv4Datagram, wire: seq<Byte>)
    requires IP.SerializeDatagram(d) == Some(wire) && d.header.hlen == 5
    ensures |wire| == IP.LENGTH + |d.payload| && wire[IP.LENGTH..] == d.payload
  {
    IP.HeaderThenPayload(IP.Checked(d.header), d.payload);
    IP.HeaderLength(IP.Checked(d.header), []);
  }

  /** The IP checksum covers the header alone, so another payload of the same length arrives just as well. */
  lemma OtherPayload(d: IP.IPv4Datagram, wire: seq<Byte>, other: seq<Byte>)
    requires IP.WellFormed(d.header, d.payload) && IP.SerializeDatagram(d) == Some(wire)
    requires d.header.hlen == 5 && |other| == |d.payload| && |wire| >= IP.LENGTH
    ensures IP.ParseDatagram(wire[..IP.LENGTH] + other) == (NoError, IP.IPv4Datagram(IP.Checked(d.header), other))
  {
    hide IP.ParseDatagram, IP.HeaderBytes, IP.ParseHeader, Accumulate, Value;
    var header := IP.Checked(d.header);
    IP.HeaderLength(header, []);
    IP.HeaderThenPayload(header, d.payload);
    IP.HeaderThenPayload(header, other);
    assert wire[..IP.LENGTH] == IP.HeaderBytes(header, []);
    IP.DatagramRoundTrip(d.(payload := other));
  }

  // ---------------------------------------------------------------- what is on the wire

  /** The first 20 bytes say: IPv4, no options, not to be fragmented, TTL 128, TCP, from whom and to whom. */
  predicate Labelled(a: Adapter, wire: seq<Byte>) {
    && |wire| >= 40
    && wire[0] == 0x45 && Word(wire[2], wire[3]) == |wire| && Word(wire[6], wire[7]) % 0x8000 == 0x4000
    && wire[8] == 128 && wire[9] == 6
    && FromBytes(wire[12..16]) == a.source.ip && FromBytes(wire[16..20]) == a.destination.ip
  }

  lemma LabelOf(h: IP.IPv4Header, wire: seq<Byte>)
    requires |wire| >= 40 && IP.ParseFields(Parser(wire, NoError)).0 == h
    requires h.ver == 4 && h.hlen == 5 && h.df && !h.mf && h.offset == 0
    ensures wire[0] == 0x45 && Word(wire[2], wire[3]) == h.len && Word(wire[6], wire[7]) % 0x8000 == 0x4000
    ensures wire[8] == h.ttl && wire[9] == h.proto
    ensures FromBytes(wire[12..16]) == h.src && FromBytes(wire[16..20]) == h.dst
  {
    hide IP.ParseFields, Word, FromBytes;
    IP.FieldsAt(wire);
    FlagWord(Word(wire[6], wire[7]));
  }

  lemma FlagWord(w: nat)
    requires w / 0x4000 % 2 == 1 && w / 0x2000 % 2 == 0 && w % 0x2000 == 0
    ensures w % 0x8000 == 0x4000
  {
    var q, m := w / 0x2000, w / 0x2000 / 4;
    assert w == q * 0x2000;
    assert w / 0x4000 == q / 2 by { assert w == q / 2 * 0x4000; }
    assert q == 4 * m + 2;
    assert w == m * 0x8000 + 0x4000;
  }

  lemma PortsOf(h: TCPHeader, tail: seq<Byte>)
    requires 5 <= h.doff <= 15
    ensures var b := Codec.HeaderBytes(h, tail);
      |b| >= 20 && Word(b[0], b[1]) == h.sport && Word(b[2], b[3]) == h.dport
  {
    hide Codec.HeaderBytes, Codec.ParseHeader, Word;
    Codec.HeaderLength(h, tail);
    Codec.HeaderRoundTrip(h, tail);
    Codec.FieldsAt(Codec.HeaderBytes(h, tail));
  }

  lemma HeaderIsWrapHeader(a: Adapter, seg: TCPSegment)
    requires Sendable(seg) && Wrap(a, seg).Some?
    ensures var d := Wrap(a, seg).value;
      && d.header == IP.IPv4Header(4, 5, 0, 20 + TCPLength(seg), 0, true, false, 0, 128, 6, 0, a.source.ip,
                                   a.destination.ip)
      && d.payload == Codec.HeaderBytes(Sent(a, seg).header, seg.payload)
  {
    hide Codec.ChecksumOf, Codec.HeaderBytes;
  }

  /** A wrapped segment is labelled for its way, and its first four TCP bytes are the ports. */
  lemma WireIsLabelled(a: Adapter, seg: TCPSegment)
    requires Sendable(seg)
    ensures WireOf(a, seg).Some? && Labelled(a, WireOf(a, seg).value)
    ensures var wire := WireOf(a, seg).value;
      Word(wire[20], wire[21]) == a.source.port && Word(wire[22], wire[23]) == a.destination.port
  {
    hide WireOf, Wrap, IP.ParseFields, FromBytes, Word, Codec.ChecksumOf, Codec.HeaderBytes, IP.HeaderBytes, Value;
    WireParts(a, seg);
    HeaderIsWrapHeader(a, seg);
    var d, wire := Wrap(a, seg).value, WireOf(a, seg).value;
    IP.FieldsRoundTrip(IP.Checked(d.header), d.payload);
    LabelOf(IP.Checked(d.header), wire);
    PortsOf(Sent(a, seg).header, seg.payload);
    assert wire[IP.LENGTH..][0] == wire[20] && wire[IP.LENGTH..][1] == wire[21];
    assert wire[IP.LENGTH..][2] == wire[22] && wire[IP.LENGTH..][3] == wire[23];
  }

  /** The adapter object. */
  class TCPOverIPv4Adapter {
    var source: Address
    var destination: Address
    var listening: bool

    ghost function Model(): Adapter
      reads this
    {
      Adapter(source, destination, listening)
    }

    constructor (source: Address, destination: Address)
      ensures Model() == Adapter(source, destination, false)
    {
      this.source, this.destination, listening := source, destination, false;
    }

    method SetListening(l: bool)
      modifies this
      ensures Model() == old(Model()).(listening := l)
    {
      listening := l;
    }

    /** The segment passed in gets its ports; it is returned beside the datagram. */
    method WrapInIP(seg: TCPSegment) returns (d: Option<IP.IPv4Datagram>, stamped: TCPSegment)
      ensures d == Wrap(Model(), seg) && stamped == WithPorts(Model(), seg)
    {
      hide Codec.SerializeSegment;
      stamped := seg.(header := seg.header.(sport := source.port, dport := destination.port));
      var header := IP.DEFAULT_HEADER;
      header := header.(src := source.ip);
      header := header.(dst := destination.ip);
      header := header.(len := (header.hlen * 4 + stamped.header.doff * 4 + |stamped.payload|) % 0x1_0000);
      var bytes := Codec.Serialize(stamped, IP.PseudoChecksum(header));
      d := if bytes.None? then None else Some(IP.IPv4Datagram(header, bytes.value));
    }

    method UnwrapFromIP(d: IP.IPv4Datagram) returns (seg: Option<TCPSegment>)
      modifies this
      ensures (seg, Model()) == Unwrap(old(Model()), d)
    {
      hide Codec.ParseSegment;
      if !listening && d.header.dst != source.ip {
        return None;
      }
      if !listening && d.header.src != destination.ip {
        return None;
      }
      if d.header.proto != IP.PROTO_TCP {
        return None;
      }
      var result, parsed := Codec.Parse(d.payload, IP.PseudoChecksum(d.header));
      if result != NoError {
        return None;
      }
      if parsed.header.dport != source.port {
        return None;
      }
      if listening {
        if parsed.header.syn && !parsed.header.rst {
          source := Address(d.header.dst, source.port);
          destination := Address(d.header.src, parsed.header.sport);
          listening := false;
        } else {
          return None;
        }
      }
      if parsed.header.sport != destination.port {
        return None;
      }
      seg := Some(parsed);
    }
  }
}
