/** IPv4 headers and datagrams on the wire (ipv4_header.cc, ipv4_datagram.cc; section 3.1 of RFC 791). */
module IPv4 {
  import opened Words
  import opened Parsers
  import opened InternetChecksums

  const LENGTH: nat := 20
  const DEFAULT_TTL: U8 := 128
  const PROTO_TCP: U8 := 6

  datatype IPv4Header = IPv4Header(
    ver: U8, hlen: U8, tos: U8, len: U16, id: U16, df: bool, mf: bool, offset: U16,
    ttl: U8, proto: U8, cksum: U16, src: U32, dst: U32)

  datatype IPv4Datagram = IPv4Datagram(header: IPv4Header, payload: seq<Byte>)

  const DEFAULT_HEADER: IPv4Header :=
    IPv4Header(4, 5, 0, 0, 0, true, false, 0, DEFAULT_TTL, PROTO_TCP, 0, 0, 0)

  /** `payload_length`: the subtraction is cut to 16 bits. */
  function PayloadLength(h: IPv4Header): U16 { (h.len - 4 * h.hlen) % 0x1_0000 }

  /** `pseudo_cksum`: the sum of the words of the pseudo-header. */
  function PseudoChecksum(h: IPv4Header): U32 {
    h.src / 0x1_0000 + h.src % 0x1_0000 + h.dst / 0x1_0000 + h.dst % 0x1_0000 + h.proto + PayloadLength(h)
  }

  function FirstByte(h: IPv4Header): U8 { h.ver * 16 % 256 + h.hlen % 16 }

  function FlagsAndOffset(h: IPv4Header): U16 {
    (if h.df then 0x4000 else 0) + (if h.mf then 0x2000 else 0) + h.offset % 0x2000
  }

  /** The fields after the checksum, the padding up to the advertised length, and what follows the header. */
  function AfterChecksum(h: IPv4Header, tail: seq<Byte>): seq<Byte>
    requires h.hlen >= 5
  {
    ToBytes(h.src, 4) + (ToBytes(h.dst, 4) + (Zeros(4 * h.hlen - LENGTH) + tail))
  }

  function HeaderBytes(h: IPv4Header, tail: seq<Byte>): seq<Byte>
    requires h.hlen >= 5
  {
    ToBytes(FirstByte(h), 1) + (ToBytes(h.tos, 1) + (ToBytes(h.len, 2) + (ToBytes(h.id, 2)
      + (ToBytes(FlagsAndOffset(h), 2) + (ToBytes(h.ttl, 1) + (ToBytes(h.proto, 1)
      + (ToBytes(h.cksum, 2) + AfterChecksum(h, tail))))))))
  }

  /** The sanity checks of `serialize`, which throws when they fail. */
  predicate Serializable(h: IPv4Header) { h.ver == 4 && h.hlen >= 5 }

  /** The fixed fields, read off the front of `p`. */
  function ParseFields(p: Parser): (IPv4Header, Parser) {
    var (first, p1) := ParseU8(p);
    var (tos, p2) := ParseU8(p1);
    var (len, p3) := ParseU16(p2);
    var (id, p4) := ParseU16(p3);
    var (fo, p5) := ParseU16(p4);
    var (ttl, p6) := ParseU8(p5);
    var (proto, p7) := ParseU8(p6);
    var (cksum, p8) := ParseU16(p7);
    var (src, p9) := ParseU32(p8);
    var (dst, p10) := ParseU32(p9);
    (IPv4Header(first / 16, first % 16, tos, len, id, fo / 0x4000 % 2 == 1, fo / 0x2000 % 2 == 1, fo % 0x2000,
                ttl, proto, cksum, src, dst), p10)
  }

  /** What is wrong with the fields of a header at the front of `size` bytes, in the order in which it is noticed. */
  function FieldsVerdict(h: IPv4Header, size: nat): ParseResult {
    if size < 4 * h.hlen then PacketTooShort
    else if h.ver != 4 then WrongIPVersion
    else if h.hlen < 5 then HeaderTooShort
    else if size != h.len then TruncatedPacket
    else NoError
  }

  /** The header, the verdict, and what is left. Nothing is read from fewer than 20 bytes. */
  function ParseHeader(p: Parser): (IPv4Header, ParseResult, Parser) {
    if |p.buffer| < LENGTH then (DEFAULT_HEADER, PacketTooShort, p)
    else
      var (h, p10) := ParseFields(p);
      var verdict := FieldsVerdict(h, |p.buffer|);
      if verdict != NoError then (h, verdict, p10)
      else
        var p11 := RemovePrefix(p10, 4 * h.hlen - LENGTH);
        if p11.error != NoError then (h, p11.error, p11)
        else if Value(Accumulate(0, p.buffer[..4 * h.hlen])) != 0 then (h, BadChecksum, p11)
        else (h, NoError, p11)
  }

  /** The header with the checksum it is sent with. */
  function Checked(h: IPv4Header): IPv4Header
    requires h.hlen >= 5
  {
    h.(cksum := Value(Accumulate(0, HeaderBytes(h.(cksum := 0), []))))
  }

  /** `None` where the source throws: a payload of the wrong size, a version other than 4, a header too short. */
  function SerializeDatagram(d: IPv4Datagram): Option<seq<Byte>> {
    if |d.payload| != PayloadLength(d.header) || !Serializable(d.header) then None
    else Some(HeaderBytes(Checked(d.header), d.payload))
  }

  /** The header's verdict is dropped: only the length of what is left decides, and the parser's own error. */
  function ParseDatagram(bytes: seq<Byte>): (ParseResult, IPv4Datagram) {
    var (h, _, p) := ParseHeader(Parser(bytes, NoError));
    (if |p.buffer| != PayloadLength(h) then PacketTooShort else p.error, IPv4Datagram(h, p.buffer))
  }

  // ---------------------------------------------------------------- round trips

  /** The widths in which the fields are written hold their values, and the length field tells the truth. */
  predicate WellFormed(h: IPv4Header, payload: seq<Byte>) {
    h.ver == 4 && 5 <= h.hlen <= 15 && h.offset < 0x2000 && h.len == 4 * h.hlen + |payload|
  }

  lemma HeaderLength(h: IPv4Header, tail: seq<Byte>)
    requires h.hlen >= 5
    ensures |HeaderBytes(h, tail)| == 4 * h.hlen + |tail|
  {
  }

  /** Version and header length share a byte, the flags and the offset a word. */
  lemma PackedFields(h: IPv4Header)
    requires h.ver < 16 && h.hlen < 16 && h.offset < 0x2000
    ensures FirstByte(h) / 16 == h.ver && FirstByte(h) % 16 == h.hlen
    ensures FlagsAndOffset(h) / 0x4000 % 2 == 1 <==> h.df
    ensures FlagsAndOffset(h) / 0x2000 % 2 == 1 <==> h.mf
    ensures FlagsAndOffset(h) % 0x2000 == h.offset
  {
  }

  lemma FieldsRoundTrip(h: IPv4Header, tail: seq<Byte>)
    requires h.ver < 16 && 5 <= h.hlen <= 15 && h.offset < 0x2000
    ensures ParseFields(Parser(HeaderBytes(h, tail), NoError)) ==
            (h, Parser(Zeros(4 * h.hlen - LENGTH) + tail, NoError))
  {
    hide ToBytes, ParseU8, ParseU16, ParseU32, Zeros, FirstByte, FlagsAndOffset;
    PackedFields(h);
    var t10 := Zeros(4 * h.hlen - LENGTH) + tail;
    var t9 := ToBytes(h.dst, 4) + t10;
    var t8 := ToBytes(h.src, 4) + t9;
    var t7 := ToBytes(h.cksum, 2) + t8;
    var t6 := ToBytes(h.proto, 1) + t7;
    var t5 := ToBytes(h.ttl, 1) + t6;
    var t4 := ToBytes(FlagsAndOffset(h), 2) + t5;
    var t3 := ToBytes(h.id, 2) + t4;
    var t2 := ToBytes(h.len, 2) + t3;
    var t1 := ToBytes(h.tos, 1) + t2;
    U8Written(FirstByte(h), t1);
    U8Written(h.tos, t2);
    U16Written(h.len, t3);
    U16Written(h.id, t4);
    U16Written(FlagsAndOffset(h), t5);
    U8Written(h.ttl, t6);
    U8Written(h.proto, t7);
    U16Written(h.cksum, t8);
    U32Written(h.src, t9);
    U32Written(h.dst, t10);
  }

  lemma HeaderThenPayload(h: IPv4Header, tail: seq<Byte>)
    requires h.hlen >= 5
    ensures HeaderBytes(h, []) + tail == HeaderBytes(h, tail)
  {
  }

  /** A well-formed header comes back field by field; the verdict on it is the checksum's. */
  lemma HeaderRoundTrip(h: IPv4Header, tail: seq<Byte>)
    requires WellFormed(h, tail)
    ensures ParseHeader(Parser(HeaderBytes(h, tail), NoError)) ==
            (h, if Value(Accumulate(0, HeaderBytes(h, []))) == 0 then NoError else BadChecksum, Parser(tail, NoError))
  {
    hide HeaderBytes, ParseFields, Zeros, Value, Accumulate;
    HeaderLength(h, tail);
    HeaderLength(h, []);
    HeaderThenPayload(h, tail);
    assert HeaderBytes(h, tail)[..4 * h.hlen] == HeaderBytes(h, []);
    FieldsRoundTrip(h, tail);
    SkipZeros(4 * h.hlen - LENGTH, tail);
  }

  lemma SumOfHeader(h: IPv4Header)
    requires h.hlen >= 5
    ensures Sum(HeaderBytes(h, []), false) ==
            Sum(ToBytes(FirstByte(h), 1), false) + Sum(ToBytes(h.tos, 1), true) + Sum(ToBytes(h.len, 2), false)
            + Sum(ToBytes(h.id, 2), false) + Sum(ToBytes(FlagsAndOffset(h), 2), false) + Sum(ToBytes(h.ttl, 1), false)
            + Sum(ToBytes(h.proto, 1), true) + Sum(ToBytes(h.cksum, 2), false) + Sum(AfterChecksum(h, []), false)
  {
    hide Sum, Zeros;
    var t7 := AfterChecksum(h, []);
    var t6 := ToBytes(h.cksum, 2) + t7;
    var t5 := ToBytes(h.proto, 1) + t6;
    var t4 := ToBytes(h.ttl, 1) + t5;
    var t3 := ToBytes(FlagsAndOffset(h), 2) + t4;
    var t2 := ToBytes(h.id, 2) + t3;
    var t1 := ToBytes(h.len, 2) + t2;
    var t0 := ToBytes(h.tos, 1) + t1;
    SumConcat(ToBytes(FirstByte(h), 1), t0, false);
    SumConcat(ToBytes(h.tos, 1), t1, true);
    SumConcat(ToBytes(h.len, 2), t2, false);
    SumConcat(ToBytes(h.id, 2), t3, false);
    SumConcat(ToBytes(FlagsAndOffset(h), 2), t4, false);
    SumConcat(ToBytes(h.ttl, 1), t5, false);
    SumConcat(ToBytes(h.proto, 1), t6, true);
    SumConcat(ToBytes(h.cksum, 2), t7, false);
  }

  /** A header sent with its checksum verifies. */
  lemma CheckedVerifies(h: IPv4Header)
    requires h.hlen >= 5
    ensures Value(Accumulate(0, HeaderBytes(Checked(h), []))) == 0
  {
    hide Sum, Value, HeaderBytes;
    var zero, out := h.(cksum := 0), Checked(h);
    SumOfHeader(zero);
    SumOfHeader(out);
    WordOfBytes(out.cksum);
    WordOfBytes(0);
    HeaderLength(zero, []);
    HeaderLength(out, []);
    SumBound(HeaderBytes(zero, []), false);
    SumBound(HeaderBytes(out, []), false);
    ComplementVerifies(Sum(HeaderBytes(zero, []), false));
    assert AfterChecksum(zero, []) == AfterChecksum(out, []);
  }

  /** A datagram that is sent is parsed back, with its checksum filled in and found correct. */
  lemma DatagramRoundTrip(d: IPv4Datagram)
    requires WellFormed(d.header, d.payload)
    ensures SerializeDatagram(d).Some?
    ensures ParseDatagram(SerializeDatagram(d).value) == (NoError, d.(header := Checked(d.header)))
    ensures ParseHeader(Parser(SerializeDatagram(d).value, NoError)).1 == NoError
  {
    hide HeaderBytes, Value, Accumulate, ParseHeader;
    CheckedVerifies(d.header);
    HeaderRoundTrip(Checked(d.header), d.payload);
  }

  // ---------------------------------------------------------------- the pseudo-header

  /** The pseudo-header of section 3.1 of RFC 793: addresses, a zero, the protocol, the length of the segment. */
  function PseudoHeader(src: U32, dst: U32, proto: U8, length: U16): seq<Byte> {
    ToBytes(src, 4) + (ToBytes(dst, 4) + ([0, proto] + ToBytes(length, 2)))
  }

  lemma SumOfLong(v: U32)
    ensures Sum(ToBytes(v, 4), false) == v / 0x1_0000 + v % 0x1_0000
  {
    var hi: U16, lo: U16 := v / 0x1_0000, v % 0x1_0000;
    hide Sum;
    LongIsWords(v);
    SumConcat(ToBytes(hi, 2), ToBytes(lo, 2), false);
    WordOfBytes(hi);
    WordOfBytes(lo);
  }

  lemma LongIsWords(v: U32)
    ensures ToBytes(v, 4) == ToBytes(v / 0x1_0000, 2) + ToBytes(v % 0x1_0000, 2)
  {
    hide ToBytes;
    LowWord(v);
    LastTwo(v, 2);
    LastTwo(v % 0x1_0000, 0);
    assert ToBytes(0, 0) == [];
  }

  lemma LastTwo(v: nat, n: nat)
    ensures ToBytes(v, n + 2) == ToBytes(v / 0x100 / 0x100, n) + [v / 0x100 % 0x100, v % 0x100]
  {
  }

  lemma LowWord(v: U32)
    ensures v / 0x100 / 0x100 == v / 0x1_0000 && v % 0x1_0000 / 0x100 / 0x100 == 0
    ensures v % 0x1_0000 / 0x100 % 0x100 == v / 0x100 % 0x100 && v % 0x1_0000 % 0x100 == v % 0x100
  {
  }

  lemma SumOfPair(hi: Byte, lo: Byte)
    ensures Sum([hi, lo], false) == Word(hi, lo)
  {
    assert [hi, lo][1..] == [lo] && [lo][1..] == [];
    assert Sum([lo], true) == lo + Sum([lo][1..], false);
  }

  /** What `pseudo_cksum` puts into the checksum of a segment is the sum of the pseudo-header. */
  lemma PseudoChecksumIsSum(h: IPv4Header)
    requires h.len >= 4 * h.hlen
    ensures PseudoChecksum(h) == Sum(PseudoHeader(h.src, h.dst, h.proto, h.len - 4 * h.hlen), false)
  {
    var length: U16 := h.len - 4 * h.hlen;
    hide Sum, ToBytes, PayloadLength;
    PayloadOfWhole(h);
    SumOfPair(0, h.proto);
    SumOfLong(h.src);
    SumOfLong(h.dst);
    WordOfBytes(length);
    SumConcat([0, h.proto], ToBytes(length, 2), false);
    SumConcat(ToBytes(h.dst, 4), [0, h.proto] + ToBytes(length, 2), false);
    SumConcat(ToBytes(h.src, 4), ToBytes(h.dst, 4) + ([0, h.proto] + ToBytes(length, 2)), false);
  }

  // ---------------------------------------------------------------- what is accepted

  /** The fields of the first 20 bytes, each where section 3.1 of RFC 791 places it. */
  lemma FieldsAt(bytes: seq<Byte>)
    requires |bytes| >= LENGTH
    ensures var (h, p) := ParseFields(Parser(bytes, NoError));
            && h.ver == bytes[0] / 16 && h.hlen == bytes[0] % 16 && h.tos == bytes[1]
            && h.len == Word(bytes[2], bytes[3]) && h.id == Word(bytes[4], bytes[5])
            && h.df == (Word(bytes[6], bytes[7]) / 0x4000 % 2 == 1) &&
                h.mf == (Word(bytes[6], bytes[7]) / 0x2000 % 2 == 1)
            && h.offset == Word(bytes[6], bytes[7]) % 0x2000
            && h.src == FromBytes(bytes[12..16]) && h.dst == FromBytes(bytes[16..20])
            && h.ttl == bytes[8] && h.proto == bytes[9] && h.cksum == Word(bytes[10], bytes[11])
            && p == Parser(bytes[LENGTH..], NoError)
  {
    ReadTwo(bytes[2..]);
    ReadTwo(bytes[4..]);
    ReadTwo(bytes[6..]);
    ReadTwo(bytes[10..]);
    hide FromBytes;
    ReadOne(bytes);
    ReadOne(bytes[1..]);
    ReadOne(bytes[8..]);
    ReadOne(bytes[9..]);
    assert bytes[12..][4..][4..] == bytes[LENGTH..];
    assert bytes[12..][..4] == bytes[12..16];
    assert bytes[12..][4..][..4] == bytes[16..20];
    assert bytes[1..][1..] == bytes[2..];
    assert bytes[2..][2..] == bytes[4..];
    assert bytes[4..][2..] == bytes[6..];
    assert bytes[6..][2..] == bytes[8..];
    assert bytes[8..][1..] == bytes[9..];
    assert bytes[9..][1..] == bytes[10..];
    assert bytes[10..][2..] == bytes[12..];
  }

  /** Where the payload is taken to start. */
  function PayloadStart(h: IPv4Header, size: nat): nat {
    if FieldsVerdict(h, size) == NoError then 4 * h.hlen else LENGTH
  }

  /** What the parse of a datagram comes to: the fields, everything from the payload's start, and one length test. */
  lemma ParsedAs(bytes: seq<Byte>)
    requires |bytes| >= LENGTH
    ensures var h := ParseFields(Parser(bytes, NoError)).0;
            && LENGTH <= PayloadStart(h, |bytes|) <= |bytes|
            && ParseDatagram(bytes) ==
               (if |bytes| - PayloadStart(h, |bytes|) == PayloadLength(h) then NoError else PacketTooShort,
                IPv4Datagram(h, bytes[PayloadStart(h, |bytes|)..]))
  {
    hide ParseFields, Value, Accumulate, PayloadLength;
    FieldsAt(bytes);
    var h := ParseFields(Parser(bytes, NoError)).0;
    if FieldsVerdict(h, |bytes|) == NoError {
      assert bytes[LENGTH..][4 * h.hlen - LENGTH..] == bytes[4 * h.hlen..];
    }
  }

  lemma AcceptsByFields(bytes: seq<Byte>)
    requires |bytes| >= LENGTH
    ensures var h := ParseFields(Parser(bytes, NoError)).0;
            ParseDatagram(bytes).0 == NoError <==>
            FieldsVerdict(h, |bytes|) == NoError || |bytes| - LENGTH == PayloadLength(h)
  {
    hide ParseFields, ParseDatagram;
    ParsedAs(bytes);
    PayloadOfWhole(ParseFields(Parser(bytes, NoError)).0);
  }

  lemma PayloadOfWhole(h: IPv4Header)
    ensures 4 * h.hlen <= h.len ==> PayloadLength(h) == h.len - 4 * h.hlen
  {
  }

  lemma TooShortIsRefused(bytes: seq<Byte>)
    requires |bytes| < LENGTH
    ensures ParseDatagram(bytes).0 != NoError
  {
  }

  /**
   * Exactly what `IPv4Datagram::parse` accepts. A header that its own parser refuses is taken all the same when
   * the bytes after its first 20 happen to be as many as its length fields leave for a payload.
   */
  lemma AcceptsExactly(bytes: seq<Byte>)
    ensures ParseDatagram(bytes).0 == NoError <==>
            && |bytes| >= LENGTH
            && var ver, hlen, len := bytes[0] / 16, bytes[0] % 16, Word(bytes[2], bytes[3]);
               || (ver == 4 && hlen >= 5 && 4 * hlen <= |bytes| == len)
               || |bytes| - LENGTH == (len - 4 * hlen) % 0x1_0000
  {
    hide ParseFields, ParseDatagram, Word;
    if |bytes| >= LENGTH {
      AcceptsByFields(bytes);
      FieldsAt(bytes);
    } else {
      TooShortIsRefused(bytes);
    }
  }

  /** A datagram of another IP version, with a 20-byte header and a truthful length, is accepted. */
  lemma WrongVersionIsAccepted(bytes: seq<Byte>)
    requires |bytes| >= LENGTH && bytes[0] % 16 == 5 && bytes[0] / 16 != 4
    requires |bytes| == Word(bytes[2], bytes[3])
    ensures ParseHeader(Parser(bytes, NoError)).1 == WrongIPVersion && ParseDatagram(bytes).0 == NoError
  {
    hide ParseFields, ParseDatagram, Word, Value, Accumulate;
    FieldsAt(bytes);
    AcceptsByFields(bytes);
  }

  /** The checksum decides nothing: whatever is written over it, the verdict and everything else read stay the same. */
  lemma ChecksumIsIgnored(bytes: seq<Byte>, hi: Byte, lo: Byte)
    requires |bytes| >= LENGTH
    ensures var (r, d) := ParseDatagram(bytes);
            ParseDatagram(bytes[10 := hi][11 := lo]) == (r, d.(header := d.header.(cksum := Word(hi, lo))))
  {
    hide ParseFields, ParseDatagram;
    var changed := bytes[10 := hi][11 := lo];
    FieldsWithChecksum(bytes, hi, lo);
    ParsedAs(bytes);
    ParsedAs(changed);
    var start := PayloadStart(ParseFields(Parser(bytes, NoError)).0, |bytes|);
    assert changed[start..] == bytes[start..];
  }

  lemma FieldsWithChecksum(bytes: seq<Byte>, hi: Byte, lo: Byte)
    requires |bytes| >= LENGTH
    ensures var (h, p) := ParseFields(Parser(bytes, NoError));
            ParseFields(Parser(bytes[10 := hi][11 := lo], NoError)) == (h.(cksum := Word(hi, lo)), p)
  {
    hide ParseFields, FromBytes;
    var changed := bytes[10 := hi][11 := lo];
    FieldsAt(bytes);
    FieldsAt(changed);
    assert changed[LENGTH..] == bytes[LENGTH..];
    assert changed[12..16] == bytes[12..16];
    assert changed[16..20] == bytes[16..20];
  }

  // ---------------------------------------------------------------- the code's own steps

  /** `IPv4Header::serialize`, one append at a time; `None` where it throws. */
  method WriteHeader(h: IPv4Header) returns (r: Option<seq<Byte>>)
    ensures r == if Serializable(h) then Some(HeaderBytes(h, [])) else None
  {
    hide ToBytes, Zeros, FirstByte, FlagsAndOffset;
    if h.ver != 4 || 4 * h.hlen < LENGTH {
      return None;
    }
    var ret := Unparse([], FirstByte(h), 1);
    ret := Unparse(ret, h.tos, 1);
    ret := Unparse(ret, h.len, 2);
    ret := Unparse(ret, h.id, 2);
    ret := Unparse(ret, FlagsAndOffset(h), 2);
    ret := Unparse(ret, h.ttl, 1);
    ret := Unparse(ret, h.proto, 1);
    ret := Unparse(ret, h.cksum, 2);
    ret := Unparse(ret, h.src, 4);
    ret := Unparse(ret, h.dst, 4);
    ret := ret + Zeros(4 * h.hlen - LENGTH);
    Regroup(ToBytes(FirstByte(h), 1), ToBytes(h.tos, 1), ToBytes(h.len, 2), ToBytes(h.id, 2),
            ToBytes(FlagsAndOffset(h), 2), ToBytes(h.ttl, 1), ToBytes(h.proto, 1), ToBytes(h.cksum, 2),
            ToBytes(h.src, 4), ToBytes(h.dst, 4), Zeros(4 * h.hlen - LENGTH));
    r := Some(ret);
  }

  lemma Regroup(a: seq<Byte>, b: seq<Byte>, c: seq<Byte>, d: seq<Byte>, e: seq<Byte>, f: seq<Byte>, g: seq<Byte>,
                h: seq<Byte>, i: seq<Byte>, j: seq<Byte>, k: seq<Byte>)
    ensures [] + a + b + c + d + e + f + g + h + i + j + k ==
            a + (b + (c + (d + (e + (f + (g + (h + (i + (j + (k + []))))))))))
  {
  }

  /** `IPv4Datagram::serialize`: the checksum is taken over the header alone. */
  method Serialize(d: IPv4Datagram) returns (r: Option<seq<Byte>>)
    ensures r == SerializeDatagram(d)
  {
    hide HeaderBytes, Accumulate, Value;
    if |d.payload| != PayloadLength(d.header) {
      return None;
    }
    var headerOut := d.header.(cksum := 0);
    var zero := WriteHeader(headerOut);
    if zero.None? {
      return None;
    }
    var check := new InternetChecksum(0);
    check.Add(zero.value);
    var cksum := check.Complement();
    Accumulated(zero.value, check.sum);
    headerOut := headerOut.(cksum := cksum);
    var bytes := WriteHeader(headerOut);
    HeaderThenPayload(headerOut, d.payload);
    r := Some(bytes.value + d.payload);
  }

  lemma Accumulated(data: seq<Byte>, sum: U32)
    requires sum == (0 + Sum(data, false)) % TWO32
    ensures sum == Accumulate(0, data)
  {
  }

  /** `IPv4Header::parse`, one field at a time. */
  method ReadHeader(p: NetParser) returns (h: IPv4Header, result: ParseResult)
    modifies p
    ensures (h, result, p.Model()) == ParseHeader(old(p.Model()))
  {
    hide ParseU8, ParseU16, ParseU32, Value, Accumulate;
    var original := p.buffer;
    if |original| < LENGTH {
      return DEFAULT_HEADER, PacketTooShort;
    }
    var first := p.U8At();
    var tos := p.U8At();
    var len := p.U16At();
    var id := p.U16At();
    var fo := p.U16At();
    var ttl := p.U8At();
    var proto := p.U8At();
    var cksum := p.U16At();
    var src := p.U32At();
    var dst := p.U32At();
    h := IPv4Header(first / 16, first % 16, tos, len, id, fo / 0x4000 % 2 == 1, fo / 0x2000 % 2 == 1, fo % 0x2000,
                    ttl, proto, cksum, src, dst);
    if |original| < 4 * h.hlen {
      return h, PacketTooShort;
    }
    if h.ver != 4 {
      return h, WrongIPVersion;
    }
    if h.hlen < 5 {
      return h, HeaderTooShort;
    }
    if |original| != h.len {
      return h, TruncatedPacket;
    }
    p.Skip(4 * h.hlen - LENGTH);
    if p.error != NoError {
      return h, p.error;
    }
    var check := new InternetChecksum(0);
    check.Add(original[..4 * h.hlen]);
    var v := check.Complement();
    Accumulated(original[..4 * h.hlen], check.sum);
    result := if v != 0 then BadChecksum else NoError;
  }

  method Parse(bytes: seq<Byte>) returns (result: ParseResult, d: IPv4Datagram)
    ensures (result, d) == ParseDatagram(bytes)
  {
    hide ParseHeader;
    var p := new NetParser(bytes);
    var h, _ := ReadHeader(p);
    d := IPv4Datagram(h, p.buffer);
    result := if |d.payload| != PayloadLength(h) then PacketTooShort else p.error;
  }
}
