/** TCP segments on the wire (tcp_header.cc, tcp_segment.cc; section 3.1 of RFC 793). */
module TCPCodec {
  import opened Words
  import opened Parsers
  import opened InternetChecksums
  import opened TCPSegments

  const LENGTH: nat := 20

  function Bit(b: bool, weight: nat): nat { if b then weight else 0 }

  function Flags(h: TCPHeader): U8 {
    Bit(h.urg, 32) + Bit(h.ack, 16) + Bit(h.psh, 8) + Bit(h.rst, 4) + Bit(h.syn, 2) + Bit(h.fin, 1)
  }

  predicate FlagAt(flags: U8, weight: nat)
    requires weight > 0
  {
    flags / weight % 2 == 1
  }

  /** The fields after the checksum, the padding up to the advertised length, and what follows the header. */
  function AfterChecksum(h: TCPHeader, tail: seq<Byte>): seq<Byte>
    requires h.doff >= 5
  {
    ToBytes(h.uptr, 2) + (Zeros(4 * h.doff - LENGTH) + tail)
  }

  function HeaderBytes(h: TCPHeader, tail: seq<Byte>): seq<Byte>
    requires h.doff >= 5
  {
    ToBytes(h.sport, 2) + (ToBytes(h.dport, 2) + (ToBytes(h.seqno, 4) + (ToBytes(h.ackno, 4)
      + (ToBytes(h.doff * 16 % 256, 1) + (ToBytes(Flags(h), 1) + (ToBytes(h.win, 2)
      + (ToBytes(h.cksum, 2) + AfterChecksum(h, tail))))))))
  }

  /** The header read off the front of `p`. A short data offset is reported, but not through the parser. */
  function ParseHeader(p: Parser): (TCPHeader, ParseResult, Parser) {
    var (sport, p1) := ParseU16(p);
    var (dport, p2) := ParseU16(p1);
    var (seqno, p3) := ParseU32(p2);
    var (ackno, p4) := ParseU32(p3);
    var (offset, p5) := ParseU8(p4);
    var (flags, p6) := ParseU8(p5);
    var (win, p7) := ParseU16(p6);
    var (cksum, p8) := ParseU16(p7);
    var (uptr, p9) := ParseU16(p8);
    var doff := offset / 16;
    var h := TCPHeader(sport, dport, seqno, ackno, doff,
                       FlagAt(flags, 32), FlagAt(flags, 16), FlagAt(flags, 8),
                       FlagAt(flags, 4), FlagAt(flags, 2), FlagAt(flags, 1),
                       win, cksum, uptr);
    if doff < 5 then (h, HeaderTooShort, p9)
    else
      var p10 := RemovePrefix(p9, doff * 4 - LENGTH);
      (h, p10.error, p10)
  }

  /** The checksum a segment is sent with: over the header with a zero checksum, and the payload. */
  function ChecksumOf(seg: TCPSegment, pseudo: U32): U16
    requires seg.header.doff >= 5
  {
    Value(Accumulate(pseudo, HeaderBytes(seg.header.(cksum := 0), seg.payload)))
  }

  function Checked(seg: TCPSegment, pseudo: U32): TCPSegment
    requires seg.header.doff >= 5
  {
    seg.(header := seg.header.(cksum := ChecksumOf(seg, pseudo)))
  }

  /** `None` where the source throws. */
  function SerializeSegment(seg: TCPSegment, pseudo: U32): Option<seq<Byte>> {
    if seg.header.doff < 5 then None else Some(HeaderBytes(Checked(seg, pseudo).header, seg.payload))
  }

  const EMPTY_SEGMENT: TCPSegment := TCPSegment(DEFAULT_HEADER, [])

  /** The header's own verdict is dropped; only the checksum and the parser's error decide. */
  function ParseSegment(bytes: seq<Byte>, pseudo: U32): (ParseResult, TCPSegment) {
    if Value(Accumulate(pseudo, bytes)) != 0 then (BadChecksum, EMPTY_SEGMENT)
    else
      var (h, _, p) := ParseHeader(Parser(bytes, NoError));
      (p.error, TCPSegment(h, p.buffer))
  }

  // ---------------------------------------------------------------- round trips

  lemma FlagsRoundTrip(h: TCPHeader)
    ensures FlagAt(Flags(h), 32) == h.urg && FlagAt(Flags(h), 16) == h.ack && FlagAt(Flags(h), 8) == h.psh
    ensures FlagAt(Flags(h), 4) == h.rst && FlagAt(Flags(h), 2) == h.syn && FlagAt(Flags(h), 1) == h.fin
  {
  }

  lemma HeaderRoundTrip(h: TCPHeader, tail: seq<Byte>)
    requires 5 <= h.doff <= 15
    ensures ParseHeader(Parser(HeaderBytes(h, tail), NoError)) == (h, NoError, Parser(tail, NoError))
  {
    hide ToBytes, ParseU8, ParseU16, ParseU32, Flags, FlagAt, Zeros, RemovePrefix;
    FlagsRoundTrip(h);
    var t9 := Zeros(4 * h.doff - LENGTH) + tail;
    var t8 := ToBytes(h.uptr, 2) + t9;
    var t7 := ToBytes(h.cksum, 2) + t8;
    var t6 := ToBytes(h.win, 2) + t7;
    var t5 := ToBytes(Flags(h), 1) + t6;
    var t4 := ToBytes(h.doff * 16 % 256, 1) + t5;
    var t3 := ToBytes(h.ackno, 4) + t4;
    var t2 := ToBytes(h.seqno, 4) + t3;
    var t1 := ToBytes(h.dport, 2) + t2;
    U16Written(h.sport, t1);
    U16Written(h.dport, t2);
    U32Written(h.seqno, t3);
    U32Written(h.ackno, t4);
    U8Written(h.doff * 16 % 256, t5);
    U8Written(Flags(h), t6);
    U16Written(h.win, t7);
    U16Written(h.cksum, t8);
    U16Written(h.uptr, t9);
    SkipZeros(4 * h.doff - LENGTH, tail);
  }

  lemma HeaderLength(h: TCPHeader, tail: seq<Byte>)
    requires h.doff >= 5
    ensures |HeaderBytes(h, tail)| == 4 * h.doff + |tail|
  {
  }

  /** The sum of a segment is the sum with a zero checksum, plus the checksum: the field is a word at an even offset. */
  lemma ChecksumAddsIn(h: TCPHeader, cksum: U16, tail: seq<Byte>)
    requires h.doff >= 5
    ensures Sum(HeaderBytes(h.(cksum := cksum), tail), false) == Sum(HeaderBytes(h.(cksum := 0), tail), false) + cksum
  {
    hide Sum, ToBytes, Zeros;
    SumOfHeader(h.(cksum := cksum), tail);
    SumOfHeader(h.(cksum := 0), tail);
    WordOfBytes(cksum);
    WordOfBytes(0);
  }

  lemma SumOfHeader(h: TCPHeader, tail: seq<Byte>)
    requires h.doff >= 5
    ensures Sum(HeaderBytes(h, tail), false) ==
            Sum(ToBytes(h.sport, 2), false) + Sum(ToBytes(h.dport, 2), false) + Sum(ToBytes(h.seqno, 4), false)
            + Sum(ToBytes(h.ackno, 4), false) + Sum(ToBytes(h.doff * 16 % 256, 1), false) +
              Sum(ToBytes(Flags(h), 1), true)
            + Sum(ToBytes(h.win, 2), false) + Sum(ToBytes(h.cksum, 2), false) + Sum(AfterChecksum(h, tail), false)
  {
    hide Sum, Zeros;
    var t8 := AfterChecksum(h, tail);
    var t7 := ToBytes(h.cksum, 2) + t8;
    var t6 := ToBytes(h.win, 2) + t7;
    var t5 := ToBytes(Flags(h), 1) + t6;
    var t4 := ToBytes(h.doff * 16 % 256, 1) + t5;
    var t3 := ToBytes(h.ackno, 4) + t4;
    var t2 := ToBytes(h.seqno, 4) + t3;
    var t1 := ToBytes(h.dport, 2) + t2;
    SumConcat(ToBytes(h.sport, 2), t1, false);
    SumConcat(ToBytes(h.dport, 2), t2, false);
    SumConcat(ToBytes(h.seqno, 4), t3, false);
    SumConcat(ToBytes(h.ackno, 4), t4, false);
    SumConcat(ToBytes(h.doff * 16 % 256, 1), t5, false);
    SumConcat(ToBytes(Flags(h), 1), t6, true);
    SumConcat(ToBytes(h.win, 2), t7, false);
    SumConcat(ToBytes(h.cksum, 2), t8, false);
  }

  lemma AccumulateShift(pseudo: U32, sum: nat, d: int)
    requires pseudo + sum + d >= 0
    ensures var acc := (pseudo + sum) % TWO32;
            (pseudo + sum + d) % TWO32 == (acc + d) % TWO32
  {
    var q := (pseudo + sum) / TWO32;
    assert pseudo + sum + d == q * TWO32 + ((pseudo + sum) % TWO32 + d);
  }

  /** A segment sent with its checksum is accepted and comes back whole, options skipped, whatever its payload. */
  lemma SegmentRoundTrip(seg: TCPSegment, pseudo: U32)
    requires 5 <= seg.header.doff <= 15
    ensures SerializeSegment(seg, pseudo).Some?
    ensures ParseSegment(SerializeSegment(seg, pseudo).value, pseudo) == (NoError, Checked(seg, pseudo))
  {
    hide Sum, HeaderBytes, ParseHeader, Value;
    var zero, out := seg.header.(cksum := 0), Checked(seg, pseudo).header;
    var c := ChecksumOf(seg, pseudo);
    var sum := Accumulate(pseudo, HeaderBytes(zero, seg.payload));
    ChecksumAddsIn(seg.header, c, seg.payload);
    AccumulateShift(pseudo, Sum(HeaderBytes(zero, seg.payload), false), c);
    NextMultiple(sum);
    ComplementVerifies(sum);
    HeaderRoundTrip(out, seg.payload);
  }

  /**
   * Changing one aligned word of an accepted segment is noticed, exactly unless the words are equal modulo 65535 and
   * the sum neither drops to zero, which happens only when every word is zero, nor is carried past the end of the
   * accumulator.
   */
  lemma WordChangeIsNoticed(bytes: seq<Byte>, pseudo: U32, at: nat, hi: Byte, lo: Byte)
    requires ParseSegment(bytes, pseudo).0 != BadChecksum && at % 2 == 0 && at + 2 <= |bytes|
    ensures var d := Word(hi, lo) - Word(bytes[at], bytes[at + 1]);
            ParseSegment(bytes[at := hi][at + 1 := lo], pseudo).0 == BadChecksum <==>
            d % 0xffff != 0 || Accumulate(pseudo, bytes) + d == 0 || Accumulate(pseudo, bytes) + d >= TWO32
  {
    hide ParseHeader, Fold, Sum, Value, Word;
    var changed := bytes[at := hi][at + 1 := lo];
    var d := Word(hi, lo) - Word(bytes[at], bytes[at + 1]);
    WordChange(bytes, at, hi, lo);
    AccumulateShift(pseudo, Sum(bytes, false), d);
    WordRange(hi, lo);
    WordRange(bytes[at], bytes[at + 1]);
    ShiftedVerdict(Accumulate(pseudo, bytes), d);
    ErrorIsNotChecksum(changed);
  }

  lemma WordRange(hi: Byte, lo: Byte)
    ensures 0 <= Word(hi, lo) <= 0xffff
  {
  }

  lemma ShiftedVerdict(sum: U32, d: int)
    requires Value(sum) == 0 && -0xffff <= d <= 0xffff
    ensures sum + d >= 0
    ensures Value((sum + d) % TWO32) != 0 <==> d % 0xffff != 0 || sum + d == 0 || sum + d >= TWO32
  {
    hide Value;
    VerifiesIff(sum);
    VerifiesIff((sum + d) % TWO32);
    ResidueShift(sum, d);
    if sum + d >= TWO32 {
      LastMultiple(sum);
      assert (sum + d) % TWO32 == d - 1;
    }
  }

  /** The only multiple of 65535 so near the end of the accumulator is its last value. */
  lemma LastMultiple(sum: U32)
    requires sum % 0xffff == 0 && sum + 0xffff >= TWO32
    ensures sum == TWO32 - 1
  {
    var q := sum / 0xffff;
    assert sum == q * 0xffff;
  }

  lemma ResidueShift(a: nat, d: int)
    requires a % 0xffff == 0
    ensures (a + d) % 0xffff == d % 0xffff
  {
    var q := a / 0xffff;
    assert a == q * 0xffff;
  }

  /** Parsing a header never reports a bad checksum through the parser. */
  lemma ErrorIsNotChecksum(bytes: seq<Byte>)
    ensures ParseHeader(Parser(bytes, NoError)).2.error in {NoError, PacketTooShort}
  {
    hide ParseHeader;
    var p := FixedFields(bytes);
  }

  /** The fields of the first 20 bytes, each where section 3.1 of RFC 793 places it. */
  lemma FieldsAt(bytes: seq<Byte>)
    requires |bytes| >= LENGTH
    ensures var (h, _, p) := ParseHeader(Parser(bytes, NoError));
            && h.sport == Word(bytes[0], bytes[1]) && h.dport == Word(bytes[2], bytes[3])
            && h.seqno == FromBytes(bytes[4..8]) && h.ackno == FromBytes(bytes[8..12])
            && h.doff == bytes[12] / 16
            && h.urg == FlagAt(bytes[13], 32) && h.ack == FlagAt(bytes[13], 16) && h.psh == FlagAt(bytes[13], 8)
            && h.rst == FlagAt(bytes[13], 4) && h.syn == FlagAt(bytes[13], 2) && h.fin == FlagAt(bytes[13], 1)
            && h.win == Word(bytes[14], bytes[15]) && h.cksum == Word(bytes[16], bytes[17])
            && h.uptr == Word(bytes[18], bytes[19])
            && p == if h.doff < 5 then Parser(bytes[LENGTH..], NoError)
                    else RemovePrefix(Parser(bytes[LENGTH..], NoError), h.doff * 4 - LENGTH)
  {
    hide ParseU8, ParseU16, ParseU32, FlagAt, RemovePrefix, FromBytes, Word;
    FrontAt(bytes);
    ReadOne(bytes[12..]);
    assert bytes[12..][1..] == bytes[13..];
    ReadOne(bytes[13..]);
    assert bytes[13..][1..] == bytes[14..];
    ReadWord(bytes, 14);
    ReadWord(bytes, 16);
    ReadWord(bytes, 18);
  }

  lemma FrontAt(bytes: seq<Byte>)
    requires |bytes| >= LENGTH
    ensures var (sport, p1) := ParseU16(Parser(bytes, NoError));
            var (dport, p2) := ParseU16(p1);
            var (seqno, p3) := ParseU32(p2);
            var (ackno, p4) := ParseU32(p3);
            && sport == Word(bytes[0], bytes[1]) && dport == Word(bytes[2], bytes[3])
            && seqno == FromBytes(bytes[4..8]) && ackno == FromBytes(bytes[8..12]) && p4 == Parser(bytes[12..], NoError)
  {
    hide ParseU16, ParseU32, FromBytes, Word;
    ReadWord(bytes, 0);
    ReadWord(bytes, 2);
    ReadLong(bytes, 4);
    ReadLong(bytes, 8);
    assert bytes[0..] == bytes;
  }

  /** The flags, from bit 5 of byte 13 down: URG, ACK, PSH, RST, SYN, FIN. */
  lemma FlagsAt(bytes: seq<Byte>)
    requires |bytes| >= LENGTH
    ensures var h := ParseHeader(Parser(bytes, NoError)).0;
            && h.urg == (bytes[13] / 32 % 2 == 1) && h.ack == (bytes[13] / 16 % 2 == 1)
            && h.psh == (bytes[13] / 8 % 2 == 1) && h.rst == (bytes[13] / 4 % 2 == 1)
            && h.syn == (bytes[13] / 2 % 2 == 1) && h.fin == (bytes[13] % 2 == 1)
  {
    hide ParseHeader;
    FieldsAt(bytes);
  }

  lemma ReadWord(bytes: seq<Byte>, i: nat)
    requires i + 2 <= |bytes|
    ensures ParseU16(Parser(bytes[i..], NoError)) == (Word(bytes[i], bytes[i + 1]), Parser(bytes[i + 2..], NoError))
  {
    ReadTwo(bytes[i..]);
    assert bytes[i..][2..] == bytes[i + 2..];
  }

  lemma ReadLong(bytes: seq<Byte>, i: nat)
    requires i + 4 <= |bytes|
    ensures ParseU32(Parser(bytes[i..], NoError)) == (FromBytes(bytes[i..i + 4]), Parser(bytes[i + 4..], NoError))
  {
    hide FromBytes;
    assert bytes[i..][4..] == bytes[i + 4..] && bytes[i..][..4] == bytes[i..i + 4];
  }

  predicate Reads(p: Parser) { p.error == NoError || p.error == PacketTooShort }

  /** A read consumes its width, or leaves the error that more was asked for than there was. */
  lemma ReadOrShort(p: Parser, n: nat)
    requires Reads(p)
    ensures var q := ParseInt(p, n).1;
            Reads(q) && (q.error == NoError ==> p.error == NoError && |q.buffer| == |p.buffer| - n)
  {
  }

  /** The fixed fields read, one after the other. */
  lemma FixedFields(bytes: seq<Byte>) returns (p: Parser)
    ensures Reads(p) && (p.error == NoError ==> |p.buffer| == |bytes| - LENGTH)
    ensures var (h, _, q) := ParseHeader(Parser(bytes, NoError));
            q == if h.doff < 5 then p else RemovePrefix(p, h.doff * 4 - LENGTH)
  {
    hide ParseInt, FlagAt, RemovePrefix;
    var p0 := Parser(bytes, NoError);
    ReadOrShort(p0, 2);
    var p1 := ParseU16(p0).1;
    ReadOrShort(p1, 2);
    var p2 := ParseU16(p1).1;
    ReadOrShort(p2, 4);
    var p3 := ParseU32(p2).1;
    ReadOrShort(p3, 4);
    var p4 := ParseU32(p3).1;
    ReadOrShort(p4, 1);
    var p5 := ParseU8(p4).1;
    ReadOrShort(p5, 1);
    var p6 := ParseU8(p5).1;
    ReadOrShort(p6, 2);
    var p7 := ParseU16(p6).1;
    ReadOrShort(p7, 2);
    var p8 := ParseU16(p7).1;
    ReadOrShort(p8, 2);
    p := ParseU16(p8).1;
  }

  lemma ShortHeader(bytes: seq<Byte>)
    requires |bytes| < LENGTH
    ensures ParseHeader(Parser(bytes, NoError)).2.error == PacketTooShort
  {
    hide ParseHeader;
    var p := FixedFields(bytes);
  }

  /**
   * What is accepted: a good checksum over at least a header, and room for the data offset unless the offset is too
   * short.
   */
  lemma AcceptsExactly(bytes: seq<Byte>, pseudo: U32)
    ensures ParseSegment(bytes, pseudo).0 == NoError <==>
      && Value(Accumulate(pseudo, bytes)) == 0 && |bytes| >= LENGTH
      && (var doff := bytes[12] / 16; doff < 5 || 4 * doff <= |bytes|)
  {
    hide ParseHeader, Accumulate, Value;
    if |bytes| >= LENGTH {
      FieldsAt(bytes);
    } else {
      ShortHeader(bytes);
    }
  }

  /** A data offset below five is refused by the header parser, and taken by the segment parser. */
  lemma ShortOffsetIsAccepted(bytes: seq<Byte>, pseudo: U32)
    requires |bytes| >= LENGTH && bytes[12] / 16 < 5 && Value(Accumulate(pseudo, bytes)) == 0
    ensures ParseHeader(Parser(bytes, NoError)).1 == HeaderTooShort && ParseSegment(bytes, pseudo).0 == NoError
  {
    OffsetVerdict(bytes);
    hide ParseHeader, Accumulate, Value;
    FieldsAt(bytes);
  }

  lemma OffsetVerdict(bytes: seq<Byte>)
    ensures var (h, r, _) := ParseHeader(Parser(bytes, NoError)); h.doff < 5 ==> r == HeaderTooShort
  {
    hide ParseInt, FlagAt, RemovePrefix;
  }

  lemma {:induction false} SumOfZeros(n: nat, parity: bool)
    ensures Sum(Zeros(n), parity) == 0
    decreases n
  {
    if n > 0 {
      assert Zeros(n)[1..] == Zeros(n - 1);
      SumOfZeros(n - 1, !parity);
    }
  }

  /** One such segment: twenty zero bytes, with a pseudo-header sum of 65535. */
  lemma ShortOffsetCase()
    ensures ParseHeader(Parser(Zeros(LENGTH), NoError)).1 == HeaderTooShort
    ensures ParseSegment(Zeros(LENGTH), 0xffff).0 == NoError && ParseSegment(Zeros(LENGTH), 0xffff).1.header.doff == 0
  {
    hide ParseHeader, Sum, Value;
    SumOfZeros(LENGTH, false);
    VerifiesIff(0xffff);
    ShortOffsetIsAccepted(Zeros(LENGTH), 0xffff);
    FieldsAt(Zeros(LENGTH));
  }

  /** A change of a word by 65535 that is noticed all the same: the sum was the last that fits 32 bits. */
  lemma LastSumCase()
    ensures ParseSegment(Zeros(LENGTH), 0xffff_ffff).0 == NoError
    ensures ParseSegment(Zeros(LENGTH)[0 := 0xff][1 := 0xff], 0xffff_ffff).0 == BadChecksum
  {
    hide ParseHeader, Sum, Value;
    SumOfZeros(LENGTH, false);
    VerifiesIff(0xffff_ffff);
    ShortOffsetIsAccepted(Zeros(LENGTH), 0xffff_ffff);
    WordChangeIsNoticed(Zeros(LENGTH), 0xffff_ffff, 0, 0xff, 0xff);
  }

  // ---------------------------------------------------------------- the code's own steps

  /** `TCPHeader::serialize`, one append at a time. */
  method SerializeHeader(h: TCPHeader) returns (ret: seq<Byte>)
    requires h.doff >= 5
    ensures ret == HeaderBytes(h, [])
  {
    hide ToBytes, Zeros, Flags;
    ret := Unparse([], h.sport, 2);
    ret := Unparse(ret, h.dport, 2);
    ret := Unparse(ret, h.seqno, 4);
    ret := Unparse(ret, h.ackno, 4);
    ret := Unparse(ret, h.doff * 16 % 256, 1);
    ret := Unparse(ret, Flags(h), 1);
    ret := Unparse(ret, h.win, 2);
    ret := Unparse(ret, h.cksum, 2);
    ret := Unparse(ret, h.uptr, 2);
    ret := ret + Zeros(4 * h.doff - LENGTH);
    Nine([], ToBytes(h.sport, 2), ToBytes(h.dport, 2), ToBytes(h.seqno, 4), ToBytes(h.ackno, 4),
         ToBytes(h.doff * 16 % 256, 1), ToBytes(Flags(h), 1), ToBytes(h.win, 2), ToBytes(h.cksum, 2),
         ToBytes(h.uptr, 2), Zeros(4 * h.doff - LENGTH));
  }

  lemma Nine(e: seq<Byte>, a: seq<Byte>, b: seq<Byte>, c: seq<Byte>, d: seq<Byte>, f: seq<Byte>, g: seq<Byte>,
             h: seq<Byte>, i: seq<Byte>, j: seq<Byte>, k: seq<Byte>)
    ensures e + a + b + c + d + f + g + h + i + j + k ==
            e + (a + (b + (c + (d + (f + (g + (h + (i + (j + (k + []))))))))))
  {
  }

  lemma HeaderThenPayload(h: TCPHeader, tail: seq<Byte>)
    requires h.doff >= 5
    ensures HeaderBytes(h, []) + tail == HeaderBytes(h, tail)
  {
  }

  /** Header and payload are added to the checksum one after the other. */
  method ChecksumOfTwo(pseudo: U32, first: seq<Byte>, second: seq<Byte>) returns (v: U16)
    requires |first| % 2 == 0
    ensures v == Value(Accumulate(pseudo, first + second))
  {
    hide Sum, Fold;
    var check := new InternetChecksum(pseudo);
    check.Add(first);
    check.Add(second);
    SumConcat(first, second, false);
    InternetChecksum.WrapStep(pseudo, Sum(first, false), Sum(second, false));
    v := check.Complement();
  }

  /** `TCPSegment::serialize`: the checksum of header and payload, then the header again with it in place. */
  method Serialize(seg: TCPSegment, pseudo: U32) returns (r: Option<seq<Byte>>)
    ensures r == SerializeSegment(seg, pseudo)
  {
    if seg.header.doff < 5 {
      return None;
    }
    hide Sum, Fold, HeaderBytes, Accumulate, Value;
    var headerOut := seg.header.(cksum := 0);
    var bytes := SerializeHeader(headerOut);
    HeaderLength(headerOut, []);
    HeaderThenPayload(headerOut, seg.payload);
    var cksum := ChecksumOfTwo(pseudo, bytes, seg.payload);
    headerOut := headerOut.(cksum := cksum);
    bytes := SerializeHeader(headerOut);
    HeaderThenPayload(headerOut, seg.payload);
    r := Some(bytes + seg.payload);
  }

  /** `TCPHeader::parse`, one field at a time. */
  method ReadHeader(p: NetParser) returns (h: TCPHeader, result: ParseResult)
    modifies p
    ensures (h, result, p.Model()) == ParseHeader(old(p.Model()))
  {
    hide ParseU8, ParseU16, ParseU32, FlagAt;
    var sport := p.U16At();
    var dport := p.U16At();
    var seqno := p.U32At();
    var ackno := p.U32At();
    var offset := p.U8At();
    var flags := p.U8At();
    var win := p.U16At();
    var cksum := p.U16At();
    var uptr := p.U16At();
    var doff := offset / 16;
    h := TCPHeader(sport, dport, seqno, ackno, doff,
                   FlagAt(flags, 32), FlagAt(flags, 16), FlagAt(flags, 8),
                   FlagAt(flags, 4), FlagAt(flags, 2), FlagAt(flags, 1),
                   win, cksum, uptr);
    if doff < 5 {
      return h, HeaderTooShort;
    }
    p.Skip(doff * 4 - LENGTH);
    result := p.error;
  }

  method Parse(bytes: seq<Byte>, pseudo: U32) returns (result: ParseResult, seg: TCPSegment)
    ensures (result, seg) == ParseSegment(bytes, pseudo)
  {
    hide Sum, Fold, ParseHeader;
    var check := new InternetChecksum(pseudo);
    check.Add(bytes);
    var v := check.Complement();
    if v != 0 {
      return BadChecksum, EMPTY_SEGMENT;
    }
    var p := new NetParser(bytes);
    var h, _ := ReadHeader(p);
    seg := TCPSegment(h, p.buffer);
    result := p.error;
  }
}
