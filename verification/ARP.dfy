/** ARP messages and Ethernet frames (arp_message.cc, ethernet_frame.hh, ethernet_header.hh; RFC 826). */
module ARP {
  import opened Words
  import opened Parsers

  type EthernetAddress = a: seq<Byte> | |a| == 6 witness [0, 0, 0, 0, 0, 0]

  const NO_ADDRESS: EthernetAddress := [0, 0, 0, 0, 0, 0]
  const ETHERNET_BROADCAST: EthernetAddress := [0xff, 0xff, 0xff, 0xff, 0xff, 0xff]
  const TYPE_IPv4: U16 := 0x800
  const TYPE_ARP: U16 := 0x806
  const TYPE_ETHERNET: U16 := 1
  const OPCODE_REQUEST: U16 := 1
  const OPCODE_REPLY: U16 := 2
  const LENGTH: nat := 28

  datatype EthernetFrame = EthernetFrame(dst: EthernetAddress, src: EthernetAddress, etherType: U16, payload: seq<Byte>)

  datatype ARPMessage = ARPMessage(
    hardwareType: U16, protocolType: U16, hardwareSize: U8, protocolSize: U8, opcode: U16,
    senderEthernet: EthernetAddress, senderIp: U32, targetEthernet: EthernetAddress, targetIp: U32)

  /** A message with the defaults of the source in the fields the interface does not set. */
  function Message(opcode: U16, senderEthernet: EthernetAddress, senderIp: U32,
                   targetEthernet: EthernetAddress, targetIp: U32): ARPMessage {
    ARPMessage(TYPE_ETHERNET, TYPE_IPv4, 6, 4, opcode, senderEthernet, senderIp, targetEthernet, targetIp)
  }

  predicate Supported(m: ARPMessage) {
    && m.hardwareType == TYPE_ETHERNET && m.protocolType == TYPE_IPv4
    && m.hardwareSize == 6 && m.protocolSize == 4
    && (m.opcode == OPCODE_REQUEST || m.opcode == OPCODE_REPLY)
  }

  function Bytes(m: ARPMessage, tail: seq<Byte>): seq<Byte> {
    ToBytes(m.hardwareType, 2) + (ToBytes(m.protocolType, 2) + (ToBytes(m.hardwareSize, 1) + (ToBytes(m.protocolSize, 1)
      + (ToBytes(m.opcode, 2) + (m.senderEthernet + (ToBytes(m.senderIp, 4) + (m.targetEthernet
      + (ToBytes(m.targetIp, 4) + tail))))))))
  }

  /** `None` where the source throws. */
  function Serialize(m: ARPMessage): Option<seq<Byte>> {
    if Supported(m) then Some(Bytes(m, [])) else None
  }

  /** Six bytes in a row. */
  function ParseAddress(p: Parser): (EthernetAddress, Parser)
    requires p.error == NoError && |p.buffer| >= 6
  {
    (p.buffer[..6], p.(buffer := p.buffer[6..]))
  }

  const EMPTY_MESSAGE: ARPMessage := Message(0, NO_ADDRESS, 0, NO_ADDRESS, 0)

  function Parse(bytes: seq<Byte>): (ParseResult, ARPMessage) {
    if |bytes| < LENGTH then (PacketTooShort, EMPTY_MESSAGE)
    else
      var (hardwareType, p1) := ParseU16(Parser(bytes, NoError));
      var (protocolType, p2) := ParseU16(p1);
      var (hardwareSize, p3) := ParseU8(p2);
      var (protocolSize, p4) := ParseU8(p3);
      var (opcode, p5) := ParseU16(p4);
      var m := ARPMessage(hardwareType, protocolType, hardwareSize, protocolSize, opcode, NO_ADDRESS, 0, NO_ADDRESS, 0);
      if !Supported(m) then (Unsupported, m)
      else
        var (senderEthernet, p6) := ParseAddress(p5);
        var (senderIp, p7) := ParseU32(p6);
        var (targetEthernet, p8) := ParseAddress(p7);
        var (targetIp, p9) := ParseU32(p8);
        (p9.error, m.(senderEthernet := senderEthernet, senderIp := senderIp,
                      targetEthernet := targetEthernet, targetIp := targetIp))
  }

  /** A message comes back as it was written, whatever padding follows it. */
  lemma RoundTrip(m: ARPMessage, padding: seq<Byte>)
    requires Supported(m)
    ensures Parse(Bytes(m, padding)) == (NoError, m)
  {
    hide ToBytes, ParseU8, ParseU16, ParseU32;
    var t8 := ToBytes(m.targetIp, 4) + padding;
    var t7 := m.targetEthernet + t8;
    var t6 := ToBytes(m.senderIp, 4) + t7;
    var t5 := m.senderEthernet + t6;
    var t4 := ToBytes(m.opcode, 2) + t5;
    var t3 := ToBytes(m.protocolSize, 1) + t4;
    var t2 := ToBytes(m.hardwareSize, 1) + t3;
    var t1 := ToBytes(m.protocolType, 2) + t2;
    U16Written(m.hardwareType, t1);
    U16Written(m.protocolType, t2);
    U8Written(m.hardwareSize, t3);
    U8Written(m.protocolSize, t4);
    U16Written(m.opcode, t5);
    U32Written(m.senderIp, t7);
    U32Written(m.targetIp, padding);
    assert t5[..6] == m.senderEthernet && t5[6..] == t6;
    assert t7[..6] == m.targetEthernet && t7[6..] == t8;
  }

  /** Nothing else is accepted: an accepted message, written out again, is the first 28 bytes. */
  lemma AcceptsOnlyMessages(bytes: seq<Byte>)
    ensures Parse(bytes).0 == NoError <==> exists m, tail :: Supported(m) && bytes == Bytes(m, tail)
    ensures Parse(bytes).0 == NoError ==> Supported(Parse(bytes).1) && bytes == Bytes(Parse(bytes).1, bytes[LENGTH..])
  {
    if Parse(bytes).0 == NoError {
      WrittenAgain(bytes);
    }
    if m, tail :| Supported(m) && bytes == Bytes(m, tail) {
      RoundTrip(m, tail);
    }
  }

  /** What a successful read took off the front. */
  lemma Taken(p: Parser, n: nat)
    requires p.error == NoError && |p.buffer| >= n
    ensures var (v, q) := ParseInt(p, n);
            q.error == NoError && |q.buffer| == |p.buffer| - n && p.buffer == ToBytes(v, n) + q.buffer
  {
    ToFromBytes(p.buffer[..n]);
  }

  lemma AddressTaken(p: Parser)
    requires p.error == NoError && |p.buffer| >= 6
    ensures var (a, q) := ParseAddress(p);
            q.error == NoError && |q.buffer| == |p.buffer| - 6 && p.buffer == a + q.buffer
  {
  }

  lemma WrittenAgain(bytes: seq<Byte>)
    requires Parse(bytes).0 == NoError
    ensures Supported(Parse(bytes).1) && bytes == Bytes(Parse(bytes).1, bytes[LENGTH..])
  {
    hide ToBytes, ParseInt, ParseAddress;
    var p1 := ParseU16(Parser(bytes, NoError)).1;
    Taken(Parser(bytes, NoError), 2);
    var p2 := ParseU16(p1).1;
    Taken(p1, 2);
    var p3 := ParseU8(p2).1;
    Taken(p2, 1);
    var p4 := ParseU8(p3).1;
    Taken(p3, 1);
    var p5 := ParseU16(p4).1;
    Taken(p4, 2);
    var p6 := ParseAddress(p5).1;
    AddressTaken(p5);
    var p7 := ParseU32(p6).1;
    Taken(p6, 4);
    var p8 := ParseAddress(p7).1;
    AddressTaken(p7);
    var p9 := ParseU32(p8).1;
    Taken(p8, 4);
    var m := Parse(bytes).1;
    assert bytes == Bytes(m, p9.buffer);
    BytesTail(m, p9.buffer);
  }

  lemma BytesTail(m: ARPMessage, tail: seq<Byte>)
    ensures Bytes(m, tail)[LENGTH..] == tail
  {
  }

  /** The fields of an accepted message, each where RFC 826 places it, and the constants it must carry. */
  lemma Layout(bytes: seq<Byte>)
    ensures Parse(bytes).0 == NoError <==>
      |bytes| >= 28 && bytes[..6] == [0, 1, 8, 0, 6, 4] && bytes[6] == 0 && (bytes[7] == 1 || bytes[7] == 2)
    ensures Parse(bytes).0 == NoError ==>
      var m := Parse(bytes).1;
      && m.opcode == bytes[7] && m.senderEthernet == bytes[8..14] && m.senderIp == FromBytes(bytes[14..18])
      && m.targetEthernet == bytes[18..24] && m.targetIp == FromBytes(bytes[24..28])
  {
    hide FromBytes, Parse, Word;
    TooShort(bytes);
    if |bytes| >= 28 {
      FieldsAt(bytes);
      SupportedWords(bytes[0], bytes[1]);
      SupportedWords(bytes[2], bytes[3]);
      SupportedWords(bytes[6], bytes[7]);
      assert bytes[..6] == [bytes[0], bytes[1], bytes[2], bytes[3], bytes[4], bytes[5]];
    }
  }

  lemma TooShort(bytes: seq<Byte>)
    ensures |bytes| < 28 ==> Parse(bytes).0 == PacketTooShort
  {
  }

  lemma SupportedWords(hi: Byte, lo: Byte)
    ensures Word(hi, lo) == 1 <==> hi == 0 && lo == 1
    ensures Word(hi, lo) == 2 <==> hi == 0 && lo == 2
    ensures Word(hi, lo) == 0x800 <==> hi == 8 && lo == 0
  {
  }

  lemma FieldsAt(bytes: seq<Byte>)
    requires |bytes| >= 28
    ensures var (r, m) := Parse(bytes);
      && m.hardwareType == Word(bytes[0], bytes[1]) && m.protocolType == Word(bytes[2], bytes[3])
      && m.hardwareSize == bytes[4] && m.protocolSize == bytes[5] && m.opcode == Word(bytes[6], bytes[7])
      && (r == NoError <==> Supported(m))
      && (r == NoError ==>
            && m.senderEthernet == bytes[8..14] && m.senderIp == FromBytes(bytes[14..18])
            && m.targetEthernet == bytes[18..24] && m.targetIp == FromBytes(bytes[24..28]))
  {
    ReadTwo(bytes);
    ReadTwo(bytes[2..]);
    ReadTwo(bytes[6..]);
    hide FromBytes;
    ReadOne(bytes[4..]);
    ReadOne(bytes[5..]);
    assert bytes[2..][2..] == bytes[4..];
    assert bytes[4..][1..] == bytes[5..];
    assert bytes[5..][1..] == bytes[6..];
    assert bytes[6..][2..] == bytes[8..];
    assert bytes[8..][..6] == bytes[8..14] && bytes[8..][6..] == bytes[14..];
    assert bytes[14..][..4] == bytes[14..18] && bytes[14..][4..] == bytes[18..];
    assert bytes[18..][..6] == bytes[18..24] && bytes[18..][6..] == bytes[24..];
    assert bytes[24..][..4] == bytes[24..28];
  }

  // ---------------------------------------------------------------- the code's own steps

  /** The loop over the six bytes of an address. */
  method ReadAddress(p: NetParser) returns (a: EthernetAddress)
    requires p.error == NoError && |p.buffer| >= 6
    modifies p
    ensures (a, p.Model()) == ParseAddress(old(p.Model()))
  {
    var s: seq<Byte> := [];
    ghost var all := p.buffer;
    while |s| < 6
      invariant |s| <= 6 && s == all[..|s|]
      invariant p.Model() == Parser(all[|s|..], NoError)
    {
      assert p.buffer[..1][..0] == [] && FromBytes(p.buffer[..1][..0]) == 0;
      var b := p.U8At();
      s := s + [b];
    }
    a := s;
  }

  method Read(bytes: seq<Byte>) returns (result: ParseResult, m: ARPMessage)
    ensures (result, m) == Parse(bytes)
  {
    hide ParseU8, ParseU16, ParseU32;
    if |bytes| < LENGTH {
      return PacketTooShort, EMPTY_MESSAGE;
    }
    var p := new NetParser(bytes);
    FrontFields(bytes);
    var hardwareType := p.U16At();
    var protocolType := p.U16At();
    var hardwareSize := p.U8At();
    var protocolSize := p.U8At();
    var opcode := p.U16At();
    m := ARPMessage(hardwareType, protocolType, hardwareSize, protocolSize, opcode, NO_ADDRESS, 0, NO_ADDRESS, 0);
    if !Supported(m) {
      return Unsupported, m;
    }
    var senderEthernet := ReadAddress(p);
    var senderIp := p.U32At();
    Enough(bytes);
    var targetEthernet := ReadAddress(p);
    var targetIp := p.U32At();
    m := m.(senderEthernet := senderEthernet, senderIp := senderIp, targetEthernet := targetEthernet,
      targetIp := targetIp);
    result := p.error;
  }

  lemma FrontFields(bytes: seq<Byte>)
    requires |bytes| >= LENGTH
    ensures var p := ParseU16(ParseU8(ParseU8(ParseU16(ParseU16(Parser(bytes, NoError)).1).1).1).1).1;
            p.error == NoError && |p.buffer| == |bytes| - 8
  {
  }

  lemma Enough(bytes: seq<Byte>)
    requires |bytes| >= LENGTH
    ensures var p5 := ParseU16(ParseU8(ParseU8(ParseU16(ParseU16(Parser(bytes, NoError)).1).1).1).1).1;
            && p5.error == NoError && |p5.buffer| >= 6
            && var p7 := ParseU32(ParseAddress(p5).1).1; p7.error == NoError && |p7.buffer| >= 6
  {
  }

  method Write(m: ARPMessage) returns (r: Option<seq<Byte>>)
    ensures r == Serialize(m)
  {
    hide ToBytes;
    if !Supported(m) {
      return None;
    }
    var ret := Unparse([], m.hardwareType, 2);
    ret := Unparse(ret, m.protocolType, 2);
    ret := Unparse(ret, m.hardwareSize, 1);
    ret := Unparse(ret, m.protocolSize, 1);
    ret := Unparse(ret, m.opcode, 2);
    ret := ret + m.senderEthernet;
    ret := Unparse(ret, m.senderIp, 4);
    ret := ret + m.targetEthernet;
    ret := Unparse(ret, m.targetIp, 4);
    assert ret == Bytes(m, []);
    r := Some(ret);
  }
}
