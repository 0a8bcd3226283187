/** Big-endian integers read from and written to byte strings (parser.hh, parser.cc). */
module Parsers {
  import opened Words

  datatype ParseResult =
    | NoError | BadChecksum | PacketTooShort | WrongIPVersion | HeaderTooShort | TruncatedPacket | Unsupported

  /** What a `NetParser` still has to read, and its sticky error. */
  datatype Parser = Parser(buffer: seq<Byte>, error: ParseResult)

  function Power256(n: nat): (p: nat)
    ensures p >= 1
  {
    if n == 0 then 1 else 256 * Power256(n - 1)
  }

  function FromBytes(b: seq<Byte>): nat {
    if b == [] then 0 else FromBytes(b[..|b| - 1]) * 256 + b[|b| - 1]
  }

  function ToBytes(val: nat, n: nat): (b: seq<Byte>)
    ensures |b| == n
  {
    if n == 0 then [] else ToBytes(val / 256, n - 1) + [val % 256]
  }

  function CheckSize(p: Parser, n: nat): Parser {
    if n > |p.buffer| then p.(error := PacketTooShort) else p
  }

  /** `_parse_int`: zero, and nothing consumed, once there is an error. */
  function ParseInt(p: Parser, n: nat): (r: (nat, Parser))
    ensures r.0 < Power256(n)
  {
    var c := CheckSize(p, n);
    if c.error != NoError || n > |p.buffer| then (0, c)
    else
      FromBytesBound(p.buffer[..n]);
      (FromBytes(p.buffer[..n]), c.(buffer := p.buffer[n..]))
  }

  function ParseU8(p: Parser): (U8, Parser) { WordPowers(); ParseInt(p, 1) }

  function ParseU16(p: Parser): (U16, Parser) { WordPowers(); ParseInt(p, 2) }

  function ParseU32(p: Parser): (U32, Parser) { WordPowers(); ParseInt(p, 4) }

  function RemovePrefix(p: Parser, n: nat): Parser {
    var c := CheckSize(p, n);
    if c.error != NoError || n > |p.buffer| then c else c.(buffer := p.buffer[n..])
  }

  /** What `resize` pads a header with. */
  function Zeros(n: nat): (z: seq<Byte>)
    ensures |z| == n
  {
    seq(n, _ => 0)
  }

  lemma {:induction false} FromBytesBound(b: seq<Byte>)
    ensures FromBytes(b) < Power256(|b|)
    decreases |b|
  {
    if b != [] { FromBytesBound(b[..|b| - 1]); }
  }

  /** Reading back what was written gives the number, cut to the width it was written in. */
  lemma {:induction false} FromToBytes(val: nat, n: nat)
    requires val < Power256(n)
    ensures FromBytes(ToBytes(val, n)) == val
    decreases n
  {
    if n > 0 {
      var b := ToBytes(val, n);
      assert b[..n - 1] == ToBytes(val / 256, n - 1);
      FromToBytes(val / 256, n - 1);
    }
  }

  lemma {:induction false} ToFromBytes(b: seq<Byte>)
    ensures ToBytes(FromBytes(b), |b|) == b
    decreases |b|
  {
    if b != [] {
      ToFromBytes(b[..|b| - 1]);
      assert b == b[..|b| - 1] + [b[|b| - 1]];
    }
  }

  /** Parsing consumes exactly what was written in front of the rest. */
  lemma ParseWritten(val: nat, n: nat, rest: seq<Byte>)
    requires val < Power256(n)
    ensures ParseInt(Parser(ToBytes(val, n) + rest, NoError), n) == (val, Parser(rest, NoError))
  {
    var b := ToBytes(val, n) + rest;
    assert b[..n] == ToBytes(val, n) && b[n..] == rest;
    FromToBytes(val, n);
  }

  lemma WordPowers()
    ensures Power256(1) == 0x100 && Power256(2) == 0x1_0000 && Power256(4) == 0x1_0000_0000
  {
    assert Power256(3) == 0x100_0000;
  }

  lemma U8Written(val: U8, rest: seq<Byte>)
    ensures ParseU8(Parser(ToBytes(val, 1) + rest, NoError)) == (val, Parser(rest, NoError))
  {
    WordPowers();
    ParseWritten(val, 1, rest);
  }

  lemma U16Written(val: U16, rest: seq<Byte>)
    ensures ParseU16(Parser(ToBytes(val, 2) + rest, NoError)) == (val, Parser(rest, NoError))
  {
    WordPowers();
    ParseWritten(val, 2, rest);
  }

  lemma U32Written(val: U32, rest: seq<Byte>)
    ensures ParseU32(Parser(ToBytes(val, 4) + rest, NoError)) == (val, Parser(rest, NoError))
  {
    WordPowers();
    ParseWritten(val, 4, rest);
  }

  lemma ReadOne(b: seq<Byte>)
    requires |b| >= 1
    ensures ParseU8(Parser(b, NoError)) == (b[0], Parser(b[1..], NoError))
  {
    assert b[..1] == [b[0]];
    assert FromBytes([b[0]]) == b[0];
  }

  lemma ReadTwo(b: seq<Byte>)
    requires |b| >= 2
    ensures ParseU16(Parser(b, NoError)) == (Word(b[0], b[1]), Parser(b[2..], NoError))
  {
    assert b[..2][..1] == [b[0]];
    assert FromBytes([b[0]]) == b[0];
    assert FromBytes(b[..2]) == Word(b[0], b[1]);
  }

  /** A read that succeeds consumes its width. */
  lemma ReadConsumes(b: seq<Byte>, n: nat)
    requires |b| >= n
    ensures ParseInt(Parser(b, NoError), n).1 == Parser(b[n..], NoError)
  {
  }

  lemma SkipZeros(n: nat, tail: seq<Byte>)
    ensures RemovePrefix(Parser(Zeros(n) + tail, NoError), n) == Parser(tail, NoError)
  {
    assert (Zeros(n) + tail)[n..] == tail;
  }

  /** The parser object. */
  class NetParser {
    var buffer: seq<Byte>
    var error: ParseResult

    ghost function Model(): Parser
      reads this
    {
      Parser(buffer, error)
    }

    constructor (buffer: seq<Byte>)
      ensures Model() == Parser(buffer, NoError)
    {
      this.buffer, error := buffer, NoError;
    }

    method U8At() returns (val: U8)
      modifies this
      ensures (val, Model()) == ParseU8(old(Model()))
    {
      WordPowers();
      val := Int(1);
    }

    method U16At() returns (val: U16)
      modifies this
      ensures (val, Model()) == ParseU16(old(Model()))
    {
      WordPowers();
      val := Int(2);
    }

    method U32At() returns (val: U32)
      modifies this
      ensures (val, Model()) == ParseU32(old(Model()))
    {
      WordPowers();
      val := Int(4);
    }

    /** The template `_parse_int`, with the width of the type as `n`. */
    method Int(n: nat) returns (val: nat)
      modifies this
      ensures (val, Model()) == ParseInt(old(Model()), n)
      ensures val < Power256(n)
    {
      if n > |buffer| {
        error := PacketTooShort;
      }
      if error != NoError {
        return 0;
      }
      val := 0;
      var i := 0;
      while i < n
        invariant 0 <= i <= n && val == FromBytes(buffer[..i])
        invariant buffer == old(buffer) && error == old(error)
      {
        assert buffer[..i + 1][..i] == buffer[..i];
        val := val * 256 + buffer[i];
        i := i + 1;
      }
      FromBytesBound(buffer[..n]);
      buffer := buffer[n..];
    }

    method Skip(n: nat)
      modifies this
      ensures Model() == RemovePrefix(old(Model()), n)
    {
      if n > |buffer| {
        error := PacketTooShort;
      }
      if error != NoError {
        return;
      }
      buffer := buffer[n..];
    }
  }

  /** `val >> (8 * k)`. */
  function ShiftBytes(val: nat, k: nat): nat
    decreases k
  {
    if k == 0 then val else ShiftBytes(val / 256, k - 1)
  }

  lemma {:induction false} ByteAt(val: nat, n: nat, i: nat)
    requires i < n
    ensures ToBytes(val, n)[i] == ShiftBytes(val, n - i - 1) % 256
    decreases n
  {
    if i < n - 1 {
      ByteAt(val / 256, n - 1, i);
    }
  }

  /** `_unparse_int`: shift the bytes out from the top. */
  method Unparse(s: seq<Byte>, val: nat, n: nat) returns (r: seq<Byte>)
    ensures r == s + ToBytes(val, n)
  {
    var i := 0;
    r := s;
    while i < n
      invariant 0 <= i <= n && r == s + ToBytes(val, n)[..i]
    {
      ByteAt(val, n, i);
      r := r + [ShiftBytes(val, n - i - 1) % 256];
      i := i + 1;
    }
    assert ToBytes(val, n)[..n] == ToBytes(val, n);
  }
}
