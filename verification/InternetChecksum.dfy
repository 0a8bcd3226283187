/** The Internet checksum (util.cc; section 1 of RFC 1071). */
module InternetChecksums {
  import opened Words
  import opened Parsers

  /** A byte counts as the high or the low half of a 16-bit word, in turn. */
  function Weight(b: Byte, parity: bool): nat { if parity then b else 256 * b }

  function Sum(data: seq<Byte>, parity: bool): nat {
    if data == [] then 0 else Weight(data[0], parity) + Sum(data[1..], !parity)
  }

  function ParityAfter(parity: bool, n: nat): bool { parity != (n % 2 == 1) }

  /** The end-around carry loop of `value`. */
  function Fold(sum: nat): nat
    decreases sum
  {
    if sum > 0xffff then Fold(sum / 0x1_0000 + sum % 0x1_0000) else sum
  }

  /** The 32-bit accumulator after `data`, and the 16-bit complement taken from it. */
  function Accumulate(start: U32, data: seq<Byte>): U32 { (start + Sum(data, false)) % TWO32 }

  function Value(sum: nat): U16
  {
    FoldIsWord(sum);
    0xffff - Fold(sum)
  }

  lemma {:induction false} FoldIsWord(sum: nat)
    ensures Fold(sum) <= 0xffff
    decreases sum
  {
    if sum > 0xffff { FoldIsWord(sum / 0x1_0000 + sum % 0x1_0000); }
  }

  lemma CarryKeepsResidue(sum: nat)
    ensures (sum / 0x1_0000 + sum % 0x1_0000) % 0xffff == sum % 0xffff
  {
    var q, r := sum / 0x1_0000, sum % 0x1_0000;
    assert sum == q * 0xffff + (q + r);
    ModPeels(q, q + r);
  }

  lemma ModPeels(q: nat, x: nat)
    ensures (q * 0xffff + x) % 0xffff == x % 0xffff
  {
  }

  /** Ones-complement arithmetic is arithmetic modulo 65535, except that a positive sum never folds to zero. */
  lemma {:induction false} FoldResidue(sum: nat)
    ensures Fold(sum) % 0xffff == sum % 0xffff
    ensures Fold(sum) == 0 <==> sum == 0
    decreases sum
  {
    if sum > 0xffff {
      CarryKeepsResidue(sum);
      FoldResidue(sum / 0x1_0000 + sum % 0x1_0000);
    }
  }

  /** A sum verifies exactly when it is a positive multiple of 65535. */
  lemma VerifiesIff(sum: nat)
    ensures Value(sum) == 0 <==> sum > 0 && sum % 0xffff == 0
  {
    FoldIsWord(sum);
    FoldResidue(sum);
  }

  /** Adding the complement of a sum to it makes it verify: what a sender stores, a receiver accepts. */
  lemma ComplementVerifies(sum: nat)
    ensures Value(sum + Value(sum)) == 0
  {
    FoldIsWord(sum);
    FoldResidue(sum);
    VerifiesIff(sum + Value(sum));
    var f := Fold(sum);
    assert (sum + (0xffff - f)) % 0xffff == 0 by {
      assert sum % 0xffff == f % 0xffff;
      SubResidue(sum, f);
    }
  }

  /**
   * A sum plus its checksum is the next multiple of 65535, and the last 32-bit number is one: filling in a checksum
   * never carries the accumulator past its end.
   */
  lemma NextMultiple(sum: U32)
    ensures sum + Value(sum) < TWO32
  {
    FoldIsWord(sum);
    FoldResidue(sum);
    ComplementVerifies(sum);
    var t := sum + Value(sum);
    VerifiesIff(t);
    var q := t / 0xffff;
    assert t == q * 0xffff;
    assert q <= 0x1_0001;
  }

  lemma SubResidue(a: nat, b: nat)
    requires a % 0xffff == b % 0xffff && b <= 0xffff
    ensures (a + (0xffff - b)) % 0xffff == 0
  {
    var q := a / 0xffff;
    assert a == q * 0xffff + a % 0xffff;
    if b == 0xffff {
    } else {
      assert a + (0xffff - b) == (q + 1) * 0xffff;
    }
  }

  /** The pieces in which data is added do not matter, odd lengths included. */
  lemma {:induction false} SumConcat(a: seq<Byte>, b: seq<Byte>, parity: bool)
    ensures Sum(a + b, parity) == Sum(a, parity) + Sum(b, ParityAfter(parity, |a|))
    decreases |a|
  {
    if a == [] {
      assert a + b == b;
    } else {
      assert (a + b)[1..] == a[1..] + b;
      SumConcat(a[1..], b, !parity);
    }
  }

  lemma {:induction false} SumBound(data: seq<Byte>, parity: bool)
    ensures Sum(data, parity) <= 65280 * |data|
    decreases |data|
  {
    if data != [] { SumBound(data[1..], !parity); }
  }

  /** Replacing the word at an even offset moves the sum by the difference of the words. */
  lemma WordChange(data: seq<Byte>, at: nat, hi: Byte, lo: Byte)
    requires at % 2 == 0 && at + 2 <= |data|
    ensures Sum(data[at := hi][at + 1 := lo], false) ==
            Sum(data, false) - Word(data[at], data[at + 1]) + Word(hi, lo)
  {
    var before, after := data[..at], data[at + 2..];
    var changed := data[at := hi][at + 1 := lo];
    assert data == before + ([data[at], data[at + 1]] + after);
    assert changed == before + ([hi, lo] + after);
    SumConcat(before, [data[at], data[at + 1]] + after, false);
    SumConcat(before, [hi, lo] + after, false);
    WordSum(data[at], data[at + 1], after);
    WordSum(hi, lo, after);
  }

  lemma WordSum(hi: Byte, lo: Byte, rest: seq<Byte>)
    ensures Sum([hi, lo] + rest, false) == Word(hi, lo) + Sum(rest, false)
  {
    assert ([hi, lo] + rest)[1..] == [lo] + rest;
    assert ([lo] + rest)[1..] == rest;
  }

  /** A 16-bit number, written out, adds itself to the sum. */
  lemma WordOfBytes(w: U16)
    ensures Sum(ToBytes(w, 2), false) == w
  {
    var hi, lo := w / 256, w % 256;
    assert ToBytes(hi, 1) == [hi] by { assert ToBytes(hi / 256, 0) == []; }
    assert ToBytes(w, 2) == [hi] + [lo];
    assert [hi, lo][1..] == [lo];
    WordSum(hi, lo, []);
    assert [hi, lo] + [] == [hi] + [lo];
  }

  /** The accumulator object. */
  class InternetChecksum {
    var sum: U32
    var parity: bool

    constructor (initialSum: U32)
      ensures sum == initialSum && !parity
    {
      sum, parity := initialSum, false;
    }

    method Add(data: seq<Byte>)
      modifies this
      ensures sum == (old(sum) + Sum(data, old(parity))) % TWO32
      ensures parity == ParityAfter(old(parity), |data|)
    {
      var i := 0;
      assert data[0..] == data;
      while i < |data|
        invariant 0 <= i <= |data|
        invariant parity == ParityAfter(old(parity), i)
        invariant (sum + Sum(data[i..], parity)) % TWO32 == (old(sum) + Sum(data, old(parity))) % TWO32
      {
        var val: nat := data[i];
        if !parity {
          val := val * 256;
        }
        assert data[i..][1..] == data[i + 1..];
        WrapStep(sum, val, Sum(data[i + 1..], !parity));
        sum := (sum + val) % TWO32;
        parity := !parity;
        i := i + 1;
      }
    }

    static lemma WrapStep(a: nat, b: nat, c: nat)
      ensures ((a + b) % TWO32 + c) % TWO32 == (a + (b + c)) % TWO32
    {
    }

    method Complement() returns (v: U16)
      ensures v == Value(sum)
    {
      var ret: nat := sum;
      while ret > 0xffff
        invariant Fold(ret) == Fold(sum)
        decreases ret
      {
        ret := ret / 0x1_0000 + ret % 0x1_0000;
      }
      v := 0xffff - ret;
    }
  }
}
