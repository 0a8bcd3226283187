/** 32-bit sequence numbers against 64-bit absolute ones (wrapping_integers.cc). */
module WrappingIntegers {
  import opened Words

  function Wrap(n: nat, isn: U32): U32 {
    (n % TWO32 + isn) % TWO32
  }

  function Unwrap(n: U32, isn: U32, checkpoint: U64): U64 {
    var offset := (n - isn) % TWO32;
    var t := checkpoint / TWO32 * TWO32 + offset;
    if t > checkpoint then
      if t - checkpoint > TWO32 / 2 then
        if t >= TWO32 then t - TWO32 else t
      else t
    else if checkpoint - t > TWO32 / 2 then (t + TWO32) % TWO64
    else t
  }

  /** The one branch of `Unwrap` that leaves the 64-bit range: the last 2^32 block, far past its offset. */
  predicate Overflows(n: U32, isn: U32, checkpoint: U64) {
    checkpoint >= TWO64 - TWO32 && checkpoint % TWO32 - (n - isn) % TWO32 > TWO32 / 2
  }

  /** `v` is a 64-bit number that wraps to `n`, and no other such number is nearer the checkpoint. */
  ghost predicate Nearest(v: U64, n: U32, isn: U32, checkpoint: U64) {
    && Wrap(v, isn) == n
    && forall w: U64 :: Wrap(w, isn) == n ==> Abs(v - checkpoint) <= Abs(w - checkpoint)
  }

  lemma WrapCongruent(v: nat, w: nat, isn: U32)
    ensures Wrap(v, isn) == Wrap(w, isn) <==> (v - w) % TWO32 == 0
  {
    assert v == v / TWO32 * TWO32 + v % TWO32;
    assert w == w / TWO32 * TWO32 + w % TWO32;
    var a, b := v % TWO32, w % TWO32;
    assert (v - w) % TWO32 == (a - b) % TWO32 by {
      assert v - w == (v / TWO32 - w / TWO32) * TWO32 + (a - b);
    }
  }

  lemma WrapOffset(v: nat, n: U32, isn: U32)
    ensures Wrap(v, isn) == n <==> v % TWO32 == (n - isn) % TWO32
  {
  }

  /** Two numbers that wrap alike and lie strictly less than 2^32 apart are the same number. */
  lemma WrapInjective(v: nat, w: nat, isn: U32)
    requires Abs(v - w) < TWO32
    ensures Wrap(v, isn) == Wrap(w, isn) <==> v == w
  {
    WrapCongruent(v, w, isn);
  }

  /** Every branch of `Unwrap` ends at the 32-bit offset into some block. */
  lemma UnwrapBlock(n: U32, isn: U32, checkpoint: U64) returns (q: nat)
    ensures Unwrap(n, isn, checkpoint) == q * TWO32 + (n - isn) % TWO32
  {
    var offset := (n - isn) % TWO32;
    var block := checkpoint / TWO32;
    var t := block * TWO32 + offset;
    if t > checkpoint && t - checkpoint > TWO32 / 2 && t >= TWO32 {
      q := block - 1;
    } else if t <= checkpoint && checkpoint - t > TWO32 / 2 {
      q := if block + 1 == TWO32 then 0 else block + 1;
      NextBlock(block, offset);
    } else {
      q := block;
    }
  }

  lemma NextBlock(block: nat, offset: U32)
    requires block < TWO32
    ensures (block * TWO32 + offset + TWO32) % TWO64 ==
            (if block + 1 == TWO32 then 0 else block + 1) * TWO32 + offset
  {
  }

  lemma OffsetInBlock(q: nat, offset: U32)
    ensures (q * TWO32 + offset) % TWO32 == offset
  {
  }

  lemma UnwrapCongruent(n: U32, isn: U32, checkpoint: U64)
    ensures Wrap(Unwrap(n, isn, checkpoint), isn) == n
  {
    hide Unwrap, Wrap;
    var q := UnwrapBlock(n, isn, checkpoint);
    OffsetInBlock(q, (n - isn) % TWO32);
    WrapOffset(Unwrap(n, isn, checkpoint), n, isn);
  }

  lemma UnwrapDistance(n: U32, isn: U32, checkpoint: U64)
    requires !Overflows(n, isn, checkpoint)
    ensures var v := Unwrap(n, isn, checkpoint);
      Abs(v - checkpoint) <= TWO32 / 2 || (checkpoint < v < TWO32)
  {
  }

  /** Unwrapping is exact whenever the checkpoint is within 2^31 of the true number. */
  lemma UnwrapWrap(v: U64, isn: U32, checkpoint: U64)
    requires Abs(v - checkpoint) < TWO32 / 2
    ensures Unwrap(Wrap(v, isn), isn, checkpoint) == v
  {
    var offset := (Wrap(v, isn) - isn) % TWO32;
    WrapOffset(v, Wrap(v, isn), isn);
    assert offset == v % TWO32;
    assert v == v / TWO32 * TWO32 + offset;
    var q, c := v / TWO32, checkpoint / TWO32;
    assert q == c || q == c + 1 || q == c - 1;
  }

  /** A congruent number at most 2^31 away, or below 2^32 with the checkpoint below it, is nearest. */
  lemma CloseIsNearest(v: U64, n: U32, isn: U32, checkpoint: U64)
    requires Wrap(v, isn) == n
    requires Abs(v - checkpoint) <= TWO32 / 2 || (checkpoint < v < TWO32)
    ensures Nearest(v, n, isn, checkpoint)
  {
    forall w: U64 | Wrap(w, isn) == n
      ensures Abs(v - checkpoint) <= Abs(w - checkpoint)
    {
      WrapCongruent(v, w, isn);
      assert v == w || v - w >= TWO32 || w - v >= TWO32;
    }
  }

  lemma OverflowMissesNearest(n: U32, isn: U32, checkpoint: U64)
    requires Overflows(n, isn, checkpoint)
    ensures Unwrap(n, isn, checkpoint) == (n - isn) % TWO32
    ensures !Nearest(Unwrap(n, isn, checkpoint), n, isn, checkpoint)
  {
    var offset := (n - isn) % TWO32;
    var near: U64 := TWO64 - TWO32 + offset;
    assert checkpoint / TWO32 == TWO32 - 1;
    assert near % TWO32 == offset;
    WrapOffset(near, n, isn);
    assert Wrap(near, isn) == n;
    assert Abs(near - checkpoint) < Abs(offset - checkpoint);
  }

  /** `Unwrap` meets its promise exactly when the forward correction stays inside 64 bits. */
  lemma UnwrapNearestIff(n: U32, isn: U32, checkpoint: U64)
    ensures Nearest(Unwrap(n, isn, checkpoint), n, isn, checkpoint) <==> !Overflows(n, isn, checkpoint)
  {
    if Overflows(n, isn, checkpoint) {
      OverflowMissesNearest(n, isn, checkpoint);
    } else {
      UnwrapCongruent(n, isn, checkpoint);
      UnwrapDistance(n, isn, checkpoint);
      CloseIsNearest(Unwrap(n, isn, checkpoint), n, isn, checkpoint);
    }
  }

  /** The far value: with checkpoint 2^64 - 1 and offset 0 the result is 0, although 2^64 - 2^32 is nearer. */
  lemma UnwrapOverflowExample()
    ensures Unwrap(0, 0, TWO64 - 1) == 0
    ensures Overflows(0, 0, TWO64 - 1)
    ensures Wrap(TWO64 - TWO32, 0) == 0
    ensures !Nearest(Unwrap(0, 0, TWO64 - 1), 0, 0, TWO64 - 1)
  {
    UnwrapNearestIff(0, 0, TWO64 - 1);
  }
}
