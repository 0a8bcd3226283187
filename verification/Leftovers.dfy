/**
 What the reassembler keeps when its output fills up in the middle of a stored fragment, and why it cannot stall
 a sender whose segments never overlap (stream_reassembler.cc).
 */
module Leftovers {
  import opened Words
  import opened OrderedMaps
  import opened ByteStreams
  import opened Reassembly

  /**
   Pushing at a stored leftover moves the assembled end if and only if the stream is open and the leftover ends below
   the edge. One that reaches the edge makes the push fail the window test, which comes before the drain loop: nothing
   is assembled, although the output may have room again.
   */
  lemma LeftoverAdvancesIff(r: Reassembler, data: seq<Byte>, eof: bool)
    requires Inv(r) && r.next in r.frags
    ensures Push(r, data, r.next, eof).next > r.next <==> Open(r) && r.next + |r.frags[r.next]| < Edge(r)
    ensures Edge(r) <= r.next + |r.frags[r.next]| ==> Push(r, data, r.next, eof).out == r.out
  {
    hide Drain, Filled, Total, Trim, Finish, Ordered;
    KeyIsFloor(r);
    if Edge(r) <= r.next + |r.frags[r.next]| {
      TrimKeepsEnd(r, data);
    } else if Open(r) {
      PushLeast(r, data, r.next, eof);
      assert Covers(r.frags, r.next, r.next);
      PushHolds(r, data, r.next, eof, r.next);
      PushInv(r, data, r.next, eof);
    } else {
      ClosedStands(r, data, eof);
    }
  }

  lemma KeyIsFloor(r: Reassembler)
    requires Inv(r) && r.next in r.frags
    ensures FloorKey(r.frags, r.next) == Some(r.next) && |r.frags[r.next]| > 0
  {
  }

  lemma TrimKeepsEnd(r: Reassembler, data: seq<Byte>)
    ensures Trim(r, data, r.next).0.next == r.next && Trim(r, data, r.next).0.out == r.out
  {
  }

  /** A stream that takes nothing assembles nothing. */
  lemma ClosedStands(r: Reassembler, data: seq<Byte>, eof: bool)
    requires Inv(r) && !Open(r)
    ensures Push(r, data, r.next, eof).next == r.next
  {
    if !Rejects(r, r.next) {
      FilledSpec(r, data, r.next);
      var f := Filled(r, data, r.next);
      assert f.next == r.next && !Open(f);
      DrainUnfold(f);
      assert f.next in f.frags ==> |f.frags[f.next]| > 0;
    }
  }

  /** The range `[index, index + length)` lies inside one logged segment; the log counts the SYN, so it is one ahead. */
  ghost predicate Within(log: map<nat, nat>, index: nat, length: nat) {
    exists a :: a in log && a <= index + 1 && index + 1 + length <= a + log[a]
  }

  /** Stream index `index` is not the first of a logged segment but a later one. */
  ghost predicate Interior(log: map<nat, nat>, index: nat) {
    exists a :: a in log && a < index + 1 < a + log[a]
  }

  /** Every fragment is part of one segment, and a fragment that is next in line begins inside its segment. */
  ghost predicate Parts(r: Reassembler, log: map<nat, nat>) {
    && (forall k :: k in r.frags ==> Within(log, k, |r.frags[k]|))
    && (r.next in r.frags ==> Interior(log, r.next))
  }

  ghost predicate AllWithin(m: Fragments, log: map<nat, nat>) {
    forall k :: k in m ==> Within(log, k, |m[k]|)
  }

  lemma WithinPart(log: map<nat, nat>, index: nat, length: nat, lo: nat, hi: nat)
    requires Within(log, index, length) && lo <= hi <= length
    ensures Within(log, index + lo, hi - lo)
    ensures 0 < lo < length ==> Interior(log, index + lo)
  {
    var a :| a in log && a <= index + 1 && index + 1 + length <= a + log[a];
  }

  lemma {:induction false} DrainParts(r: Reassembler, log: map<nat, nat>)
    requires Inv(r) && AllWithin(r.frags, log)
    ensures Parts(Drain(r), log)
    decreases |r.frags|
  {
    DrainUnfold(r);
    if r.next in r.frags {
      var data := r.frags[r.next];
      var n := Accepts(r.out, |data|);
      if n < |data| {
        WithinPart(log, r.next, |data|, n, |data|);
      } else {
        DrainOneSpec(r);
        DrainParts(DrainOne(r), log);
      }
    }
  }

  lemma StoreWithin(t: Reassembler, start: nat, data: seq<Byte>, log: map<nat, nat>)
    requires AllWithin(t.frags, log) && Within(log, start, |data|)
    ensures AllWithin(Store(t, start, data).frags, log)
  {
    var n := Accepts(t.out, |data|);
    WithinPart(log, start, |data|, n, |data|);
  }

  lemma TrimWithin(r: Reassembler, data: seq<Byte>, index: nat, log: map<nat, nat>)
    requires AllWithin(r.frags, log)
    ensures AllWithin(Trim(r, data, index).0.frags, log)
  {
  }

  lemma FilledWithin(r: Reassembler, data: seq<Byte>, index: nat, log: map<nat, nat>)
    requires Inv(r) && AllWithin(r.frags, log) && (data == [] || Within(log, index, |data|))
    ensures AllWithin(Filled(r, data, index).frags, log)
  {
    hide Within, AllWithin, Ordered, Total, Store, Trim, Disjoint, SubMap, Clear;
    TrimSpec(r, data, index);
    TrimWithin(r, data, index, log);
    var (t, start, cut) := Trim(r, data, index);
    if start < cut {
      WithinPart(log, index, |data|, start - index, cut - index);
      StoreWithin(t, start, data[start - index..cut - index], log);
    }
  }

  /** Pushes of whole segments keep it so. */
  lemma PushParts(r: Reassembler, data: seq<Byte>, index: nat, eof: bool, log: map<nat, nat>)
    requires Inv(r) && Parts(r, log) && (data == [] || Within(log, index, |data|))
    ensures Parts(Push(r, data, index, eof), log)
  {
    if Rejects(r, index) {
      TrimSpec(r, data, index);
    } else {
      FilledSpec(r, data, index);
      FilledWithin(r, data, index, log);
      DrainParts(Filled(r, data, index), log);
    }
  }
}
