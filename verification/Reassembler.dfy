/**
 What `push_substring` does to the reassembler's state (stream_reassembler.cc), as functions on values,
 and what that means: which stream indices are held afterwards, and with which bytes.
 */
module Reassembly {
  import opened Words
  import opened OrderedMaps
  import opened ByteStreams

  /** `count` is the running `_unassembled_bytes_num`; `eof` is `None` while the source's marker is -1. */
  datatype Reassembler = Reassembler(frags: Fragments, next: nat, count: int, eof: Option<nat>, out: Stream)

  function Fresh(capacity: nat): Reassembler {
    Reassembler(map[], 0, 0, None, StreamState([], 0, capacity, false, false))
  }

  /** `first_unacceptable_idx`: no byte at or past it is kept. */
  function Edge(r: Reassembler): nat { r.next + Remaining(r.out) }

  /** Where the part of a push that is not already held begins. */
  function NewIndex(r: Reassembler, index: nat): (i: nat)
    ensures i >= index
  {
    match FloorKey(r.frags, index)
    case Some(up) => if index < up + |r.frags[up]| then up + |r.frags[up]| else index
    case None => if index < r.next then r.next else index
  }

  /** The fragments that lie wholly inside `[lo, end)`. */
  function Covered(m: Fragments, lo: nat, end: nat): set<nat> {
    set k | k in m && lo <= k && k + |m[k]| <= end
  }

  /** Where `[lo, end)` is cut short: at the first fragment in it that is left once the covered ones are gone. */
  function CutPoint(rest: Fragments, lo: nat, end: nat): (cut: nat)
    ensures cut <= end
  {
    match CeilKey(rest, lo)
    case None => end
    case Some(k) => Min(k, end)
  }

  /** Write the new bytes when they are next in line, keeping what the output refuses; otherwise store them. */
  function Store(r: Reassembler, newIdx: nat, data: seq<Byte>): Reassembler {
    if newIdx == r.next then
      var n := Accepts(r.out, |data|);
      var r' := r.(out := Write(r.out, data), next := r.next + n);
      if n < |data| then
        r'.(frags := Insert(r.frags, r.next + n, data[n..]), count := r.count + |data| - n)
      else r'
    else
      r.(frags := Insert(r.frags, newIdx, data), count := r.count + |data|)
  }

  /** One round of the drain loop that writes its fragment whole. */
  function DrainOne(r: Reassembler): Reassembler
    requires r.next in r.frags
  {
    var data := r.frags[r.next];
    r.(out := Write(r.out, data), next := r.next + |data|, frags := r.frags - {r.next}, count := r.count - |data|)
  }

  /** The last round: the output refuses some of the fragment. What it refuses is kept unless it refuses all of it. */
  function DrainLast(r: Reassembler): Reassembler
    requires r.next in r.frags
  {
    var data := r.frags[r.next];
    var n := Accepts(r.out, |data|);
    r.(out := Write(r.out, data), next := r.next + n,
       frags := Insert(r.frags, r.next + n, data[n..]) - {r.next}, count := r.count + |data| - n - |data|)
  }

  /** Move fragments that have become next in line to the output, until one is missing or the output is full. */
  function Drain(r: Reassembler): Reassembler
    decreases |r.frags|
  {
    match CeilKey(r.frags, 0)
    case None => r
    case Some(k) =>
      if k != r.next then r
      else if Accepts(r.out, |r.frags[k]|) < |r.frags[k]| then DrainLast(r)
      else
        RemoveShrinks(r.frags, k);
        Drain(DrainOne(r))
  }

  function Finish(r: Reassembler, end: nat, eof: bool): Reassembler {
    var mark := if eof then Some(end) else r.eof;
    r.(eof := mark, out := if mark.Some? && mark.value <= r.next then r.out.(ended := true) else r.out)
  }

  /** The state once the fragments the push covers are erased, and the range `[start, cut)` that is new. */
  ghost function Trim(r: Reassembler, data: seq<Byte>, index: nat): (t: (Reassembler, nat, nat))
    ensures index <= t.1 && t.2 <= index + |data|
  {
    var start, end := NewIndex(r, index), index + |data|;
    var rest := r.frags - Covered(r.frags, start, end);
    (r.(frags := rest, count := r.count - (Total(r.frags) - Total(rest))), start, CutPoint(rest, start, end))
  }

  predicate Rejects(r: Reassembler, index: nat) { Edge(r) <= NewIndex(r, index) }

  /** The state once the new range is written or stored. */
  ghost function Filled(r: Reassembler, data: seq<Byte>, index: nat): Reassembler {
    var (t, start, cut) := Trim(r, data, index);
    if start < cut then Store(t, start, data[start - index..cut - index]) else t
  }

  ghost function Push(r: Reassembler, data: seq<Byte>, index: nat, eof: bool): Reassembler {
    if Rejects(r, index) then Trim(r, data, index).0
    else Finish(Drain(Filled(r, data, index)), index + |data|, eof)
  }

  // ---------------------------------------------------------------- invariants

  /** Fragments are disjoint, lie at or after the next byte, and start before the edge unless the output is full. */
  ghost predicate Ordered(r: Reassembler) {
    && r.next == |r.out.all|
    && Disjoint(r.frags)
    && (forall k :: k in r.frags ==> r.next <= k <= Edge(r))
    && (forall k :: k in r.frags && k == Edge(r) ==> k == r.next)
  }

  /** The structure every call keeps; the counter never falls below the bytes stored. */
  ghost predicate Inv(r: Reassembler) {
    Ordered(r) && Total(r.frags) <= r.count
  }

  /** Index `i` is assembled or stored. */
  ghost predicate Holds(r: Reassembler, i: nat) {
    i < r.next || Stored(r.frags, i)
  }

  ghost predicate Slice(s: seq<Byte>, index: nat, data: seq<Byte>) {
    index + |data| <= |s| && data == s[index..index + |data|]
  }

  /** A push of no bytes fits anywhere. */
  ghost predicate Fits(s: seq<Byte>, index: nat, data: seq<Byte>) {
    data == [] || Slice(s, index, data)
  }

  /** Everything assembled or stored is the stream `s` at its own index. */
  ghost predicate Agrees(r: Reassembler, s: seq<Byte>) {
    && Slice(s, 0, r.out.all)
    && forall k :: k in r.frags ==> Slice(s, k, r.frags[k])
  }

  ghost predicate Open(r: Reassembler) { !r.out.ended && !r.out.error }

  /** By how much `unassembled_bytes` exceeds what is stored. */
  ghost function Surplus(r: Reassembler): int { r.count - Total(r.frags) }

  // ---------------------------------------------------------------- trimming

  /** No fragment reaches into `[start, cut)`. */
  ghost predicate Clear(m: Fragments, start: nat, cut: nat) {
    forall k :: k in m ==> k + |m[k]| <= start || cut <= k
  }

  lemma NewIndexSkipsHeld(r: Reassembler, index: nat)
    requires Ordered(r)
    ensures r.next <= NewIndex(r, index)
    ensures forall i :: index <= i < NewIndex(r, index) ==> Holds(r, i)
    ensures forall k :: k in r.frags && k < NewIndex(r, index) ==> k + |r.frags[k]| <= NewIndex(r, index)
  {
    match FloorKey(r.frags, index)
    case Some(up) =>
      forall i | index <= i < NewIndex(r, index) ensures Holds(r, i) { assert Covers(r.frags, up, i); }
    case None =>
  }

  /** Trimming keeps the invariant and the counter's surplus, and leaves `[start, cut)` free of fragments. */
  lemma TrimSpec(r: Reassembler, data: seq<Byte>, index: nat)
    requires Inv(r)
    ensures var (t, start, cut) := Trim(r, data, index);
      && Inv(t) && t.count - Total(t.frags) == r.count - Total(r.frags)
      && r.next <= start && SubMap(t.frags, r.frags) && Clear(t.frags, start, cut)
  {
    NewIndexSkipsHeld(r, index);
  }

  /** The indices held before and those pushed are the indices held after trimming and those still to be stored. */
  lemma TrimHolds(r: Reassembler, data: seq<Byte>, index: nat, i: nat)
    requires Inv(r)
    ensures var (t, start, cut) := Trim(r, data, index);
      Holds(r, i) || index <= i < index + |data| <==> Holds(t, i) || start <= i < cut
  {
    NewIndexSkipsHeld(r, index);
    var (t, start, cut) := Trim(r, data, index);
    if k :| Covers(r.frags, k, i) {
      assert k in t.frags ==> Covers(t.frags, k, i);
    }
    if k :| Covers(t.frags, k, i) {
      assert Covers(r.frags, k, i);
    }
    if cut <= i < index + |data| && start <= i {
      assert Covers(t.frags, cut, i);
    }
    if Holds(r, i) { assert Holds(t, i) || start <= i < cut; }
    if index <= i < index + |data|  { assert Holds(t, i) || start <= i < cut; }
    if Holds(t, i) { assert Holds(r, i); }
    if start <= i < cut { assert index <= i < index + |data|; }
  }

  // ---------------------------------------------------------------- storing

  /**
   * A call moved on from `r` to `r'` without reads: the edge stands still and the counter's surplus does not shrink.
   */
  ghost predicate Advances(r: Reassembler, r': Reassembler) {
    && Inv(r') && Edge(r') == Edge(r) && r.next <= r'.next
    && r.count - Total(r.frags) <= r'.count - Total(r'.frags)
  }

  lemma InsertClear(m: Fragments, start: nat, data: seq<Byte>)
    requires Disjoint(m) && |data| > 0 && Clear(m, start, start + |data|)
    ensures start !in m && Disjoint(m[start := data]) && Total(m[start := data]) == Total(m) + |data|
  {
    assert start !in m;
    TotalInsert(m, start, data);
    var m' := m[start := data];
    forall j, k | j in m' && k in m' && j < k
      ensures j + |m'[j]| <= k
    {
    }
  }

  lemma InsertKeeps(r: Reassembler, start: nat, data: seq<Byte>)
    requires Inv(r) && |data| > 0 && r.next <= start <= Edge(r) && (start == Edge(r) ==> start == r.next)
    requires Clear(r.frags, start, start + |data|)
    ensures Insert(r.frags, start, data) == r.frags[start := data]
    ensures Advances(r, r.(frags := r.frags[start := data], count := r.count + |data|))
    ensures Total(r.frags[start := data]) == Total(r.frags) + |data|
  {
    InsertClear(r.frags, start, data);
  }

  /** Accepting bytes of the next index moves the assembled end, not the edge. */
  lemma WriteKeeps(r: Reassembler, data: seq<Byte>)
    requires Inv(r) && Clear(r.frags, r.next, r.next + |data|)
    ensures var n := Accepts(r.out, |data|);
      Advances(r, r.(out := Write(r.out, data), next := r.next + n))
  {
  }

  lemma StoreSpec(t: Reassembler, start: nat, data: seq<Byte>)
    requires Inv(t) && t.next <= start < Edge(t) && |data| > 0
    requires Clear(t.frags, start, start + |data|)
    ensures Advances(t, Store(t, start, data))
    ensures Store(t, start, data).count - Total(Store(t, start, data).frags) == t.count - Total(t.frags)
  {
    if start != t.next {
      InsertKeeps(t, start, data);
    } else {
      WriteKeeps(t, data);
      var n := Accepts(t.out, |data|);
      if n < |data| {
        InsertKeeps(t.(out := Write(t.out, data), next := t.next + n), start + n, data[n..]);
      }
    }
  }

  lemma StoreHolds(t: Reassembler, start: nat, data: seq<Byte>, i: nat)
    requires Inv(t) && t.next <= start < Edge(t) && |data| > 0
    requires Clear(t.frags, start, start + |data|)
    ensures Holds(Store(t, start, data), i) <==> Holds(t, i) || start <= i < start + |data|
  {
    var r := Store(t, start, data);
    if k :| Covers(t.frags, k, i) {
      assert Covers(r.frags, k, i);
    }
    if k :| Covers(r.frags, k, i) {
      assert k in t.frags ==> Covers(t.frags, k, i);
    }
    if start <= i < start + |data| && i >= r.next {
      var at := if start == t.next then r.next else start;
      assert Covers(r.frags, at, i);
    }
  }

  // ---------------------------------------------------------------- draining

  lemma DrainOneSpec(r: Reassembler)
    requires Inv(r) && r.next in r.frags && Accepts(r.out, |r.frags[r.next]|) == |r.frags[r.next]|
    ensures Advances(r, DrainOne(r))
    ensures DrainOne(r).count - Total(DrainOne(r).frags) == r.count - Total(r.frags)
  {
    TotalRemove(r.frags, r.next);
  }

  lemma DrainOneHolds(r: Reassembler, i: nat)
    requires Inv(r) && r.next in r.frags && Accepts(r.out, |r.frags[r.next]|) == |r.frags[r.next]|
    ensures Holds(DrainOne(r), i) <==> Holds(r, i)
  {
    var r' := DrainOne(r);
    if k :| Covers(r.frags, k, i) {
      assert k != r.next ==> Covers(r'.frags, k, i);
    }
    if k :| Covers(r'.frags, k, i) {
      assert Covers(r.frags, k, i);
    }
    if r.next <= i < r'.next {
      assert Covers(r.frags, r.next, i);
    }
  }

  lemma InsideIsNoKey(m: Fragments, k: nat, n: nat)
    requires Disjoint(m) && k in m && 0 < n < |m[k]|
    ensures k + n !in m
  {
  }

  /**
   * The last round keeps the surplus when the output takes something, and adds the whole fragment when it takes
   * nothing.
   */
  lemma DrainLastCounts(r: Reassembler)
    requires Inv(r) && r.next in r.frags && Accepts(r.out, |r.frags[r.next]|) < |r.frags[r.next]|
    ensures var n := Accepts(r.out, |r.frags[r.next]|);
      Surplus(DrainLast(r)) == Surplus(r) + if n == 0 then |r.frags[r.next]| else 0
  {
    var data := r.frags[r.next];
    var n := Accepts(r.out, |data|);
    TotalRemove(r.frags, r.next);
    var rest := r.frags - {r.next};
    if n > 0 {
      InsideIsNoKey(r.frags, r.next, n);
      TotalInsert(rest, r.next + n, data[n..]);
      assert DrainLast(r).frags == rest[r.next + n := data[n..]];
    } else {
      assert DrainLast(r).frags == rest;
    }
  }

  lemma DrainLastOrdered(r: Reassembler)
    requires Inv(r) && r.next in r.frags && Accepts(r.out, |r.frags[r.next]|) < |r.frags[r.next]|
    ensures Ordered(DrainLast(r)) && Edge(DrainLast(r)) == Edge(r)
    ensures Open(r) ==> DrainLast(r).next == Edge(r)
  {
    hide Total;
    var n := Accepts(r.out, |r.frags[r.next]|);
    if n > 0 {
      InsideIsNoKey(r.frags, r.next, n);
    }
  }

  lemma DrainLastSpec(r: Reassembler)
    requires Inv(r) && r.next in r.frags && Accepts(r.out, |r.frags[r.next]|) < |r.frags[r.next]|
    ensures Advances(r, DrainLast(r))
    ensures Open(r) ==> DrainLast(r).next == Edge(r)
  {
    hide Ordered, Total;
    DrainLastCounts(r);
    DrainLastOrdered(r);
  }

  lemma DrainLastHolds(r: Reassembler, i: nat)
    requires Inv(r) && r.next in r.frags && Accepts(r.out, |r.frags[r.next]|) < |r.frags[r.next]|
    requires Open(r) && i < Edge(r)
    ensures Holds(DrainLast(r), i) <==> Holds(r, i)
  {
    DrainLastSpec(r);
    if r.next <= i {
      assert Covers(r.frags, r.next, i);
    }
  }

  lemma DrainUnfold(r: Reassembler)
    requires Inv(r)
    ensures r.next !in r.frags ==> Drain(r) == r
    ensures r.next in r.frags && Accepts(r.out, |r.frags[r.next]|) < |r.frags[r.next]| ==> Drain(r) == DrainLast(r)
    ensures r.next in r.frags && Accepts(r.out, |r.frags[r.next]|) == |r.frags[r.next]| ==>
      Drain(r) == Drain(DrainOne(r)) && |DrainOne(r).frags| < |r.frags|
  {
    if r.next in r.frags {
      assert CeilKey(r.frags, 0) == Some(r.next);
      RemoveShrinks(r.frags, r.next);
    }
  }

  /** The drain stops at the edge or at the first missing index. */
  ghost predicate Drained(r: Reassembler) {
    r.next == Edge(r) || r.next !in r.frags
  }

  lemma {:induction false} DrainSpec(r: Reassembler)
    requires Inv(r)
    ensures Advances(r, Drain(r)) && (Open(r) ==> Drained(Drain(r)))
    decreases |r.frags|
  {
    DrainUnfold(r);
    if r.next in r.frags {
      if Accepts(r.out, |r.frags[r.next]|) < |r.frags[r.next]| {
        DrainLastSpec(r);
      } else {
        DrainOneSpec(r);
        DrainSpec(DrainOne(r));
      }
    }
  }

  lemma {:induction false} DrainHolds(r: Reassembler, i: nat)
    requires Inv(r) && Open(r) && i < Edge(r)
    ensures Holds(Drain(r), i) <==> Holds(r, i)
    decreases |r.frags|
  {
    DrainUnfold(r);
    if r.next in r.frags {
      if Accepts(r.out, |r.frags[r.next]|) < |r.frags[r.next]| {
        DrainLastHolds(r, i);
      } else {
        DrainOneSpec(r);
        DrainOneHolds(r, i);
        DrainHolds(DrainOne(r), i);
      }
    }
  }

  /** Draining moves bytes, and holds nothing that was not held. */
  lemma {:induction false} DrainGainsNothing(r: Reassembler, i: nat)
    requires Inv(r) && Holds(Drain(r), i)
    ensures Holds(r, i)
    decreases |r.frags|
  {
    DrainUnfold(r);
    if r.next in r.frags {
      if Accepts(r.out, |r.frags[r.next]|) < |r.frags[r.next]| {
        DrainLastGainsNothing(r, i);
      } else {
        DrainOneSpec(r);
        DrainGainsNothing(DrainOne(r), i);
        DrainOneHolds(r, i);
      }
    }
  }

  lemma DrainLastGainsNothing(r: Reassembler, i: nat)
    requires Inv(r) && r.next in r.frags && Accepts(r.out, |r.frags[r.next]|) < |r.frags[r.next]|
    requires Holds(DrainLast(r), i)
    ensures Holds(r, i)
  {
    var r' := DrainLast(r);
    if r.next <= i < r.next + |r.frags[r.next]| {
      assert Covers(r.frags, r.next, i);
    } else if i >= r.next {
      var k :| Covers(r'.frags, k, i);
      assert Covers(r.frags, k, i);
    }
  }

  // ---------------------------------------------------------------- pushing

  lemma FilledSpec(r: Reassembler, data: seq<Byte>, index: nat)
    requires Inv(r) && !Rejects(r, index)
    ensures Advances(r, Filled(r, data, index))
    ensures Filled(r, data, index).count - Total(Filled(r, data, index).frags) == r.count - Total(r.frags)
  {
    hide Ordered, Total, Drain, Store;
    TrimSpec(r, data, index);
    var (t, start, cut) := Trim(r, data, index);
    if start < cut {
      StoreSpec(t, start, data[start - index..cut - index]);
    }
  }

  lemma FilledHolds(r: Reassembler, data: seq<Byte>, index: nat, i: nat)
    requires Inv(r) && !Rejects(r, index)
    ensures Holds(Filled(r, data, index), i) <==> Holds(r, i) || index <= i < index + |data|
  {
    hide Ordered, Total, Drain, Store, Holds;
    TrimSpec(r, data, index);
    TrimHolds(r, data, index, i);
    var (t, start, cut) := Trim(r, data, index);
    if start < cut {
      StoreHolds(t, start, data[start - index..cut - index], i);
    }
  }

  lemma FinishKeeps(r: Reassembler, end: nat, eof: bool)
    requires Inv(r)
    ensures Advances(r, Finish(r, end, eof))
  {
  }

  /** No call breaks the structure, whatever the bytes say: the edge stands still, nothing is unassembled. */
  lemma PushInv(r: Reassembler, data: seq<Byte>, index: nat, eof: bool)
    requires Inv(r)
    ensures Advances(r, Push(r, data, index, eof))
  {
    hide Ordered, Total, Drain, Filled, Finish;
    if Rejects(r, index) {
      TrimSpec(r, data, index);
    } else {
      FilledSpec(r, data, index);
      var f := Filled(r, data, index);
      DrainSpec(f);
      FinishKeeps(Drain(f), index + |data|, eof);
    }
  }

  /** Main result: below the edge, a push adds exactly its own indices to those held. */
  lemma PushHolds(r: Reassembler, data: seq<Byte>, index: nat, eof: bool, i: nat)
    requires Inv(r) && Open(r) && i < Edge(r)
    ensures Holds(Push(r, data, index, eof), i) <==> Holds(r, i) || index <= i < index + |data|
  {
    if Rejects(r, index) {
      TrimHolds(r, data, index, i);
    } else {
      FilledSpec(r, data, index);
      FilledHolds(r, data, index, i);
      DrainHolds(Filled(r, data, index), i);
    }
  }

  /** No push, on any stream, holds an index that was neither held nor pushed. */
  lemma PushGainsOnlyPushed(r: Reassembler, data: seq<Byte>, index: nat, eof: bool, i: nat)
    requires Inv(r) && Holds(Push(r, data, index, eof), i)
    ensures Holds(r, i) || index <= i < index + |data|
  {
    if Rejects(r, index) {
      TrimHolds(r, data, index, i);
    } else {
      FilledSpec(r, data, index);
      FilledHolds(r, data, index, i);
      DrainGainsNothing(Filled(r, data, index), i);
    }
  }

  /** A push that is not rejected assembles as far as it can: the next index is at the edge or is not held. */
  lemma PushLeast(r: Reassembler, data: seq<Byte>, index: nat, eof: bool)
    requires Inv(r) && Open(r) && !Rejects(r, index)
    ensures var r' := Push(r, data, index, eof); r'.next == Edge(r) || !Holds(r', r'.next)
  {
    FilledSpec(r, data, index);
    DrainSpec(Filled(r, data, index));
  }

  /** A rejected push holds nothing below the edge that was not held before. */
  lemma RejectedIsHeld(r: Reassembler, data: seq<Byte>, index: nat, eof: bool, i: nat)
    requires Inv(r) && Rejects(r, index) && index <= i < index + |data| && i < Edge(r)
    ensures Holds(r, i)
  {
    NewIndexSkipsHeld(r, index);
  }

  /**
   * A push that fails the window test does one thing only: a leftover waiting at a full output is dropped, and no
   * longer counted, if the push began before it and covers it.
   */
  lemma RejectedExactly(r: Reassembler, data: seq<Byte>, index: nat, eof: bool)
    requires Inv(r) && Rejects(r, index)
    ensures var covered :=
        index < r.next && r.next in r.frags && r.next + |r.frags[r.next]| <= index + |data|;
      Push(r, data, index, eof) ==
      if covered then r.(frags := r.frags - {r.next}, count := r.count - |r.frags[r.next]|) else r
  {
    hide Total;
    var start, end := NewIndex(r, index), index + |data|;
    NewIndexSkipsHeld(r, index);
    assert forall k :: k in Covered(r.frags, start, end) ==> k == r.next;
    if r.next in r.frags { TotalRemove(r.frags, r.next); }
    if r.next in Covered(r.frags, start, end) {
      assert Covered(r.frags, start, end) == {r.next};
    } else {
      assert Covered(r.frags, start, end) == {};
      assert r.frags - {} == r.frags;
    }
  }

  // ---------------------------------------------------------------- contents

  lemma SlicePart(s: seq<Byte>, index: nat, data: seq<Byte>, lo: nat, hi: nat)
    requires Slice(s, index, data) && lo <= hi <= |data|
    ensures Slice(s, index + lo, data[lo..hi])
  {
    SliceOfSlice(s, index, index + |data|, lo, hi);
  }

  lemma WriteAgrees(out: Stream, s: seq<Byte>, data: seq<Byte>)
    requires Slice(s, 0, out.all) && Slice(s, |out.all|, data)
    ensures Slice(s, 0, Write(out, data).all)
  {
    var n := Accepts(out, |data|);
    SlicePart(s, |out.all|, data, 0, n);
    assert s[..|out.all|] + s[|out.all|..|out.all| + n] == s[..|out.all| + n];
  }

  lemma StoreAgrees(t: Reassembler, start: nat, data: seq<Byte>, s: seq<Byte>)
    requires Inv(t) && Agrees(t, s) && Slice(s, start, data)
    ensures Agrees(Store(t, start, data), s)
  {
    if start == t.next {
      var n := Accepts(t.out, |data|);
      WriteAgrees(t.out, s, data);
      SlicePart(s, start, data, n, |data|);
      assert data[n..|data|] == data[n..];
    }
  }

  lemma {:induction false} DrainAgrees(r: Reassembler, s: seq<Byte>)
    requires Inv(r) && Agrees(r, s)
    ensures Agrees(Drain(r), s)
    decreases |r.frags|
  {
    DrainUnfold(r);
    if r.next in r.frags {
      var data := r.frags[r.next];
      var n := Accepts(r.out, |data|);
      WriteAgrees(r.out, s, data);
      if n < |data| {
        SlicePart(s, r.next, data, n, |data|);
        assert data[n..|data|] == data[n..];
      } else {
        DrainOneSpec(r);
        assert Agrees(DrainOne(r), s);
        DrainAgrees(DrainOne(r), s);
      }
    }
  }

  lemma TrimAgrees(r: Reassembler, data: seq<Byte>, index: nat, s: seq<Byte>)
    requires Agrees(r, s)
    ensures Agrees(Trim(r, data, index).0, s)
  {
  }

  lemma FilledAgrees(r: Reassembler, data: seq<Byte>, index: nat, s: seq<Byte>)
    requires Inv(r) && !Rejects(r, index) && Agrees(r, s) && Fits(s, index, data)
    ensures Agrees(Filled(r, data, index), s)
  {
    hide Total, Ordered, Disjoint, Store, Agrees, Clear, SubMap, Trim, Slice;
    TrimSpec(r, data, index);
    TrimAgrees(r, data, index, s);
    var (t, start, cut) := Trim(r, data, index);
    if start < cut {
      SlicePart(s, index, data, start - index, cut - index);
      StoreAgrees(t, start, data[start - index..cut - index], s);
    }
  }

  /** Main result: pushes cut from one stream assemble and store only that stream, each byte at its own index. */
  lemma PushAgrees(r: Reassembler, data: seq<Byte>, index: nat, eof: bool, s: seq<Byte>)
    requires Inv(r) && Agrees(r, s) && Fits(s, index, data)
    ensures Agrees(Push(r, data, index, eof), s)
  {
    if Rejects(r, index) {
      TrimAgrees(r, data, index, s);
    } else {
      FilledSpec(r, data, index);
      FilledAgrees(r, data, index, s);
      DrainAgrees(Filled(r, data, index), s);
    }
  }

  // ---------------------------------------------------------------- one honest stream

  /**
   * All that arrived was cut from `s`; the end was marked only where `s` ends for good, and the output closes there.
   */
  ghost predicate Honest(r: Reassembler, s: seq<Byte>, whole: bool) {
    && Inv(r) && Agrees(r, s)
    && (r.eof.Some? ==> whole && r.eof.value == |s|)
    && (r.out.ended <==> r.eof.Some? && r.eof.value <= r.next)
  }

  lemma HonestFresh(capacity: nat, s: seq<Byte>, whole: bool)
    ensures Honest(Fresh(capacity), s, whole)
  {
  }

  lemma HonestGrows(r: Reassembler, s: seq<Byte>, s': seq<Byte>, whole': bool)
    requires Honest(r, s, false) && s <= s'
    ensures Honest(r, s', whole')
  {
  }

  lemma {:induction false} DrainKeepsMarks(r: Reassembler)
    ensures Drain(r).eof == r.eof && Drain(r).out == r.out.(all := Drain(r).out.all)
    decreases |r.frags|
  {
    match CeilKey(r.frags, 0)
    case None =>
    case Some(k) =>
      if k == r.next && Accepts(r.out, |r.frags[k]|) == |r.frags[k]| {
        RemoveShrinks(r.frags, k);
        DrainKeepsMarks(DrainOne(r));
      }
  }

  lemma PushKeepsMarks(r: Reassembler, data: seq<Byte>, index: nat, eof: bool)
    ensures var r' := Push(r, data, index, eof);
      && r'.out == r.out.(all := r'.out.all, ended := r'.out.ended)
      && (Rejects(r, index) ==> r'.eof == r.eof && r'.out == r.out && r'.next == r.next)
      && (!Rejects(r, index) ==>
            && r'.eof == (if eof then Some(index + |data|) else r.eof)
            && (r'.out.ended <==> r.out.ended || (r'.eof.Some? && r'.eof.value <= r'.next)))
  {
    if !Rejects(r, index) {
      DrainKeepsMarks(Filled(r, data, index));
    }
  }

  lemma {:induction false} DrainAppends(r: Reassembler)
    ensures r.out.all <= Drain(r).out.all
    decreases |r.frags|
  {
    match CeilKey(r.frags, 0)
    case None =>
    case Some(k) =>
      if k == r.next && Accepts(r.out, |r.frags[k]|) == |r.frags[k]| {
        RemoveShrinks(r.frags, k);
        DrainAppends(DrainOne(r));
      }
  }

  /** What has been assembled is final, whatever is pushed afterwards. */
  lemma PushAppends(r: Reassembler, data: seq<Byte>, index: nat, eof: bool)
    ensures r.out.all <= Push(r, data, index, eof).out.all
  {
    hide Drain;
    if !Rejects(r, index) {
      FilledAppends(r, data, index);
      DrainAppends(Filled(r, data, index));
    }
  }

  lemma FilledAppends(r: Reassembler, data: seq<Byte>, index: nat)
    ensures r.out.all <= Filled(r, data, index).out.all
  {
    hide NewIndex, CutPoint, Covered, Total, Insert;
  }

  lemma HonestPush(r: Reassembler, data: seq<Byte>, index: nat, eof: bool, s: seq<Byte>, whole: bool)
    requires Honest(r, s, whole) && Fits(s, index, data)
    requires eof ==> whole && index + |data| == |s|
    ensures Honest(Push(r, data, index, eof), s, whole)
    ensures r.out.ended ==> Push(r, data, index, eof).out.ended
  {
    PushInv(r, data, index, eof);
    PushAgrees(r, data, index, eof, s);
    PushKeepsMarks(r, data, index, eof);
  }

  lemma HeldIsInside(r: Reassembler, s: seq<Byte>, i: nat)
    requires Ordered(r) && Agrees(r, s) && Holds(r, i)
    ensures i < |s|
  {
    if i >= r.next {
      var k :| Covers(r.frags, k, i);
    }
  }

  /** Below the edge an honest push adds exactly its own indices, open or ended, unless the stream has failed. */
  lemma HonestPushHolds(r: Reassembler, data: seq<Byte>, index: nat, eof: bool, s: seq<Byte>, whole: bool, i: nat)
    requires Honest(r, s, whole) && Fits(s, index, data) && !r.out.error && i < Edge(r)
    ensures Holds(Push(r, data, index, eof), i) <==> Holds(r, i) || index <= i < index + |data|
  {
    var r' := Push(r, data, index, eof);
    if !r.out.ended {
      PushHolds(r, data, index, eof, i);
    } else {
      PushInv(r, data, index, eof);
      PushAgrees(r, data, index, eof, s);
      if Holds(r', i) {
        HeldIsInside(r', s, i);
      }
    }
  }

  /** An honest push that is not rejected assembles as far as it can, open or ended, unless the stream has failed. */
  lemma HonestPushLeast(r: Reassembler, data: seq<Byte>, index: nat, eof: bool, s: seq<Byte>, whole: bool)
    requires Honest(r, s, whole) && Fits(s, index, data) && !r.out.error && !Rejects(r, index)
    ensures var r' := Push(r, data, index, eof); r'.next == Edge(r) || !Holds(r', r'.next)
  {
    var r' := Push(r, data, index, eof);
    if !r.out.ended {
      PushLeast(r, data, index, eof);
    } else {
      PushInv(r, data, index, eof);
      PushAgrees(r, data, index, eof, s);
      if Holds(r', r'.next) { HeldIsInside(r', s, r'.next); }
    }
  }

  // ---------------------------------------------------------------- whole runs

  datatype Call = PushCall(data: seq<Byte>, index: nat, eof: bool) | ReadCall(len: nat) | FailCall

  ghost function Apply(r: Reassembler, c: Call): Reassembler {
    match c
    case PushCall(data, index, eof) => Push(r, data, index, eof)
    case ReadCall(len) => r.(out := Pop(r.out, len))
    case FailCall => r.(out := r.out.(error := true))
  }

  ghost function Run(r: Reassembler, calls: seq<Call>): Reassembler
    decreases |calls|
  {
    if calls == [] then r else Apply(Run(r, calls[..|calls| - 1]), calls[|calls| - 1])
  }

  ghost predicate PushesAtMost(calls: seq<Call>, longest: nat) {
    forall i :: 0 <= i < |calls| && calls[i].PushCall? ==> |calls[i].data| <= longest
  }

  ghost predicate Short(r: Reassembler, longest: nat) {
    forall k :: k in r.frags ==> |r.frags[k]| <= longest
  }

  lemma {:induction false} DrainShort(r: Reassembler, longest: nat)
    requires Inv(r) && Short(r, longest)
    ensures Short(Drain(r), longest)
    decreases |r.frags|
  {
    DrainUnfold(r);
    if r.next in r.frags && Accepts(r.out, |r.frags[r.next]|) == |r.frags[r.next]| {
      DrainOneSpec(r);
      DrainShort(DrainOne(r), longest);
    }
  }

  lemma StoreShort(t: Reassembler, start: nat, data: seq<Byte>, longest: nat)
    requires Short(t, longest) && |data| <= longest
    ensures Short(Store(t, start, data), longest)
  {
  }

  lemma FilledShort(r: Reassembler, data: seq<Byte>, index: nat, longest: nat)
    requires Inv(r) && Short(r, longest) && |data| <= longest
    ensures Short(Trim(r, data, index).0, longest) && Short(Filled(r, data, index), longest)
  {
    hide Ordered, Total, Store;
    TrimSpec(r, data, index);
    var (t, start, cut) := Trim(r, data, index);
    if start < cut {
      StoreShort(t, start, data[start - index..cut - index], longest);
    }
  }

  lemma PushShort(r: Reassembler, data: seq<Byte>, index: nat, eof: bool, longest: nat)
    requires Inv(r) && Short(r, longest) && |data| <= longest
    ensures Short(Push(r, data, index, eof), longest)
  {
    FilledShort(r, data, index, longest);
    if !Rejects(r, index) {
      FilledSpec(r, data, index);
      DrainShort(Filled(r, data, index), longest);
    }
  }

  /** In every run of pushes, reads and failures the structure holds, so no key precedes the next index. */
  lemma {:induction false} RunStructure(capacity: nat, calls: seq<Call>)
    ensures Inv(Run(Fresh(capacity), calls))
    decreases |calls|
  {
    if calls != [] {
      RunStructure(capacity, calls[..|calls| - 1]);
      CallInv(Run(Fresh(capacity), calls[..|calls| - 1]), calls[|calls| - 1]);
    }
  }

  lemma CallInv(r: Reassembler, c: Call)
    requires Inv(r)
    ensures Inv(Apply(r, c))
  {
    hide Total, Push;
    if c.PushCall? { PushInv(r, c.data, c.index, c.eof); }
  }

  lemma {:induction false} RunShort(capacity: nat, calls: seq<Call>, longest: nat)
    requires PushesAtMost(calls, longest)
    ensures Short(Run(Fresh(capacity), calls), longest)
    decreases |calls|
  {
    if calls != [] {
      var before, c := Run(Fresh(capacity), calls[..|calls| - 1]), calls[|calls| - 1];
      RunShort(capacity, calls[..|calls| - 1], longest);
      RunStructure(capacity, calls[..|calls| - 1]);
      if c.PushCall? {
        PushShort(before, c.data, c.index, c.eof, longest);
      }
    }
  }

  /** Storage is bounded in every run: the free output space, and one fragment's overhang past the edge. */
  lemma RunBound(capacity: nat, calls: seq<Call>, longest: nat)
    requires PushesAtMost(calls, longest)
    ensures var r := Run(Fresh(capacity), calls);
      && Total(r.frags) <= Remaining(r.out) + longest
      && Total(r.frags) <= r.count
      && forall j, k :: j in r.frags && k in r.frags && j + |r.frags[j]| > Edge(r) && k + |r.frags[k]| > Edge(r) ==>
          j == k
  {
    RunStructure(capacity, calls);
    RunShort(capacity, calls, longest);
    var r := Run(Fresh(capacity), calls);
    TotalBound(r.frags, r.next, Edge(r), longest);
  }

  /** A run whose pushes are cut from `s`, with the end marked only where `s` ends, on a stream that does not fail. */
  ghost predicate HonestCalls(calls: seq<Call>, s: seq<Byte>) {
    forall i :: 0 <= i < |calls| ==>
      match calls[i]
      case PushCall(data, index, eof) => Fits(s, index, data) && (eof ==> index + |data| == |s|)
      case ReadCall(_) => true
      case FailCall => false
  }

  /** Index `i` was pushed at some point of the run while it was below the edge. */
  ghost predicate Accepted(capacity: nat, calls: seq<Call>, i: nat)
    decreases |calls|
  {
    calls != [] &&
    var before, c := calls[..|calls| - 1], calls[|calls| - 1];
    || Accepted(capacity, before, i)
    || (c.PushCall? && c.index <= i < c.index + |c.data| && i < Edge(Run(Fresh(capacity), before)))
  }

  /** Index `i` was pushed at some point of the run. */
  ghost predicate Pushed(calls: seq<Call>, i: nat) {
    exists j :: 0 <= j < |calls| && Pushes(calls[j], i)
  }

  predicate Pushes(c: Call, i: nat) { c.PushCall? && c.index <= i < c.index + |c.data| }

  /** And nothing else is ever held: over every run, reads and failures included, an index that is held was pushed. */
  lemma {:induction false} RunHoldsOnlyPushed(capacity: nat, calls: seq<Call>, i: nat)
    requires Holds(Run(Fresh(capacity), calls), i)
    ensures Pushed(calls, i)
    decreases |calls|
  {
    if calls != [] {
      var init, c := calls[..|calls| - 1], calls[|calls| - 1];
      var before := Run(Fresh(capacity), init);
      RunStructure(capacity, init);
      if c.PushCall? {
        PushGainsOnlyPushed(before, c.data, c.index, c.eof, i);
      } else if i >= before.next {
        var k :| Covers(Apply(before, c).frags, k, i);
        assert Covers(before.frags, k, i);
      }
      if Holds(before, i) {
        RunHoldsOnlyPushed(capacity, init, i);
        var j :| 0 <= j < |init| && Pushes(init[j], i);
        assert Pushes(calls[j], i);
      } else {
        assert Pushes(calls[|calls| - 1], i);
      }
    }
  }

  lemma {:induction false} HonestRun(capacity: nat, calls: seq<Call>, s: seq<Byte>)
    requires HonestCalls(calls, s)
    ensures Honest(Run(Fresh(capacity), calls), s, true) && !Run(Fresh(capacity), calls).out.error
    decreases |calls|
  {
    if calls == [] {
      HonestFresh(capacity, s, true);
    } else {
      var init, c := calls[..|calls| - 1], calls[|calls| - 1];
      HonestRun(capacity, init, s);
      var before := Run(Fresh(capacity), init);
      if c.PushCall? {
        HonestPush(before, c.data, c.index, c.eof, s, true);
        PushKeepsMarks(before, c.data, c.index, c.eof);
      }
    }
  }

  /** No accepted index is ever lost, over any run of overlapping, repeated and reordered pushes between reads. */
  lemma {:induction false} RunKeepsAccepted(capacity: nat, calls: seq<Call>, s: seq<Byte>, i: nat)
    requires HonestCalls(calls, s) && Accepted(capacity, calls, i)
    ensures i < Edge(Run(Fresh(capacity), calls)) && Holds(Run(Fresh(capacity), calls), i)
    decreases |calls|
  {
    var init, c := calls[..|calls| - 1], calls[|calls| - 1];
    HonestRun(capacity, init, s);
    var before := Run(Fresh(capacity), init);
    if Accepted(capacity, init, i) {
      RunKeepsAccepted(capacity, init, s, i);
    }
    if c.PushCall? {
      PushInv(before, c.data, c.index, c.eof);
      HonestPushHolds(before, c.data, c.index, c.eof, s, true, i);
    } else if i >= before.next {
      var k :| Covers(before.frags, k, i);
      assert Covers(Apply(before, c).frags, k, i);
    }
  }

  // ---------------------------------------------------------------- the counter

  /** The bytes of a push that are next in line but do not fit the output: they are dropped but stay counted. */
  ghost function Lost(r: Reassembler, data: seq<Byte>, index: nat): nat {
    var (t, start, cut) := Trim(r, data, index);
    if !Rejects(r, index) && start == r.next && cut > Edge(r) then cut - Edge(r) else 0
  }

  lemma {:induction false} DrainKeepsSurplus(r: Reassembler)
    requires Inv(r) && Open(r) && forall k :: k in r.frags ==> k < Edge(r)
    ensures Surplus(Drain(r)) == Surplus(r)
    decreases |r.frags|
  {
    DrainUnfold(r);
    if r.next in r.frags {
      if Accepts(r.out, |r.frags[r.next]|) < |r.frags[r.next]| {
        DrainLastCounts(r);
      } else {
        DrainOneSpec(r);
        DrainKeepsSurplus(DrainOne(r));
      }
    }
  }

  lemma FilledBelowEdge(r: Reassembler, data: seq<Byte>, index: nat)
    requires Inv(r) && Open(r) && !Rejects(r, index) && Lost(r, data, index) == 0
    ensures Open(Filled(r, data, index)) && forall k :: k in Filled(r, data, index).frags ==> k < Edge(r)
  {
    TrimSpec(r, data, index);
  }

  lemma LostIsNext(r: Reassembler, data: seq<Byte>, index: nat)
    requires Inv(r) && Open(r) && !Rejects(r, index) && Lost(r, data, index) > 0
    ensures var f := Filled(r, data, index);
      && Inv(f) && f.next == Edge(r) && f.next in f.frags && |f.frags[f.next]| == Lost(r, data, index)
      && Accepts(f.out, |f.frags[f.next]|) == 0
  {
    TrimSpec(r, data, index);
    FilledSpec(r, data, index);
    var (t, start, cut) := Trim(r, data, index);
    assert Edge(r) !in t.frags;
  }

  /**
   * The exact law of the counter on an open stream: a push adds to its surplus the bytes it loses, and nothing else
   * does.
   */
  lemma SurplusLaw(r: Reassembler, data: seq<Byte>, index: nat, eof: bool)
    requires Inv(r) && Open(r)
    ensures Surplus(Push(r, data, index, eof)) == Surplus(r) + Lost(r, data, index)
  {
    TrimSpec(r, data, index);
    if !Rejects(r, index) {
      FilledSpec(r, data, index);
      var f := Filled(r, data, index);
      if Lost(r, data, index) == 0 {
        FilledBelowEdge(r, data, index);
        DrainKeepsSurplus(f);
      } else {
        LostIsNext(r, data, index);
        DrainUnfold(f);
        DrainLastCounts(f);
      }
    }
  }

  /** So a push that ends inside the window keeps the counter equal to what is stored. */
  lemma InsideWindowIsExact(r: Reassembler, data: seq<Byte>, index: nat, eof: bool)
    requires Inv(r) && Open(r) && index + |data| <= Edge(r)
    ensures Surplus(Push(r, data, index, eof)) == Surplus(r)
  {
    SurplusLaw(r, data, index, eof);
  }

  /** Every push of the run ends inside the window it meets, on a stream that is still open. */
  ghost predicate InsideCalls(capacity: nat, calls: seq<Call>)
    decreases |calls|
  {
    calls != [] ==>
      var before, c := Run(Fresh(capacity), calls[..|calls| - 1]), calls[|calls| - 1];
      && InsideCalls(capacity, calls[..|calls| - 1])
      && (c.PushCall? ==> Open(before) && c.index + |c.data| <= Edge(before))
  }

  /** Over such a run `unassembled_bytes` is exactly the total size of the stored fragments. */
  lemma {:induction false} CountIsExact(capacity: nat, calls: seq<Call>)
    requires InsideCalls(capacity, calls)
    ensures Run(Fresh(capacity), calls).count == Total(Run(Fresh(capacity), calls).frags)
    decreases |calls|
  {
    if calls != [] {
      var init, c := calls[..|calls| - 1], calls[|calls| - 1];
      CountIsExact(capacity, init);
      RunStructure(capacity, init);
      if c.PushCall? {
        InsideWindowIsExact(Run(Fresh(capacity), init), c.data, c.index, c.eof);
      }
    }
  }

  /**
   * What a push loses on any stream: one that has ended or failed takes nothing, so all that is next in line is
   * dropped.
   */
  ghost function LostBy(r: Reassembler, data: seq<Byte>, index: nat): nat {
    if Open(r) then Lost(r, data, index)
    else
      var f := Filled(r, data, index);
      if !Rejects(r, index) && f.next in f.frags then |f.frags[f.next]| else 0
  }

  /** The law of the counter on every stream, open, ended or failed. */
  lemma CounterLaw(r: Reassembler, data: seq<Byte>, index: nat, eof: bool)
    requires Inv(r)
    ensures Surplus(Push(r, data, index, eof)) == Surplus(r) + LostBy(r, data, index)
  {
    if Open(r) {
      SurplusLaw(r, data, index, eof);
    } else if Rejects(r, index) {
      TrimSpec(r, data, index);
    } else {
      ClosedLaw(r, data, index);
    }
  }

  lemma ClosedLaw(r: Reassembler, data: seq<Byte>, index: nat)
    requires Inv(r) && !Open(r) && !Rejects(r, index)
    ensures Surplus(Drain(Filled(r, data, index))) == Surplus(r) + LostBy(r, data, index)
  {
    hide Ordered, Total, Trim, Store;
    FilledSpec(r, data, index);
    var f := Filled(r, data, index);
    StaysClosed(r, data, index);
    DrainUnfold(f);
    if f.next in f.frags {
      FragmentIsLong(f, f.next);
      DrainLastCounts(f);
    }
  }

  lemma StaysClosed(r: Reassembler, data: seq<Byte>, index: nat)
    requires !Open(r)
    ensures !Open(Filled(r, data, index))
  {
  }

  lemma FragmentIsLong(r: Reassembler, k: nat)
    requires Inv(r) && k in r.frags
    ensures |r.frags[k]| > 0
  {
  }

  /** All that the pushes of a run have lost. */
  ghost function LostInRun(capacity: nat, calls: seq<Call>): nat
    decreases |calls|
  {
    if calls == [] then 0
    else
      var init, c := calls[..|calls| - 1], calls[|calls| - 1];
      LostInRun(capacity, init) + if c.PushCall? then LostBy(Run(Fresh(capacity), init), c.data, c.index) else 0
  }

  /** Over every run `unassembled_bytes` exceeds what is stored by exactly what its pushes have lost. */
  lemma {:induction false} RunCounterLaw(capacity: nat, calls: seq<Call>)
    ensures Run(Fresh(capacity), calls).count == Total(Run(Fresh(capacity), calls).frags) + LostInRun(capacity, calls)
    decreases |calls|
  {
    hide Push, Total, LostBy;
    if calls == [] {
      NothingStored();
    } else {
      var init, c := calls[..|calls| - 1], calls[|calls| - 1];
      RunCounterLaw(capacity, init);
      RunStructure(capacity, init);
      if c.PushCall? {
        CounterLaw(Run(Fresh(capacity), init), c.data, c.index, c.eof);
      }
    }
  }

  lemma NothingStored()
    ensures var none: Fragments := map[]; Total(none) == 0
  {
  }

  ghost predicate NoneLost(capacity: nat, calls: seq<Call>) {
    forall k :: 0 <= k < |calls| && calls[k].PushCall? ==>
      LostBy(Run(Fresh(capacity), calls[..k]), calls[k].data, calls[k].index) == 0
  }

  /** So the counter is exact after a run if and only if none of its pushes lost a byte. */
  lemma CountIsExactIff(capacity: nat, calls: seq<Call>)
    ensures Run(Fresh(capacity), calls).count == Total(Run(Fresh(capacity), calls).frags) <==> NoneLost(capacity, calls)
  {
    hide Total, NoneLost;
    RunCounterLaw(capacity, calls);
    NoneLostIff(capacity, calls);
  }

  lemma {:induction false} NoneLostIff(capacity: nat, calls: seq<Call>)
    ensures LostInRun(capacity, calls) == 0 <==> NoneLost(capacity, calls)
    decreases |calls|
  {
    hide LostBy;
    if calls != [] {
      var init := calls[..|calls| - 1];
      NoneLostIff(capacity, init);
      assert forall k :: 0 <= k < |init| ==> calls[..k] == init[..k] && calls[k] == init[k];
    }
  }
}
