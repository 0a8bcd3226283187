/** Concrete runs in which the reassembler does not do what its comments lead one to expect (stream_reassembler.cc). */
module ReassemblyCases {
  import opened Words
  import opened OrderedMaps
  import opened ByteStreams
  import opened Reassembly
  import Leftovers

  lemma RunOne(r: Reassembler, a: Call)
    ensures Run(r, [a]) == Apply(r, a)
  {
    hide Apply;
    assert [a][..0] == [];
  }

  lemma RunMore(r: Reassembler, calls: seq<Call>, c: Call)
    ensures Run(r, calls + [c]) == Apply(Run(r, calls), c)
  {
    hide Apply;
    assert (calls + [c])[..|calls|] == calls;
  }

  lemma NoneStored()
    ensures var none: Fragments := map[]; Total(none) == 0 && CeilKey(none, 0) == None
  {
  }

  lemma OneStored(k: nat, data: seq<Byte>)
    ensures var m: Fragments := map[k := data];
            Total(m) == |data| && CeilKey(m, 0) == Some(k) && m - {k} == map[]
  {
    var m: Fragments := map[k := data];
    assert k in m;
    assert m - {k} == map[];
    NoneStored();
  }

  /** A push that meets no fragment is not trimmed, except to what is not yet assembled. */
  lemma TrimAlone(r: Reassembler, data: seq<Byte>, index: nat)
    requires r.frags == map[] && r.next <= index
    ensures Trim(r, data, index) == (r, index, index + |data|) && NewIndex(r, index) == index
  {
    var m: Fragments := map[];
    assert m - Covered(m, index, index + |data|) == m;
  }

  /** Two bytes for an output of one: the second is dropped, and stays counted as unassembled for ever. */
  lemma DroppedByteStaysCounted(a: Byte, b: Byte)
    ensures var r := Run(Fresh(1), [PushCall([a, b], 0, false)]);
            r.count == 1 && r.frags == map[] && r.out.all == [a] && Total(r.frags) == 0
  {
    var r0 := Fresh(1);
    RunOne(r0, PushCall([a, b], 0, false));
    TrimAlone(r0, [a, b], 0);
    assert [a, b][0..2] == [a, b] && [a, b][..1] == [a] && [a, b][1..] == [b];
    var f := Filled(r0, [a, b], 0);
    assert f == Reassembler(map[1 := [b]], 1, 1, None, StreamState([a], 0, 1, false, false));
    OneStored(1, [b]);
    assert DrainLast(f).frags == map[];
    assert [a] + [b][..0] == [a];
    NoneStored();
  }

  /** A FIN that meets a full window leaves no mark: reading makes room, but only the FIN sent again ends the stream. */
  lemma FinOnFullWindowIsLost(a: Byte)
    ensures var calls := [PushCall([a], 0, false), PushCall([], 1, true), ReadCall(1)];
            var r := Run(Fresh(1), calls);
            && r.eof == None && !r.out.ended && r.out.all == [a] && Remaining(r.out) == 1
            && Run(Fresh(1), calls + [PushCall([], 1, true)]).out.ended
  {
    hide Run, Push;
    var p, fin, read := PushCall([a], 0, false), PushCall([], 1, true), ReadCall(1);
    var r0 := Fresh(1);
    RunOne(r0, p);
    RunMore(r0, [p], fin);
    RunMore(r0, [p, fin], read);
    RunMore(r0, [p, fin, read], fin);
    assert [p] + [fin] == [p, fin] && [p, fin] + [read] == [p, fin, read];
    var full := Reassembler(map[], 1, 0, None, StreamState([a], 0, 1, false, false));
    ByteFills(a);
    FinRejected(full);
    var drained := full.(out := Pop(full.out, 1));
    FinTaken(drained);
  }

  lemma ByteFills(a: Byte)
    ensures Push(Fresh(1), [a], 0, false) == Reassembler(map[], 1, 0, None, StreamState([a], 0, 1, false, false))
  {
    TrimAlone(Fresh(1), [a], 0);
    assert [a][0..1] == [a] && [a][..1] == [a] && [] + [a] == [a];
    NoneStored();
  }

  lemma FinRejected(r: Reassembler)
    requires r.frags == map[] && Remaining(r.out) == 0
    ensures Push(r, [], r.next, true) == r
  {
    TrimAlone(r, [], r.next);
  }

  lemma FinTaken(r: Reassembler)
    requires r.frags == map[] && Remaining(r.out) > 0
    ensures Push(r, [], r.next, true).out.ended
  {
    TrimAlone(r, [], r.next);
  }

  /**
   * The leftover that stalls: four bytes wait at 2, two bytes at 0 fill the output in the middle of them, and one is
   * read. The byte wanted next arrives, there is room for it, and still nothing is assembled.
   */
  lemma LeftoverStalls(s: seq<Byte>)
    requires |s| == 6
    ensures var calls := [PushCall(s[2..6], 2, false), PushCall(s[0..2], 0, false), ReadCall(1)];
            var r := Run(Fresh(4), calls);
            var after := Run(Fresh(4), calls + [PushCall([s[4]], 4, false)]);
            r.next == 4 && Remaining(r.out) == 1 && after.next == 4 && after.out == r.out
  {
    hide Run, Push, Total, Ordered;
    var later, first, read, wanted := PushCall(s[2..6], 2, false), PushCall(s[0..2], 0, false), ReadCall(1),
      PushCall([s[4]], 4, false);
    var r0 := Fresh(4);
    RunOne(r0, later);
    RunMore(r0, [later], first);
    RunMore(r0, [later, first], read);
    RunMore(r0, [later, first, read], wanted);
    assert [later] + [first] == [later, first] && [later, first] + [read] == [later, first, read];
    var r1 := Reassembler(map[2 := s[2..6]], 0, 4, None, StreamState([], 0, 4, false, false));
    var r2 := Reassembler(map[4 := s[4..6]], 4, 2, None, StreamState(s[0..4], 0, 4, false, false));
    LaterWaits(s);
    FirstFills(s);
    var r3 := Apply(r2, read);
    assert Run(r0, [later]) == r1 && Run(r0, [later, first]) == r2 && Run(r0, [later, first, read]) == r3;
    RunStructure(4, [later, first, read]);
    Leftovers.LeftoverAdvancesIff(r3, [s[4]], false);
    PushInv(r3, [s[4]], 4, false);
  }

  lemma LaterWaits(s: seq<Byte>)
    requires |s| == 6
    ensures Push(Fresh(4), s[2..6], 2, false) ==
            Reassembler(map[2 := s[2..6]], 0, 4, None, StreamState([], 0, 4, false, false))
  {
    var r0 := Fresh(4);
    TrimAlone(r0, s[2..6], 2);
    assert s[2..6][0..4] == s[2..6];
    var f := Filled(r0, s[2..6], 2);
    assert f.frags == map[2 := s[2..6]];
    OneStored(2, s[2..6]);
    assert Drain(f) == f;
  }

  lemma FirstFills(s: seq<Byte>)
    requires |s| == 6
    ensures Push(Reassembler(map[2 := s[2..6]], 0, 4, None, StreamState([], 0, 4, false, false)), s[0..2], 0, false) ==
            Reassembler(map[4 := s[4..6]], 4, 2, None, StreamState(s[0..4], 0, 4, false, false))
  {
    var r := Reassembler(map[2 := s[2..6]], 0, 4, None, StreamState([], 0, 4, false, false));
    OneStored(2, s[2..6]);
    assert Covered(r.frags, 0, 2) == {};
    assert r.frags - {} == r.frags;
    assert CeilKey(r.frags, 0) == Some(2) && FloorKey(r.frags, 0) == None;
    assert Trim(r, s[0..2], 0) == (r, 0, 2);
    assert s[0..2][0..2] == s[0..2] && s[0..2][..2] == s[0..2] && [] + s[0..2] == s[0..2];
    var f := Filled(r, s[0..2], 0);
    assert f == r.(next := 2, out := StreamState(s[0..2], 0, 4, false, false));
    assert s[2..6][..2] == s[2..4] && s[2..6][2..] == s[4..6] && s[0..2] + s[2..4] == s[0..4];
    assert DrainLast(f).frags == map[4 := s[4..6]];
    assert DrainLast(f) == Reassembler(map[4 := s[4..6]], 4, 2, None, StreamState(s[0..4], 0, 4, false, false));
  }
}
