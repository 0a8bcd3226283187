/** The reassembler object (stream_reassembler.cc), its map and counters edited in place, against `Reassembly.Push`. */
module StreamReassemblers {
  import opened Words
  import opened OrderedMaps
  import opened ByteStreams
  import opened Reassembly

  /** Once the next fragment is past the push or outlasts it, exactly the covered fragments are gone. */
  lemma SwallowDone(m: Fragments, rest: Fragments, start: nat, end: nat)
    requires Disjoint(m) && SubMap(rest, m)
    requires forall k :: k in m && k !in rest ==> k in Covered(m, start, end)
    requires match CeilKey(rest, start) case None => true case Some(k) => end <= k || end < k + |m[k]|
    ensures rest == m - Covered(m, start, end)
  {
    forall k | k in rest ensures k !in Covered(m, start, end) {
    }
  }

  class StreamReassembler {
    var frags: Fragments
    var next: nat
    var unassembled: nat
    var eofIdx: Option<nat>
    const output: ByteStream
    const capacity: nat

    ghost predicate Valid()
      reads this, output
    {
      output.Valid() && output.capacity == capacity && Inv(Model())
    }

    ghost function Model(): Reassembler
      requires output.Valid()
      reads this, output
    {
      Reassembler(frags, next, unassembled, eofIdx, output.Model())
    }

    constructor (capacity: nat)
      ensures Valid() && fresh(output) && this.capacity == capacity && Model() == Fresh(capacity)
    {
      frags, next, unassembled, eofIdx := map[], 0, 0, None;
      output := new ByteStream(capacity);
      this.capacity := capacity;
    }

    /** The swallowing loop: erase what the push covers and find where it must be cut. */
    method EraseCovered(start: nat, end: nat) returns (cut: nat)
      requires Valid()
      modifies this`frags, this`unassembled
      ensures var rest := old(frags) - Covered(old(frags), start, end);
        && frags == rest && cut == CutPoint(rest, start, end)
        && unassembled == old(unassembled) - (Total(old(frags)) - Total(rest))
    {
      hide Total, Disjoint, IsCeil;
      cut := end;
      var pos := CeilKey(frags, start);
      while pos.Some? && start <= pos.value
        invariant SubMap(frags, old(frags)) && pos == CeilKey(frags, start) && cut == end
        invariant forall k :: k in old(frags) && k !in frags ==> k in Covered(old(frags), start, end)
        invariant Total(frags) <= unassembled && unassembled - Total(frags) == old(unassembled - Total(frags))
        decreases |frags|
      {
        var k := pos.value;
        if k < cut {
          if cut < k + |frags[k]| {
            cut := k;
            break;
          } else {
            TotalRemove(frags, k);
            RemoveShrinks(frags, k);
            unassembled := unassembled - |frags[k]|;
            frags := frags - {k};
            pos := CeilKey(frags, start);
          }
        } else {
          break;
        }
      }
      SwallowDone(old(frags), frags, start, end);
    }

    /** One round of the drain loop, on the fragment that is next in line; `full` when the output refused some of it. */
    method AssembleNext() returns (full: bool)
      requires Valid() && next in frags
      modifies this, output
      ensures Valid()
      ensures var r := old(Model());
        && full == (Accepts(r.out, |r.frags[r.next]|) < |r.frags[r.next]|)
        && Model() == if full then DrainLast(r) else DrainOne(r)
    {
      ghost var before := Model();
      var k, data := next, frags[next];
      TotalRemove(frags, k);
      if Accepts(before.out, |data|) < |data| {
        DrainLastSpec(before);
      } else {
        DrainOneSpec(before);
      }
      assert |data| <= unassembled;
      hide Total, Ordered, Inv, Disjoint, Advances;
      var n := output.WriteBytes(data);
      next := next + n;
      full := n < |data|;
      if full {
        unassembled := unassembled + |data| - n;
        frags := Insert(frags, next, data[n..]);
      }
      unassembled := unassembled - |data|;
      frags := frags - {k};
      assert Model() == if full then DrainLast(before) else DrainOne(before);
    }

    /** The drain loop. */
    method AssembleStored()
      requires Valid()
      modifies this, output
      ensures Valid() && Model() == Drain(old(Model()))
    {
      var first := CeilKey(frags, 0);
      while first.Some?
        invariant Valid() && Drain(Model()) == Drain(old(Model())) && first == CeilKey(frags, 0)
        decreases |frags|
      {
        DrainUnfold(Model());
        assert next <= first.value;
        if first.value != next { return; }
        var full := AssembleNext();
        if full { return; }
        first := CeilKey(frags, 0);
      }
    }

    /** Where the part of the push that is not already held begins. */
    method FindStart(index: nat) returns (start: nat)
      requires output.Valid()
      ensures start == NewIndex(Model(), index)
    {
      start := index;
      var up := FloorKey(frags, index);
      if up.Some? {
        if index < up.value + |frags[up.value]| {
          start := up.value + |frags[up.value]|;
        }
      } else if index < next {
        start := next;
      }
    }

    method TrimPush(data: seq<Byte>, index: nat) returns (start: nat, cut: nat)
      requires Valid()
      modifies this`frags, this`unassembled
      ensures Valid() && Model() == Trim(old(Model()), data, index).0
      ensures start == NewIndex(old(Model()), index) == Trim(old(Model()), data, index).1
      ensures cut == Trim(old(Model()), data, index).2
    {
      hide Total, Ordered, Inv, NewIndex, Covered, CutPoint, Clear, SubMap;
      TrimSpec(Model(), data, index);
      start := FindStart(index);
      cut := EraseCovered(start, index + |data|);
    }

    method MarkEnd(end: nat, eof: bool)
      requires output.Valid()
      modifies this`eofIdx, output
      ensures output.Valid() && Model() == Finish(old(Model()), end, eof)
    {
      if eof {
        eofIdx := Some(end);
      }
      if eofIdx.Some? && eofIdx.value <= next {
        output.EndInput();
      }
    }

    method PushSubstring(data: seq<Byte>, index: nat, eof: bool)
      requires Valid()
      modifies this, output
      ensures Valid() && Model() == Push(old(Model()), data, index, eof)
    {
      hide Total, Ordered, Inv, Store, Drain, Trim, NewIndex, Finish;
      ghost var before := Model();
      PushInv(before, data, index, eof);
      var start, cut := TrimPush(data, index);
      var firstUnacceptable := next + capacity - |output.buffer|;
      assert firstUnacceptable <= start <==> Rejects(before, index);
      if firstUnacceptable <= start {
        return;
      }
      if start < cut {
        StoreNew(start, data[start - index..cut - index]);
      }
      FilledSpec(before, data, index);
      assert Model() == Filled(before, data, index);
      AssembleStored();
      MarkEnd(index + |data|, eof);
    }

    method StoreNew(start: nat, data: seq<Byte>)
      requires output.Valid()
      modifies this, output
      ensures output.Valid() && Model() == Store(old(Model()), start, data)
    {
      if start == next {
        var n := output.WriteBytes(data);
        next := next + n;
        if n < |data| {
          unassembled := unassembled + |data| - n;
          frags := Insert(frags, next, data[n..]);
        }
      } else {
        unassembled := unassembled + |data|;
        frags := Insert(frags, start, data);
      }
    }

    function UnassembledBytes(): (n: nat)
      requires Valid()
      reads this, output
      ensures Total(frags) <= n
    {
      unassembled
    }

    /** `empty` may say no when nothing is stored, but never yes when something is. */
    predicate Empty()
      requires Valid()
      reads this, output
      ensures Empty() ==> frags == map[]
    {
      assert unassembled == 0 ==> frags == map[] by {
        if frags != map[] {
          var k :| k in frags;
          TotalRemove(frags, k);
        }
      }
      unassembled == 0
    }
  }
}
