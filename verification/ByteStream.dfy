/**
 The bounded in-memory byte stream (byte_stream.cc).
 `Stream` is the specification: everything ever accepted, and how much of it has been read.
 */
module ByteStreams {
  import opened Words

  datatype StreamState = StreamState(all: seq<Byte>, read: nat, capacity: nat, ended: bool, error: bool) {

    predicate Valid() {
      read <= |all| <= read + capacity
    }
  }

  type Stream = s: StreamState | s.Valid() witness StreamState([], 0, 0, false, false)

  function Buffer(s: Stream): seq<Byte> { s.all[s.read..] }

  function BufferSize(s: Stream): nat { |s.all| - s.read }

  function Remaining(s: Stream): nat { s.capacity - BufferSize(s) }

  predicate Eof(s: Stream) { s.ended && BufferSize(s) == 0 }

  /** How many of `n` offered bytes a write accepts. */
  function Accepts(s: Stream, n: nat): nat {
    if s.ended || s.error then 0 else Min(n, Remaining(s))
  }

  function Write(s: Stream, data: seq<Byte>): Stream {
    s.(all := s.all + data[..Accepts(s, |data|)])
  }

  function Peek(s: Stream, len: nat): seq<Byte> {
    Buffer(s)[..Min(len, BufferSize(s))]
  }

  function Pop(s: Stream, len: nat): Stream {
    s.(read := s.read + Min(len, BufferSize(s)))
  }

  /** What a reader takes with a list of reads, one after the other. */
  function ReadAll(s: Stream, lens: seq<nat>): (r: (seq<Byte>, Stream))
    decreases |lens|
  {
    if lens == [] then ([], s)
    else
      var (rest, s') := ReadAll(Pop(s, lens[0]), lens[1..]);
      (Peek(s, lens[0]) + rest, s')
  }

  lemma PeekIsNext(s: Stream, len: nat)
    ensures Peek(s, len) == s.all[s.read..Pop(s, len).read]
  {
  }

  /** First in, first out: however the reads are cut, they return the next bytes written, in order, without a gap. */
  lemma {:induction false} ReadsAreFifo(s: Stream, lens: seq<nat>)
    ensures ReadAll(s, lens).1 == s.(read := s.read + |ReadAll(s, lens).0|)
    ensures ReadAll(s, lens).0 == s.all[s.read..ReadAll(s, lens).1.read]
    decreases |lens|
  {
    if lens != [] {
      PeekIsNext(s, lens[0]);
      ReadsAreFifo(Pop(s, lens[0]), lens[1..]);
      SliceJoin(s.all, s.read, Pop(s, lens[0]).read, ReadAll(s, lens).1.read);
    }
  }

  class ByteStream {
    var buffer: seq<Byte>
    const capacity: nat
    var inputEnded: bool
    var failed: bool
    var bytesWritten: nat
    var bytesRead: nat
    ghost var history: seq<Byte>

    ghost predicate Valid()
      reads this
    {
      && |buffer| <= capacity
      && bytesWritten == |history|
      && bytesRead <= |history|
      && buffer == history[bytesRead..]
    }

    ghost function Model(): Stream
      requires Valid()
      reads this
    {
      StreamState(history, bytesRead, capacity, inputEnded, failed)
    }

    constructor (capacity: nat)
      ensures Valid() && Model() == StreamState([], 0, capacity, false, false)
    {
      this.capacity := capacity;
      buffer, inputEnded, failed, bytesWritten, bytesRead, history := [], false, false, 0, 0, [];
    }

    function RemainingCapacity(): (n: nat)
      requires Valid()
      reads this
      ensures n == Remaining(Model())
    {
      capacity - |buffer|
    }

    predicate AtEof()
      requires Valid()
      reads this
      ensures AtEof() == Eof(Model())
    {
      inputEnded && buffer == []
    }

    method WriteBytes(data: seq<Byte>) returns (n: nat)
      requires Valid()
      modifies this
      ensures Valid() && Model() == Write(old(Model()), data)
      ensures n == Accepts(old(Model()), |data|)
    {
      if inputEnded || failed {
        assert history + data[..0] == history;
        return 0;
      }
      n := Min(|data|, RemainingCapacity());
      buffer := buffer + data[..n];
      bytesWritten := bytesWritten + n;
      history := history + data[..n];
    }

    method PeekOutput(len: nat) returns (bytes: seq<Byte>)
      requires Valid()
      ensures bytes == Peek(Model(), len)
    {
      bytes := buffer[..Min(len, |buffer|)];
    }

    method PopOutput(len: nat)
      requires Valid()
      modifies this
      ensures Valid() && Model() == Pop(old(Model()), len)
    {
      var n := Min(len, |buffer|);
      buffer := buffer[n..];
      bytesRead := bytesRead + n;
    }

    method Read(len: nat) returns (bytes: seq<Byte>)
      requires Valid()
      modifies this
      ensures Valid() && Model() == Pop(old(Model()), len)
      ensures bytes == Peek(old(Model()), len)
    {
      bytes := PeekOutput(len);
      PopOutput(len);
    }

    method EndInput()
      requires Valid()
      modifies this
      ensures Valid() && Model() == old(Model()).(ended := true)
    {
      inputEnded := true;
    }

    method SetError()
      requires Valid()
      modifies this
      ensures Valid() && Model() == old(Model()).(error := true)
    {
      failed := true;
    }
  }
}
