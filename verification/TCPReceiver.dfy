/** The receiver object (tcp_receiver.hh, tcp_receiver.cc). */
module TCPReceivers {
  import opened Words
  import opened WrappingIntegers
  import opened Reassembly
  import opened StreamReassemblers
  import opened TCPSegments
  import opened Receiving

  class TCPReceiver {
    const reassembler: StreamReassembler
    const capacity: nat
    var isn: Option<U32>
    var finReceived: bool

    ghost predicate Valid()
      reads this, reassembler, reassembler.output
    {
      reassembler.Valid() && reassembler.capacity == capacity && ReceiverInv(Model())
    }

    ghost function Model(): Receiver
      requires reassembler.output.Valid()
      reads this, reassembler, reassembler.output
    {
      Receiver(reassembler.Model(), isn, finReceived)
    }

    constructor (capacity: nat)
      ensures Valid() && fresh(reassembler) && fresh(reassembler.output) && Model() == NewReceiver(capacity)
    {
      reassembler := new StreamReassembler(capacity);
      this.capacity := capacity;
      isn, finReceived := None, false;
    }

    method SegmentReceived(seg: TCPSegment)
      requires Valid()
      modifies this, reassembler, reassembler.output
      ensures Valid() && Model() == Receive(old(Model()), seg)
    {
      hide Inv, Push;
      ReceiveInv(Model(), seg);
      if isn.None? {
        if seg.header.syn {
          isn := Some(seg.header.seqno);
        } else {
          return;
        }
      }
      var checkpoint := (reassembler.output.bytesWritten + 1) % TWO64;
      var absolute := Unwrap(seg.header.seqno, isn.value, checkpoint);
      var index: U64;
      if seg.header.syn {
        index := absolute;
      } else {
        index := (absolute - 1) % TWO64;
      }
      reassembler.PushSubstring(seg.payload, index, seg.header.fin);
      if seg.header.fin {
        finReceived := true;
      }
    }

    function Ackno(): (ackno: Option<U32>)
      requires Valid()
      reads this, reassembler, reassembler.output
      ensures ackno == AckNo(Model())
    {
      if isn.None? then None
      else
        var absolute := reassembler.output.bytesWritten + 1;
        Some(Wrap(if finReceived && reassembler.output.inputEnded then absolute + 1 else absolute, isn.value))
    }

    function Window(): (n: nat)
      requires Valid()
      reads this, reassembler, reassembler.output
      ensures n == WindowSize(Model())
    {
      capacity - (reassembler.output.bytesWritten - reassembler.output.bytesRead)
    }
  }
}
