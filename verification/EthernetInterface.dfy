/** The interface object (network_interface.cc), proved against the operations on values. */
module EthernetInterfaces {
  import opened Words
  import opened Parsers
  import opened Interfaces
  import A = ARP
  import IP = IPv4

  class NetworkInterface {
    var address: A.EthernetAddress
    var ip: U32
    var arpCache: map<U32, CacheEntry>
    var arpRequests: map<U32, nat>
    var pendingDatagrams: map<U32, seq<IP.IPv4Datagram>>
    var framesOut: seq<A.EthernetFrame>
    ghost var clock: nat
    ghost var log: seq<Entry>

    ghost function Model(): Interface
      reads this
    {
      Interface(address, ip, arpCache, arpRequests, pendingDatagrams, framesOut, clock, log)
    }

    constructor (address: A.EthernetAddress, ip: U32)
      ensures Model() == New(address, ip)
    {
      this.address, this.ip := address, ip;
      arpCache, arpRequests, pendingDatagrams, framesOut := map[], map[], map[], [];
      clock, log := 0, [];
    }

    ghost method Record(what: Happening)
      modifies this`log
      ensures Model() == Note(old(Model()), what)
    {
      log := log + [Entry(clock, what)];
    }

    /** `ok` is false where serialising the datagram throws. */
    method SendDatagram(d: IP.IPv4Datagram, nextHop: U32) returns (ok: bool)
      modifies this
      ensures (Model(), ok) == Send(old(Model()), d, nextHop)
    {
      hide IP.SerializeDatagram, A.Serialize;
      if nextHop in arpCache {
        var bytes := IP.Serialize(d);
        if bytes.None? {
          return false;
        }
        var frame := A.EthernetFrame(arpCache[nextHop].address, address, A.TYPE_IPv4, bytes.value);
        Record(Handed(nextHop, d));
        framesOut := framesOut + [frame];
        Record(Framed(nextHop, d, frame));
      } else {
        var queue := if nextHop in pendingDatagrams then pendingDatagrams[nextHop] else [];
        pendingDatagrams := pendingDatagrams[nextHop := queue + [d]];
        Record(Handed(nextHop, d));
        if nextHop !in arpRequests {
          var bytes := A.Write(A.Message(A.OPCODE_REQUEST, address, ip, A.NO_ADDRESS, nextHop));
          MessageBytes(A.OPCODE_REQUEST, address, ip, A.NO_ADDRESS, nextHop);
          var frame := A.EthernetFrame(A.ETHERNET_BROADCAST, address, A.TYPE_ARP, bytes.value);
          framesOut := framesOut + [frame];
          Record(Asked(nextHop, frame));
          arpRequests := arpRequests[nextHop := ARP_REQUEST_TIMEOUT];
        }
      }
      ok := true;
    }

    static lemma MessageBytes(opcode: U16, sender: A.EthernetAddress, senderIp: U32, target: A.EthernetAddress,
        targetIp: U32)
      requires opcode == A.OPCODE_REQUEST || opcode == A.OPCODE_REPLY
      ensures var m := A.Message(opcode, sender, senderIp, target, targetIp); A.Serialize(m) == Some(A.Bytes(m, []))
    {
    }

    /** The inner loop of `recv_frame`: send what waits for `hop`, then drop its queue. */
    method FlushPending(dst: A.EthernetAddress, hop: U32) returns (ok: bool)
      modifies this
      ensures (Model(), ok) == Flush(old(Model()), dst, hop)
    {
      hide IP.SerializeDatagram;
      if hop !in pendingDatagrams {
        return true;
      }
      while pendingDatagrams[hop] != []
        invariant hop in pendingDatagrams
        invariant Flush(Model(), dst, hop) == Flush(old(Model()), dst, hop)
        decreases |pendingDatagrams[hop]|
      {
        var d := pendingDatagrams[hop][0];
        var bytes := IP.Serialize(d);
        if bytes.None? {
          return false;
        }
        var frame := A.EthernetFrame(dst, address, A.TYPE_IPv4, bytes.value);
        framesOut := framesOut + [frame];
        pendingDatagrams := pendingDatagrams[hop := pendingDatagrams[hop][1..]];
        Record(Framed(hop, d, frame));
      }
      pendingDatagrams := pendingDatagrams - {hop};
      ok := true;
    }

    method LearnFrom(msg: A.ARPMessage) returns (ok: bool)
      modifies this
      ensures (Model(), ok) == Learn(old(Model()), msg)
    {
      hide Flush, A.Serialize;
      var sender, senderAddress := msg.senderIp, msg.senderEthernet;
      arpCache := arpCache[sender := CacheEntry(senderAddress, ARP_CACHE_TIMEOUT)];
      ok := true;
      if msg.opcode == A.OPCODE_REQUEST && msg.targetIp == ip {
        Record(Heard(msg));
        var bytes := A.Write(A.Message(A.OPCODE_REPLY, address, ip, senderAddress, sender));
        MessageBytes(A.OPCODE_REPLY, address, ip, senderAddress, sender);
        var frame := A.EthernetFrame(senderAddress, address, A.TYPE_ARP, bytes.value);
        framesOut := framesOut + [frame];
        Record(Replied(frame));
      } else if msg.opcode == A.OPCODE_REPLY {
        arpRequests := arpRequests - {sender};
        Record(Heard(msg));
        ok := FlushPending(senderAddress, sender);
      } else {
        Record(Heard(msg));
      }
    }

    method RecvFrame(frame: A.EthernetFrame) returns (d: Option<IP.IPv4Datagram>, ok: bool)
      modifies this
      ensures (Model(), d, ok) == Receive(old(Model()), frame)
    {
      hide Learn, A.Parse, IP.ParseDatagram;
      d, ok := None, true;
      if frame.dst != address && frame.dst != A.ETHERNET_BROADCAST {
        return;
      }
      if frame.etherType == A.TYPE_IPv4 {
        var result, dgram := IP.Parse(frame.payload);
        if result == NoError {
          d := Some(dgram);
        }
      } else if frame.etherType == A.TYPE_ARP {
        var result, msg := A.Read(frame.payload);
        if result == NoError {
          ok := LearnFrom(msg);
        }
      }
    }

    /** Both loops erase while they iterate; `todo` is what the iterator has not reached. */
    method TimePasses(ms: nat)
      modifies this
      ensures Model() == Tick(old(Model()), ms)
    {
      AgeCache(ms);
      AgeRequests(ms);
      clock := clock + ms;
    }

    method AgeCache(ms: nat)
      modifies this`arpCache
      ensures arpCache == AgedCache(old(arpCache), ms)
    {
      var todo := arpCache.Keys;
      ghost var before := arpCache;
      while todo != {}
        invariant todo <= arpCache.Keys <= before.Keys
        invariant forall k :: k in todo ==> arpCache[k] == before[k]
        invariant forall k :: k in before && k !in todo ==>
          (k in arpCache <==> before[k].left > ms) &&
          (k in arpCache ==> arpCache[k] == before[k].(left := before[k].left - ms))
        decreases |todo|
      {
        var k :| k in todo;
        todo := todo - {k};
        if arpCache[k].left <= ms {
          arpCache := arpCache - {k};
        } else {
          arpCache := arpCache[k := arpCache[k].(left := arpCache[k].left - ms)];
        }
      }
    }

    method AgeRequests(ms: nat)
      modifies this`arpRequests
      ensures arpRequests == Aged(old(arpRequests), ms)
    {
      var todo := arpRequests.Keys;
      ghost var before := arpRequests;
      while todo != {}
        invariant todo <= arpRequests.Keys <= before.Keys
        invariant forall k :: k in todo ==> arpRequests[k] == before[k]
        invariant forall k :: k in before && k !in todo ==>
          (k in arpRequests <==> before[k] > ms) && (k in arpRequests ==> arpRequests[k] == before[k] - ms)
        decreases |todo|
      {
        var k :| k in todo;
        todo := todo - {k};
        if arpRequests[k] <= ms {
          arpRequests := arpRequests - {k};
        } else {
          arpRequests := arpRequests[k := arpRequests[k] - ms];
        }
      }
    }

    method TakeFrame() returns (frame: Option<A.EthernetFrame>)
      modifies this`framesOut
      ensures Model() == PopFrame(old(Model()))
      ensures frame == if old(framesOut) == [] then None else Some(old(framesOut)[0])
    {
      if framesOut == [] {
        return None;
      }
      frame := Some(framesOut[0]);
      framesOut := framesOut[1..];
    }
  }
}
