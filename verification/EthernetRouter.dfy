/** The router object and its interfaces (router.cc, router.hh), proved against the operations on values. */
module EthernetRouters {
  import opened Words
  import opened Interfaces
  import opened Routing
  import opened EthernetInterfaces
  import A = ARP
  import IP = IPv4

  class AsyncNetworkInterface {
    const nic: NetworkInterface
    var datagramsOut: seq<IP.IPv4Datagram>

    ghost function Model(): AsyncInterface
      reads this, nic
    {
      AsyncInterface(nic.Model(), datagramsOut)
    }

    constructor (nic: NetworkInterface)
      ensures this.nic == nic && datagramsOut == []
    {
      this.nic, datagramsOut := nic, [];
    }

    method RecvFrame(frame: A.EthernetFrame) returns (ok: bool)
      modifies this, nic
      ensures Model().nic == Receive(old(Model()).nic, frame).0
      ensures ok == Receive(old(Model()).nic, frame).2
      ensures var got := Receive(old(Model()).nic, frame).1;
              datagramsOut == if got.Some? then old(datagramsOut) + [got.value] else old(datagramsOut)
    {
      hide Receive;
      var d;
      d, ok := nic.RecvFrame(frame);
      if d.Some? {
        datagramsOut := datagramsOut + [d.value];
      }
    }
  }

  class IPRouter {
    var interfaces: seq<AsyncNetworkInterface>
    var table: seq<RouteEntry>

    ghost function Parts(): set<object>
      reads this
    {
      (set i | 0 <= i < |interfaces| :: interfaces[i] as object)
      + (set i | 0 <= i < |interfaces| :: interfaces[i].nic as object)
    }

    /** The interfaces are values in the source: no two of ours are the same object. */
    ghost predicate Distinct()
      reads this
    {
      forall i, j :: 0 <= i < j < |interfaces| ==>
        interfaces[i] != interfaces[j] && interfaces[i].nic != interfaces[j].nic
    }

    ghost function Model(): (r: Router)
      reads this, Parts()
      ensures |r.interfaces| == |interfaces|
    {
      Router(seq(|interfaces|, i requires 0 <= i < |interfaces| reads this, Parts() => interfaces[i].Model()), table)
    }

    constructor ()
      ensures Model() == Router([], []) && Distinct()
    {
      interfaces, table := [], [];
    }

    method AddInterface(x: AsyncNetworkInterface) returns (n: nat)
      requires Distinct()
      requires forall i :: 0 <= i < |interfaces| ==> interfaces[i] != x && interfaces[i].nic != x.nic
      modifies this
      ensures Distinct() && n == |old(interfaces)| && table == old(table)
      ensures interfaces == old(interfaces) + [x]
      ensures Model() == Router(old(Model()).interfaces + [x.Model()], table)
    {
      interfaces := interfaces + [x];
      n := |interfaces| - 1;
    }

    method AddRoute(prefix: U32, length: U8, nextHop: Option<U32>, interfaceNum: nat)
      modifies this`table
      ensures table == old(table) + [RouteEntry(prefix, length, nextHop, interfaceNum)]
    {
      table := table + [RouteEntry(prefix, length, nextHop, interfaceNum)];
    }

    /** The loop over the table, with its mask; `longestPrefix` starts at zero, and -1 stands for no match. */
    method FindRoute(dst: U32) returns (bestMatch: int)
      requires TableOk(table)
      ensures bestMatch == -1 || 0 <= bestMatch < |table|
      ensures BestMatch(table, dst) == if bestMatch == -1 then None else Some(bestMatch)
    {
      hide Matches, MaskMatches;
      bestMatch := -1;
      var longestPrefix: U8 := 0;
      var i := 0;
      while i < |table|
        invariant 0 <= i <= |table| && -1 <= bestMatch < i
        invariant BestMatch(table[..i], dst) == if bestMatch == -1 then None else Some(bestMatch)
        invariant longestPrefix == if bestMatch == -1 then 0 else table[bestMatch].length
      {
        var prefixLen := table[i].length;
        var matched := MatchesMask(table[i], dst);
        MaskIsPrefix(table[i], dst);
        assert table[..i + 1][..i] == table[..i];
        if matched {
          if prefixLen >= longestPrefix {
            longestPrefix := prefixLen;
            bestMatch := i;
          }
        }
        i := i + 1;
      }
      assert table[..|table|] == table;
    }

    static method MatchesMask(e: RouteEntry, dst: U32) returns (b: bool)
      requires e.length <= 32
      ensures b == MaskMatches(e, dst)
    {
      var mask: U32 := 0;
      if e.length > 0 {
        if e.length == 32 {
          mask := 0xffff_ffff;
        } else {
          mask := 0xffff_ffff - (Bit(32 - e.length) - 1);
        }
      }
      b := And(dst, mask) == And(e.prefix, mask);
    }

    /** `route_one_datagram`: the datagram comes back with its TTL as it was left. */
    method RouteOneDatagram(d: IP.IPv4Datagram) returns (left: IP.IPv4Datagram, ok: bool)
      requires Distinct() && RouterOk(Model())
      modifies set i | 0 <= i < |interfaces| :: interfaces[i].nic
      ensures Distinct() && (Model(), ok) == RouteOne(old(Model()), d)
      ensures forall x :: x in interfaces ==> x.datagramsOut == old(x.datagramsOut)
      ensures left == if d.header.ttl <= 1 then d else Lowered(d)
    {
      hide Send, BestMatch;
      left, ok := d, true;
      if d.header.ttl <= 1 {
        return;
      }
      left := d.(header := d.header.(ttl := d.header.ttl - 1));
      var best := FindRoute(left.header.dst);
      if best == -1 {
        assert Model().interfaces == old(Model()).interfaces;
        return;
      }
      var route := table[best];
      var hop := if route.nextHop.Some? then route.nextHop.value else left.header.dst;
      ghost var k := route.interfaceNum;
      assert k == Model().table[best].interfaceNum;
      ok := interfaces[route.interfaceNum].nic.SendDatagram(left, hop);
      assert forall i :: 0 <= i < |interfaces| && i != k ==> interfaces[i].Model() == old(interfaces[i].Model());
      assert Model().interfaces == WithNic(old(Model()), k, interfaces[k].nic.Model()).interfaces;
    }

    /** The inner loop of `route`. */
    method DrainQueue(k: nat) returns (ok: bool)
      requires Distinct() && RouterOk(Model()) && k < |interfaces|
      modifies Parts()
      ensures Distinct() && (Model(), ok) == RouteQueue(old(Model()), k)
    {
      hide RouteOne;
      ok := true;
      while interfaces[k].datagramsOut != []
        invariant Distinct() && RouterOk(Model()) && ok
        invariant RouteQueue(Model(), k) == RouteQueue(old(Model()), k)
        decreases |interfaces[k].datagramsOut|
      {
        ghost var before := Model();
        var front := interfaces[k].datagramsOut[0];
        var left;
        left, ok := RouteOneDatagram(front);
        RouteOneShape(before, front);
        ghost var mid := Model();
        var q := interfaces[k].datagramsOut;
        interfaces[k].datagramsOut := if ok then q[1..] else [left] + q[1..];
        assert Model().interfaces == WithInbox(mid, k, interfaces[k].datagramsOut).interfaces;
        if !ok {
          return;
        }
      }
    }

    /** `route`: every interface in turn. */
    method RouteAll() returns (ok: bool)
      requires Distinct() && RouterOk(Model())
      modifies Parts()
      ensures Distinct() && (Model(), ok) == Route(old(Model()))
    {
      hide RouteQueue;
      var k := 0;
      while k < |interfaces|
        invariant 0 <= k <= |interfaces| && Distinct() && RouterOk(Model())
        invariant RouteFrom(Model(), k) == Route(old(Model()))
      {
        ok := DrainQueue(k);
        if !ok {
          return;
        }
        k := k + 1;
      }
      ok := true;
    }
  }
}
