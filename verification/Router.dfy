/** Forwarding between interfaces (router.cc, router.hh; longest match, section 5.2.4.3 of RFC 1812), on values. */
module Routing {
  import opened Words
  import Parsers
  import opened Interfaces
  import A = ARP
  import IP = IPv4

  datatype RouteEntry = RouteEntry(prefix: U32, length: U8, nextHop: Option<U32>, interfaceNum: nat)

  /** An interface with the datagrams it has received and nobody has routed yet. */
  datatype AsyncInterface = AsyncInterface(nic: Interface, inbox: seq<IP.IPv4Datagram>)

  datatype Router = Router(interfaces: seq<AsyncInterface>, table: seq<RouteEntry>)

  // ---------------------------------------------------------------- prefixes

  /** Bitwise and. */
  function And(a: nat, b: nat): nat
    decreases a
  {
    if a == 0 || b == 0 then 0
    else 2 * And(a / 2, b / 2) + (if a % 2 == 1 && b % 2 == 1 then 1 else 0)
  }

  /** `1U << k`, for `k` below 32. */
  function Bit(k: nat): U32
    requires k < 32
  {
    PowerBelow(k, 32);
    Pow2(k)
  }

  /** The mask of the prefix loop. */
  function MaskOf(length: U8): U32
    requires length <= 32
  {
    if length == 0 then 0
    else if length == 32 then 0xffff_ffff
    else 0xffff_ffff - (Bit(32 - length) - 1)
  }

  predicate MaskMatches(e: RouteEntry, dst: U32)
    requires e.length <= 32
  {
    And(dst, MaskOf(e.length)) == And(e.prefix, MaskOf(e.length))
  }

  /** The `length` high-order bits agree. */
  predicate Matches(e: RouteEntry, dst: U32)
    requires e.length <= 32
  {
    dst / Pow2(32 - e.length) == e.prefix / Pow2(32 - e.length)
  }

  lemma {:induction false} PowerBelow(k: nat, n: nat)
    requires k < n
    ensures Pow2(k) < Pow2(n)
    ensures n == 32 ==> Pow2(n) == 0x1_0000_0000
    decreases n
  {
    Pow32();
    if k < n - 1 { PowerBelow(k, n - 1); }
  }

  lemma Pow32()
    ensures Pow2(32) == 0x1_0000_0000
  {
    assert Pow2(8) == 0x100;
    assert Pow2(16) == 0x1_0000;
    assert Pow2(24) == 0x100_0000;
  }

  lemma {:induction false} AndAllOnes(x: nat, n: nat)
    requires x < Pow2(n)
    ensures And(x, Pow2(n) - 1) == x
    decreases n
  {
    hide And;
    AndNothing(x);
    if n > 0 {
      AndOdd(x, Pow2(n - 1) - 1);
      AndAllOnes(x / 2, n - 1);
    }
  }

  lemma AndNothing(x: nat)
    ensures And(x, 0) == 0
  {
  }

  lemma AndOdd(x: nat, h: nat)
    ensures And(x, 2 * h + 1) == 2 * And(x / 2, h) + x % 2
  {
    assert (2 * h + 1) / 2 == h && (2 * h + 1) % 2 == 1;
  }

  lemma AndEven(x: nat, h: nat)
    ensures And(x, 2 * h) == 2 * And(x / 2, h)
  {
    assert 2 * h / 2 == h && 2 * h % 2 == 0;
  }

  /** Masking off the low `k` bits rounds down to a multiple of 2^k. */
  lemma {:induction false} AndHigh(x: nat, n: nat, k: nat)
    requires x < Pow2(n) && k <= n
    ensures Pow2(k) <= Pow2(n) && And(x, Pow2(n) - Pow2(k)) == x / Pow2(k) * Pow2(k)
    decreases k
  {
    hide And;
    if k == 0 {
      AndAllOnes(x, n);
    } else {
      AndHigh(x / 2, n - 1, k - 1);
      var p := Pow2(k - 1);
      AndEven(x, Pow2(n - 1) - p);
      assert Pow2(n) - Pow2(k) == 2 * (Pow2(n - 1) - p);
      HalfThenQuotient(x, p);
    }
  }

  lemma HalfThenQuotient(x: nat, p: nat)
    requires p >= 1
    ensures x / 2 / p == x / (2 * p)
    ensures 2 * (x / 2 / p * p) == x / (2 * p) * (2 * p)
  {
    var q := x / (2 * p);
    var r := x % (2 * p);
    assert x == q * (2 * p) + r;
    assert x / 2 == q * p + r / 2;
    QuotientIs(x / 2, p, q, r / 2);
  }

  lemma QuotientIs(x: nat, p: nat, q: nat, r: nat)
    requires x == q * p + r && r < p
    ensures x / p == q
  {
    var d := x / p - q;
    assert d * p == r - x % p;
    AtLeast(d, p);
  }

  lemma AtLeast(d: int, p: nat)
    ensures d >= 1 ==> d * p >= p
    ensures d <= -1 ==> d * p + p <= 0
  {
    if d >= 1 { assert d * p == (d - 1) * p + p; }
    if d <= -1 { assert d * p == (d + 1) * p - p; }
  }

  lemma Masked(x: U32, length: U8)
    requires length <= 32
    ensures And(x, MaskOf(length)) == x / Pow2(32 - length) * Pow2(32 - length)
  {
    hide And;
    Pow32();
    AndHigh(x, 32, 32 - length);
    assert MaskOf(length) == Pow2(32) - Pow2(32 - length);
  }

  /** The mask test of the code is the arithmetic one, for every prefix length from 0 to 32. */
  lemma MaskIsPrefix(e: RouteEntry, dst: U32)
    requires e.length <= 32
    ensures MaskMatches(e, dst) <==> Matches(e, dst)
  {
    hide And, Pow2, MaskOf;
    var p := Pow2(32 - e.length);
    Masked(dst, e.length);
    Masked(e.prefix, e.length);
    if dst / p < e.prefix / p {
      LessTimes(dst / p, e.prefix / p, p);
    } else if dst / p > e.prefix / p {
      LessTimes(e.prefix / p, dst / p, p);
    }
  }

  lemma LessTimes(a: nat, b: nat, p: nat)
    requires a < b && p >= 1
    ensures a * p < b * p
  {
    var d := b - a;
    assert b * p == a * p + (d - 1) * p + p;
  }

  // ---------------------------------------------------------------- the longest match

  predicate TableOk(table: seq<RouteEntry>) { forall i :: 0 <= i < |table| ==> table[i].length <= 32 }

  /** `i` is a matching route, no match is longer, and no later one is as long. */
  predicate IsBest(table: seq<RouteEntry>, dst: U32, i: nat)
    requires TableOk(table)
  {
    && i < |table| && Matches(table[i], dst)
    && (forall j :: 0 <= j < |table| && Matches(table[j], dst) ==> table[j].length <= table[i].length)
    && (forall j :: i < j < |table| && Matches(table[j], dst) ==> table[j].length < table[i].length)
  }

  predicate NoMatch(table: seq<RouteEntry>, dst: U32)
    requires TableOk(table)
  {
    forall j :: 0 <= j < |table| ==> !Matches(table[j], dst)
  }

  /** The route the loop over the table ends up with. */
  function BestMatch(table: seq<RouteEntry>, dst: U32): (best: Option<nat>)
    requires TableOk(table)
    ensures best.Some? ==> best.value < |table|
  {
    if table == [] then None
    else
      var i := |table| - 1;
      var best := BestMatch(table[..i], dst);
      if Matches(table[i], dst) && (best.None? || table[i].length >= table[best.value].length) then Some(i) else best
  }

  /** The loop finds the longest match, the last one added on ties, and nothing exactly when nothing matches. */
  lemma {:induction false} BestMatchIsLongest(table: seq<RouteEntry>, dst: U32)
    requires TableOk(table)
    ensures match BestMatch(table, dst) { case None => NoMatch(table, dst) case Some(i) => IsBest(table, dst, i) }
    decreases |table|
  {
    hide Matches;
    if table != [] {
      assert forall j :: 0 <= j < |table| - 1 ==> table[..|table| - 1][j] == table[j];
      BestMatchIsLongest(table[..|table| - 1], dst);
    }
  }

  lemma OneBest(table: seq<RouteEntry>, dst: U32, i: nat, j: nat)
    requires TableOk(table) && IsBest(table, dst, i) && IsBest(table, dst, j)
    ensures i == j
  {
  }

  // ---------------------------------------------------------------- routing

  /** The routes name interfaces there are. */
  predicate RouterOk(r: Router) {
    TableOk(r.table) && forall i :: 0 <= i < |r.table| ==> r.table[i].interfaceNum < |r.interfaces|
  }

  /** Where a datagram goes: which interface, which next hop, and with a TTL one lower; or nowhere. */
  datatype Decision = Drop | Forward(interfaceNum: nat, hop: U32, dgram: IP.IPv4Datagram)

  function Lowered(d: IP.IPv4Datagram): IP.IPv4Datagram
    requires d.header.ttl > 1
  {
    d.(header := d.header.(ttl := d.header.ttl - 1))
  }

  function Decide(table: seq<RouteEntry>, d: IP.IPv4Datagram): Decision
    requires TableOk(table)
  {
    if d.header.ttl <= 1 then Drop
    else
      match BestMatch(table, d.header.dst)
      case None => Drop
      case Some(i) =>
        var hop := if table[i].nextHop.Some? then table[i].nextHop.value else d.header.dst;
        Forward(table[i].interfaceNum, hop, Lowered(d))
  }

  function WithNic(r: Router, k: nat, nic: Interface): Router
    requires k < |r.interfaces|
  {
    r.(interfaces := r.interfaces[k := r.interfaces[k].(nic := nic)])
  }

  function WithInbox(r: Router, k: nat, inbox: seq<IP.IPv4Datagram>): Router
    requires k < |r.interfaces|
  {
    r.(interfaces := r.interfaces[k := r.interfaces[k].(inbox := inbox)])
  }

  /** `route_one_datagram`; false where sending throws. */
  function RouteOne(r: Router, d: IP.IPv4Datagram): (Router, bool)
    requires RouterOk(r)
  {
    match Decide(r.table, d)
    case Drop => (r, true)
    case Forward(k, hop, out) =>
      var (nic, ok) := Send(r.interfaces[k].nic, out, hop);
      (WithNic(r, k, nic), ok)
  }

  /** The inner loop of `route`. A throw leaves the datagram at the front of its queue, its TTL already lowered. */
  function RouteQueue(r: Router, k: nat): (res: (Router, bool))
    requires RouterOk(r) && k < |r.interfaces|
    ensures res.0.table == r.table && |res.0.interfaces| == |r.interfaces|
    decreases |r.interfaces[k].inbox|
  {
    var inbox := r.interfaces[k].inbox;
    if inbox == [] then (r, true)
    else
      var (after, ok) := RouteOne(r, inbox[0]);
      if !ok then (WithInbox(after, k, [Lowered(inbox[0])] + inbox[1..]), false)
      else RouteQueue(WithInbox(after, k, inbox[1..]), k)
  }

  /** `route`, from interface `k` on. */
  function RouteFrom(r: Router, k: nat): (res: (Router, bool))
    requires RouterOk(r) && k <= |r.interfaces|
    ensures res.0.table == r.table && |res.0.interfaces| == |r.interfaces|
    decreases |r.interfaces| - k
  {
    if k == |r.interfaces| then (r, true)
    else
      var (after, ok) := RouteQueue(r, k);
      if !ok then (after, false) else RouteFrom(after, k + 1)
  }

  function Route(r: Router): (res: (Router, bool))
    requires RouterOk(r)
    ensures RouterOk(res.0) && res.0.table == r.table && |res.0.interfaces| == |r.interfaces|
  {
    RouteFrom(r, 0)
  }

  /** A frame arriving at one interface; the datagram in it joins the inbox. */
  function Arrive(r: Router, k: nat, frame: A.EthernetFrame): Router
    requires k < |r.interfaces|
  {
    var (nic, got, ok) := Receive(r.interfaces[k].nic, frame);
    var inbox := r.interfaces[k].inbox;
    WithInbox(WithNic(r, k, nic), k, if got.Some? then inbox + [got.value] else inbox)
  }

  /**
   * What arrives: a datagram in an IPv4 frame for the interface joins the back of its inbox, and of none other; any
   * other frame leaves all inboxes as they are.
   */
  lemma ArrivalsQueue(r: Router, k: nat, frame: A.EthernetFrame)
    requires k < |r.interfaces|
    ensures var after, n := Arrive(r, k, frame), r.interfaces[k].nic;
      && |after.interfaces| == |r.interfaces| && after.table == r.table
      && (forall i :: 0 <= i < |r.interfaces| && i != k ==> after.interfaces[i] == r.interfaces[i])
      && after.interfaces[k].inbox == r.interfaces[k].inbox +
           (if && AddressedTo(n.address, frame) && frame.etherType == 0x800
               && IP.ParseDatagram(frame.payload).0 == Parsers.NoError
            then [IP.ParseDatagram(frame.payload).1] else [])
  {
    hide Receive, IP.ParseDatagram;
    ReceivesExactly(r.interfaces[k].nic, frame);
    assert r.interfaces[k].inbox + [] == r.interfaces[k].inbox;
  }

  lemma RouteOneShape(r: Router, d: IP.IPv4Datagram)
    requires RouterOk(r)
    ensures var (after, ok) := RouteOne(r, d);
            && RouterOk(after) && |after.interfaces| == |r.interfaces|
            && (forall i :: 0 <= i < |r.interfaces| ==> after.interfaces[i].inbox == r.interfaces[i].inbox)
            && (!ok ==> d.header.ttl > 1)
  {
    hide Send, BestMatch, Matches;
  }

  lemma {:induction false} QueueKeepsShape(r: Router, k: nat)
    requires RouterOk(r) && k < |r.interfaces|
    ensures var (after, ok) := RouteQueue(r, k);
            && after.table == r.table && |after.interfaces| == |r.interfaces|
            && (forall i :: 0 <= i < |r.interfaces| && i != k ==> after.interfaces[i].inbox == r.interfaces[i].inbox)
            && (ok ==> after.interfaces[k].inbox == [])
    decreases |r.interfaces[k].inbox|
  {
    hide Send;
    var inbox := r.interfaces[k].inbox;
    if inbox != [] {
      var (after, ok) := RouteOne(r, inbox[0]);
      if ok { QueueKeepsShape(WithInbox(after, k, inbox[1..]), k); }
    }
  }

  // ---------------------------------------------------------------- where datagrams end up

  /** What an interface has been handed, in order: next hop and datagram. */
  function Handoffs(log: seq<Entry>): seq<(U32, IP.IPv4Datagram)> {
    if log == [] then []
    else
      var last := log[|log| - 1].what;
      Handoffs(log[..|log| - 1]) + (if last.Handed? then [(last.hop, last.dgram)] else [])
  }

  /** The part of `q` that the table sends to interface `k`, in order. */
  function Assigned(table: seq<RouteEntry>, q: seq<IP.IPv4Datagram>, k: nat): seq<(U32, IP.IPv4Datagram)>
    requires TableOk(table)
  {
    if q == [] then []
    else
      match Decide(table, q[0])
      case Forward(i, hop, out) =>
        if i == k then [(hop, out)] + Assigned(table, q[1..], k) else Assigned(table, q[1..], k)
      case Drop => Assigned(table, q[1..], k)
  }

  function Dropped(table: seq<RouteEntry>, q: seq<IP.IPv4Datagram>): nat
    requires TableOk(table)
  {
    if q == [] then 0 else (if Decide(table, q[0]).Drop? then 1 else 0) + Dropped(table, q[1..])
  }

  /** The inboxes from interface `k` on, one after the other. */
  function Inboxes(r: Router, k: nat): seq<IP.IPv4Datagram>
    requires k <= |r.interfaces|
    decreases |r.interfaces| - k
  {
    if k == |r.interfaces| then [] else r.interfaces[k].inbox + Inboxes(r, k + 1)
  }

  function AssignedBelow(table: seq<RouteEntry>, q: seq<IP.IPv4Datagram>, n: nat): nat
    requires TableOk(table)
  {
    if n == 0 then 0 else AssignedBelow(table, q, n - 1) + |Assigned(table, q, n - 1)|
  }

  lemma {:induction false} AssignedConcat(table: seq<RouteEntry>, a: seq<IP.IPv4Datagram>, b: seq<IP.IPv4Datagram>,
      k: nat)
    requires TableOk(table)
    ensures Assigned(table, a + b, k) == Assigned(table, a, k) + Assigned(table, b, k)
    decreases |a|
  {
    hide Decide;
    if a == [] {
      assert a + b == b;
    } else {
      assert (a + b)[1..] == a[1..] + b;
      AssignedConcat(table, a[1..], b, k);
    }
  }

  /** A datagram goes to one interface or to none. */
  lemma {:induction false} EachOnce(table: seq<RouteEntry>, q: seq<IP.IPv4Datagram>, n: nat)
    requires TableOk(table) && forall i :: 0 <= i < |table| ==> table[i].interfaceNum < n
    ensures AssignedBelow(table, q, n) + Dropped(table, q) == |q|
    decreases |q|
  {
    if q == [] {
      NoneAssigned(table, n);
    } else {
      EachOnce(table, q[1..], n);
      OneStep(table, q, n);
    }
  }

  lemma {:induction false} NoneAssigned(table: seq<RouteEntry>, n: nat)
    requires TableOk(table)
    ensures AssignedBelow(table, [], n) == 0
  {
    if n > 0 { NoneAssigned(table, n - 1); }
  }

  lemma {:induction false} OneStep(table: seq<RouteEntry>, q: seq<IP.IPv4Datagram>, n: nat)
    requires TableOk(table) && q != []
    ensures AssignedBelow(table, q, n) == AssignedBelow(table, q[1..], n) +
            (if Decide(table, q[0]).Forward? && Decide(table, q[0]).interfaceNum < n then 1 else 0)
  {
    hide Decide;
    if n > 0 { OneStep(table, q, n - 1); }
  }

  lemma SendHandsOff(n: Interface, d: IP.IPv4Datagram, hop: U32)
    ensures var (m, ok) := Send(n, d, hop);
            && Handoffs(m.log) == Handoffs(n.log) + (if ok then [(hop, d)] else [])
            && (!ok <==> hop in n.cache && IP.SerializeDatagram(d).None?)
            && (!ok ==> m == n)
  {
    hide IP.SerializeDatagram;
    var (m, ok) := Send(n, d, hop);
    if ok {
      var e := Entry(n.clock, Handed(hop, d));
      Appended(n.log, e);
      if |m.log| > |n.log| + 1 {
        assert m.log[..|n.log| + 1] == n.log + [e];
      }
    }
  }

  /** What routing the front of the queues has come to: the first `k` of `q` done, as the table decides. */
  ghost predicate Routed(r: Router, after: Router, q: seq<IP.IPv4Datagram>) {
    && RouterOk(r) && after.table == r.table && |after.interfaces| == |r.interfaces|
    && forall i :: 0 <= i < |r.interfaces| ==>
         Handoffs(after.interfaces[i].nic.log) == Handoffs(r.interfaces[i].nic.log) + Assigned(r.table, q, i)
  }

  lemma RouteOneHandsOff(r: Router, d: IP.IPv4Datagram)
    requires RouterOk(r)
    ensures var (after, ok) := RouteOne(r, d);
            && (if ok then Routed(r, after, [d])
                else after == r && Decide(r.table, d).Forward? && IP.SerializeDatagram(Decide(r.table, d).dgram).None?)
            && forall i :: 0 <= i < |r.interfaces| ==> after.interfaces[i].inbox == r.interfaces[i].inbox
  {
    hide Send, BestMatch, Handoffs, IP.SerializeDatagram;
    assert forall i: nat :: Assigned(r.table, [d][1..], i) == [];
    match Decide(r.table, d)
    case Drop =>
      forall i | 0 <= i < |r.interfaces|
        ensures Handoffs(r.interfaces[i].nic.log) == Handoffs(r.interfaces[i].nic.log) + Assigned(r.table, [d], i)
      {
        assert Assigned(r.table, [d], i) == [];
      }
    case Forward(k, hop, out) =>
      SendHandsOff(r.interfaces[k].nic, out, hop);
      var (after, ok) := RouteOne(r, d);
      assert !ok ==> after.interfaces == r.interfaces;
      forall i | 0 <= i < |r.interfaces| && ok
        ensures Handoffs(after.interfaces[i].nic.log) == Handoffs(r.interfaces[i].nic.log) + Assigned(r.table, [d], i)
      {
        assert Assigned(r.table, [d], i) == if i == k then [(hop, out)] else [];
      }
  }

  lemma RoutedTwice(r: Router, mid: Router, after: Router, a: seq<IP.IPv4Datagram>, b: seq<IP.IPv4Datagram>)
    requires Routed(r, mid, a) && Routed(mid, after, b)
    ensures Routed(r, after, a + b)
  {
    hide Handoffs, Assigned;
    forall i | 0 <= i < |r.interfaces|
      ensures Handoffs(after.interfaces[i].nic.log) == Handoffs(r.interfaces[i].nic.log) + Assigned(r.table, a + b, i)
    {
      AssignedConcat(r.table, a, b, i);
    }
  }

  /**
   * What stands in the inboxes after `n` of the datagrams of `q` were routed, and the next one threw or there was
   * none.
   */
  predicate LeftAfter(table: seq<RouteEntry>, q: seq<IP.IPv4Datagram>, n: nat, ok: bool, left: seq<IP.IPv4Datagram>)
    requires TableOk(table)
  {
    if ok then n == |q| && left == []
    else
      && n < |q| && Decide(table, q[n]).Forward? && IP.SerializeDatagram(Decide(table, q[n]).dgram).None?
      && left == [Decide(table, q[n]).dgram] + q[n + 1..]
  }

  lemma GlueFirst(table: seq<RouteEntry>, a: seq<IP.IPv4Datagram>, b: seq<IP.IPv4Datagram>, n: nat,
      left: seq<IP.IPv4Datagram>)
    requires TableOk(table) && LeftAfter(table, a, n, false, left)
    ensures LeftAfter(table, a + b, n, false, left + b) && (a + b)[..n] == a[..n]
  {
    hide Decide;
    assert (a + b)[n + 1..] == a[n + 1..] + b;
  }

  lemma GlueRest(table: seq<RouteEntry>, a: seq<IP.IPv4Datagram>, b: seq<IP.IPv4Datagram>, n: nat, ok: bool,
                 left: seq<IP.IPv4Datagram>)
    requires TableOk(table) && n <= |b| && LeftAfter(table, b, n, ok, left)
    ensures LeftAfter(table, a + b, |a| + n, ok, left) && (a + b)[..|a| + n] == a + b[..n]
  {
    hide Decide;
    if !ok { assert (a + b)[|a| + n + 1..] == b[n + 1..]; }
  }

  lemma {:induction false} QueueIsRouted(r: Router, k: nat) returns (n: nat)
    requires RouterOk(r) && k < |r.interfaces|
    ensures var (after, ok) := RouteQueue(r, k);
            var inbox := r.interfaces[k].inbox;
            && n <= |inbox| && Routed(r, after, inbox[..n])
            && LeftAfter(r.table, inbox, n, ok, after.interfaces[k].inbox)
    decreases |r.interfaces[k].inbox|
  {
    hide Handoffs, BestMatch, Send, IP.SerializeDatagram;
    var inbox := r.interfaces[k].inbox;
    if inbox == [] {
      NothingRouted(r, r);
      return 0;
    }
    var (mid, ok) := RouteOne(r, inbox[0]);
    RouteOneHandsOff(r, inbox[0]);
    if !ok {
      NothingRouted(r, WithInbox(mid, k, [Lowered(inbox[0])] + inbox[1..]));
      return 0;
    }
    var next := WithInbox(mid, k, inbox[1..]);
    var m := QueueIsRouted(next, k);
    n := m + 1;
    RoutedTwice(r, next, RouteQueue(next, k).0, [inbox[0]], inbox[1..][..m]);
    assert [inbox[0]] + inbox[1..] == inbox;
    GlueRest(r.table, [inbox[0]], inbox[1..], m, RouteQueue(next, k).1, RouteQueue(next, k).0.interfaces[k].inbox);
  }

  lemma NothingRouted(r: Router, after: Router)
    requires RouterOk(r) && after.table == r.table && |after.interfaces| == |r.interfaces|
    requires forall i :: 0 <= i < |r.interfaces| ==> after.interfaces[i].nic == r.interfaces[i].nic
    ensures Routed(r, after, [])
  {
  }

  lemma {:induction false} SameInboxes(r: Router, s: Router, k: nat)
    requires k <= |r.interfaces| == |s.interfaces|
    requires forall i :: k <= i < |r.interfaces| ==> r.interfaces[i].inbox == s.interfaces[i].inbox
    ensures Inboxes(r, k) == Inboxes(s, k)
    decreases |r.interfaces| - k
  {
    if k < |r.interfaces| { SameInboxes(r, s, k + 1); }
  }

  /** `n` of the datagrams in the inboxes from `k` on get routed before all are, or one throws. */
  ghost predicate Progress(r: Router, k: nat, n: nat)
    requires RouterOk(r) && k <= |r.interfaces|
  {
    var (after, ok) := RouteFrom(r, k);
    && |after.interfaces| == |r.interfaces|
    && (forall i :: 0 <= i < k ==> after.interfaces[i].inbox == r.interfaces[i].inbox)
    && n <= |Inboxes(r, k)| && Routed(r, after, Inboxes(r, k)[..n])
    && LeftAfter(r.table, Inboxes(r, k), n, ok, Inboxes(after, k))
  }

  lemma NoneLeft(r: Router)
    requires RouterOk(r)
    ensures Progress(r, |r.interfaces|, 0)
  {
    NothingRouted(r, r);
  }

  lemma AfterEmptied(r: Router, k: nat)
    requires RouterOk(r) && k < |r.interfaces|
    ensures RouterOk(RouteQueue(r, k).0)
    ensures forall n :: LeftAfter(r.table, r.interfaces[k].inbox, n, true, RouteQueue(r, k).0.interfaces[k].inbox) ==>
                        n == |r.interfaces[k].inbox|
  {
    hide RouteQueue;
  }

  lemma OneThrew(r: Router, k: nat, m: nat)
    requires RouterOk(r) && k < |r.interfaces| && m <= |r.interfaces[k].inbox|
    requires !RouteQueue(r, k).1
    requires Routed(r, RouteQueue(r, k).0, r.interfaces[k].inbox[..m])
    requires LeftAfter(r.table, r.interfaces[k].inbox, m, false, RouteQueue(r, k).0.interfaces[k].inbox)
    ensures Progress(r, k, m)
  {
    hide Routed, RouteQueue, LeftAfter, Decide, Assigned, Matches;
    QueueKeepsShape(r, k);
    var mid := RouteQueue(r, k).0;
    SameInboxes(r, mid, k + 1);
    GlueFirst(r.table, r.interfaces[k].inbox, Inboxes(r, k + 1), m, mid.interfaces[k].inbox);
  }

  lemma OneEmptied(r: Router, k: nat, l: nat)
    requires RouterOk(r) && k < |r.interfaces| && RouteQueue(r, k).1
    requires Routed(r, RouteQueue(r, k).0, r.interfaces[k].inbox)
    requires Progress(RouteQueue(r, k).0, k + 1, l)
    ensures Progress(r, k, |r.interfaces[k].inbox| + l)
  {
    hide Routed, RouteQueue, LeftAfter, Decide, Assigned, Matches;
    QueueKeepsShape(r, k);
    var mid := RouteQueue(r, k).0;
    SameInboxes(r, mid, k + 1);
    var inbox, rest := r.interfaces[k].inbox, Inboxes(r, k + 1);
    var (after, ok) := RouteFrom(mid, k + 1);
    RoutedTwice(r, mid, after, inbox, rest[..l]);
    GlueRest(r.table, inbox, rest, l, ok, Inboxes(after, k + 1));
    assert Inboxes(after, k) == Inboxes(after, k + 1);
  }

  lemma {:induction false} InboxesAreRouted(r: Router, k: nat) returns (n: nat)
    requires RouterOk(r) && k <= |r.interfaces|
    ensures Progress(r, k, n)
    decreases |r.interfaces| - k
  {
    hide Routed, RouteQueue, RouteFrom, Decide, Progress, LeftAfter;
    if k == |r.interfaces| {
      NoneLeft(r);
      return 0;
    }
    AfterEmptied(r, k);
    n := QueueIsRouted(r, k);
    if !RouteQueue(r, k).1 {
      OneThrew(r, k, n);
    } else {
      assert r.interfaces[k].inbox[..n] == r.interfaces[k].inbox;
      var l := InboxesAreRouted(RouteQueue(r, k).0, k + 1);
      OneEmptied(r, k, l);
      n := n + l;
    }
  }

  /**
   * `route` ends; each datagram waiting in an inbox, in order, is dropped (TTL at most one, or no route) or handed,
   * with its TTL lowered by one, to one interface only. If sending throws, that datagram and those behind it stay.
   */
  lemma RouteDelivers(r: Router) returns (n: nat)
    requires RouterOk(r)
    ensures var (after, ok) := Route(r);
            var q := Inboxes(r, 0);
            && |after.interfaces| == |r.interfaces| && n <= |q|
            && (forall i :: 0 <= i < |r.interfaces| ==>
                  Handoffs(after.interfaces[i].nic.log) ==
                    Handoffs(r.interfaces[i].nic.log) + Assigned(r.table, q[..n], i))
            && AssignedBelow(r.table, q[..n], |r.interfaces|) + Dropped(r.table, q[..n]) == n
            && LeftAfter(r.table, q, n, ok, Inboxes(after, 0))
  {
    hide Handoffs, Assigned, AssignedBelow, Dropped, RouteFrom, LeftAfter, Matches, Decide;
    n := InboxesAreRouted(r, 0);
    EachOnce(r.table, Inboxes(r, 0)[..n], |r.interfaces|);
  }

  /** Nothing throws when every datagram can be serialised: then all inboxes are emptied. */
  lemma RouteCompletes(r: Router)
    requires RouterOk(r)
    requires forall d :: d in Inboxes(r, 0) ==> IP.SerializeDatagram(d).Some?
    ensures Route(r).1 && Inboxes(Route(r).0, 0) == []
  {
    hide RouteFrom, Inboxes, BestMatch, Assigned, Handoffs;
    var n := RouteDelivers(r);
    if !Route(r).1 {
      LoweredSerializes(r.table, Inboxes(r, 0)[n]);
    }
  }

  lemma LoweredSerializes(table: seq<RouteEntry>, d: IP.IPv4Datagram)
    requires TableOk(table) && IP.SerializeDatagram(d).Some? && Decide(table, d).Forward?
    ensures IP.SerializeDatagram(Decide(table, d).dgram).Some?
  {
    hide BestMatch, IP.HeaderBytes;
  }

  /**
   * A datagram is forwarded by the longest matching route, later ones first, to its next hop or to the destination
   * itself.
   */
  lemma DecidesByLongestMatch(table: seq<RouteEntry>, d: IP.IPv4Datagram)
    requires TableOk(table)
    ensures Decide(table, d) == Drop <==> d.header.ttl <= 1 || NoMatch(table, d.header.dst)
    ensures forall i: nat :: d.header.ttl > 1 && IsBest(table, d.header.dst, i) ==>
              Decide(table, d) == Forward(table[i].interfaceNum,
                                          if table[i].nextHop.Some? then table[i].nextHop.value else d.header.dst,
                                          d.(header := d.header.(ttl := d.header.ttl - 1)))
  {
    hide Matches;
    BestMatchIsLongest(table, d.header.dst);
    forall i: nat | IsBest(table, d.header.dst, i) ensures BestMatch(table, d.header.dst) == Some(i) {
      OneBest(table, d.header.dst, i, BestMatch(table, d.header.dst).value);
    }
  }

  // ---------------------------------------------------------------- the interfaces stay sound

  ghost predicate RouterInv(r: Router) {
    RouterOk(r) && forall i :: 0 <= i < |r.interfaces| ==> InterfaceInv(r.interfaces[i].nic)
  }

  lemma RouteOneInv(r: Router, d: IP.IPv4Datagram)
    requires RouterInv(r)
    ensures RouterInv(RouteOne(r, d).0)
  {
    hide InterfaceInv, BestMatch, Send;
    match Decide(r.table, d)
    case Drop =>
    case Forward(k, hop, out) => SendInv(r.interfaces[k].nic, out, hop);
  }

  lemma {:induction false} QueueInv(r: Router, k: nat)
    requires RouterInv(r) && k < |r.interfaces|
    ensures RouterInv(RouteQueue(r, k).0)
    decreases |r.interfaces[k].inbox|
  {
    hide InterfaceInv, Decide, Send;
    var inbox := r.interfaces[k].inbox;
    if inbox != [] {
      var (after, ok) := RouteOne(r, inbox[0]);
      RouteOneInv(r, inbox[0]);
      RouteOneHandsOff(r, inbox[0]);
      if ok { QueueInv(WithInbox(after, k, inbox[1..]), k); }
    }
  }

  lemma {:induction false} RouteFromInv(r: Router, k: nat)
    requires RouterInv(r) && k <= |r.interfaces|
    ensures RouterInv(RouteFrom(r, k).0)
    decreases |r.interfaces| - k
  {
    hide InterfaceInv, RouteQueue;
    if k < |r.interfaces| {
      QueueKeepsShape(r, k);
      QueueInv(r, k);
      if RouteQueue(r, k).1 { RouteFromInv(RouteQueue(r, k).0, k + 1); }
    }
  }

  lemma ArriveInv(r: Router, k: nat, frame: A.EthernetFrame)
    requires RouterInv(r) && k < |r.interfaces|
    ensures RouterInv(Arrive(r, k, frame))
  {
    hide InterfaceInv, Receive;
    ReceiveInv(r.interfaces[k].nic, frame);
  }

  // ---------------------------------------------------------------- every datagram once

  /** The datagrams handed over for one hop. */
  function ForHop(handoffs: seq<(U32, IP.IPv4Datagram)>, hop: U32): multiset<IP.IPv4Datagram> {
    if handoffs == [] then multiset{}
    else
      var last := handoffs[|handoffs| - 1];
      ForHop(handoffs[..|handoffs| - 1], hop) + (if last.0 == hop then multiset{last.1} else multiset{})
  }

  lemma {:induction false} ForHopConcat(a: seq<(U32, IP.IPv4Datagram)>, b: seq<(U32, IP.IPv4Datagram)>, hop: U32)
    ensures ForHop(a + b, hop) == ForHop(a, hop) + ForHop(b, hop)
    decreases |b|
  {
    if b == [] {
      assert a + b == a;
    } else {
      assert (a + b)[..|a + b| - 1] == a + b[..|b| - 1];
      ForHopConcat(a, b[..|b| - 1], hop);
    }
  }

  /** The two readings of the log agree: what was handed over in order, and how often for each hop. */
  lemma {:induction false} HandoffsForHop(log: seq<Entry>, hop: U32)
    ensures HandedTo(log, hop) == ForHop(Handoffs(log), hop)
    decreases |log|
  {
    if log != [] {
      var last := log[|log| - 1].what;
      HandoffsForHop(log[..|log| - 1], hop);
      var tail := if last.Handed? then [(last.hop, last.dgram)] else [];
      ForHopConcat(Handoffs(log[..|log| - 1]), tail, hop);
      assert last.Handed? ==> ForHop(tail[..0], hop) == multiset{};
    }
  }

  /** What an interface has framed for a hop, and what still waits for it there. */
  ghost function Settled(nic: Interface, hop: U32): multiset<IP.IPv4Datagram> {
    FramedTo(nic.log, hop) + multiset(Waiting(nic, hop))
  }

  /**
   * `route` adds to what an interface has framed or holds for a hop exactly the datagrams the table assigns to them,
   * each once: nothing routed is lost or doubled on the way to a frame or a queue.
   */
  lemma RoutedExactlyOnce(r: Router, k: nat, hop: U32) returns (n: nat)
    requires RouterInv(r) && k < |r.interfaces|
    ensures var (after, ok) := Route(r);
            var q := Inboxes(r, 0);
            && n <= |q| && LeftAfter(r.table, q, n, ok, Inboxes(after, 0))
            && Settled(after.interfaces[k].nic, hop) ==
               Settled(r.interfaces[k].nic, hop) + ForHop(Assigned(r.table, q[..n], k), hop)
  {
    hide HandedTo, FramedTo, Handoffs, ForHop, Assigned, AssignedBelow, Dropped, RouteFrom, LeftAfter, Matches,
         Decide, Core;
    RouteFromInv(r, 0);
    n := RouteDelivers(r);
    var before, after := r.interfaces[k].nic, Route(r).0.interfaces[k].nic;
    Balanced(before, hop);
    Balanced(after, hop);
    HandoffsForHop(before.log, hop);
    HandoffsForHop(after.log, hop);
    ForHopConcat(Handoffs(before.log), Assigned(r.table, Inboxes(r, 0)[..n], k), hop);
  }

  lemma Balanced(nic: Interface, hop: U32)
    requires InterfaceInv(nic)
    ensures HandedTo(nic.log, hop) == Settled(nic, hop)
  {
  }

  // ---------------------------------------------------------------- runs

  datatype RouterCall =
    | ArriveCall(k: nat, frame: A.EthernetFrame) | RouteCall | InterfaceTick(k: nat, ms: nat) | TakeFrame(k: nat)

  /** What the owner of a router does to it; calls that name an interface name one there is. */
  function ApplyCall(r: Router, c: RouterCall): Router
    requires RouterOk(r)
  {
    match c
    case RouteCall => Route(r).0
    case ArriveCall(k, frame) => if k < |r.interfaces| then Arrive(r, k, frame) else r
    case InterfaceTick(k, ms) => if k < |r.interfaces| then WithNic(r, k, Tick(r.interfaces[k].nic, ms)) else r
    case TakeFrame(k) => if k < |r.interfaces| then WithNic(r, k, PopFrame(r.interfaces[k].nic)) else r
  }

  function RunRouter(r: Router, calls: seq<RouterCall>): (res: Router)
    requires RouterOk(r)
    ensures RouterOk(res) && res.table == r.table && |res.interfaces| == |r.interfaces|
    decreases |calls|
  {
    if calls == [] then r else RunRouter(ApplyCall(r, calls[0]), calls[1..])
  }

  /** A router as it is set up: any table that names its interfaces, nothing received yet. */
  predicate Unused(r: Router) {
    && RouterOk(r)
    && forall i :: 0 <= i < |r.interfaces| ==>
         r.interfaces[i] == AsyncInterface(New(r.interfaces[i].nic.address, r.interfaces[i].nic.ip), [])
  }

  lemma UnusedInv(r: Router)
    requires Unused(r)
    ensures RouterInv(r)
  {
    hide InterfaceInv;
    forall i | 0 <= i < |r.interfaces| ensures InterfaceInv(r.interfaces[i].nic) {
      RunInv(r.interfaces[i].nic.address, r.interfaces[i].nic.ip, []);
    }
  }

  lemma ApplyCallInv(r: Router, c: RouterCall)
    requires RouterInv(r)
    ensures RouterInv(ApplyCall(r, c))
  {
    hide InterfaceInv, Tick, PopFrame, Receive, RouteFrom;
    match c
    case RouteCall => RouteFromInv(r, 0);
    case ArriveCall(k, frame) => if k < |r.interfaces| { ArriveInv(r, k, frame); }
    case InterfaceTick(k, ms) => if k < |r.interfaces| { TickInv(r.interfaces[k].nic, ms); }
    case TakeFrame(k) => if k < |r.interfaces| { PopInv(r.interfaces[k].nic); }
  }

  lemma {:induction false} RouterRunInv(r: Router, calls: seq<RouterCall>)
    requires RouterInv(r)
    ensures RouterInv(RunRouter(r, calls))
    decreases |calls|
  {
    hide InterfaceInv, ApplyCall;
    if calls != [] {
      ApplyCallInv(r, calls[0]);
      RouterRunInv(ApplyCall(r, calls[0]), calls[1..]);
    }
  }

  /**
   * Over every run of arrivals, ticks and routing: what any interface was ever handed for a hop has been framed for
   * it or waits for it there, each datagram once, and the next `route` adds exactly what the table assigns.
   */
  lemma HandoffsAreConserved(start: Router, calls: seq<RouterCall>, k: nat, hop: U32) returns (n: nat)
    requires Unused(start) && k < |start.interfaces|
    ensures var r := RunRouter(start, calls);
            var nic, next := r.interfaces[k].nic, Route(r).0.interfaces[k].nic;
            && ForHop(Handoffs(nic.log), hop) == Settled(nic, hop)
            && n <= |Inboxes(r, 0)| && (Route(r).1 ==> n == |Inboxes(r, 0)|)
            && Settled(next, hop) == Settled(nic, hop) + ForHop(Assigned(r.table, Inboxes(r, 0)[..n], k), hop)
  {
    hide HandedTo, FramedTo, Handoffs, ForHop, Assigned, RouteFrom, Decide, Core, Settled;
    UnusedInv(start);
    RouterRunInv(start, calls);
    var r := RunRouter(start, calls);
    n := RoutedExactlyOnce(r, k, hop);
    Balanced(r.interfaces[k].nic, hop);
    HandoffsForHop(r.interfaces[k].nic.log, hop);
  }
}
