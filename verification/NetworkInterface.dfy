/**
 * The interface between IP and Ethernet (network_interface.cc, network_interface.hh; RFC 826), on values. `clock` and
 * `log` are history: the sum of the ticks, and what happened when.
 */
module Interfaces {
  import opened Words
  import opened Parsers
  import A = ARP
  import IP = IPv4

  const ARP_CACHE_TIMEOUT: nat := 30000
  const ARP_REQUEST_TIMEOUT: nat := 5000

  datatype CacheEntry = CacheEntry(address: A.EthernetAddress, left: nat)

  datatype Happening =
    | Heard(msg: A.ARPMessage)
    | Handed(hop: U32, dgram: IP.IPv4Datagram)
    | Framed(hop: U32, dgram: IP.IPv4Datagram, frame: A.EthernetFrame)
    | Asked(target: U32, frame: A.EthernetFrame)
    | Replied(frame: A.EthernetFrame)

  datatype Entry = Entry(at: nat, what: Happening)

  datatype Interface = Interface(
    address: A.EthernetAddress, ip: U32,
    cache: map<U32, CacheEntry>, requests: map<U32, nat>, pending: map<U32, seq<IP.IPv4Datagram>>,
    framesOut: seq<A.EthernetFrame>, clock: nat, log: seq<Entry>)

  function New(address: A.EthernetAddress, ip: U32): Interface {
    Interface(address, ip, map[], map[], map[], [], 0, [])
  }

  // ---------------------------------------------------------------- frames

  /** `None` where serialising the datagram throws. */
  function DatagramFrame(src: A.EthernetAddress, dst: A.EthernetAddress, d: IP.IPv4Datagram): Option<A.EthernetFrame> {
    match IP.SerializeDatagram(d)
    case None => None
    case Some(bytes) => Some(A.EthernetFrame(dst, src, A.TYPE_IPv4, bytes))
  }

  function RequestFrame(address: A.EthernetAddress, ip: U32, target: U32): A.EthernetFrame {
    A.EthernetFrame(A.ETHERNET_BROADCAST, address, A.TYPE_ARP,
                    A.Bytes(A.Message(A.OPCODE_REQUEST, address, ip, A.NO_ADDRESS, target), []))
  }

  function ReplyFrame(address: A.EthernetAddress, ip: U32, msg: A.ARPMessage): A.EthernetFrame {
    A.EthernetFrame(msg.senderEthernet, address, A.TYPE_ARP,
                    A.Bytes(A.Message(A.OPCODE_REPLY, address, ip, msg.senderEthernet, msg.senderIp), []))
  }

  // ---------------------------------------------------------------- steps

  function Note(n: Interface, what: Happening): Interface {
    n.(log := n.log + [Entry(n.clock, what)])
  }

  function Push(n: Interface, frame: A.EthernetFrame, what: Happening): Interface {
    Note(n.(framesOut := n.framesOut + [frame]), what)
  }

  function Waiting(n: Interface, hop: U32): seq<IP.IPv4Datagram> {
    if hop in n.pending then n.pending[hop] else []
  }

  function Wait(n: Interface, hop: U32, d: IP.IPv4Datagram): Interface {
    Note(n.(pending := n.pending[hop := Waiting(n, hop) + [d]]), Handed(hop, d))
  }

  function Ask(n: Interface, target: U32): Interface {
    var frame := RequestFrame(n.address, n.ip, target);
    Push(n.(requests := n.requests[target := ARP_REQUEST_TIMEOUT]), frame, Asked(target, frame))
  }

  function FrameNow(n: Interface, hop: U32, d: IP.IPv4Datagram, frame: A.EthernetFrame): Interface {
    Push(Note(n, Handed(hop, d)), frame, Framed(hop, d, frame))
  }

  /** `send_datagram`; the flag is false where it throws. */
  function Send(n: Interface, d: IP.IPv4Datagram, hop: U32): (Interface, bool) {
    if hop in n.cache then
      match DatagramFrame(n.address, n.cache[hop].address, d)
      case None => (n, false)
      case Some(frame) => (FrameNow(n, hop, d, frame), true)
    else if hop in n.requests then (Wait(n, hop, d), true)
    else (Ask(Wait(n, hop, d), hop), true)
  }

  predicate Answers(msg: A.ARPMessage) { msg.opcode == A.OPCODE_REPLY }

  /** The sender is learnt from any message; a reply also settles the request. */
  function Hear(n: Interface, msg: A.ARPMessage): Interface {
    Note(n.(cache := n.cache[msg.senderIp := CacheEntry(msg.senderEthernet, ARP_CACHE_TIMEOUT)],
            requests := if Answers(msg) then n.requests - {msg.senderIp} else n.requests), Heard(msg))
  }

  function FrameFirst(n: Interface, hop: U32, frame: A.EthernetFrame): Interface
    requires hop in n.pending && n.pending[hop] != []
  {
    Push(n.(pending := n.pending[hop := n.pending[hop][1..]]), frame, Framed(hop, n.pending[hop][0], frame))
  }

  /** Everything waiting for `hop` is sent, up to a datagram that cannot be serialised. */
  function Flush(n: Interface, dst: A.EthernetAddress, hop: U32): (Interface, bool)
    decreases |Waiting(n, hop)|
  {
    if hop !in n.pending then (n, true)
    else if n.pending[hop] == [] then (n.(pending := n.pending - {hop}), true)
    else
      match DatagramFrame(n.address, dst, n.pending[hop][0])
      case None => (n, false)
      case Some(frame) => Flush(FrameFirst(n, hop, frame), dst, hop)
  }

  function Learn(n: Interface, msg: A.ARPMessage): (Interface, bool) {
    var heard := Hear(n, msg);
    if msg.opcode == A.OPCODE_REQUEST && msg.targetIp == n.ip then
      var frame := ReplyFrame(n.address, n.ip, msg);
      (Push(heard, frame, Replied(frame)), true)
    else if Answers(msg) then Flush(heard, msg.senderEthernet, msg.senderIp)
    else (heard, true)
  }

  predicate ForUs(n: Interface, frame: A.EthernetFrame) {
    frame.dst == n.address || frame.dst == A.ETHERNET_BROADCAST
  }

  /** The ARP message in a frame that is for us. */
  function MessageIn(n: Interface, frame: A.EthernetFrame): Option<A.ARPMessage> {
    if ForUs(n, frame) && frame.etherType == A.TYPE_ARP && A.Parse(frame.payload).0 == NoError
    then Some(A.Parse(frame.payload).1) else None
  }

  /** The datagram in a frame that is for us. */
  function DatagramIn(n: Interface, frame: A.EthernetFrame): Option<IP.IPv4Datagram> {
    if ForUs(n, frame) && frame.etherType == A.TYPE_IPv4 && IP.ParseDatagram(frame.payload).0 == NoError
    then Some(IP.ParseDatagram(frame.payload).1) else None
  }

  /** `recv_frame`: the datagram for the layer above, and false where it throws. */
  function Receive(n: Interface, frame: A.EthernetFrame): (Interface, Option<IP.IPv4Datagram>, bool) {
    match MessageIn(n, frame)
    case None => (n, DatagramIn(n, frame), true)
    case Some(msg) => var (after, ok) := Learn(n, msg); (after, None, ok)
  }

  function Aged(timers: map<U32, nat>, ms: nat): map<U32, nat> {
    map k | k in timers && timers[k] > ms :: timers[k] - ms
  }

  function AgedCache(cache: map<U32, CacheEntry>, ms: nat): map<U32, CacheEntry> {
    map k | k in cache && cache[k].left > ms :: cache[k].(left := cache[k].left - ms)
  }

  function Tick(n: Interface, ms: nat): Interface {
    n.(cache := AgedCache(n.cache, ms), requests := Aged(n.requests, ms), clock := n.clock + ms)
  }

  /** The owner takes the first frame off the queue, if there is one. */
  function PopFrame(n: Interface): Interface {
    if n.framesOut == [] then n else n.(framesOut := n.framesOut[1..])
  }

  // ---------------------------------------------------------------- reading the log

  /** The last ARP message from `ip`: when, and the address it gave. */
  function LastHeard(log: seq<Entry>, ip: U32): Option<(nat, A.EthernetAddress)> {
    if log == [] then None
    else
      var last := log[|log| - 1];
      if last.what.Heard? && last.what.msg.senderIp == ip then Some((last.at, last.what.msg.senderEthernet))
      else LastHeard(log[..|log| - 1], ip)
  }

  predicate Settles(what: Happening, ip: U32) {
    what.Heard? && what.msg.senderIp == ip && Answers(what.msg)
  }

  /** The last request for `ip` that no reply has settled since. */
  function LastAsked(log: seq<Entry>, ip: U32): Option<nat> {
    if log == [] then None
    else
      var last := log[|log| - 1];
      if last.what.Asked? && last.what.target == ip then Some(last.at)
      else if Settles(last.what, ip) then None
      else LastAsked(log[..|log| - 1], ip)
  }

  function HandedTo(log: seq<Entry>, hop: U32): multiset<IP.IPv4Datagram> {
    if log == [] then multiset{}
    else
      var last := log[|log| - 1].what;
      HandedTo(log[..|log| - 1], hop) + (if last.Handed? && last.hop == hop then multiset{last.dgram} else multiset{})
  }

  function FramedTo(log: seq<Entry>, hop: U32): multiset<IP.IPv4Datagram> {
    if log == [] then multiset{}
    else
      var last := log[|log| - 1].what;
      FramedTo(log[..|log| - 1], hop) + (if last.Framed? && last.hop == hop then multiset{last.dgram} else multiset{})
  }

  /** Every frame ever put on the queue, in order. */
  function Pushed(log: seq<Entry>): seq<A.EthernetFrame> {
    if log == [] then []
    else
      var last := log[|log| - 1].what;
      Pushed(log[..|log| - 1]) + (if last.Framed? || last.Asked? || last.Replied? then [last.frame] else [])
  }

  // ---------------------------------------------------------------- the invariant

  predicate TimerAt(timers: map<U32, nat>, ip: U32, since: Option<nat>, timeout: nat, clock: nat) {
    match since
    case None => ip !in timers
    case Some(t) =>
      && t <= clock
      && (ip in timers <==> clock - t < timeout)
      && (ip in timers ==> timers[ip] == timeout - (clock - t))
  }

  predicate CachedAt(cache: map<U32, CacheEntry>, ip: U32, last: Option<(nat, A.EthernetAddress)>, clock: nat) {
    match last
    case None => ip !in cache
    case Some(e) =>
      && e.0 <= clock
      && (ip in cache <==> clock - e.0 < ARP_CACHE_TIMEOUT)
      && (ip in cache ==> cache[ip] == CacheEntry(e.1, ARP_CACHE_TIMEOUT - (clock - e.0)))
  }

  /**
   * The cache holds exactly the senders heard less than 30 seconds ago, with their last address and exact time left.
   */
  ghost predicate CacheInv(n: Interface) {
    forall ip: U32 :: CachedAt(n.cache, ip, LastHeard(n.log, ip), n.clock)
  }

  /** A request is on record exactly while it is younger than 5 seconds and unanswered. */
  ghost predicate RequestInv(n: Interface) {
    forall ip: U32 :: TimerAt(n.requests, ip, LastAsked(n.log, ip), ARP_REQUEST_TIMEOUT, n.clock)
  }

  /** What was handed over for a hop has been framed for it or waits for it, each datagram once. */
  ghost predicate Conserved(n: Interface) {
    forall hop: U32 :: HandedTo(n.log, hop) == FramedTo(n.log, hop) + multiset(Waiting(n, hop))
  }

  predicate Queued(n: Interface) {
    |n.framesOut| <= |Pushed(n.log)| && n.framesOut == Pushed(n.log)[|Pushed(n.log)| - |n.framesOut|..]
  }

  /** What may be logged after `before`: the frame is the right one, to the right address, at the right time. */
  predicate EntryOk(address: A.EthernetAddress, ip: U32, before: seq<Entry>, e: Entry) {
    match e.what
    case Framed(hop, d, frame) =>
      && LastHeard(before, hop).Some?
      && var (t, dst) := LastHeard(before, hop).value;
         t <= e.at < t + ARP_CACHE_TIMEOUT && DatagramFrame(address, dst, d) == Some(frame)
    case Asked(target, frame) =>
      && frame == RequestFrame(address, ip, target)
      && match LastAsked(before, target) { case None => true case Some(t) => e.at >= t + ARP_REQUEST_TIMEOUT }
    case _ => true
  }

  ghost predicate LogInv(n: Interface) {
    && (forall j :: 0 <= j < |n.log| ==> n.log[j].at <= n.clock)
    && (forall i, j :: 0 <= i < j < |n.log| ==> n.log[i].at <= n.log[j].at)
    && (forall j :: 0 <= j < |n.log| ==> EntryOk(n.address, n.ip, n.log[..j], n.log[j]))
  }

  predicate SomeAsked(log: seq<Entry>, hop: U32) {
    exists j :: 0 <= j < |log| && log[j].what.Asked? && log[j].what.target == hop
  }

  /** No empty queue is kept, and what waits has been asked for. */
  ghost predicate PendingInv(n: Interface) {
    forall hop :: hop in n.pending ==> n.pending[hop] != [] && SomeAsked(n.log, hop)
  }

  ghost predicate Core(n: Interface) {
    CacheInv(n) && RequestInv(n) && Conserved(n) && Queued(n) && LogInv(n)
  }

  ghost predicate InterfaceInv(n: Interface) { Core(n) && PendingInv(n) }

  // ---------------------------------------------------------------- one entry more

  lemma Appended(log: seq<Entry>, e: Entry)
    ensures (log + [e])[..|log|] == log && (log + [e])[|log|] == e
  {
  }

  lemma LogGrows(n: Interface, m: Interface, what: Happening)
    requires LogInv(n) && m.address == n.address && m.ip == n.ip && m.clock == n.clock
    requires m.log == n.log + [Entry(n.clock, what)]
    requires EntryOk(n.address, n.ip, n.log, Entry(n.clock, what))
    ensures LogInv(m)
  {
    hide EntryOk;
    forall j | 0 <= j < |m.log| ensures EntryOk(m.address, m.ip, m.log[..j], m.log[j]) {
      assert m.log[..j] == n.log[..j];
      if j == |n.log| { assert n.log[..j] == n.log; }
    }
  }

  /** Entries that tell of no ARP traffic leave the timers alone. */
  predicate Quiet(what: Happening) { !what.Heard? && !what.Asked? }

  lemma QuietTimers(n: Interface, m: Interface, what: Happening)
    requires CacheInv(n) && RequestInv(n) && Quiet(what)
    requires m.cache == n.cache && m.requests == n.requests && m.clock == n.clock
    requires m.log == n.log + [Entry(n.clock, what)]
    ensures CacheInv(m) && RequestInv(m)
    ensures forall ip: U32 :: LastHeard(m.log, ip) == LastHeard(n.log, ip)
  {
    hide TimerAt, CachedAt;
    Appended(n.log, Entry(n.clock, what));
    forall ip: U32 ensures LastHeard(m.log, ip) == LastHeard(n.log, ip) &&
      LastAsked(m.log, ip) == LastAsked(n.log, ip) {
    }
    forall ip: U32 ensures CachedAt(m.cache, ip, LastHeard(m.log, ip), m.clock)
                           && TimerAt(m.requests, ip, LastAsked(m.log, ip), ARP_REQUEST_TIMEOUT, m.clock) {
      assert CachedAt(n.cache, ip, LastHeard(n.log, ip), n.clock);
      assert TimerAt(n.requests, ip, LastAsked(n.log, ip), ARP_REQUEST_TIMEOUT, n.clock);
    }
  }

  /** How one entry moves the two sides of the balance, and the queue. */
  lemma OneMore(log: seq<Entry>, e: Entry)
    ensures forall hop: U32 ::
              && HandedTo(log + [e], hop) == HandedTo(log, hop)
                 + (if e.what.Handed? && e.what.hop == hop then multiset{e.what.dgram} else multiset{})
              && FramedTo(log + [e], hop) == FramedTo(log, hop)
                 + (if e.what.Framed? && e.what.hop == hop then multiset{e.what.dgram} else multiset{})
    ensures Pushed(log + [e]) ==
            Pushed(log) + (if e.what.Framed? || e.what.Asked? || e.what.Replied? then [e.what.frame] else [])
  {
    Appended(log, e);
  }

  lemma HearKeeps(n: Interface, msg: A.ARPMessage)
    requires InterfaceInv(n)
    ensures InterfaceInv(Hear(n, msg))
    ensures LastHeard(Hear(n, msg).log, msg.senderIp) == Some((n.clock, msg.senderEthernet))
  {
    hide LastHeard, LastAsked, HandedTo, FramedTo, Pushed, CachedAt, TimerAt, SomeAsked;
    var m := Hear(n, msg);
    HearTimers(n, msg);
    OneMore(n.log, Entry(n.clock, Heard(msg)));
    LogGrows(n, m, Heard(msg));
    assert forall hop :: Waiting(m, hop) == Waiting(n, hop);
    StillAsked(n, m);
  }

  lemma HearTimers(n: Interface, msg: A.ARPMessage)
    requires CacheInv(n) && RequestInv(n)
    ensures CacheInv(Hear(n, msg)) && RequestInv(Hear(n, msg))
    ensures LastHeard(Hear(n, msg).log, msg.senderIp) == Some((n.clock, msg.senderEthernet))
    ensures forall ip: U32 :: ip != msg.senderIp ==> LastHeard(Hear(n, msg).log, ip) == LastHeard(n.log, ip)
  {
    var m := Hear(n, msg);
    Appended(n.log, Entry(n.clock, Heard(msg)));
    forall ip: U32 ensures CachedAt(m.cache, ip, LastHeard(m.log, ip), m.clock)
                           && TimerAt(m.requests, ip, LastAsked(m.log, ip), ARP_REQUEST_TIMEOUT, m.clock) {
      assert CachedAt(n.cache, ip, LastHeard(n.log, ip), n.clock);
      assert TimerAt(n.requests, ip, LastAsked(n.log, ip), ARP_REQUEST_TIMEOUT, n.clock);
    }
  }

  lemma StillAsked(n: Interface, m: Interface)
    requires PendingInv(n) && n.log <= m.log
    requires forall hop :: hop in m.pending ==> m.pending[hop] != [] && (hop in n.pending || SomeAsked(m.log, hop))
    ensures PendingInv(m)
  {
    forall hop | hop in m.pending && hop in n.pending ensures SomeAsked(m.log, hop) {
      var j :| 0 <= j < |n.log| && n.log[j].what.Asked? && n.log[j].what.target == hop;
      assert m.log[j] == n.log[j];
    }
  }

  lemma ReplyKeeps(n: Interface, frame: A.EthernetFrame)
    requires InterfaceInv(n)
    ensures InterfaceInv(Push(n, frame, Replied(frame)))
  {
    hide LastHeard, LastAsked, HandedTo, FramedTo, Pushed, CachedAt, TimerAt, SomeAsked;
    var m := Push(n, frame, Replied(frame));
    OneMore(n.log, Entry(n.clock, Replied(frame)));
    QuietTimers(n, m, Replied(frame));
    LogGrows(n, m, Replied(frame));
    assert forall hop :: Waiting(m, hop) == Waiting(n, hop);
    StillAsked(n, m);
  }

  lemma WaitKeeps(n: Interface, hop: U32, d: IP.IPv4Datagram)
    requires Core(n)
    ensures Core(Wait(n, hop, d))
  {
    hide LastHeard, LastAsked, HandedTo, FramedTo, Pushed;
    var m := Wait(n, hop, d);
    OneMore(n.log, Entry(n.clock, Handed(hop, d)));
    QuietTimers(n, m, Handed(hop, d));
    LogGrows(n, m, Handed(hop, d));
    assert forall h :: Waiting(m, h) == if h == hop then Waiting(n, hop) + [d] else Waiting(n, h);
  }

  lemma AskKeeps(n: Interface, target: U32)
    requires Core(n) && target !in n.requests
    ensures Core(Ask(n, target))
  {
    var m := Ask(n, target);
    var e := Entry(n.clock, Asked(target, RequestFrame(n.address, n.ip, target)));
    Appended(n.log, e);
    assert TimerAt(n.requests, target, LastAsked(n.log, target), ARP_REQUEST_TIMEOUT, n.clock);
    LogGrows(n, m, e.what);
    assert forall hop :: Waiting(m, hop) == Waiting(n, hop);
  }

  lemma FrameNowKeeps(n: Interface, hop: U32, d: IP.IPv4Datagram, frame: A.EthernetFrame)
    requires Core(n) && hop in n.cache && DatagramFrame(n.address, n.cache[hop].address, d) == Some(frame)
    ensures Core(FrameNow(n, hop, d, frame))
  {
    hide LastHeard, LastAsked, HandedTo, FramedTo, Pushed, DatagramFrame, TimerAt;
    var k := Note(n, Handed(hop, d));
    var m := FrameNow(n, hop, d, frame);
    OneMore(n.log, Entry(n.clock, Handed(hop, d)));
    OneMore(k.log, Entry(n.clock, Framed(hop, d, frame)));
    QuietTimers(n, k, Handed(hop, d));
    QuietTimers(k, m, Framed(hop, d, frame));
    LogGrows(n, k, Handed(hop, d));
    LogGrows(k, m, Framed(hop, d, frame));
    assert forall h :: Waiting(m, h) == Waiting(n, h);
  }

  lemma CacheHitInv(n: Interface, d: IP.IPv4Datagram, hop: U32, frame: A.EthernetFrame)
    requires InterfaceInv(n) && hop in n.cache && DatagramFrame(n.address, n.cache[hop].address, d) == Some(frame)
    ensures InterfaceInv(FrameNow(n, hop, d, frame))
  {
    hide Core, SomeAsked, DatagramFrame;
    FrameNowKeeps(n, hop, d, frame);
    StillAsked(n, FrameNow(n, hop, d, frame));
  }

  lemma WaitInv(n: Interface, d: IP.IPv4Datagram, hop: U32)
    requires InterfaceInv(n) && hop in n.requests
    ensures InterfaceInv(Wait(n, hop, d))
  {
    hide LastHeard, SomeAsked, Conserved, Queued, LogInv, CacheInv;
    WaitKeeps(n, hop, d);
    assert TimerAt(n.requests, hop, LastAsked(n.log, hop), ARP_REQUEST_TIMEOUT, n.clock);
    AskedBefore(n.log, hop);
    StillThere(n.log, Wait(n, hop, d).log, hop);
    StillAsked(n, Wait(n, hop, d));
  }

  lemma StillThere(log: seq<Entry>, more: seq<Entry>, hop: U32)
    requires log <= more && SomeAsked(log, hop)
    ensures SomeAsked(more, hop)
  {
    var j :| 0 <= j < |log| && log[j].what.Asked? && log[j].what.target == hop;
    assert more[j] == log[j];
  }

  lemma AskInv(n: Interface, d: IP.IPv4Datagram, hop: U32)
    requires InterfaceInv(n) && hop !in n.requests
    ensures InterfaceInv(Ask(Wait(n, hop, d), hop))
  {
    hide Core;
    var m := Ask(Wait(n, hop, d), hop);
    WaitKeeps(n, hop, d);
    AskKeeps(Wait(n, hop, d), hop);
    assert m.log[|m.log| - 1].what.Asked?;
    StillAsked(n, m);
  }

  /** Sending keeps the invariant, whether it frames, waits, asks or throws. */
  lemma SendInv(n: Interface, d: IP.IPv4Datagram, hop: U32)
    requires InterfaceInv(n)
    ensures InterfaceInv(Send(n, d, hop).0)
  {
    hide InterfaceInv, DatagramFrame;
    if hop in n.cache {
      var f := DatagramFrame(n.address, n.cache[hop].address, d);
      if f.Some? { CacheHitInv(n, d, hop, f.value); }
    } else if hop in n.requests {
      WaitInv(n, d, hop);
    } else {
      AskInv(n, d, hop);
    }
  }

  lemma {:induction false} AskedBefore(log: seq<Entry>, ip: U32)
    requires LastAsked(log, ip).Some?
    ensures SomeAsked(log, ip)
    decreases |log|
  {
    var last := log[|log| - 1];
    if !(last.what.Asked? && last.what.target == ip) {
      var before := log[..|log| - 1];
      AskedBefore(before, ip);
      var j :| 0 <= j < |before| && before[j].what.Asked? && before[j].what.target == ip;
      assert log[j] == before[j];
    }
  }

  lemma FrameFirstKeeps(n: Interface, hop: U32, dst: A.EthernetAddress, frame: A.EthernetFrame)
    requires Core(n) && hop in n.pending && n.pending[hop] != []
    requires LastHeard(n.log, hop) == Some((n.clock, dst))
    requires DatagramFrame(n.address, dst, n.pending[hop][0]) == Some(frame)
    ensures Core(FrameFirst(n, hop, frame))
    ensures LastHeard(FrameFirst(n, hop, frame).log, hop) == Some((n.clock, dst))
  {
    hide LastHeard, LastAsked, HandedTo, FramedTo, Pushed, DatagramFrame, TimerAt, Conserved;
    var d := n.pending[hop][0];
    var m := FrameFirst(n, hop, frame);
    OneMore(n.log, Entry(n.clock, Framed(hop, d, frame)));
    QuietTimers(n, m, Framed(hop, d, frame));
    LogGrows(n, m, Framed(hop, d, frame));
    FrameFirstConserves(n, hop, frame);
  }

  /** One datagram fewer waits, and it has been framed. */
  lemma FrameFirstConserves(n: Interface, hop: U32, frame: A.EthernetFrame)
    requires Conserved(n) && hop in n.pending && n.pending[hop] != []
    ensures Conserved(FrameFirst(n, hop, frame))
  {
    hide HandedTo, FramedTo, Pushed;
    var d := n.pending[hop][0];
    var m := FrameFirst(n, hop, frame);
    OneMore(n.log, Entry(n.clock, Framed(hop, d, frame)));
    assert forall h :: h != hop ==> Waiting(m, h) == Waiting(n, h);
    assert n.pending[hop] == [d] + Waiting(m, hop);
    assert multiset(Waiting(n, hop)) == multiset{d} + multiset(Waiting(m, hop));
  }

  /** Invariant during a flush: only the queue being flushed may be empty. */
  ghost predicate PendingBut(n: Interface, hop: U32) {
    forall h :: h in n.pending ==> SomeAsked(n.log, h) && (h != hop ==> n.pending[h] != [])
  }

  lemma StillPendingBut(n: Interface, hop: U32, frame: A.EthernetFrame)
    requires PendingBut(n, hop) && hop in n.pending && n.pending[hop] != []
    ensures PendingBut(FrameFirst(n, hop, frame), hop)
  {
    var m := FrameFirst(n, hop, frame);
    forall h | h in m.pending ensures SomeAsked(m.log, h) {
      var j :| 0 <= j < |n.log| && n.log[j].what.Asked? && n.log[j].what.target == h;
      assert m.log[j] == n.log[j];
    }
  }

  lemma EmptiedKeeps(n: Interface, hop: U32)
    requires Core(n) && PendingBut(n, hop) && hop in n.pending && n.pending[hop] == []
    ensures InterfaceInv(n.(pending := n.pending - {hop}))
  {
    hide LastHeard, LastAsked, HandedTo, FramedTo, Pushed, CachedAt, TimerAt, SomeAsked, EntryOk;
    var m := n.(pending := n.pending - {hop});
    assert forall h :: Waiting(m, h) == Waiting(n, h);
  }

  lemma {:induction false} FlushKeeps(n: Interface, dst: A.EthernetAddress, hop: U32)
    requires Core(n) && PendingBut(n, hop) && LastHeard(n.log, hop) == Some((n.clock, dst))
    ensures InterfaceInv(Flush(n, dst, hop).0)
    decreases |Waiting(n, hop)|
  {
    hide Core, LastHeard, DatagramFrame, SomeAsked;
    if hop !in n.pending {
    } else if n.pending[hop] == [] {
      EmptiedKeeps(n, hop);
    } else {
      var f := DatagramFrame(n.address, dst, n.pending[hop][0]);
      if f.Some? {
        FrameFirstKeeps(n, hop, dst, f.value);
        StillPendingBut(n, hop, f.value);
        FlushKeeps(FrameFirst(n, hop, f.value), dst, hop);
      }
    }
  }

  /** So does receiving, whatever the frame holds. */
  lemma ReceiveInv(n: Interface, frame: A.EthernetFrame)
    requires InterfaceInv(n)
    ensures InterfaceInv(Receive(n, frame).0)
  {
    match MessageIn(n, frame)
    case None =>
    case Some(msg) =>
      HearKeeps(n, msg);
      var heard := Hear(n, msg);
      if msg.opcode == A.OPCODE_REQUEST && msg.targetIp == n.ip {
        ReplyKeeps(heard, ReplyFrame(n.address, n.ip, msg));
      } else if Answers(msg) {
        FlushKeeps(heard, msg.senderEthernet, msg.senderIp);
      }
  }

  lemma TickInv(n: Interface, ms: nat)
    requires InterfaceInv(n)
    ensures InterfaceInv(Tick(n, ms))
  {
    var m := Tick(n, ms);
    assert forall ip: U32 :: TimerAt(n.requests, ip, LastAsked(n.log, ip), ARP_REQUEST_TIMEOUT, n.clock);
    assert forall hop :: Waiting(m, hop) == Waiting(n, hop);
  }

  lemma PopInv(n: Interface)
    requires InterfaceInv(n)
    ensures InterfaceInv(PopFrame(n))
  {
    hide EntryOk;
    var m := PopFrame(n);
    assert forall hop :: Waiting(m, hop) == Waiting(n, hop);
  }

  // ---------------------------------------------------------------- runs

  datatype Call =
    | SendCall(d: IP.IPv4Datagram, hop: U32) | FrameCall(frame: A.EthernetFrame) | TickCall(ms: nat) | PopCall

  function Apply(n: Interface, c: Call): Interface {
    match c
    case SendCall(d, hop) => Send(n, d, hop).0
    case FrameCall(frame) => Receive(n, frame).0
    case TickCall(ms) => Tick(n, ms)
    case PopCall => PopFrame(n)
  }

  function Run(n: Interface, calls: seq<Call>): Interface {
    if calls == [] then n else Apply(Run(n, calls[..|calls| - 1]), calls[|calls| - 1])
  }

  /** The time since the interface was made. */
  function Elapsed(calls: seq<Call>): nat {
    if calls == [] then 0
    else
      var last := calls[|calls| - 1];
      Elapsed(calls[..|calls| - 1]) + (if last.TickCall? then last.ms else 0)
  }

  /** The frame is addressed to this station, or to all. */
  predicate AddressedTo(address: A.EthernetAddress, frame: A.EthernetFrame) {
    frame.dst == address || frame.dst == [255, 255, 255, 255, 255, 255]
  }

  /** The ARP message a station with this address takes from a frame (0x806 is the type of ARP). */
  function Announced(address: A.EthernetAddress, frame: A.EthernetFrame): Option<A.ARPMessage> {
    if AddressedTo(address, frame) && frame.etherType == 0x806 && A.Parse(frame.payload).0 == NoError
    then Some(A.Parse(frame.payload).1) else None
  }

  /** The last ARP message from `ip` that reached the interface, read off the calls alone. */
  function LastMessage(address: A.EthernetAddress, calls: seq<Call>, ip: U32): Option<(nat, A.EthernetAddress)> {
    if calls == [] then None
    else
      var before, last := calls[..|calls| - 1], calls[|calls| - 1];
      if && last.FrameCall? && Announced(address, last.frame).Some?
         && Announced(address, last.frame).value.senderIp == ip
      then Some((Elapsed(before), Announced(address, last.frame).value.senderEthernet))
      else LastMessage(address, before, ip)
  }

  lemma ApplyInv(n: Interface, c: Call)
    requires InterfaceInv(n)
    ensures InterfaceInv(Apply(n, c))
  {
    match c
    case SendCall(d, hop) => SendInv(n, d, hop);
    case FrameCall(frame) => ReceiveInv(n, frame);
    case TickCall(ms) => TickInv(n, ms);
    case PopCall => PopInv(n);
  }

  lemma {:induction false} RunInv(address: A.EthernetAddress, ip: U32, calls: seq<Call>)
    ensures InterfaceInv(Run(New(address, ip), calls))
    decreases |calls|
  {
    if calls != [] {
      RunInv(address, ip, calls[..|calls| - 1]);
      ApplyInv(Run(New(address, ip), calls[..|calls| - 1]), calls[|calls| - 1]);
    }
  }

  lemma {:induction false} FlushFrame(n: Interface, dst: A.EthernetAddress, hop: U32)
    ensures var m := Flush(n, dst, hop).0;
            && m.address == n.address && m.ip == n.ip && m.clock == n.clock && m.cache == n.cache &&
                m.requests == n.requests
            && forall ip: U32 :: LastHeard(m.log, ip) == LastHeard(n.log, ip)
    decreases |Waiting(n, hop)|
  {
    if hop in n.pending && n.pending[hop] != [] {
      var f := DatagramFrame(n.address, dst, n.pending[hop][0]);
      if f.Some? {
        Appended(n.log, Entry(n.clock, Framed(hop, n.pending[hop][0], f.value)));
        FlushFrame(FrameFirst(n, hop, f.value), dst, hop);
      }
    }
  }

  lemma LearnHears(n: Interface, msg: A.ARPMessage, ip: U32)
    ensures var m := Learn(n, msg).0;
            && m.address == n.address && m.ip == n.ip && m.clock == n.clock
            && LastHeard(m.log, ip) ==
               if msg.senderIp == ip then Some((n.clock, msg.senderEthernet)) else LastHeard(n.log, ip)
  {
    var heard := Hear(n, msg);
    Appended(n.log, Entry(n.clock, Heard(msg)));
    Appended(heard.log, Entry(n.clock, Replied(ReplyFrame(n.address, n.ip, msg))));
    FlushFrame(heard, msg.senderEthernet, msg.senderIp);
  }

  lemma SendHears(n: Interface, d: IP.IPv4Datagram, hop: U32, ip: U32)
    ensures var m := Send(n, d, hop).0;
            m.address == n.address && m.ip == n.ip && m.clock == n.clock && LastHeard(m.log, ip) == LastHeard(n.log, ip)
  {
    var m := Send(n, d, hop).0;
    if m != n {
      Appended(n.log, Entry(n.clock, Handed(hop, d)));
      assert m.log[..|n.log| + 1] == n.log + [Entry(n.clock, Handed(hop, d))];
    }
  }

  lemma ApplyHears(n: Interface, c: Call, ip: U32)
    ensures var m := Apply(n, c);
            && m.address == n.address && m.ip == n.ip
            && m.clock == n.clock + (if c.TickCall? then c.ms else 0)
            && LastHeard(m.log, ip) ==
               if c.FrameCall? && MessageIn(n, c.frame).Some? && MessageIn(n, c.frame).value.senderIp == ip
               then Some((n.clock, MessageIn(n, c.frame).value.senderEthernet))
               else LastHeard(n.log, ip)
  {
    hide LastHeard, Send, Learn, MessageIn;
    match c
    case SendCall(d, hop) => SendHears(n, d, hop, ip);
    case FrameCall(frame) => if MessageIn(n, frame).Some? { LearnHears(n, MessageIn(n, frame).value, ip); }
    case _ =>
  }

  lemma NothingHeard(address: A.EthernetAddress, own: U32, ip: U32)
    ensures LastHeard(New(address, own).log, ip) == None
  {
  }

  /** The interface hears exactly what is announced to its address. */
  lemma HearsAnnounced(address: A.EthernetAddress)
    ensures forall n: Interface, frame :: n.address == address ==> MessageIn(n, frame) == Announced(address, frame)
  {
  }

  /** The log is honest: what it says was last heard is what the calls delivered last, and its clock is theirs. */
  lemma {:induction false} LogMatchesCalls(address: A.EthernetAddress, own: U32, calls: seq<Call>, ip: U32)
    ensures var n := Run(New(address, own), calls);
            && n.address == address && n.ip == own && n.clock == Elapsed(calls)
            && LastHeard(n.log, ip) == LastMessage(address, calls, ip)
    decreases |calls|
  {
    hide LastHeard, MessageIn, Announced, Apply;
    NothingHeard(address, own, ip);
    HearsAnnounced(address);
    if calls != [] {
      var before := calls[..|calls| - 1];
      LogMatchesCalls(address, own, before, ip);
      ApplyHears(Run(New(address, own), before), calls[|calls| - 1], ip);
    }
  }

  /**
   * After any calls and ticks of any size, an address is in the cache if and only if the last ARP message from it came
   * less than 30000 ms ago; it is the address of that message, with exactly the rest of the 30000 ms left.
   */
  lemma CacheIsTheLastHalfMinute(address: A.EthernetAddress, own: U32, calls: seq<Call>, ip: U32)
    ensures var n := Run(New(address, own), calls);
            var last := LastMessage(address, calls, ip);
            && (ip in n.cache <==> last.Some? && Elapsed(calls) - last.value.0 < 30000)
            && (ip in n.cache ==>
                  n.cache[ip] == CacheEntry(last.value.1, 30000 - (Elapsed(calls) - last.value.0)))
  {
    RunInv(address, own, calls);
    LogMatchesCalls(address, own, calls, ip);
  }

  // ---------------------------------------------------------------- frames leave in order

  /** What is logged as sent between `n` and `m` is what joins the queue. */
  predicate Queues(n: Interface, m: Interface) {
    && Pushed(n.log) <= Pushed(m.log)
    && m.framesOut == n.framesOut + Pushed(m.log)[|Pushed(n.log)|..]
  }

  lemma QueuesThen(n: Interface, m: Interface, k: Interface)
    requires Queues(n, m) && Queues(m, k)
    ensures Queues(n, k)
  {
    hide Pushed;
    var a, b, c := Pushed(n.log), Pushed(m.log), Pushed(k.log);
    assert c[|a|..] == b[|a|..] + c[|b|..];
  }

  lemma NotedQueues(n: Interface, m: Interface, what: Happening)
    requires m.log == n.log + [Entry(n.clock, what)]
    requires m.framesOut == n.framesOut + (if what.Framed? || what.Asked? || what.Replied? then [what.frame] else [])
    ensures Queues(n, m)
  {
    hide Pushed;
    OneMore(n.log, Entry(n.clock, what));
  }

  lemma {:induction false} FlushQueues(n: Interface, dst: A.EthernetAddress, hop: U32)
    ensures Queues(n, Flush(n, dst, hop).0)
    decreases |Waiting(n, hop)|
  {
    hide Queues, Pushed, DatagramFrame;
    QueuesItself(n, Flush(n, dst, hop).0);
    if hop in n.pending && n.pending[hop] != [] {
      var f := DatagramFrame(n.address, dst, n.pending[hop][0]);
      if f.Some? {
        var m := FrameFirst(n, hop, f.value);
        NotedQueues(n, m, Framed(hop, n.pending[hop][0], f.value));
        FlushQueues(m, dst, hop);
        QueuesThen(n, m, Flush(n, dst, hop).0);
      }
    }
  }

  lemma QueuesItself(n: Interface, m: Interface)
    ensures m.log == n.log && m.framesOut == n.framesOut ==> Queues(n, m)
  {
    hide Pushed;
    assert n.framesOut + [] == n.framesOut;
  }

  lemma LearnQueues(n: Interface, msg: A.ARPMessage)
    ensures Queues(n, Learn(n, msg).0)
  {
    hide Queues, Pushed, Flush, ReplyFrame;
    var heard := Hear(n, msg);
    assert n.framesOut + [] == n.framesOut;
    NotedQueues(n, heard, Heard(msg));
    var frame := ReplyFrame(n.address, n.ip, msg);
    NotedQueues(heard, Push(heard, frame, Replied(frame)), Replied(frame));
    QueuesThen(n, heard, Push(heard, frame, Replied(frame)));
    FlushQueues(heard, msg.senderEthernet, msg.senderIp);
    QueuesThen(n, heard, Flush(heard, msg.senderEthernet, msg.senderIp).0);
  }

  lemma SendQueues(n: Interface, d: IP.IPv4Datagram, hop: U32)
    ensures Queues(n, Send(n, d, hop).0)
  {
    hide Queues, Pushed, DatagramFrame, RequestFrame;
    QueuesItself(n, n);
    assert n.framesOut + [] == n.framesOut;
    var noted := Note(n, Handed(hop, d));
    NotedQueues(n, noted, Handed(hop, d));
    if hop in n.cache {
      var f := DatagramFrame(n.address, n.cache[hop].address, d);
      if f.Some? {
        NotedQueues(noted, FrameNow(n, hop, d, f.value), Framed(hop, d, f.value));
        QueuesThen(n, noted, FrameNow(n, hop, d, f.value));
      }
    } else {
      var waits := Wait(n, hop, d);
      NotedQueues(n, waits, Handed(hop, d));
      NotedQueues(waits, Ask(waits, hop), Asked(hop, RequestFrame(n.address, n.ip, hop)));
      QueuesThen(n, waits, Ask(waits, hop));
    }
  }

  lemma CallQueues(n: Interface, c: Call)
    requires !c.PopCall?
    ensures Queues(n, Apply(n, c))
  {
    hide Queues, Learn, Send;
    match c
    case SendCall(d, hop) => SendQueues(n, d, hop);
    case FrameCall(frame) =>
      QueuesItself(n, Apply(n, c));
      if MessageIn(n, frame).Some? { LearnQueues(n, MessageIn(n, frame).value); }
    case TickCall(ms) => QueuesItself(n, Apply(n, c));
  }

  /** The frames the owner has taken in a run. */
  function TakenFrames(start: Interface, calls: seq<Call>): seq<A.EthernetFrame> {
    if calls == [] then []
    else
      var before := calls[..|calls| - 1];
      TakenFrames(start, before)
        + (if calls[|calls| - 1].PopCall? then FirstFrame(Run(start, before)) else [])
  }

  function FirstFrame(n: Interface): seq<A.EthernetFrame> { if n.framesOut == [] then [] else [n.framesOut[0]] }

  /** Over every run, the frames the owner has taken and those it has not are the frames sent, in the order sent. */
  lemma {:induction false} FramesLeaveInOrder(address: A.EthernetAddress, ip: U32, calls: seq<Call>)
    ensures var n := Run(New(address, ip), calls);
      TakenFrames(New(address, ip), calls) + n.framesOut == Pushed(n.log)
    decreases |calls|
  {
    hide Apply, Pushed;
    if calls == [] {
      NothingPushed(address, ip);
    } else {
      var before, last := calls[..|calls| - 1], calls[|calls| - 1];
      FramesLeaveInOrder(address, ip, before);
      var n := Run(New(address, ip), before);
      if last.PopCall? { PopTakes(n); } else { CallQueues(n, last); }
    }
  }

  lemma NothingPushed(address: A.EthernetAddress, ip: U32)
    ensures Pushed(New(address, ip).log) == []
  {
  }

  lemma PopTakes(n: Interface)
    ensures FirstFrame(n) + Apply(n, PopCall).framesOut == n.framesOut && Apply(n, PopCall).log == n.log
  {
  }

  // ---------------------------------------------------------------- what sending does

  /** The bytes of an ARP message, field by field (RFC 826): 28 of them. */
  lemma MessageOnTheWire(opcode: U16, address: A.EthernetAddress, ip: U32, target: A.EthernetAddress, targetIp: U32)
    requires opcode == 1 || opcode == 2
    ensures A.Bytes(A.Message(opcode, address, ip, target, targetIp), []) ==
            [0, 1, 8, 0, 6, 4, 0, opcode] + address + ToBytes(ip, 4) + target + ToBytes(targetIp, 4)
  {
    hide ToBytes;
    TwoBytes(1);
    TwoBytes(0x800);
    TwoBytes(opcode);
    OneByte(6);
    OneByte(4);
    Joined(opcode, address, ToBytes(ip, 4), target, ToBytes(targetIp, 4));
  }

  lemma Joined(opcode: Byte, a: seq<Byte>, b: seq<Byte>, c: seq<Byte>, d: seq<Byte>)
    ensures [0, 1] + ([8, 0] + ([6] + ([4] + ([0, opcode] + (a + (b + (c + (d + [])))))))) ==
            [0, 1, 8, 0, 6, 4, 0, opcode] + a + b + c + d
  {
  }

  lemma TwoBytes(w: U16)
    ensures ToBytes(w, 2) == [w / 256, w % 256]
  {
    OneByte(w / 256);
  }

  lemma OneByte(b: U8)
    ensures ToBytes(b, 1) == [b]
  {
    assert ToBytes(b / 256, 0) == [];
  }

  /** The broadcast that asks who has `target`. */
  function Question(address: A.EthernetAddress, ip: U32, target: U32): A.EthernetFrame {
    A.EthernetFrame([255, 255, 255, 255, 255, 255], address, 0x806,
                    [0, 1, 8, 0, 6, 4, 0, 1] + address + ToBytes(ip, 4) + [0, 0, 0, 0, 0, 0] + ToBytes(target, 4))
  }

  /** The frame that carries the bytes of a datagram (0x800 is the type of IPv4). */
  function Carrying(src: A.EthernetAddress, dst: A.EthernetAddress, bytes: seq<Byte>): A.EthernetFrame {
    A.EthernetFrame(dst, src, 0x800, bytes)
  }

  /**
   * What sending does after any calls. If the hop's last ARP message is under 30000 ms old the datagram leaves at once,
   * in a frame to the address of that message, or nothing happens where it cannot be serialised. If not, it waits
   * behind the others for that hop, and the hop is asked for unless that was done less than 5000 ms ago and no reply
   * has come since.
   */
  lemma SendsExactly(address: A.EthernetAddress, ip: U32, calls: seq<Call>, d: IP.IPv4Datagram, hop: U32)
    ensures var n, last := Run(New(address, ip), calls), LastMessage(address, calls, hop);
      var (m, ok) := Send(n, d, hop);
      if last.Some? && Elapsed(calls) - last.value.0 < 30000 then
        match IP.SerializeDatagram(d)
        case None => m == n && !ok
        case Some(bytes) =>
          ok && m.framesOut == n.framesOut + [Carrying(address, last.value.1, bytes)] && m.pending == n.pending
      else
        var asked := LastAsked(n.log, hop);
        var quiet := asked.Some? && Elapsed(calls) - asked.value < 5000;
        && ok && Waiting(m, hop) == Waiting(n, hop) + [d]
        && m.framesOut == n.framesOut + (if quiet then [] else [Question(address, ip, hop)])
        && forall h :: h != hop ==> Waiting(m, h) == Waiting(n, h)
  {
    hide IP.SerializeDatagram, Conserved, Queued, LogInv, PendingInv, CacheInv, LastAsked, LastMessage, Run, A.Bytes;
    RunInv(address, ip, calls);
    LogMatchesCalls(address, ip, calls, hop);
    CacheIsTheLastHalfMinute(address, ip, calls, hop);
    MessageOnTheWire(1, address, ip, A.NO_ADDRESS, hop);
    var n := Run(New(address, ip), calls);
    assert TimerAt(n.requests, hop, LastAsked(n.log, hop), ARP_REQUEST_TIMEOUT, n.clock);
    assert n.framesOut + [] == n.framesOut;
  }

  lemma {:induction false} HeardEarlier(log: seq<Entry>, ip: U32) returns (k: nat)
    requires LastHeard(log, ip).Some?
    ensures k < |log| && log[k].what.Heard? && log[k].what.msg.senderIp == ip
    ensures LastHeard(log, ip).value == (log[k].at, log[k].what.msg.senderEthernet)
    ensures forall i :: k < i < |log| && log[i].what.Heard? ==> log[i].what.msg.senderIp != ip
    decreases |log|
  {
    var last := log[|log| - 1];
    if last.what.Heard? && last.what.msg.senderIp == ip {
      return |log| - 1;
    }
    k := HeardEarlier(log[..|log| - 1], ip);
  }

  /** Frame `j` of the log went to the address in the last message heard from its hop, message `k`. */
  ghost predicate FollowsMessage(log: seq<Entry>, j: nat, k: nat)
    requires j < |log| && log[j].what.Framed?
  {
    var hop, dgram, frame := log[j].what.hop, log[j].what.dgram, log[j].what.frame;
    && k < j && log[k].what.Heard? && log[k].what.msg.senderIp == hop
    && frame.dst == log[k].what.msg.senderEthernet && log[j].at - log[k].at < 30000
    && frame.etherType == 0x800 && IP.SerializeDatagram(dgram) == Some(frame.payload)
    && forall i :: k < i < j && log[i].what.Heard? ==> log[i].what.msg.senderIp != hop
  }

  lemma FrameFollows(n: Interface, j: nat) returns (k: nat)
    requires InterfaceInv(n) && j < |n.log| && n.log[j].what.Framed?
    ensures FollowsMessage(n.log, j, k)
  {
    assert EntryOk(n.address, n.ip, n.log[..j], n.log[j]);
    k := HeardEarlier(n.log[..j], n.log[j].what.hop);
  }

  /** Over every run, each datagram framed went to the address in the last message from its hop, under 30000 ms old. */
  lemma FramesGoToRecentAddresses(address: A.EthernetAddress, ip: U32, calls: seq<Call>)
    ensures var log := Run(New(address, ip), calls).log;
            forall j :: 0 <= j < |log| && log[j].what.Framed? ==> exists k :: FollowsMessage(log, j, k)
  {
    hide InterfaceInv, FollowsMessage;
    RunInv(address, ip, calls);
    var n := Run(New(address, ip), calls);
    forall j | 0 <= j < |n.log| && n.log[j].what.Framed? ensures exists k :: FollowsMessage(n.log, j, k) {
      var k := FrameFollows(n, j);
    }
  }

  lemma {:induction false} AskedNoLater(log: seq<Entry>, i: nat, ip: U32)
    requires i < |log| && log[i].what.Asked? && log[i].what.target == ip
    requires forall k :: i < k < |log| ==> !Settles(log[k].what, ip)
    requires forall a, b :: 0 <= a < b < |log| ==> log[a].at <= log[b].at
    ensures LastAsked(log, ip).Some? && log[i].at <= LastAsked(log, ip).value
    decreases |log|
  {
    var last := log[|log| - 1];
    if !(last.what.Asked? && last.what.target == ip) {
      AskedNoLater(log[..|log| - 1], i, ip);
    }
  }

  /** Two requests for one address have a reply from it between them, or at least 5000 ms. */
  ghost predicate Apart(log: seq<Entry>, i: nat, j: nat)
    requires i < j < |log| && log[i].what.Asked?
  {
    log[j].at - log[i].at >= 5000 || exists k :: i < k < j && Settles(log[k].what, log[i].what.target)
  }

  lemma RequestsApart(n: Interface, i: nat, j: nat)
    requires InterfaceInv(n) && i < j < |n.log|
    requires n.log[i].what.Asked? && n.log[j].what.Asked? && n.log[i].what.target == n.log[j].what.target
    ensures Apart(n.log, i, j)
  {
    var ip := n.log[i].what.target;
    if forall k :: i < k < j ==> !Settles(n.log[k].what, ip) {
      assert EntryOk(n.address, n.ip, n.log[..j], n.log[j]);
      AskedNoLater(n.log[..j], i, ip);
    }
  }

  /** Over every run, no address is asked for again within 5000 ms unless it has replied. */
  lemma RequestsAreSpaced(address: A.EthernetAddress, ip: U32, calls: seq<Call>)
    ensures var log := Run(New(address, ip), calls).log;
            forall i, j :: 0 <= i < j < |log| && log[i].what.Asked? && log[j].what.Asked? &&
              log[i].what.target == log[j].what.target
              ==> Apart(log, i, j)
  {
    hide InterfaceInv, Apart;
    RunInv(address, ip, calls);
    var n := Run(New(address, ip), calls);
    forall i, j | 0 <= i < j < |n.log| && n.log[i].what.Asked? && n.log[j].what.Asked? &&
      n.log[i].what.target == n.log[j].what.target
      ensures Apart(n.log, i, j)
    {
      RequestsApart(n, i, j);
    }
  }

  // ---------------------------------------------------------------- two interfaces

  /** How many datagrams at the front of a queue can be serialised. */
  function GoodPrefix(q: seq<IP.IPv4Datagram>): (k: nat)
    ensures k <= |q|
  {
    if q == [] || IP.SerializeDatagram(q[0]).None? then 0 else 1 + GoodPrefix(q[1..])
  }

  function FramesFor(src: A.EthernetAddress, dst: A.EthernetAddress, q: seq<IP.IPv4Datagram>): seq<A.EthernetFrame> {
    if q == [] || DatagramFrame(src, dst, q[0]).None? then []
    else [DatagramFrame(src, dst, q[0]).value] + FramesFor(src, dst, q[1..])
  }

  /** A flush sends the queue in order up to what cannot be serialised, keeps the rest, and touches no other queue. */
  lemma {:induction false} FlushSpec(n: Interface, dst: A.EthernetAddress, hop: U32)
    ensures var (m, ok) := Flush(n, dst, hop);
            var q := Waiting(n, hop);
            && m.framesOut == n.framesOut + FramesFor(n.address, dst, q)
            && Waiting(m, hop) == q[GoodPrefix(q)..]
            && (ok <==> GoodPrefix(q) == |q|)
            && (ok ==> hop !in m.pending)
            && forall h :: h != hop ==> Waiting(m, h) == Waiting(n, h)
    decreases |Waiting(n, hop)|
  {
    hide IP.SerializeDatagram;
    var q := Waiting(n, hop);
    if q == [] {
      assert n.framesOut + [] == n.framesOut;
    } else {
      var f := DatagramFrame(n.address, dst, q[0]);
      if f.None? {
        assert n.framesOut + [] == n.framesOut;
      } else {
        var m := FrameFirst(n, hop, f.value);
        FlushSpec(m, dst, hop);
        assert Waiting(m, hop) == q[1..];
        assert n.framesOut + [f.value] + FramesFor(n.address, dst, q[1..]) ==
               n.framesOut + ([f.value] + FramesFor(n.address, dst, q[1..]));
      }
    }
  }

  /** What a message makes an interface send: a reply to its own address's askers, what waited for one who replies. */
  function Answered(n: Interface, msg: A.ARPMessage): seq<A.EthernetFrame> {
    if msg.opcode == 1 && msg.targetIp == n.ip then [ReplyFrame(n.address, n.ip, msg)]
    else if msg.opcode == 2 then FramesFor(n.address, msg.senderEthernet, Waiting(n, msg.senderIp))
    else []
  }

  lemma LearnSends(n: Interface, msg: A.ARPMessage)
    ensures Learn(n, msg).0.framesOut == n.framesOut + Answered(n, msg)
  {
    hide Flush, FramesFor, GoodPrefix;
    FlushSpec(Hear(n, msg), msg.senderEthernet, msg.senderIp);
    assert Waiting(Hear(n, msg), msg.senderIp) == Waiting(n, msg.senderIp);
    assert n.framesOut + [] == n.framesOut;
  }

  /**
   * What a received frame does. Frames for other stations, of other types, or with no ARP message in them change
   * nothing; a datagram is handed up exactly if it comes in an IPv4 frame for us; and only an ARP message makes the
   * interface send.
   */
  lemma ReceivesExactly(n: Interface, frame: A.EthernetFrame)
    ensures var (m, got, ok) := Receive(n, frame);
      && (got.Some? <==>
            && AddressedTo(n.address, frame) && frame.etherType == 0x800
            && IP.ParseDatagram(frame.payload).0 == NoError)
      && (got.Some? ==> got.value == IP.ParseDatagram(frame.payload).1)
      && match Announced(n.address, frame) {
           case None => m == n && ok
           case Some(msg) => m.framesOut == n.framesOut + Answered(n, msg)
         }
  {
    hide A.Parse, IP.ParseDatagram, Flush, Answered, Learn;
    HearsAnnounced(n.address);
    if Announced(n.address, frame).Some? { LearnSends(n, Announced(n.address, frame).value); }
  }

  /** A request reaching its target is answered, to the asker, who is learnt on the way. */
  lemma RequestIsAnswered(address: A.EthernetAddress, ip: U32, b: Interface)
    ensures var msg := A.Message(A.OPCODE_REQUEST, address, ip, A.NO_ADDRESS, b.ip);
            var (b1, got, ok) := Receive(b, RequestFrame(address, ip, b.ip));
            && ok && got == None
            && b1.framesOut == b.framesOut + [ReplyFrame(b.address, b.ip, msg)]
            && ip in b1.cache && b1.cache[ip] == CacheEntry(address, ARP_CACHE_TIMEOUT)
  {
    hide A.Bytes, A.Parse, Flush;
    A.RoundTrip(A.Message(A.OPCODE_REQUEST, address, ip, A.NO_ADDRESS, b.ip), []);
  }

  lemma ReplyIsRead(a: Interface, address: A.EthernetAddress, ip: U32)
    ensures var asked := A.Message(A.OPCODE_REQUEST, a.address, a.ip, A.NO_ADDRESS, ip);
            var answer := A.Message(A.OPCODE_REPLY, address, ip, a.address, a.ip);
            Receive(a, ReplyFrame(address, ip, asked)) ==
            (Flush(Hear(a, answer), address, ip).0, None, Flush(Hear(a, answer), address, ip).1)
  {
    hide Flush, Hear, A.Bytes, A.Parse;
    A.RoundTrip(A.Message(A.OPCODE_REPLY, address, ip, a.address, a.ip), []);
  }

  lemma {:induction false} AllGood(src: A.EthernetAddress, dst: A.EthernetAddress, q: seq<IP.IPv4Datagram>)
    requires forall d :: d in q ==> IP.WellFormed(d.header, d.payload)
    ensures GoodPrefix(q) == |q| == |FramesFor(src, dst, q)|
    ensures forall i :: 0 <= i < |q| ==> DatagramFrame(src, dst, q[i]) == Some(FramesFor(src, dst, q)[i])
  {
    hide IP.SerializeDatagram, IP.WellFormed, IP.ParseDatagram, IP.ParseHeader, IP.Checked;
    if q != [] {
      IP.DatagramRoundTrip(q[0]);
      AllGood(src, dst, q[1..]);
    }
  }

  /** `got` is `d`, with the checksum it travelled with. */
  predicate ReadBack(d: IP.IPv4Datagram, got: Option<IP.IPv4Datagram>) {
    d.header.hlen >= 5 && got == Some(d.(header := IP.Checked(d.header)))
  }

  lemma FrameArrives(b: Interface, src: A.EthernetAddress, d: IP.IPv4Datagram, frame: A.EthernetFrame)
    requires IP.WellFormed(d.header, d.payload) && DatagramFrame(src, b.address, d) == Some(frame)
    ensures ReadBack(d, DatagramIn(b, frame)) && MessageIn(b, frame) == None
  {
    hide IP.SerializeDatagram, IP.ParseDatagram, IP.ParseHeader, IP.Checked;
    IP.DatagramRoundTrip(d);
  }

  /**
   * Address resolution from end to end: when the request of `a` for `b` reaches `b` and the reply reaches `a`, all that
   * waited at `a` for `b` goes out in order, nothing stays behind, and `b` reads each frame back as the datagram sent.
   */
  lemma Resolution(a: Interface, b: Interface)
    requires forall d :: d in Waiting(a, b.ip) ==> IP.WellFormed(d.header, d.payload)
    ensures var reply := ReplyFrame(b.address, b.ip, A.Message(A.OPCODE_REQUEST, a.address, a.ip, A.NO_ADDRESS, b.ip));
            var b1 := Receive(b, RequestFrame(a.address, a.ip, b.ip)).0;
            var (a1, _, ok) := Receive(a, reply);
            var q := Waiting(a, b.ip);
            && b1.framesOut == b.framesOut + [reply]
            && ok && b.ip !in a1.pending && b.ip !in a1.requests
            && |a1.framesOut| == |a.framesOut| + |q| && a.framesOut <= a1.framesOut
            && forall i :: 0 <= i < |q| ==> ReadBack(q[i], Receive(b1, a1.framesOut[|a.framesOut| + i]).1)
  {
    hide Flush, DatagramFrame, DatagramIn, MessageIn, IP.WellFormed, ReadBack, Learn, ReplyFrame, RequestFrame,
         A.Message;
    var answer := A.Message(A.OPCODE_REPLY, b.address, b.ip, a.address, a.ip);
    AnswerSettles(a, b.address, b.ip);
    RequestIsAnswered(a.address, a.ip, b);
    ReplyIsRead(a, b.address, b.ip);
    var heard := Hear(a, answer);
    FlushSpec(heard, b.address, b.ip);
    FlushFrame(heard, b.address, b.ip);
    var q := Waiting(a, b.ip);
    AllGood(a.address, b.address, q);
    var b1 := Receive(b, RequestFrame(a.address, a.ip, b.ip)).0;
    KeepsAddress(b, RequestFrame(a.address, a.ip, b.ip));
    forall i | 0 <= i < |q|
      ensures ReadBack(q[i], Receive(b1, FramesFor(a.address, b.address, q)[i]).1)
    {
      FrameArrives(b1, a.address, q[i], FramesFor(a.address, b.address, q)[i]);
    }
  }

  lemma AnswerSettles(a: Interface, address: A.EthernetAddress, ip: U32)
    ensures var heard := Hear(a, A.Message(A.OPCODE_REPLY, address, ip, a.address, a.ip));
            && ip !in heard.requests && heard.framesOut == a.framesOut && heard.pending == a.pending
            && heard.address == a.address
  {
  }

  lemma KeepsAddress(n: Interface, frame: A.EthernetFrame)
    ensures Receive(n, frame).0.address == n.address && Receive(n, frame).0.ip == n.ip
  {
    hide MessageIn;
    if MessageIn(n, frame).Some? {
      var msg := MessageIn(n, frame).value;
      FlushFrame(Hear(n, msg), msg.senderEthernet, msg.senderIp);
    }
  }
}
