/** The serial-to-USB half of the USB-to-serial bridge: the receive interrupt fills the ring buffer while
    the main loop empties it towards the host in bursts. */
module SerialBridge {
  import opened Avr
  import opened Modular
  import opened Ring
  import opened RingProtocol

  const CDC_TXRX_EPSIZE := 16

  /** Where the main loop is: at its top, about to send with `left` bytes of the burst to go, or removing
      the byte it has just sent. */
  datatype Main = Top | Burst(left: nat) | Removing(left: nat)

  /** `received` lists the bytes the interrupt stored, `sent` those the host accepted, `burst` counts the
      sends of the current burst. */
  datatype Bridge = Bridge(sys: Sys, main: Main, received: seq<byte>, sent: seq<byte>, burst: nat)

  /** A byte arriving on the serial port, and a step of the main loop with what the USB side answers:
      whether the endpoint is ready, and whether a send succeeds. */
  datatype Event = Receive(b: byte, configured: bool) | MainStep(ready: bool, accepted: bool)

  function PowerUp(storage: seq<byte>): (s: Bridge)
    requires 0 < |storage|
    ensures Good(s)
  {
    Bridge(Start(storage), Top, [], [], 0)
  }

  /** The receive interrupt: it inserts without looking whether there is room. */
  function Interrupt(s: Sys, b: byte): Sys
    requires s.ring.inPos < |s.ring.data|
  {
    s.(ring := InsertWhole(s.ring, b), written := s.written + [b])
  }

  predicate HasRoom(s: Sys) {
    s.ring.count < |s.ring.data|
  }

  ghost predicate Ready(s: Sys) {
    Inv(s) && s.producer.PIdle?
  }

  lemma PointerInside(s: Sys)
    requires Ready(s)
    ensures s.ring.inPos < |s.ring.data|
  {
  }

  /** The interrupt keeps the buffer a queue exactly when there is room; on a full buffer it stores over
      the oldest byte not yet delivered. */
  lemma InterruptExact(s: Sys, b: byte)
    requires Ready(s)
    ensures s.ring.inPos < |s.ring.data|
    ensures Ready(Interrupt(s, b)) <==> HasRoom(s)
    ensures !HasRoom(s) ==>
              && |s.delivered| < |s.written|
              && Interrupt(s, b).ring.data[|s.delivered| % |s.ring.data|] == b
              && Interrupt(s, b).ring.count > |s.ring.data|
  {
    var size, n, m := |s.ring.data|, |s.written|, |s.delivered|;
    if HasRoom(s) {
      StoreKeepsUnread(s.ring.data, s.written, m, b);
      ModSuccessor(n, size);
    } else {
      ModPlusSize(m, size);
    }
  }

  // ---- The main loop ----

  function Least(a: int, b: int): int { if a < b then a else b }

  /** Conservation and what keeps it: bytes sent are bytes received in order, and a burst never asks the
      buffer for more than it holds. */
  ghost predicate Good(s: Bridge) {
    && Ready(s.sys)
    && s.received == s.sys.written
    && s.burst < CDC_TXRX_EPSIZE
    && match s.main
       case Top => s.sys.consumer.CIdle? && s.sent == s.sys.delivered
       case Burst(left) =>
         && s.sys.consumer.CIdle? && s.sent == s.sys.delivered
         && left <= s.sys.ring.count && s.burst + left < CDC_TXRX_EPSIZE
       case Removing(left) =>
         && !s.sys.consumer.CIdle?
         && |s.sys.delivered| < |s.sys.written| && s.sent == s.sys.delivered + [s.sys.written[|s.sys.delivered|]]
         && left + 1 <= s.sys.ring.count && s.burst + left < CDC_TXRX_EPSIZE
  }

  function MainNext(s: Bridge, ready: bool, accepted: bool): Bridge
    requires Good(s)
  {
    match s.main
    case Top =>
      if s.sys.ring.count != 0 && ready
      then s.(main := Burst(Least(s.sys.ring.count, CDC_TXRX_EPSIZE - 1)), burst := 0)
      else s
    case Burst(left) =>
      if left == 0 || !accepted then s.(main := Top)
      else
        var peeked := s.sys.ring.data[s.sys.ring.outPos];
        s.(main := Removing(left - 1), sent := s.sent + [peeked], burst := s.burst + 1,
           sys := s.sys.(consumer := CLoad))
    case Removing(left) =>
      var t := ConsumerStep(s.sys);
      s.(sys := t, main := if t.consumer.CIdle? then Burst(left) else s.main)
  }

  function Next(s: Bridge, e: Event): Bridge
    requires Good(s)
  {
    match e
    case Receive(b, configured) =>
      PointerInside(s.sys);
      if configured then s.(sys := Interrupt(s.sys, b), received := s.received + [b]) else s
    case MainStep(ready, accepted) => MainNext(s, ready, accepted)
  }

  lemma BurstStep(s: Bridge, accepted: bool)
    requires Good(s) && s.main.Burst?
    ensures Good(MainNext(s, true, accepted))
  {
    var size, m := |s.sys.ring.data|, |s.sys.delivered|;
    if s.main.left > 0 && accepted {
      assert s.sys.ring.data[m % size] == s.sys.written[m];
    }
  }

  lemma RemovingStep(s: Bridge)
    requires Good(s) && s.main.Removing?
    ensures Good(MainNext(s, true, true))
  {
    ConsumerKeeps(s.sys);
  }

  lemma MainKeeps(s: Bridge, ready: bool, accepted: bool)
    requires Good(s)
    ensures Good(MainNext(s, ready, accepted))
  {
    match s.main
    case Top =>
    case Burst(left) => BurstStep(s, accepted);
    case Removing(left) => RemovingStep(s);
  }

  /** A byte arriving while there is room disturbs neither the main loop nor the removal it interrupts. */
  lemma ReceiveKeeps(s: Bridge, b: byte)
    requires Good(s) && HasRoom(s.sys)
    ensures Good(Next(s, Receive(b, true)))
  {
    InterruptExact(s.sys, b);
  }

  /** Runs in which the interrupt never fires on a full buffer. */
  ghost predicate NeverOverruns(s: Bridge, es: seq<Event>)
    requires Good(s)
    decreases |es|
  {
    es == [] ||
    (&& (es[0].Receive? && es[0].configured ==> HasRoom(s.sys))
     && (EventKeeps(s, es[0]); NeverOverruns(Next(s, es[0]), es[1..])))
  }

  lemma EventKeeps(s: Bridge, e: Event)
    requires Good(s) && (e.Receive? && e.configured ==> HasRoom(s.sys))
    ensures Good(Next(s, e))
  {
    match e
    case Receive(b, configured) =>
      if configured { ReceiveKeeps(s, b); }
    case MainStep(ready, accepted) => MainKeeps(s, ready, accepted);
  }

  ghost function After(s: Bridge, es: seq<Event>): (r: Bridge)
    requires Good(s) && NeverOverruns(s, es)
    ensures Good(r)
    decreases |es|
  {
    if es == [] then s
    else
      EventKeeps(s, es[0]);
      After(Next(s, es[0]), es[1..])
  }

  /** The bytes waiting in the buffer, less the one already sent and still being removed. */
  function Waiting(s: Bridge): seq<byte>
    requires |s.sys.delivered| <= |s.sys.written|
  {
    var q := Queued(s.sys);
    if s.main.Removing? && q != [] then q[1..] else q
  }

  /** Conservation at every step of every run: whatever the order of arrivals, sends and failures, the
      bytes sent followed by the bytes waiting are the bytes received, and no burst exceeds one byte
      less than the bank. */
  lemma Conservation(storage: seq<byte>, es: seq<Event>)
    requires 0 < |storage|
    requires NeverOverruns(PowerUp(storage), es)
    ensures var s := After(PowerUp(storage), es);
            && |s.sys.delivered| <= |s.sys.written|
            && s.sent + Waiting(s) == s.received
            && s.burst <= CDC_TXRX_EPSIZE - 1
            && |Waiting(s)| <= |s.sys.ring.data|
  {
    hide After, NeverOverruns, Good, Waiting;
    Conserves(After(PowerUp(storage), es));
  }

  lemma Conserves(s: Bridge)
    requires Good(s)
    ensures |s.sys.delivered| <= |s.sys.written|
    ensures s.sent + Waiting(s) == s.received && s.burst <= CDC_TXRX_EPSIZE - 1 && |Waiting(s)| <= |s.sys.ring.data|
  {
    hide Stored, ProducerInv, ConsumerInv;
    var w, m := s.sys.written, |s.sys.delivered|;
    assert w == w[..m] + w[m..];
    if s.main.Removing? {
      assert w[m..] == [w[m]] + w[m + 1..] && w[m..][1..] == w[m + 1..];
    }
  }
}
