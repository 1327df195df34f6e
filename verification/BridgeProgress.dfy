/** The USB-to-serial bridge makes progress: a burst sends what it should, a refused byte is kept, and whatever has
    been received can always be sent. */
module BridgeProgress {
  import opened Avr
  import opened Ring
  import opened RingProtocol
  import opened SerialBridge

  /** Main-loop steps with the endpoint ready and every send accepted. */
  function MainSteps(n: nat): seq<Event> {
    if n == 0 then [] else [MainStep(true, true)] + MainSteps(n - 1)
  }

  /** The bridge after `n` such steps. */
  ghost function Steps(s: Bridge, n: nat): (t: Bridge)
    requires Good(s)
    ensures Good(t)
    decreases n
  {
    if n == 0 then s
    else
      MainKeeps(s, true, true);
      Steps(MainNext(s, true, true), n - 1)
  }

  lemma {:induction false} StepsAdd(s: Bridge, m: nat, n: nat)
    requires Good(s)
    ensures Steps(s, m + n) == Steps(Steps(s, m), n)
    decreases m
  {
    hide Good, MainNext;
    if m > 0 {
      MainKeeps(s, true, true);
      StepsAdd(MainNext(s, true, true), m - 1, n);
    }
  }

  lemma QueueCounts(s: Bridge)
    requires Good(s)
    ensures |s.sys.delivered| <= |s.sys.written| && s.sys.ring.count == |Queued(s.sys)|
  {
  }

  // ---- One byte ----

  lemma OneStep(s: Bridge)
    requires Good(s)
    ensures Good(MainNext(s, true, true)) && Steps(s, 1) == MainNext(s, true, true)
  {
    hide Good, MainNext;
    MainKeeps(s, true, true);
    assert Steps(MainNext(s, true, true), 0) == MainNext(s, true, true);
  }

  /** The send of a burst's next byte: it goes to the host, and its removal begins. */
  lemma Sends(s: Bridge)
    requires Good(s) && s.main.Burst? && 0 < s.main.left
    ensures |s.sys.delivered| < |s.sys.written|
    ensures var t := MainNext(s, true, true);
            t == s.(main := Removing(s.main.left - 1), sent := s.sent + [s.sys.written[|s.sys.delivered|]],
                    burst := s.burst + 1, sys := s.sys.(consumer := CLoad))
  {
    var size, m := |s.sys.ring.data|, |s.sys.delivered|;
    assert s.sys.ring.data[m % size] == s.sys.written[m];
  }

  /** What the removal of a byte leaves. */
  function Removed(s: Bridge, left: nat, sent: seq<byte>): Bridge
    requires |s.sys.delivered| < |s.sys.written|
  {
    s.(main := Burst(left), sent := sent,
       sys := s.sys.(consumer := CIdle, ring := RemoveWhole(s.sys.ring),
                     delivered := s.sys.delivered + [s.sys.written[|s.sys.delivered|]]))
  }

  /** The four stores of a removal. */
  lemma Removes(s: Bridge)
    requires Good(s) && s.main.Removing? && s.sys.consumer.CLoad?
    ensures |s.sys.delivered| < |s.sys.written| && Steps(s, 4) == Removed(s, s.main.left, s.sent)
  {
    hide Steps;
    var size, m := |s.sys.ring.data|, |s.sys.delivered|;
    var v := s.sys.ring.data[m % size];
    assert v == s.sys.written[m];
    OneStep(s);
    var s1 := MainNext(s, true, true);
    assert s1 == s.(sys := s.sys.(consumer := CAdvance(v)));
    FourSteps(s);
    AdvanceThenWrap(s1, v);
  }

  lemma AdvanceThenWrap(s: Bridge, v: byte)
    requires Good(s) && s.main.Removing? && s.sys.consumer == CAdvance(v)
    ensures var s1 := MainNext(s, true, true);
            && s1 == s.(sys := s.sys.(ring := AdvanceOut(s.sys.ring), consumer := CWrap(v)))
            && Good(s1) && var s2 := MainNext(s1, true, true);
            && s2 == s.(sys := s.sys.(ring := WrapOut(AdvanceOut(s.sys.ring)), consumer := CCount(v)))
            && Good(s2) && var s3 := MainNext(s2, true, true);
            s3 == s.(main := Burst(s.main.left),
                     sys := s.sys.(ring := RemoveWhole(s.sys.ring), consumer := CIdle,
                                   delivered := s.sys.delivered + [v]))
  {
    hide Good;
    AdvanceStep(s, v);
    var s1 := MainNext(s, true, true);
    MainKeeps(s, true, true);
    WrapStep(s1, v);
    var s2 := MainNext(s1, true, true);
    MainKeeps(s1, true, true);
    CountStep(s2, v);
  }

  lemma AdvanceStep(s: Bridge, v: byte)
    requires Good(s) && s.main.Removing? && s.sys.consumer == CAdvance(v)
    ensures MainNext(s, true, true) == s.(sys := s.sys.(ring := AdvanceOut(s.sys.ring), consumer := CWrap(v)))
  {
    hide Good;
  }

  lemma WrapStep(s: Bridge, v: byte)
    requires Good(s) && s.main.Removing? && s.sys.consumer == CWrap(v)
    ensures MainNext(s, true, true) == s.(sys := s.sys.(ring := WrapOut(s.sys.ring), consumer := CCount(v)))
  {
    hide Good;
  }

  lemma CountStep(s: Bridge, v: byte)
    requires Good(s) && s.main.Removing? && s.sys.consumer == CCount(v)
    ensures MainNext(s, true, true)
         == s.(main := Burst(s.main.left),
               sys := s.sys.(ring := CountDown(s.sys.ring), consumer := CIdle, delivered := s.sys.delivered + [v]))
  {
    hide Good;
  }

  lemma FourSteps(s: Bridge)
    requires Good(s)
    ensures var s1 := MainNext(s, true, true);
            && Good(s1) && var s2 := MainNext(s1, true, true);
            && Good(s2) && var s3 := MainNext(s2, true, true);
            && Good(s3) && Steps(s, 4) == MainNext(s3, true, true)
  {
    hide Good, MainNext, Steps;
    OneStep(s);
    var s1 := MainNext(s, true, true);
    OneStep(s1);
    var s2 := MainNext(s1, true, true);
    OneStep(s2);
    var s3 := MainNext(s2, true, true);
    OneStep(s3);
    StepsAdd(s, 1, 3);
    StepsAdd(s1, 1, 2);
    StepsAdd(s2, 1, 1);
  }

  /** Five steps send a byte and take it off the buffer. */
  lemma OneByte(s: Bridge)
    requires Good(s) && s.main.Burst? && 0 < s.main.left
    ensures |s.sys.delivered| < |s.sys.written|
    ensures var b := s.sys.written[|s.sys.delivered|];
            Steps(s, 5) == Removed(s, s.main.left - 1, s.sent + [b]).(burst := s.burst + 1)
  {
    hide Steps, Good, MainNext, RemoveWhole;
    Sends(s);
    OneStep(s);
    var t := MainNext(s, true, true);
    StepsAdd(s, 1, 4);
    Removes(t);
  }

  // ---- One burst ----

  /** From inside a burst: the rest of it goes out, and the loop returns to its top. */
  lemma {:induction false} BurstRuns(s: Bridge)
    requires Good(s) && s.main.Burst?
    ensures s.main.left <= |s.sys.written| - |s.sys.delivered|
    ensures var left, t := s.main.left, Steps(s, 5 * s.main.left + 1);
            && t.main.Top? && t.received == s.received && t.sent == s.sent + Queued(s.sys)[..left]
            && |t.sys.delivered| <= |t.sys.written| && Queued(t.sys) == Queued(s.sys)[left..]
    decreases s.main.left
  {
    hide Steps, Good, MainNext, RemoveWhole;
    QueueCounts(s);
    BurstFits(s);
    var left := s.main.left;
    if left == 0 {
      OneStep(s);
      EndsBurst(s);
      assert s.sent + Queued(s.sys)[..0] == s.sent && Queued(s.sys)[0..] == Queued(s.sys);
    } else {
      OneByte(s);
      var t := Steps(s, 5);
      StepsAdd(s, 5, 5 * (left - 1) + 1);
      BurstRuns(t);
      var q, b := Queued(s.sys), s.sys.written[|s.sys.delivered|];
      assert q[0] == b && Queued(t.sys) == q[1..];
      assert s.sent + [b] + q[1..][..left - 1] == s.sent + q[..left];
      assert q[1..][left - 1..] == q[left..];
    }
  }

  lemma BurstFits(s: Bridge)
    requires Good(s) && s.main.Burst?
    ensures s.main.left <= s.sys.ring.count
  {
  }

  lemma EndsBurst(s: Bridge)
    requires Good(s) && s.main.Burst? && s.main.left == 0
    ensures MainNext(s, true, true) == s.(main := Top)
  {
    hide Good;
  }

  lemma StartsBurst(s: Bridge)
    requires Good(s) && s.main.Top? && 0 < s.sys.ring.count
    ensures MainNext(s, true, true)
         == s.(main := Burst(if s.sys.ring.count < 15 then s.sys.ring.count else 15), burst := 0)
  {
  }

  /** A burst: with `k` the number of bytes waiting, or 15 if that is less, 2 + 5k steps return to the top of the loop
      with exactly the first `k` bytes waiting sent, and the rest still in the buffer. */
  lemma BurstSends(s: Bridge)
    requires Good(s) && s.main.Top? && 0 < s.sys.ring.count
    ensures |s.sys.delivered| <= |s.sys.written|
    ensures var n := |Queued(s.sys)|;
            var k := if n < 15 then n else 15;
            var t := Steps(s, 2 + 5 * k);
            && 0 < k && t.main.Top? && t.received == s.received && t.sent == s.sent + Queued(s.sys)[..k]
            && |t.sys.delivered| <= |t.sys.written| && Queued(t.sys) == Queued(s.sys)[k..]
  {
    hide Steps, Good, MainNext;
    QueueCounts(s);
    var n := |Queued(s.sys)|;
    var k := if n < 15 then n else 15;
    StartsBurst(s);
    OneStep(s);
    var b := MainNext(s, true, true);
    StepsAdd(s, 1, 5 * k + 1);
    BurstRuns(b);
  }

  /** A refused send ends the burst: nothing is sent, and the byte refused is still the first in the buffer. */
  lemma RefusedByteKept(s: Bridge, ready: bool)
    requires Good(s) && s.main.Burst? && 0 < s.main.left
    ensures var t := MainNext(s, ready, false);
            && t.main.Top? && t.sent == s.sent && t.received == s.received
            && |t.sys.delivered| < |t.sys.written| && Queued(t.sys) == Queued(s.sys)
            && s.sys.ring.outPos < |s.sys.ring.data| && Queued(t.sys)[0] == s.sys.ring.data[s.sys.ring.outPos]
  {
    var size, m := |s.sys.ring.data|, |s.sys.delivered|;
    assert s.sys.ring.data[m % size] == s.sys.written[m];
  }

  /** While the endpoint is busy or there is nothing to send, the loop stays at its top and changes nothing. */
  lemma WaitsForEndpoint(s: Bridge, accepted: bool)
    requires Good(s) && s.main.Top?
    ensures MainNext(s, false, accepted) == s && (s.sys.ring.count == 0 ==> MainNext(s, true, accepted) == s)
  {
    hide Good;
  }

  /** A byte that arrives is added behind those waiting, if the device is configured, and dropped otherwise. */
  lemma ArrivalIsQueued(s: Bridge, b: byte)
    requires Good(s) && HasRoom(s.sys)
    ensures var t := SerialBridge.Next(s, Receive(b, true));
            && t.received == s.received + [b] && t.sent == s.sent && t.main == s.main
            && |s.sys.delivered| <= |s.sys.written| && |t.sys.delivered| <= |t.sys.written|
            && Queued(t.sys) == Queued(s.sys) + [b]
    ensures SerialBridge.Next(s, Receive(b, false)) == s
  {
    QueueCounts(s);
  }

  // ---- Draining ----

  /** How many more stores the removal under way has. */
  function StoresLeft(s: Bridge): nat {
    match s.sys.consumer
    case CIdle => 0
    case CLoad => 4
    case CAdvance(_) => 3
    case CWrap(_) => 2
    case CCount(_) => 1
  }

  lemma RemovalAdvances(s: Bridge)
    requires Good(s) && s.main.Removing?
    ensures var t := MainNext(s, true, true);
            && t.received == s.received
            && (t.main.Burst? || (t.main.Removing? && StoresLeft(t) < StoresLeft(s)))
  {
  }

  lemma {:induction false} FinishesRemoval(s: Bridge) returns (n: nat)
    requires Good(s) && s.main.Removing?
    ensures Steps(s, n).main.Burst? && Steps(s, n).received == s.received
    decreases StoresLeft(s)
  {
    hide Steps, Good, MainNext;
    OneStep(s);
    RemovalAdvances(s);
    var t := MainNext(s, true, true);
    n := 1;
    if t.main.Removing? {
      var m := FinishesRemoval(t);
      StepsAdd(s, 1, m);
      n := 1 + m;
    }
  }

  lemma ReachesTop(s: Bridge) returns (n: nat)
    requires Good(s)
    ensures Steps(s, n).main.Top? && Steps(s, n).received == s.received
  {
    hide Steps, Good, MainNext;
    NoSteps(s);
    n := 0;
    if s.main.Removing? {
      n := FinishesRemoval(s);
    }
    var t := Steps(s, n);
    if t.main.Burst? {
      BurstRuns(t);
      StepsAdd(s, n, 5 * t.main.left + 1);
      n := n + (5 * t.main.left + 1);
    }
  }

  lemma NoSteps(s: Bridge)
    requires Good(s)
    ensures Steps(s, 0) == s
  {
  }

  lemma {:induction false} DrainsFromTop(s: Bridge) returns (n: nat)
    requires Good(s) && s.main.Top?
    ensures Steps(s, n).sent == Steps(s, n).received == s.received
    decreases |s.sys.written| - |s.sys.delivered|
  {
    hide Steps, Good, MainNext;
    QueueCounts(s);
    n := 0;
    NoSteps(s);
    if s.sys.ring.count == 0 {
      AllSent(s);
    } else {
      BurstSends(s);
      var k := 2 + 5 * (if |Queued(s.sys)| < 15 then |Queued(s.sys)| else 15);
      var m := DrainsFromTop(Steps(s, k));
      StepsAdd(s, k, m);
      n := k + m;
    }
  }

  lemma AllSent(s: Bridge)
    requires Good(s) && s.main.Top? && s.sys.ring.count == 0
    ensures s.sent == s.received
  {
  }

  lemma {:induction false} StepsAreEvents(s: Bridge, n: nat)
    requires Good(s)
    ensures NeverOverruns(s, MainSteps(n)) && SerialBridge.After(s, MainSteps(n)) == Steps(s, n)
    decreases n
  {
    hide Good, MainNext;
    if n > 0 {
      MainKeeps(s, true, true);
      assert MainSteps(n)[1..] == MainSteps(n - 1);
      EventKeeps(s, MainSteps(n)[0]);
      StepsAreEvents(MainNext(s, true, true), n - 1);
    }
  }

  lemma {:induction false} AfterAppend(s: Bridge, x: seq<Event>, y: seq<Event>)
    requires Good(s) && NeverOverruns(s, x) && NeverOverruns(SerialBridge.After(s, x), y)
    ensures NeverOverruns(s, x + y) && SerialBridge.After(s, x + y) == SerialBridge.After(SerialBridge.After(s, x), y)
    decreases |x|
  {
    hide Good, SerialBridge.Next;
    if x == [] {
      assert x + y == y;
    } else {
      EventKeeps(s, x[0]);
      assert (x + y)[0] == x[0] && (x + y)[1..] == x[1..] + y;
      AfterAppend(SerialBridge.Next(s, x[0]), x[1..], y);
    }
  }

  /** Nothing received is ever stuck: every run that never overruns can be continued by main-loop steps alone until
      everything received has been sent. */
  lemma EverythingCanBeSent(storage: seq<byte>, es: seq<Event>)
    requires 0 < |storage| && NeverOverruns(PowerUp(storage), es)
    ensures var received := SerialBridge.After(PowerUp(storage), es).received;
            exists n: nat ::
              && NeverOverruns(PowerUp(storage), es + MainSteps(n))
              && SerialBridge.After(PowerUp(storage), es + MainSteps(n)).received == received
              && SerialBridge.After(PowerUp(storage), es + MainSteps(n)).sent == received
  {
    hide Good, SerialBridge.Next, SerialBridge.After, NeverOverruns, Steps, MainSteps;
    var s := SerialBridge.After(PowerUp(storage), es);
    var a := ReachesTop(s);
    var b := DrainsFromTop(Steps(s, a));
    StepsAdd(s, a, b);
    StepsAreEvents(s, a + b);
    AfterAppend(PowerUp(storage), es, MainSteps(a + b));
  }
}
