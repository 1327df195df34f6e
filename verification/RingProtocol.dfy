/** Insert and Remove running at the same time, one in the main program and one in an interrupt: every
    interleaving of their individual stores. */
module RingProtocol {
  import opened Avr
  import opened Modular
  import opened Ring

  /** Where the producer is inside Insert. */
  datatype Producer = PIdle | PStore(b: byte) | PAdvance(b: byte) | PWrap(b: byte) | PCount(b: byte)

  /** Where the consumer is inside Remove; `v` is the byte it has picked up. */
  datatype Consumer = CIdle | CLoad | CAdvance(v: byte) | CWrap(v: byte) | CCount(v: byte)

  /** `written` and `delivered` list the bytes whose Insert and Remove have been counted. */
  datatype Sys = Sys(ring: Buffer, producer: Producer, consumer: Consumer, written: seq<byte>, delivered: seq<byte>)

  /** Offer: the producer tests IsFull and, if there is room, begins to insert. Poll: the consumer tests
      IsEmpty and, if there is data, begins to remove. The ticks run the next store of either side. */
  datatype Step = Offer(b: byte) | ProducerTick | Poll | ConsumerTick

  function Start(storage: seq<byte>): (s: Sys)
    requires 0 < |storage|
    ensures Inv(s)
  {
    Sys(Buffer(storage, 0, 0, 0), PIdle, CIdle, [], [])
  }

  ghost predicate ProducerInv(s: Sys)
    requires 0 < |s.ring.data|
  {
    var size, n := |s.ring.data|, |s.written|;
    match s.producer
    case PIdle => s.ring.inPos == n % size
    case PStore(b) => s.ring.inPos == n % size && n < |s.delivered| + size
    case PAdvance(b) => s.ring.inPos == n % size && n < |s.delivered| + size && s.ring.data[n % size] == b
    case PWrap(b) => s.ring.inPos == n % size + 1 && n < |s.delivered| + size && s.ring.data[n % size] == b
    case PCount(b) => s.ring.inPos == (n + 1) % size && n < |s.delivered| + size && s.ring.data[n % size] == b
  }

  ghost predicate ConsumerInv(s: Sys)
    requires 0 < |s.ring.data|
  {
    var size, m := |s.ring.data|, |s.delivered|;
    match s.consumer
    case CIdle => s.ring.outPos == m % size
    case CLoad => s.ring.outPos == m % size && m < |s.written|
    case CAdvance(v) => s.ring.outPos == m % size && m < |s.written| && v == s.written[m]
    case CWrap(v) => s.ring.outPos == m % size + 1 && m < |s.written| && v == s.written[m]
    case CCount(v) => s.ring.outPos == (m + 1) % size && m < |s.written| && v == s.written[m]
  }

  ghost predicate Inv(s: Sys) {
    && 0 < |s.ring.data|
    && |s.delivered| <= |s.written| <= |s.delivered| + |s.ring.data|
    && s.ring.count == |s.written| - |s.delivered|
    && s.delivered == s.written[..|s.delivered|]
    && Stored(s.ring.data, s.written, |s.delivered|)
    && ProducerInv(s) && ConsumerInv(s)
  }

  function ProducerStep(s: Sys): Sys
    requires Inv(s)
  {
    match s.producer
    case PIdle => s
    case PStore(b) => s.(ring := StoreByte(s.ring, b), producer := PAdvance(b))
    case PAdvance(b) => s.(ring := AdvanceIn(s.ring), producer := PWrap(b))
    case PWrap(b) => s.(ring := WrapIn(s.ring), producer := PCount(b))
    case PCount(b) => s.(ring := CountUp(s.ring), producer := PIdle, written := s.written + [b])
  }

  function ConsumerStep(s: Sys): Sys
    requires Inv(s)
  {
    match s.consumer
    case CIdle => s
    case CLoad => s.(consumer := CAdvance(s.ring.data[s.ring.outPos]))
    case CAdvance(v) => s.(ring := AdvanceOut(s.ring), consumer := CWrap(v))
    case CWrap(v) => s.(ring := WrapOut(s.ring), consumer := CCount(v))
    case CCount(v) => s.(ring := CountDown(s.ring), consumer := CIdle, delivered := s.delivered + [v])
  }

  function Next(s: Sys, step: Step): Sys
    requires Inv(s)
  {
    match step
    case Offer(b) => if s.producer.PIdle? && s.ring.count != |s.ring.data| then s.(producer := PStore(b)) else s
    case ProducerTick => ProducerStep(s)
    case Poll => if s.consumer.CIdle? && s.ring.count != 0 then s.(consumer := CLoad) else s
    case ConsumerTick => ConsumerStep(s)
  }

  lemma ProducerKeeps(s: Sys)
    requires Inv(s)
    ensures Inv(ProducerStep(s))
  {
    var size, n := |s.ring.data|, |s.written|;
    match s.producer
    case PIdle =>
    case PStore(b) => StoreKeepsUnread(s.ring.data, s.written, |s.delivered|, b);
    case PAdvance(b) =>
    case PWrap(b) => ModSuccessor(n, size);
    case PCount(b) =>
      assert forall k: nat :: |s.delivered| <= k < n + 1 ==> s.ring.data[k % size] == (s.written + [b])[k];
  }

  lemma ConsumerKeeps(s: Sys)
    requires Inv(s)
    ensures Inv(ConsumerStep(s))
  {
    hide Inv, ConsumerStep;
    match s.consumer
    case CIdle => IdleKeeps(s);
    case CLoad => LoadKeeps(s);
    case CAdvance(v) => PointerKeeps(s);
    case CWrap(v) => PointerKeeps(s);
    case CCount(v) => CountDownKeeps(s);
  }

  lemma IdleKeeps(s: Sys)
    requires Inv(s) && s.consumer.CIdle?
    ensures Inv(ConsumerStep(s))
  {
    hide Inv;
  }

  lemma LoadKeeps(s: Sys)
    requires Inv(s) && s.consumer.CLoad?
    ensures Inv(ConsumerStep(s))
  {
  }

  lemma PointerKeeps(s: Sys)
    requires Inv(s) && (s.consumer.CAdvance? || s.consumer.CWrap?)
    ensures Inv(ConsumerStep(s))
  {
    hide Stored;
    ModSuccessor(|s.delivered|, |s.ring.data|);
  }

  lemma CountDownKeeps(s: Sys)
    requires Inv(s) && s.consumer.CCount?
    ensures Inv(ConsumerStep(s))
  {
    ModSuccessor(|s.delivered|, |s.ring.data|);
  }

  lemma NextKeeps(s: Sys, step: Step)
    requires Inv(s)
    ensures Inv(Next(s, step)) && |Next(s, step).ring.data| == |s.ring.data|
  {
    hide ProducerStep, ConsumerStep, Inv;
    ProducerKeeps(s);
    ConsumerKeeps(s);
    SameSize(s);
    if step.Offer? {
      OfferKeeps(s, step.b);
    }
    PollKeeps(s);
  }

  lemma SameSize(s: Sys)
    requires Inv(s)
    ensures |ProducerStep(s).ring.data| == |s.ring.data| == |ConsumerStep(s).ring.data|
  {
  }

  lemma OfferKeeps(s: Sys, b: byte)
    requires Inv(s)
    ensures Inv(Next(s, Offer(b)))
  {
  }

  lemma PollKeeps(s: Sys)
    requires Inv(s)
    ensures Inv(Next(s, Poll))
  {
  }

  function After(s: Sys, steps: seq<Step>): (r: Sys)
    requires Inv(s)
    ensures Inv(r) && |r.ring.data| == |s.ring.data|
    decreases |steps|
  {
    if steps == [] then s
    else
      NextKeeps(s, steps[0]);
      After(Next(s, steps[0]), steps[1..])
  }

  /** In every interleaving the consumer receives the inserted bytes in order, the count stays between
      zero and the size, and every byte not yet delivered is still in its slot. */
  lemma EveryInterleaving(storage: seq<byte>, steps: seq<Step>)
    requires 0 < |storage|
    ensures var s := After(Start(storage), steps);
            && s.delivered <= s.written
            && 0 <= s.ring.count <= |storage|
            && s.ring.count == |s.written| - |s.delivered|
            && |s.ring.data| == |storage|
            && Stored(s.ring.data, s.written, |s.delivered|)
  {
    hide After;
    var s := After(Start(storage), steps);
    assert s.delivered == s.written[..|s.delivered|];
  }

  /** What is in the buffer. */
  function Queued(s: Sys): seq<byte>
    requires |s.delivered| <= |s.written|
  {
    s.written[|s.delivered|..]
  }

  /** The increment and decrement of Count are the linearization points: they are the steps at which the
      queue gains its byte or gives up its head, and no other step changes it. */
  lemma Linearizes(s: Sys, step: Step)
    requires Inv(s)
    ensures Inv(Next(s, step))
    ensures var q, q' := Queued(s), Queued(Next(s, step));
            if step.ProducerTick? && s.producer.PCount? then q' == q + [s.producer.b]
            else if step.ConsumerTick? && s.consumer.CCount? then q == [s.consumer.v] + q'
            else q' == q
  {
    NextKeeps(s, step);
  }

  predicate ProducerOnly(steps: seq<Step>) {
    forall i :: 0 <= i < |steps| ==> steps[i].Offer? || steps[i].ProducerTick?
  }

  /** A count the consumer has read is a safe number of removals: the producer never lowers it, and the
      bytes it stands for stay at the front of the queue. */
  lemma {:induction false} CountIsLowerBound(s: Sys, steps: seq<Step>)
    requires Inv(s) && ProducerOnly(steps)
    ensures s.ring.count <= After(s, steps).ring.count
    ensures Queued(s) <= Queued(After(s, steps))
    decreases |steps|
  {
    hide Inv, Next;
    if steps != [] {
      var t := Next(s, steps[0]);
      NextKeeps(s, steps[0]);
      Linearizes(s, steps[0]);
      CountsQueue(s);
      CountsQueue(t);
      CountsQueue(After(t, steps[1..]));
      CountIsLowerBound(t, steps[1..]);
    }
  }

  lemma CountsQueue(s: Sys)
    requires Inv(s)
    ensures |s.delivered| <= |s.written| && s.ring.count == |Queued(s)|
  {
  }

  /** Left alone, the producer's steps are RingBuffer_Insert, and the consumer's are RingBuffer_Remove. */
  lemma StepsAreOperations(s: Sys, b: byte)
    requires Inv(s)
    ensures s.producer.PIdle? && s.ring.count < |s.ring.data| ==>
              && s.ring.inPos < |s.ring.data|
              && After(s, [Offer(b), ProducerTick, ProducerTick, ProducerTick, ProducerTick])
              == s.(ring := InsertWhole(s.ring, b), written := s.written + [b])
    ensures s.consumer.CIdle? && 0 < s.ring.count ==>
              && |s.delivered| < |s.written|
              && After(s, [Poll, ConsumerTick, ConsumerTick, ConsumerTick, ConsumerTick])
              == s.(ring := RemoveWhole(s.ring), delivered := s.delivered + [s.written[|s.delivered|]])
  {
    if s.producer.PIdle? && s.ring.count < |s.ring.data| {
      InsertSteps(s, b);
    }
    if s.consumer.CIdle? && 0 < s.ring.count {
      RemoveSteps(s);
    }
  }

  lemma InsertSteps(s: Sys, b: byte)
    requires Inv(s) && s.producer.PIdle? && s.ring.count < |s.ring.data|
    ensures s.ring.inPos < |s.ring.data|
    ensures After(s, [Offer(b), ProducerTick, ProducerTick, ProducerTick, ProducerTick])
         == s.(ring := InsertWhole(s.ring, b), written := s.written + [b])
  {
    hide Inv, After;
    var t := ProducerTick;
    InsertStarts(s);
    FiveSteps(s, Offer(b), t, t, t, t);
  }

  lemma RemoveSteps(s: Sys)
    requires Inv(s) && s.consumer.CIdle? && 0 < s.ring.count
    ensures |s.delivered| < |s.written|
    ensures After(s, [Poll, ConsumerTick, ConsumerTick, ConsumerTick, ConsumerTick])
         == s.(ring := RemoveWhole(s.ring), delivered := s.delivered + [s.written[|s.delivered|]])
  {
    hide Inv, After;
    var t := ConsumerTick;
    RemoveStarts(s);
    FiveSteps(s, Poll, t, t, t, t);
  }

  lemma InsertStarts(s: Sys)
    requires Inv(s) && s.producer.PIdle?
    ensures s.ring.inPos < |s.ring.data|
  {
  }

  lemma RemoveStarts(s: Sys)
    requires Inv(s) && s.consumer.CIdle? && 0 < s.ring.count
    ensures s.ring.outPos < |s.ring.data| && |s.delivered| < |s.written|
    ensures s.ring.data[s.ring.outPos] == s.written[|s.delivered|]
  {
  }

  lemma FiveSteps(s: Sys, a: Step, b: Step, c: Step, d: Step, e: Step)
    requires Inv(s)
    ensures Inv(Next(s, a))
    ensures var s1 := Next(s, a);
            && Inv(Next(s1, b)) && var s2 := Next(s1, b);
            && Inv(Next(s2, c)) && var s3 := Next(s2, c);
            && Inv(Next(s3, d)) && var s4 := Next(s3, d);
            After(s, [a, b, c, d, e]) == Next(s4, e)
  {
    hide Next, Inv, After;
    FirstStep(s, a, [b, c, d, e]);
    var s1 := Next(s, a);
    FirstStep(s1, b, [c, d, e]);
    var s2 := Next(s1, b);
    FirstStep(s2, c, [d, e]);
    var s3 := Next(s2, c);
    FirstStep(s3, d, [e]);
    var s4 := Next(s3, d);
    FirstStep(s4, e, []);
    NoSteps(Next(s4, e));
    assert [a, b, c, d, e] == [a] + [b, c, d, e] && [b, c, d, e] == [b] + [c, d, e] && [c, d, e] == [c] + [d, e];
    assert [d, e] == [d] + [e] && [e] == [e] + [];
  }

  lemma NoSteps(s: Sys)
    requires Inv(s)
    ensures After(s, []) == s
  {
  }

  lemma FirstStep(s: Sys, step: Step, rest: seq<Step>)
    requires Inv(s)
    ensures Inv(Next(s, step)) && After(s, [step] + rest) == After(Next(s, step), rest)
  {
    NextKeeps(s, step);
    assert ([step] + rest)[1..] == rest;
  }
}
