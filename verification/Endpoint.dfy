/** USB endpoint banks. The OUT side holds the current packet and the packets still to come; the IN
    side holds the bank being filled and the packets already sent. */
module Endpoint {
  import opened Avr

  type Packet = seq<byte>

  function Flatten(packets: seq<Packet>): seq<byte> {
    if packets == [] then [] else packets[0] + Flatten(packets[1..])
  }

  lemma {:induction false} FlattenAppend(a: seq<Packet>, b: seq<Packet>)
    ensures Flatten(a + b) == Flatten(a) + Flatten(b)
  {
    if a == [] {
      assert a + b == b;
    } else {
      assert (a + b)[1..] == a[1..] + b;
      FlattenAppend(a[1..], b);
    }
  }

  // ---- OUT ----

  /** `detached` records that the device waited for a packet the host never sent: the wait loops
      leave only when the device is unattached, and every later wait of the request then leaves too. */
  datatype Out = Out(bank: Packet, queue: seq<Packet>, detached: bool)

  /** Endpoint_ClearOUT and the wait for the next packet. */
  function NextPacket(o: Out): Out {
    if o.queue == [] then Out([], [], true) else Out(o.queue[0], o.queue[1..], o.detached)
  }

  /** Fetches the next packet when the bank is empty. */
  function Ready(o: Out): Out {
    if o.bank == [] then NextPacket(o) else o
  }

  /** Endpoint_Read_8: the byte read; an empty bank reads as zero. */
  function Peek(o: Out): byte {
    if o.bank == [] then 0 else o.bank[0]
  }

  function Pop(o: Out): Out {
    if o.bank == [] then o else o.(bank := o.bank[1..])
  }

  /** All bytes still to be read. */
  function Stream(o: Out): seq<byte> {
    o.bank + Flatten(o.queue)
  }

  predicate NonEmptyPackets(ps: seq<Packet>) {
    forall i :: 0 <= i < |ps| ==> 0 < |ps[i]|
  }

  /** Packets of whole words, but for the last one, which may end inside a word. */
  predicate EvenPackets(ps: seq<Packet>) {
    forall i :: 0 <= i < |ps| ==> 0 < |ps[i]| && (i + 1 < |ps| ==> |ps[i]| % 2 == 0)
  }

  /** No packet boundary still to come falls inside a word. */
  predicate WholeWords(o: Out) {
    !o.detached && (o.queue == [] || |o.bank| % 2 == 0) && EvenPackets(o.queue)
  }

  lemma ReadyKeepsStream(o: Out)
    requires Stream(o) != [] && !o.detached && NonEmptyPackets(o.queue)
    ensures !Ready(o).detached && Ready(o).bank != [] && NonEmptyPackets(Ready(o).queue)
    ensures Stream(Ready(o)) == Stream(o)
  {
    assert o.bank == [] ==> Stream(o) == Flatten(o.queue);
  }

  /** Reading a byte takes it off the front of the stream, whatever the packet boundaries. */
  lemma ReadByte(o: Out)
    requires Stream(o) != [] && !o.detached && NonEmptyPackets(o.queue)
    ensures var r := Ready(o);
            !r.detached && Peek(r) == Stream(o)[0] && Stream(Pop(r)) == Stream(o)[1..]
            && !Pop(r).detached && NonEmptyPackets(Pop(r).queue)
  {
    ReadyKeepsStream(o);
  }

  /** When packets carry whole words, a word read never straddles a packet: both bytes come from the
      bank, and together they are the next two bytes of the stream. */
  lemma ReadWord(o: Out)
    requires WholeWords(o) && 2 <= |Stream(o)|
    ensures var r := Ready(o);
            && !r.detached && 2 <= |r.bank|
            && Peek(r) == Stream(o)[0] && Peek(Pop(r)) == Stream(o)[1]
            && WholeWords(Pop(Pop(r))) && Stream(Pop(Pop(r))) == Stream(o)[2..]
  {
    hide Flatten;
    ReadyWords(o);
    TwoPops(Ready(o));
  }

  lemma ReadyWords(o: Out)
    requires WholeWords(o) && 2 <= |Stream(o)|
    ensures WholeWords(Ready(o)) && 2 <= |Ready(o).bank| && Stream(Ready(o)) == Stream(o)
  {
    ReadyKeepsStream(o);
    var r := Ready(o);
    if r.queue == [] {
      assert Stream(r) == r.bank;
    }
  }

  lemma TwoPops(r: Out)
    requires WholeWords(r) && 2 <= |r.bank|
    ensures Peek(r) == Stream(r)[0] && Peek(Pop(r)) == Stream(r)[1]
    ensures WholeWords(Pop(Pop(r))) && Stream(Pop(Pop(r))) == Stream(r)[2..]
  {
    hide Flatten;
    assert Pop(Pop(r)) == r.(bank := r.bank[2..]);
    assert r.bank[2..] + Flatten(r.queue) == (r.bank + Flatten(r.queue))[2..];
  }

  // ---- Word reads wherever the packet boundaries are ----

  /** The bytes of `k` word reads, each after fetching a packet if the bank is empty. */
  function TakeWords(o: Out, k: nat): (r: seq<byte>)
    ensures |r| == 2 * k
    decreases k
  {
    if k == 0 then [] else [Peek(Ready(o)), Peek(Pop(Ready(o)))] + TakeWords(Pop(Pop(Ready(o))), k - 1)
  }

  /** None of `k` word reads waits for a packet that never comes. */
  predicate HasWords(o: Out, k: nat)
    decreases k
  {
    k == 0 || (!Ready(o).detached && HasWords(Pop(Pop(Ready(o))), k - 1))
  }

  /** From packets of whole words the reads take the stream as it comes. */
  lemma {:induction false} WordsOfStream(o: Out, k: nat)
    requires WholeWords(o) && 2 * k <= |Stream(o)|
    ensures HasWords(o, k) && TakeWords(o, k) == Stream(o)[..2 * k]
    decreases k
  {
    hide Stream, WholeWords, Ready, Pop, Peek;
    if k > 0 {
      ReadWord(o);
      WordsOfStream(Pop(Pop(Ready(o))), k - 1);
      FirstTwo(Stream(o), k);
    }
  }

  lemma FirstTwo(s: seq<byte>, k: nat)
    requires 0 < k && 2 * k <= |s|
    ensures s[..2 * k] == [s[0], s[1]] + s[2..][..2 * (k - 1)]
  {
  }

  // ---- Endpoints that agree on what comes next ----

  function Monus(a: nat, b: nat): nat { if a < b then 0 else a - b }

  function Prefix(s: seq<byte>, k: nat): seq<byte> { if k < |s| then s[..k] else s }

  /** The packets have the same sizes and the same first `k` bytes. */
  predicate SamePackets(a: seq<Packet>, b: seq<Packet>, k: nat)
    decreases |a|
  {
    && |a| == |b|
    && (a == [] ||
        (&& |a[0]| == |b[0]| && Prefix(a[0], k) == Prefix(b[0], k)
         && SamePackets(a[1..], b[1..], Monus(k, |a[0]|))))
  }

  /** Two endpoints that read alike for the next `k` bytes. */
  predicate Agree(a: Out, b: Out, k: nat) {
    && a.detached == b.detached && |a.bank| == |b.bank| && Prefix(a.bank, k) == Prefix(b.bank, k)
    && SamePackets(a.queue, b.queue, Monus(k, |a.bank|))
  }

  lemma ReadyAgrees(a: Out, b: Out, k: nat)
    requires Agree(a, b, k)
    ensures Agree(Ready(a), Ready(b), k)
  {
  }

  lemma NextAgrees(a: Out, b: Out, k: nat)
    requires Agree(a, b, k) && a.bank == []
    ensures Agree(NextPacket(a), NextPacket(b), k)
  {
  }

  /** An empty bank uses up a read without a byte. */
  lemma PopAgrees(a: Out, b: Out, k: nat)
    requires Agree(a, b, k) && 0 < k
    ensures Peek(a) == Peek(b) && Agree(Pop(a), Pop(b), k - 1)
  {
    hide SamePackets;
    if a.bank != [] {
      assert Peek(a) == Prefix(a.bank, k)[0] == Prefix(b.bank, k)[0];
      assert Prefix(a.bank[1..], k - 1) == Prefix(a.bank, k)[1..]
          && Prefix(b.bank[1..], k - 1) == Prefix(b.bank, k)[1..];
    } else {
      FewerAgree(a.queue, b.queue, k);
    }
  }

  lemma {:induction false} FewerAgree(a: seq<Packet>, b: seq<Packet>, k: nat)
    requires SamePackets(a, b, k) && 0 < k
    ensures SamePackets(a, b, k - 1)
    decreases |a|
  {
    if a != [] {
      assert Prefix(a[0], k - 1) == Prefix(Prefix(a[0], k), k - 1)
          && Prefix(b[0], k - 1) == Prefix(Prefix(b[0], k), k - 1);
      if |a[0]| < k {
        FewerAgree(a[1..], b[1..], k - |a[0]|);
      }
    }
  }

  // ---- Cutting a transfer into packets ----

  /** A transfer cut into packets of at most `n` bytes. */
  function Chunks(s: seq<byte>, n: nat): (r: seq<Packet>)
    requires 0 < n
    ensures r != []
    decreases |s|
  {
    if |s| <= n then [s] else [s[..n]] + Chunks(s[n..], n)
  }

  lemma {:induction false} ChunksFlatten(s: seq<byte>, n: nat)
    requires 0 < n
    ensures Flatten(Chunks(s, n)) == s
    decreases |s|
  {
    if |s| <= n {
      assert Flatten([s]) == s + Flatten([]);
    } else {
      ChunksFlatten(s[n..], n);
      assert Chunks(s, n)[1..] == Chunks(s[n..], n);
    }
  }

  lemma {:induction false} ChunksEven(s: seq<byte>, n: nat)
    requires 0 < n && n % 2 == 0 && 0 < |s|
    ensures EvenPackets(Chunks(s, n)) && NonEmptyPackets(Chunks(s, n))
    decreases |s|
  {
    if |s| > n {
      ChunksEven(s[n..], n);
    }
  }

  /** Transfers of the same length are cut alike. */
  lemma {:induction false} ChunksAgree(s: seq<byte>, t: seq<byte>, n: nat, k: nat)
    requires 0 < n && |s| == |t| && k <= |s| && s[..k] == t[..k]
    ensures SamePackets(Chunks(s, n), Chunks(t, n), k)
    decreases |s|
  {
    if |s| > n {
      var m := Monus(k, n);
      assert s[n..][..m] == t[n..][..m] by {
        if n < k { assert s[n..][..m] == s[..k][n..] && t[n..][..m] == t[..k][n..]; }
      }
      ChunksAgree(s[n..], t[n..], n, m);
      assert Prefix(s[..n], k) == Prefix(s[..k], n) && Prefix(t[..n], k) == Prefix(t[..k], n);
      assert Chunks(s, n)[1..] == Chunks(s[n..], n) && Chunks(t, n)[1..] == Chunks(t[n..], n);
    } else {
      assert Chunks(s, n)[1..] == [] && Chunks(t, n)[1..] == [];
    }
  }

  // ---- IN ----

  datatype In = In(bank: Packet, sent: seq<Packet>)

  const NO_IN := In([], [])

  function SendBank(i: In): In {
    In([], i.sent + [i.bank])
  }

  /** Sends the bank first when it already holds `size` bytes, then appends. */
  function Append(i: In, bytes: seq<byte>, size: nat): In {
    var r := if |i.bank| == size then SendBank(i) else i;
    r.(bank := r.bank + bytes)
  }

  /** The bytes handed over so far. */
  function Written(i: In): seq<byte> {
    Flatten(i.sent) + i.bank
  }

  predicate FullPackets(ps: seq<Packet>, size: nat) {
    forall i :: 0 <= i < |ps| ==> |ps[i]| == size
  }

  lemma SendBankWritten(i: In)
    ensures Written(SendBank(i)) == Written(i)
  {
    FlattenAppend(i.sent, [i.bank]);
    assert Flatten([i.bank]) == i.bank + Flatten([]);
  }

  lemma AppendWritten(i: In, bytes: seq<byte>, size: nat)
    ensures Written(Append(i, bytes, size)) == Written(i) + bytes
  {
    SendBankWritten(i);
  }
}
