/** Packets make no difference to the CDC bootloader: the responses' framing is determined by their bytes,
    and commands do the same however they are cut into packets. */
module CdcPackets {
  import opened Avr
  import opened Endpoint
  import opened Pages
  import opened Cdc
  import opened CdcBootloader
  import opened CdcProperties

  // ---- Framing ----

  lemma ShortEndedTail(a: seq<Packet>)
    requires ShortEnded(a) && 1 < |a|
    ensures |a[0]| == TXRX_SIZE && ShortEnded(a[1..])
  {
    var init := a[..|a| - 1];
    assert init[0] == a[0];
    assert a[1..][..|a| - 2] == init[1..];
  }

  lemma {:induction false} PacketCount(a: seq<Packet>)
    requires ShortEnded(a)
    ensures |Flatten(a)| == TXRX_SIZE * (|a| - 1) + |a[|a| - 1]|
    decreases |a|
  {
    assert Flatten(a) == a[0] + Flatten(a[1..]);
    if |a| > 1 {
      ShortEndedTail(a);
      PacketCount(a[1..]);
    } else {
      assert a[1..] == [];
    }
  }

  lemma {:induction false} SameCountSamePackets(a: seq<Packet>, b: seq<Packet>)
    requires ShortEnded(a) && ShortEnded(b) && Flatten(a) == Flatten(b) && |a| == |b|
    ensures a == b
    decreases |a|
  {
    assert Flatten(a) == a[0] + Flatten(a[1..]) && Flatten(b) == b[0] + Flatten(b[1..]);
    if |a| > 1 {
      ShortEndedTail(a);
      ShortEndedTail(b);
      assert a[0] == Flatten(a)[..TXRX_SIZE] == b[0];
      assert Flatten(a[1..]) == Flatten(a)[TXRX_SIZE..] == Flatten(b[1..]);
      SameCountSamePackets(a[1..], b[1..]);
    } else {
      assert a[1..] == [] && b[1..] == [];
      assert Flatten(a) == a[0] && Flatten(b) == b[0];
    }
    assert a == [a[0]] + a[1..] && b == [b[0]] + b[1..];
  }

  /** There is only one way to frame a response: so the packets the host sees are a function of the bytes. */
  lemma FramingIsUnique(a: seq<Packet>, b: seq<Packet>)
    requires ShortEnded(a) && ShortEnded(b) && Flatten(a) == Flatten(b)
    ensures a == b
  {
    PacketCount(a);
    PacketCount(b);
    SameCountSamePackets(a, b);
  }

  // ---- Commands read no further than they say ----

  predicate AgreeUpTo(s: seq<byte>, t: seq<byte>, n: nat) {
    forall i :: 0 <= i < n ==> At(s, i) == At(t, i)
  }

  lemma {:induction false} FillReadsOwnBytes(c: Chip, addr: nat, s: seq<byte>, t: seq<byte>,
        at: nat, high: bool, low: byte, n: nat)
    requires AgreeUpTo(s, t, at + n)
    ensures FillFlashBlock(c, addr, s, at, high, low, n) == FillFlashBlock(c, addr, t, at, high, low, n)
    decreases n
  {
    hide PageFill, Add, At;
    if n > 0 {
      assert At(s, at) == At(t, at);
      if high {
        FillReadsOwnBytes(PageFill(c, addr, low, At(s, at)), Add(addr, 2), s, t, at + 1, false, low, n - 1);
      } else {
        FillReadsOwnBytes(c, addr, s, t, at + 1, true, At(s, at), n - 1);
      }
    }
  }

  lemma {:induction false} EepromReadsOwnBytes(c: Chip, addr: nat, s: seq<byte>, t: seq<byte>, at: nat, n: nat)
    requires AgreeUpTo(s, t, at + n)
    ensures WriteEepromBlock(c, addr, s, at, n) == WriteEepromBlock(c, addr, t, at, n)
    decreases n
  {
    hide WriteEeprom, EepromAddress, Add, At;
    if n > 0 {
      assert At(s, at) == At(t, at);
      EepromReadsOwnBytes(WriteEeprom(c, EepromAddress(addr), At(s, at)), Add(addr, 2), s, t, at + 1, n - 1);
    }
  }

  lemma BlockReadsOwnBytes(d: Device, s: seq<byte>, t: seq<byte>)
    requires AgreeUpTo(s, t, Block(d, s).used)
    ensures Block(d, t) == Block(d, s)
  {
    hide FillFlashBlock, WriteEepromBlock, ReadFlashBlock, ReadEepromBlock, At, PageErase, PageWrite;
    assert Block(d, s).used >= 4;
    assert At(s, 0) == At(t, 0) && At(s, 1) == At(t, 1) && At(s, 2) == At(t, 2) && At(s, 3) == At(t, 3);
    var n := BlockSize(At(s, 1), At(s, 2));
    if Block(d, s).used == 4 + n {
      FillReadsOwnBytes(PageErase(d.chip, d.currAddress), d.currAddress, s, t, 4, false, 0, n);
      EepromReadsOwnBytes(d.chip, d.currAddress, s, t, 4, n);
    }
  }

  /** What a command does depends only on the bytes it takes. */
  lemma ReadsOwnBytes(p: Part, d: Device, s: seq<byte>, t: seq<byte>)
    requires AgreeUpTo(s, t, Exec(p, d, s).used)
    ensures Exec(p, d, s).used > 0 && Exec(p, d, t) == Exec(p, d, s)
  {
    hide Block, At, EraseFrom, PageFill, PageWrite, WriteEeprom, SetAddress, Burn, ReadFlash, ReadEeprom;
    if At(s, 0) == CMD_BLOCK_READ || At(s, 0) == CMD_BLOCK_WRITE {
      BlockTakesFour(d, s);
      assert At(s, 0) == At(t, 0);
      BlockReadsOwnBytes(d, s, t);
    } else {
      assert At(s, 0) == At(t, 0);
      OtherReadsOwnBytes(p, d, s, t);
    }
  }

  lemma BlockTakesFour(d: Device, s: seq<byte>)
    ensures Block(d, s).used >= 4
  {
    hide FillFlashBlock, WriteEepromBlock, ReadFlashBlock, ReadEepromBlock, At;
  }

  lemma OtherReadsOwnBytes(p: Part, d: Device, s: seq<byte>, t: seq<byte>)
    requires At(s, 0) == At(t, 0) && At(s, 0) != CMD_BLOCK_READ && At(s, 0) != CMD_BLOCK_WRITE
    requires AgreeUpTo(s, t, Exec(p, d, s).used)
    ensures Exec(p, d, s).used > 0 && Exec(p, d, t) == Exec(p, d, s)
  {
    hide Block, At, EraseFrom, PageFill, PageWrite, WriteEeprom, SetAddress, Burn, ReadFlash, ReadEeprom;
    var used := Exec(p, d, s).used;
    assert 1 < used ==> At(s, 1) == At(t, 1);
    assert 2 < used ==> At(s, 2) == At(t, 2);
  }

  // ---- One command, however it is cut ----

  /** The endpoint inside a command: the bytes still to come of it are the bank and the packets `h`, and
      other commands' packets follow. */
  predicate Within(o: Out, h: seq<Packet>, rest: seq<Packet>, bytes: seq<byte>) {
    !o.detached && o.queue == h + rest && o.bank + Flatten(h) == bytes
  }

  lemma {:induction false} ReadyWithin(o: Out, h: seq<Packet>, rest: seq<Packet>, bytes: seq<byte>)
    returns (h': seq<Packet>)
    requires Within(o, h, rest, bytes) && bytes != []
    ensures Within(FetchReady(o), h', rest, bytes) && FetchReady(o).bank != []
    decreases |h|
  {
    h' := h;
    if o.bank == [] {
      assert h != [] && o.queue[0] == h[0];
      assert o.queue[1..] == h[1..] + rest;
      h' := ReadyWithin(NextPacket(o), h[1..], rest, bytes);
    }
  }

  lemma {:induction false} FetchedWithin(o: Out, h: seq<Packet>, rest: seq<Packet>, bytes: seq<byte>, n: nat)
    returns (h': seq<Packet>)
    requires Within(o, h, rest, bytes) && n <= |bytes|
    ensures Within(Fetched(o, n), h', rest, bytes[n..])
    decreases n
  {
    h' := h;
    if n > 0 {
      h' := FetchedWithin(o, h, rest, bytes, n - 1);
      h' := ReadyWithin(Fetched(o, n - 1), h', rest, bytes[n - 1..]);
      var r := FetchReady(Fetched(o, n - 1));
      assert (r.bank + Flatten(h'))[1..] == r.bank[1..] + Flatten(h');
      assert bytes[n - 1..][1..] == bytes[n..];
    }
  }

  /** A command's turn: whatever empty packets come before it and however its own bytes are cut, it does
      what the command says, and leaves the next command's packets in place. */
  lemma TurnRunsCommand(p: Part, d: Device, e: seq<Packet>, g: seq<Packet>, rest: seq<Packet>, c: seq<byte>)
    returns (e': seq<Packet>)
    requires Flatten(e) == [] && Flatten(g) == c && Exec(p, d, c).used == |c|
    ensures e + g + rest != []
    ensures Flatten(e') == []
    ensures Turn(p, d, Out([], e + g + rest, false))
         == (Exec(p, d, c).device, Out([], e' + rest, false), Exec(p, d, c).response)
  {
    hide Exec, Fetched;
    ReadsOwnBytes(p, d, c, c);
    FlattenAppend(e, g);
    FlattenAppend(e + g, rest);
    var h := e + g;
    var queue := h + rest;
    assert h != [] by { assert Flatten(h) == c; }
    var begun := NextPacket(Out([], queue, false));
    assert queue[1..] == h[1..] + rest && queue[0] == h[0];
    assert Within(begun, h[1..], rest, c);
    assert Stream(begun) == c + Flatten(rest);
    assert AgreeUpTo(c, Stream(begun), |c|);
    ReadsOwnBytes(p, d, c, Stream(begun));
    e' := FetchedWithin(begun, h[1..], rest, c, |c|);
  }

  // ---- Sessions ----

  /** All packets of a session: the packets of each command in turn. */
  function Joined(gs: seq<seq<Packet>>): seq<Packet> {
    if gs == [] then [] else gs[0] + Joined(gs[1..])
  }

  /** Each command is whole when its turn comes: it takes exactly its own bytes. */
  predicate Whole(p: Part, d: Device, cs: seq<seq<byte>>)
    decreases |cs|
  {
    cs == [] || (Exec(p, d, cs[0]).used == |cs[0]| && Whole(p, Exec(p, d, cs[0]).device, cs[1..]))
  }

  /** `gs` cuts each command into packets, with no packet shared between two commands. */
  predicate Cuts(gs: seq<seq<Packet>>, cs: seq<seq<byte>>) {
    |gs| == |cs| && forall i :: 0 <= i < |gs| ==> Flatten(gs[i]) == cs[i]
  }

  lemma {:induction false} PacketsMakeNoDifference(p: Part, d: Device, cs: seq<seq<byte>>,
        gs: seq<seq<Packet>>, e: seq<Packet>)
    requires Cuts(gs, cs) && Whole(p, d, cs) && Flatten(e) == []
    ensures RunTurns(p, d, Out([], e + Joined(gs), false), |cs|) == RunCommands(p, d, cs)
    decreases |cs|
  {
    hide Exec, Turn, Flatten;
    if cs != [] && d.runBootloader {
      var c, g, rest := cs[0], gs[0], Joined(gs[1..]);
      var e' := TurnRunsCommand(p, d, e, g, rest, c);
      assert e + g + rest == e + Joined(gs);
      PacketsMakeNoDifference(p, Exec(p, d, c).device, cs[1..], gs[1..], e');
    }
  }

  /** Packet-split independence: after any sequence of whole commands, memory, address and responses are the
      same for every way of cutting each command's bytes into packets, empty ones included. */
  lemma SplitIndependence(p: Part, d: Device, cs: seq<seq<byte>>, gs: seq<seq<Packet>>, hs: seq<seq<Packet>>)
    requires Cuts(gs, cs) && Cuts(hs, cs) && Whole(p, d, cs)
    ensures RunTurns(p, d, Out([], Joined(gs), false), |cs|) == RunTurns(p, d, Out([], Joined(hs), false), |cs|)
  {
    PacketsMakeNoDifference(p, d, cs, gs, []);
    PacketsMakeNoDifference(p, d, cs, hs, []);
    assert [] + Joined(gs) == Joined(gs) && [] + Joined(hs) == Joined(hs);
  }
}
