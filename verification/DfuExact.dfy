/** Which DFU downloads put every payload where the host asked, as the host cuts them: the exact condition
    for flash and for EEPROM, and requests that miss. */
module DfuExact {
  import opened Avr
  import opened Endpoint
  import opened PageTurn
  import opened Dfu
  import opened DfuAlignment
  import opened DfuDownload
  import opened DfuRoundTrip

  // ---- The requests a host sends ----

  /** What surrounds the payload: 26 filler bytes after the command, filler up to the start address's place
      in its packet, and whatever follows, such as the DFU suffix. */
  datatype Framing = Framing(wLength: word, head: seq<byte>, align: seq<byte>, tail: seq<byte>)
  {
    predicate Suits(start: word) {
      wLength > 6 && |head| == FILLER_BYTES && |align| == start % ENDPOINT_SIZE
    }
  }

  /** The payload's place in memory can be named by 16-bit addresses. */
  predicate Nameable(start: word, n: nat) {
    0 < n && start + n <= 0x1_0000
  }

  /** The download of a payload: the command and filler in the first packet, the rest cut into 32-byte packets. */
  function DownloadRequest(memory: byte, start: word, f: Framing, payload: seq<byte>): Request
    requires Nameable(start, |payload|)
  {
    Class(REQ_DNLOAD, f.wLength,
          [CommandBytes(COMMAND_PROG_START, memory, start, start + |payload| - 1) + f.head]
          + Chunks(f.align + payload + f.tail, ENDPOINT_SIZE))
  }

  lemma RequestIsDownload(memory: byte, start: word, f: Framing, payload: seq<byte>)
    requires Nameable(start, |payload|) && f.Suits(start)
    ensures var r := DownloadRequest(memory, start, f, payload);
            && IsDownload(r, memory, start, |payload|)
            && r.packets[1..] == Chunks(f.align + payload + f.tail, ENDPOINT_SIZE)
            && r.packets[0][6..] == f.head
  {
    hide Chunks;
  }

  /** Without alignment filler the packets carry the payload's words, then the rest. */
  lemma RequestCarriesPayload(memory: byte, start: word, f: Framing, payload: seq<byte>)
    requires Nameable(start, |payload|) && f.Suits(start) && start % ENDPOINT_SIZE == 0
    ensures var r := DownloadRequest(memory, start, f, payload);
            EvenPackets(r.packets[1..]) && NonEmptyPackets(r.packets[1..]) && payload <= Flatten(r.packets[1..])
  {
    hide Chunks, Flatten;
    RequestIsDownload(memory, start, f, payload);
    var s := f.align + payload + f.tail;
    ChunksEven(s, ENDPOINT_SIZE);
    ChunksFlatten(s, ENDPOINT_SIZE);
    assert s[..|payload|] == payload;
  }

  // ---- Bytes that are never read ----

  lemma {:induction false} LoopReadsOwnBytes(j: FlashJob, o: Out)
    requires Agree(j.out, o, 2 * j.left)
    ensures ProgramWords(j.(out := o)).chip == ProgramWords(j).chip
        && ProgramWords(j.(out := o)).left == ProgramWords(j).left
    decreases j.left
  {
    hide Ready, Peek, Pop, PageFill, PageWrite, PageErase, Agree;
    if j.left > 0 {
      var k := 2 * j.left;
      var a, b := Ready(j.out), Ready(o);
      ReadyAgrees(j.out, o, k);
      assert a.detached == b.detached by { SameAttachment(a, b, k); }
      PopAgrees(a, b, k);
      PopAgrees(Pop(a), Pop(b), k - 1);
      if !a.detached {
        var x, y := ProgramWord(j.(out := a)), ProgramWord(j.(out := b));
        assert y == x.(out := Pop(Pop(b)));
        LoopReadsOwnBytes(x, Pop(Pop(b)));
      }
    }
  }

  lemma SameAttachment(a: Out, b: Out, k: nat)
    requires Agree(a, b, k)
    ensures a.detached == b.detached
  {
  }

  lemma {:induction false} BytesReadOwnBytes(j: EepromJob, o: Out)
    requires Agree(j.out, o, j.left)
    ensures ProgramBytes(j.(out := o)).chip == ProgramBytes(j).chip
    decreases j.left
  {
    hide Ready, Peek, Pop, WriteEeprom, Agree, Plus;
    if j.left > 0 {
      var a, b := Ready(j.out), Ready(o);
      ReadyAgrees(j.out, o, j.left);
      assert a.detached == b.detached by { SameAttachment(a, b, j.left); }
      PopAgrees(a, b, j.left);
      if !a.detached {
        BytesReadOwnBytes(ProgramByte(j.(out := a)), Pop(b));
      }
    }
  }

  lemma {:induction false} DiscardAgrees(a: Out, b: Out, n: nat, k: nat)
    requires Agree(a, b, k) && n <= k
    ensures Agree(Discard(a, n), Discard(b, n), k - n)
    decreases n
  {
    hide SamePackets, Prefix;
    if n > 0 {
      PopAgrees(a, b, k);
      if a.bank != [] {
        DiscardAgrees(Pop(a), Pop(b), n - 1, k - 1);
      } else {
        assert Agree(NextPacket(a), NextPacket(b), k - 1) by { NextAgrees(Pop(a), Pop(b), k - 1); }
        if !NextPacket(a).detached {
          DiscardAgrees(NextPacket(a), NextPacket(b), n - 1, k - 1);
        } else {
          LessAgrees(NextPacket(a), NextPacket(b), k - 1, k - n);
        }
      }
    }
  }

  lemma {:induction false} LessAgrees(a: Out, b: Out, k: nat, m: nat)
    requires Agree(a, b, k) && m <= k
    ensures Agree(a, b, m)
    decreases k
  {
    hide SamePackets;
    if m < k {
      assert Prefix(a.bank, k - 1) == Prefix(Prefix(a.bank, k), k - 1)
          && Prefix(b.bank, k - 1) == Prefix(Prefix(b.bank, k), k - 1);
      if |a.bank| < k {
        FewerAgree(a.queue, b.queue, k - |a.bank|);
      }
      LessAgrees(a, b, k - 1, m);
    }
  }

  /** The step to the packet after the command uses up one count of the alignment filler, so the endpoint stands
      one byte early. */
  lemma FillerStep(a: Out, b: Out, n: nat, k: nat)
    requires Agree(a, b, k) && a.bank == [] && a.queue != [] && !a.detached && 0 < n <= k + 1
    ensures Agree(Discard(a, n), Discard(b, n), k + 1 - n)
  {
    hide SamePackets, Prefix;
    NextAgrees(a, b, k);
    SameCount(a.queue, b.queue, k);
    DiscardAgrees(NextPacket(a), NextPacket(b), n - 1, k);
  }

  lemma SameCount(a: seq<Packet>, b: seq<Packet>, k: nat)
    requires SamePackets(a, b, k)
    ensures |a| == |b|
  {
  }

  /** Two payloads that differ in their last byte alone. */
  predicate LastDiffers(x: seq<byte>, y: seq<byte>) {
    0 < |x| == |y| && x[..|x| - 1] == y[..|y| - 1]
  }

  /** With alignment filler, the endpoint stands one byte early when the memory contents begin: so the last
      payload byte is out of reach of a read of the payload's length. In any case it is out of reach of a shorter
      read. */
  lemma LastByteOutOfReach(memory: byte, start: word, f: Framing, x: seq<byte>, y: seq<byte>, taken: nat)
    requires Nameable(start, |x|) && f.Suits(start) && LastDiffers(x, y)
    requires taken < |x| || (start % ENDPOINT_SIZE != 0 && taken == |x|)
    ensures Agree(Contents(DownloadRequest(memory, start, f, x), start),
                  Contents(DownloadRequest(memory, start, f, y), start), taken)
  {
    hide Agree, SamePackets, Chunks, Discard, DownloadRequest;
    RequestIsDownload(memory, start, f, x);
    RequestIsDownload(memory, start, f, y);
    var n := start % ENDPOINT_SIZE;
    var k := n + |x| - 1;
    var s, t := f.align + x + f.tail, f.align + y + f.tail;
    assert s[..k] == f.align + x[..|x| - 1] && t[..k] == f.align + y[..|y| - 1];
    ChunksAgree(s, t, ENDPOINT_SIZE, k);
    var a, b := Out([], Chunks(s, ENDPOINT_SIZE), false), Out([], Chunks(t, ENDPOINT_SIZE), false);
    assert Agree(a, b, k) by { EmptyBanks(a, b, k); }
    if taken < |x| {
      DiscardAgrees(a, b, n, k);
      LessAgrees(Discard(a, n), Discard(b, n), |x| - 1, taken);
    } else {
      FillerStep(a, b, n, k);
    }
  }

  lemma EmptyBanks(a: Out, b: Out, k: nat)
    requires a.bank == [] == b.bank && a.detached == b.detached && SamePackets(a.queue, b.queue, k)
    ensures Agree(a, b, k)
  {
    hide SamePackets;
  }

  /** The firmware handler looks at the endpoint only through the contents. */
  lemma FirmwareReadsOwnBytes(d: Device, a: Out, b: Out)
    requires var k := if d.data[0] == 0 then 2 * (RangeLength(d) / 2) else RangeLength(d);
             Agree(Discard(Discard(a, FILLER_BYTES), d.startAddr % ENDPOINT_SIZE),
                   Discard(Discard(b, FILLER_BYTES), d.startAddr % ENDPOINT_SIZE), k)
    ensures ReceiveFirmware(d, a).0.chip == ReceiveFirmware(d, b).0.chip
  {
    hide Agree, Discard, ProgramWords, ProgramBytes;
    var o := Discard(Discard(a, FILLER_BYTES), d.startAddr % ENDPOINT_SIZE);
    var o' := Discard(Discard(b, FILLER_BYTES), d.startAddr % ENDPOINT_SIZE);
    if d.data[0] == 0 {
      LoopReadsOwnBytes(FlashJob(d.chip, o, FlashAddress(d), FlashAddress(d), 0, RangeLength(d) / 2), o');
    } else {
      BytesReadOwnBytes(EepromJob(d.chip, o, d.startAddr, RangeLength(d)), o');
    }
  }

  /** What the handler reads of a download: the counted whole words for flash, every counted byte for EEPROM. */
  function Taken(memory: byte, n: nat): nat {
    if memory == 0 then 2 * (Counted(n) / 2) else Counted(n)
  }

  /** The handler does not get as far as the last byte of the payload: there is alignment filler, the length of a
      flash download is odd, or the range is the one whose length does not fit the 16-bit count. */
  predicate StopsShort(memory: byte, start: word, n: nat) {
    start % ENDPOINT_SIZE != 0 || (memory == 0 && n % 2 != 0) || n == 0x1_0000
  }

  /** The last byte of such a payload never reaches the memory of the device. */
  lemma LastByteIgnored(p: Part, d: Device, memory: byte, start: word, f: Framing, x: seq<byte>, y: seq<byte>)
    requires p.Fits(d.chip) && !d.isSecure && !d.waitForExit && (memory == 0 || memory == 1)
    requires Nameable(start, |x|) && f.Suits(start) && LastDiffers(x, y)
    requires StopsShort(memory, start, |x|)
    ensures Handle(p, d, DownloadRequest(memory, start, f, x)).0.chip
         == Handle(p, d, DownloadRequest(memory, start, f, y)).0.chip
  {
    hide Handle, ReceiveFirmware, PageErase, Agree, Discard, DownloadRequest, DecrementedBy;
    var rx, ry := DownloadRequest(memory, start, f, x), DownloadRequest(memory, start, f, y);
    RequestIsDownload(memory, start, f, x);
    RequestIsDownload(memory, start, f, y);
    SameHeader(memory, start, f, x, y);
    ReachesContents(rx, start);
    ReachesContents(ry, start);
    OutOfReach(memory, start, f, x, y);
    var ax, ay := Out(f.head, rx.packets[1..], false), Out(f.head, ry.packets[1..], false);
    var e := Ranged(d, rx, start, |x|);
    assert e == Ranged(d, ry, start, |y|);
    assert e.data[0] == memory by { HeaderParts(rx, memory, start, |x|); }
    RangeIsCounted(e, |x|);
    if memory == 0 {
      BeginsFlash(p, d, rx, start, |x|);
      BeginsFlash(p, d, ry, start, |y|);
      FirmwareReadsOwnBytes(e.(chip := PageErase(d.chip, Base(d, start))), ax, ay);
    } else {
      BeginsEeprom(p, d, rx, start, |x|);
      BeginsEeprom(p, d, ry, start, |y|);
      FirmwareReadsOwnBytes(e, ax, ay);
    }
  }

  lemma OutOfReach(memory: byte, start: word, f: Framing, x: seq<byte>, y: seq<byte>)
    requires Nameable(start, |x|) && f.Suits(start) && LastDiffers(x, y)
    requires StopsShort(memory, start, |x|)
    ensures Agree(Contents(DownloadRequest(memory, start, f, x), start),
                  Contents(DownloadRequest(memory, start, f, y), start), Taken(memory, |x|))
  {
    hide Agree, DownloadRequest, Contents, LastDiffers;
    LastByteOutOfReach(memory, start, f, x, y, Taken(memory, |x|));
  }

  lemma SameHeader(memory: byte, start: word, f: Framing, x: seq<byte>, y: seq<byte>)
    requires Nameable(start, |x|) && |x| == |y|
    ensures DownloadRequest(memory, start, f, x).packets[0] == DownloadRequest(memory, start, f, y).packets[0]
    ensures DownloadRequest(memory, start, f, x).wLength == DownloadRequest(memory, start, f, y).wLength
  {
    hide Chunks;
  }

  lemma HeaderParts(r: Request, memory: byte, start: word, n: nat)
    requires IsDownload(r, memory, start, n)
    ensures r.packets[0][1..6][0] == memory
  {
    assert r.packets[0][1..6][0] == r.packets[0][..6][1];
  }

  // ---- When every payload lands ----

  /** After its download the payload is in flash at the address asked for. */
  predicate FlashLands(p: Part, d: Device, start: word, f: Framing, payload: seq<byte>)
    requires p.Fits(d.chip) && Nameable(start, |payload|) && Base(d, start) + |payload| <= |d.chip.flash|
  {
    var base := Base(d, start);
    Handle(p, d, DownloadRequest(0, start, f, payload)).0.chip.flash[base..base + |payload|] == payload
  }

  /** After its download the payload is in EEPROM at the address asked for. */
  predicate EepromLands(p: Part, d: Device, start: word, f: Framing, payload: seq<byte>)
    requires p.Fits(d.chip) && Nameable(start, |payload|) && start + |payload| <= |d.chip.eeprom|
  {
    var r := Handle(p, d, DownloadRequest(1, start, f, payload)).0.chip.eeprom;
    start + |payload| <= |r| && r[start..start + |payload|] == payload
  }

  /** The payload of `n` bytes that ends in `last`. */
  function Ending(n: nat, last: byte): (r: seq<byte>)
    requires 0 < n
    ensures |r| == n && r[n - 1] == last
  {
    seq<byte>(n - 1, _ => 0) + [last]
  }

  lemma EndingsDiffer(n: nat)
    requires 0 < n
    ensures LastDiffers(Ending(n, 0), Ending(n, 1)) && Ending(n, 0) != Ending(n, 1)
  {
    var zeros := seq<byte>(n - 1, _ => 0);
    assert Ending(n, 0)[..n - 1] == zeros == Ending(n, 1)[..n - 1];
    assert Ending(n, 0)[n - 1] != Ending(n, 1)[n - 1];
  }

  lemma EvenBase(d: Device, start: word)
    requires start % 2 == 0
    ensures Base(d, start) % 2 == 0
  {
  }

  /** Without alignment filler a payload of whole words lands exactly when its words do. */
  lemma PayloadLandsAsWords(p: Part, d: Device, start: word, f: Framing, payload: seq<byte>)
    requires p.Fits(d.chip) && Nameable(start, |payload|) && f.Suits(start) && Accepts(d, start, |payload|)
    requires !StopsShort(0, start, |payload|)
    ensures FlashLands(p, d, start, f, payload) <==> WordsLand(d.chip, Base(d, start), payload)
  {
    hide Handle, FlashAfter, DownloadRequest, Flatten, EvenPackets;
    RequestIsDownload(0, start, f, payload);
    RequestCarriesPayload(0, start, f, payload);
    WholeWordDownload(p, d, DownloadRequest(0, start, f, payload), start, payload);
  }

  lemma WholeWordsExactIff(p: Part, d: Device, start: word, f: Framing, n: nat)
    requires p.Fits(d.chip) && Nameable(start, n) && f.Suits(start) && Accepts(d, start, n)
    requires !StopsShort(0, start, n)
    ensures (forall payload: seq<byte> :: |payload| == n ==> FlashLands(p, d, start, f, payload))
       <==> WellPlaced(d.chip, Base(d, start), n)
  {
    hide FlashLands, WordsLand, WellPlaced;
    EvenBase(d, start);
    FlashAfterExact(d.chip, Base(d, start), n);
    forall payload: seq<byte> | |payload| == n
      ensures FlashLands(p, d, start, f, payload) <==> WordsLand(d.chip, Base(d, start), payload)
    {
      PayloadLandsAsWords(p, d, start, f, payload);
    }
  }

  /** Of two payloads that differ in an ignored last byte, one misses. */
  lemma OneMisses(p: Part, d: Device, start: word, f: Framing, n: nat)
    requires p.Fits(d.chip) && Nameable(start, n) && f.Suits(start) && Accepts(d, start, n)
    requires StopsShort(0, start, n)
    ensures !FlashLands(p, d, start, f, Ending(n, 0)) || !FlashLands(p, d, start, f, Ending(n, 1))
  {
    hide Handle, DownloadRequest;
    EndingsDiffer(n);
    LastByteIgnored(p, d, 0, start, f, Ending(n, 0), Ending(n, 1));
  }

  /** A flash download of `n` bytes puts every payload where the host asked exactly when it starts at a
      multiple of the packet size, has an even length below 64K, and either starts on a page boundary or stays
      inside one page. */
  lemma FlashDownloadExactIff(p: Part, d: Device, start: word, f: Framing, n: nat)
    requires p.Fits(d.chip) && Nameable(start, n) && f.Suits(start) && Accepts(d, start, n)
    ensures (forall payload: seq<byte> :: |payload| == n ==> FlashLands(p, d, start, f, payload))
       <==> start % ENDPOINT_SIZE == 0 && n % 2 == 0 && n < 0x1_0000 && WellPlaced(d.chip, Base(d, start), n)
  {
    hide FlashLands, WellPlaced, Ending;
    if !StopsShort(0, start, n) {
      WholeWordsExactIff(p, d, start, f, n);
    } else {
      OneMisses(p, d, start, f, n);
    }
  }

  /** An EEPROM download puts every payload where the host asked exactly when it starts at a multiple of the
      packet size and is shorter than 64K. */
  lemma EepromDownloadExactIff(p: Part, d: Device, start: word, f: Framing, n: nat)
    requires p.Fits(d.chip) && Nameable(start, n) && f.Suits(start) && !d.isSecure && !d.waitForExit
    requires start + n <= |d.chip.eeprom|
    ensures (forall payload: seq<byte> :: |payload| == n ==> EepromLands(p, d, start, f, payload))
       <==> start % ENDPOINT_SIZE == 0 && n < 0x1_0000
  {
    hide Handle, DownloadRequest;
    if start % ENDPOINT_SIZE == 0 && n < 0x1_0000 {
      forall payload: seq<byte> | |payload| == n
        ensures EepromLands(p, d, start, f, payload)
      {
        EepromPayloadLands(p, d, start, f, payload);
      }
    } else {
      EndingsDiffer(n);
      LastByteIgnored(p, d, 1, start, f, Ending(n, 0), Ending(n, 1));
      assert !EepromLands(p, d, start, f, Ending(n, 0)) || !EepromLands(p, d, start, f, Ending(n, 1));
    }
  }

  lemma EepromPayloadLands(p: Part, d: Device, start: word, f: Framing, payload: seq<byte>)
    requires p.Fits(d.chip) && Nameable(start, |payload|) && f.Suits(start) && !d.isSecure && !d.waitForExit
    requires start + |payload| <= |d.chip.eeprom| && start % ENDPOINT_SIZE == 0 && |payload| < 0x1_0000
    ensures EepromLands(p, d, start, f, payload)
  {
    hide Handle, DownloadRequest, Flatten, NonEmptyPackets;
    RequestIsDownload(1, start, f, payload);
    RequestCarriesPayload(1, start, f, payload);
    EepromDownloadExact(p, d, DownloadRequest(1, start, f, payload), start, payload);
  }

  // ---- Downloads that miss ----

  /** Where the memory contents begin when there is alignment filler: its last byte has not been dropped. */
  lemma FillerRemains(memory: byte, start: word, f: Framing, payload: seq<byte>)
    requires Nameable(start, |payload|) && f.Suits(start) && start % ENDPOINT_SIZE != 0
    ensures var o := Contents(DownloadRequest(memory, start, f, payload), start);
            && !o.detached && 2 <= |o.bank|
            && Stream(o) == [f.align[|f.align| - 1]] + payload + f.tail
  {
    hide Discard, Chunks, Flatten, DownloadRequest;
    RequestIsDownload(memory, start, f, payload);
    var s, n := f.align + payload + f.tail, start % ENDPOINT_SIZE;
    var packets := Chunks(s, ENDPOINT_SIZE);
    FirstChunk(s, ENDPOINT_SIZE);
    var o := Out([], packets, false);
    var next := NextPacket(o);
    assert Discard(o, n) == Discard(next, n - 1) by { DiscardSteps(o, n); }
    DiscardWithinBank(next, n - 1);
    ChunksFlatten(s, ENDPOINT_SIZE);
    assert Stream(next) == s by { StreamOfNext(packets); }
    assert Stream(next.(bank := next.bank[n - 1..])) == s[n - 1..];
    assert s[n - 1..] == [f.align[n - 1]] + payload + f.tail;
  }

  lemma StreamOfNext(packets: seq<Packet>)
    requires packets != []
    ensures Stream(NextPacket(Out([], packets, false))) == Flatten(packets)
  {
  }

  lemma FirstChunk(s: seq<byte>, n: nat)
    requires 0 < n
    ensures Chunks(s, n)[0] == Prefix(s, n)
  {
  }

  lemma DiscardSteps(o: Out, n: nat)
    requires o.bank == [] && o.queue != [] && !o.detached && 0 < n
    ensures Discard(o, n) == Discard(NextPacket(o), n - 1)
  {
  }

  /** A word downloaded to an even address inside a packet: the last filler byte is programmed as its low byte,
      and its own low byte as the high one. */
  lemma FillerIsProgrammed(p: Part, d: Device, start: word, f: Framing, lo: byte, hi: byte)
    requires p.Fits(d.chip) && Nameable(start, 2) && f.Suits(start) && Accepts(d, start, 2)
    requires start % 2 == 0 && start % ENDPOINT_SIZE != 0
    ensures var base := Base(d, start);
            Handle(p, d, DownloadRequest(0, start, f, [lo, hi])).0.chip.flash[base..base + 2]
            == [f.align[|f.align| - 1], lo]
  {
    hide Handle, FlashAfter, DownloadRequest, Contents, Stream, WellPlaced;
    var r := DownloadRequest(0, start, f, [lo, hi]);
    RequestIsDownload(0, start, f, [lo, hi]);
    FillerRemains(0, start, f, [lo, hi]);
    var o := Contents(r, start);
    OneWord(o);
    FlashDownload(p, d, r, start, 2);
    EvenBase(d, start);
    EvenWordFits(Base(d, start), |d.chip.buffer|);
    assert WellPlaced(d.chip, Base(d, start), 2) by { WordIsPlaced(d.chip, Base(d, start)); }
    FlashAfterExact(d.chip, Base(d, start), 2);
    assert WordsLand(d.chip, Base(d, start), TakeWords(o, 1));
  }

  /** A packet that ends inside a word: the high byte is read from the empty bank, as zero. */
  lemma SplitWordPads(p: Part, d: Device, r: Request, start: word, b: byte)
    requires p.Fits(d.chip) && IsDownload(r, 0, start, 2) && Accepts(d, start, 2) && start % 32 == 0
    requires 2 <= |r.packets| && r.packets[1] == [b]
    ensures var base := Base(d, start); Handle(p, d, r).0.chip.flash[base..base + 2] == [b, 0]
  {
    hide Handle, FlashAfter, Discard, Stream, WellPlaced;
    var o := Out([], r.packets[1..], false);
    assert Contents(r, start) == o by { DiscardWithinBank(o, 0); }
    HalfWord(o, b);
    FlashDownload(p, d, r, start, 2);
    EvenBase(d, start);
    EvenWordFits(Base(d, start), |d.chip.buffer|);
    assert WellPlaced(d.chip, Base(d, start), 2) by { WordIsPlaced(d.chip, Base(d, start)); }
    FlashAfterExact(d.chip, Base(d, start), 2);
    assert WordsLand(d.chip, Base(d, start), TakeWords(o, 1));
  }

  lemma HalfWord(o: Out, b: byte)
    requires !o.detached && o.bank == [] && o.queue != [] && o.queue[0] == [b]
    ensures HasWords(o, 1) && TakeWords(o, 1) == [b, 0]
  {
    var r := Ready(o);
    assert Pop(r).bank == [];
    assert TakeWords(Pop(Pop(r)), 0) == [] && HasWords(Pop(Pop(r)), 0);
  }

  lemma OneWord(o: Out)
    requires !o.detached && 2 <= |o.bank|
    ensures HasWords(o, 1) && TakeWords(o, 1) == [Stream(o)[0], Stream(o)[1]]
  {
    assert TakeWords(Pop(Pop(o)), 0) == [] && HasWords(Pop(Pop(o)), 0);
  }

  lemma EvenWordFits(base: nat, page: nat)
    requires (page == 128 || page == 256) && base % 2 == 0
    ensures base % page + 2 <= page
  {
    EvenOffset(base, page);
  }

  lemma WordIsPlaced(c: Chip, base: nat)
    requires base % |c.buffer| + 2 <= |c.buffer|
    ensures WellPlaced(c, base, 2)
  {
  }

  /** A download that counts for no whole word programs nothing: the page of its start address is erased, and
      all else is as it was. */
  lemma NothingProgrammed(p: Part, d: Device, start: word, f: Framing, payload: seq<byte>)
    requires p.Fits(d.chip) && Nameable(start, |payload|) && f.Suits(start) && Accepts(d, start, |payload|)
    requires Counted(|payload|) < 2
    ensures var (e, response) := Handle(p, d, DownloadRequest(0, start, f, payload));
            e.chip == ChipAfter(d.chip, Base(d, start), []) && response.finished
  {
    hide Handle, DownloadRequest, Contents, Counted, FlashAfter;
    var r := DownloadRequest(0, start, f, payload);
    RequestIsDownload(0, start, f, payload);
    var o := Contents(r, start);
    assert HasWords(o, 0) && TakeWords(o, 0) == [];
    FlashDownload(p, d, r, start, |payload|);
  }

  lemma OnlyErased(c: Chip, base: nat)
    requires base < |c.flash|
    ensures var r, from := FlashAfter(c, base, []), base - base % |c.buffer|;
            && r[base] == BLANK
            && forall i :: 0 <= i < |c.flash| && !(from <= i < from + |c.buffer|) ==> r[i] == c.flash[i]
  {
    PageOf(base, |c.flash|, |c.buffer|);
  }

  /** A single byte is never programmed: there is no whole word to write. */
  lemma SingleByteIsLost(p: Part, d: Device, start: word, f: Framing, b: byte)
    requires p.Fits(d.chip) && Nameable(start, 1) && f.Suits(start) && Accepts(d, start, 1)
    ensures Handle(p, d, DownloadRequest(0, start, f, [b])).0.chip.flash[Base(d, start)] == BLANK
  {
    hide Handle, DownloadRequest, FlashAfter;
    NothingProgrammed(p, d, start, f, [b]);
    OnlyErased(d.chip, Base(d, start));
  }

  /** Nor is any of the 65536 bytes of a range from 0 to 0xFFFF, whose length wraps to zero: the first page comes
      out blank, and no other byte changes. */
  lemma FullRangeIsLost(p: Part, d: Device, f: Framing, payload: seq<byte>)
    requires p.Fits(d.chip) && |payload| == 0x1_0000 && f.Suits(0) && Accepts(d, 0, |payload|)
    ensures var (e, response) := Handle(p, d, DownloadRequest(0, 0, f, payload));
            var base := Base(d, 0);
            && response.finished && e.chip.flash[base] == BLANK
            && forall i :: 0 <= i < |d.chip.flash| && !(base <= i < base + |d.chip.buffer|)
                 ==> e.chip.flash[i] == d.chip.flash[i]
  {
    hide Handle, DownloadRequest, FlashAfter;
    NothingProgrammed(p, d, 0, f, payload);
    OnlyErased(d.chip, Base(d, 0));
    WholeBanks(d.flash64KBPage, |d.chip.buffer|);
  }

  lemma WholeBanks(b: byte, page: nat)
    requires page == 128 || page == 256
    ensures (b * 0x1_0000) % page == 0
  {
    if page == 128 {
    } else {
    }
  }

  /** A download that starts inside a page and runs over its end misplaces its data: this payload, for one,
      is not where it was meant to be. */
  lemma OverrunMisses(p: Part, d: Device, start: word, f: Framing, n: nat)
    requires p.Fits(d.chip) && Nameable(start, n) && f.Suits(start) && Accepts(d, start, n)
    requires !StopsShort(0, start, n) && !WellPlaced(d.chip, Base(d, start), n)
    ensures var page := |d.chip.buffer|;
            var off := Base(d, start) % page;
            && Base(d, start) - off + page < |d.chip.flash|
            && !FlashLands(p, d, start, f, Misplaced(d.chip.flash, Base(d, start) - off, n, off, page))
  {
    hide FlashLands, WordsLand, WritesExactly, Misplaced, Base, Part.Fits;
    var base, page := Base(d, start), |d.chip.buffer|;
    var off := base % page;
    PageOf(base, |d.chip.flash|, page);
    MisplacedFails(d.chip.flash, base - off, n, off, Unturned(d.chip.buffer, off));
    var bytes := Misplaced(d.chip.flash, base - off, n, off, page);
    EvenBase(d, start);
    PayloadLandsAsWords(p, d, start, f, bytes);
    LandIsExact(d.chip, base, bytes);
  }
}
