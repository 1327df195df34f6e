/** A DFU flash download, from the request to the memory it leaves. */
module DfuDownload {
  import opened Avr
  import opened Endpoint
  import opened Pages
  import opened PageTurn
  import opened Dfu
  import opened DfuFlashLoop
  import opened DfuAlignment

  // ---- The request ----

  /** The six command bytes of a memory command: the start and end addresses go high byte first. */
  function CommandBytes(command: byte, memory: byte, start: word, end: word): seq<byte> {
    [command, memory, HighByte(start), LowByte(start), HighByte(end), LowByte(end)]
  }

  function DecrementedBy(w: word, n: nat): word
    decreases n
  {
    if n == 0 then w else DecrementedBy(Decremented(w), n - 1)
  }

  lemma {:induction false} LoadFromPacket(d: Device, o: Out, i: nat)
    requires i <= 5 && 5 - i <= |o.bank|
    ensures LoadParams(d, o, i).0.data == d.data[..i] + o.bank[..5 - i]
    ensures LoadParams(d, o, i).0.dataSize == DecrementedBy(d.dataSize, 5 - i)
    ensures LoadParams(d, o, i).1 == o.(bank := o.bank[5 - i..])
    decreases 5 - i
  {
    if i < 5 {
      var e := d.(data := d.data[i := Peek(o)], dataSize := Decremented(d.dataSize));
      LoadFromPacket(e, Pop(o), i + 1);
      assert e.data[..i + 1] == d.data[..i] + [o.bank[0]];
      assert o.bank[..5 - i] == [o.bank[0]] + o.bank[1..][..5 - (i + 1)];
    }
  }

  /** A first packet of at least six bytes is the command and its five parameters; the rest stays in the bank. */
  lemma LoadHeader(d: Device, cmd: seq<byte>, rest: seq<byte>, queue: seq<Packet>)
    requires |cmd| == 6
    ensures LoadCommand(d, Out(cmd + rest, queue, false))
         == (d.(command := cmd[0], data := cmd[1..], dataSize := DecrementedBy(d.dataSize, 6)), Out(rest, queue, false))
  {
    hide LoadParams;
    var o := Out(cmd + rest, queue, false);
    var e := d.(command := Peek(o), dataSize := Decremented(d.dataSize));
    LoadFromPacket(e, Pop(o), 0);
    assert Pop(o).bank == cmd[1..] + rest;
    assert Pop(o).bank[..5] == cmd[1..] && Pop(o).bank[5..] == rest;
    assert e.data[..0] + cmd[1..] == cmd[1..];
  }

  /** Discarding no more than the bank holds takes just those bytes. */
  lemma {:induction false} DiscardWithinBank(o: Out, n: nat)
    requires n <= |o.bank|
    ensures Discard(o, n) == o.(bank := o.bank[n..])
    decreases n
  {
    if n > 0 {
      DiscardWithinBank(Pop(o), n - 1);
    }
  }

  /** A request that programs `n` bytes of memory from `start` on: the first packet holds the command and the
      26 filler bytes. The packets after it may be anything. */
  predicate IsDownload(r: Request, memory: byte, start: word, n: nat) {
    && r.Class? && r.bRequest == REQ_DNLOAD && r.wLength > 6
    && 0 < n && start + n <= 0x1_0000
    && r.packets != []
    && |r.packets[0]| == 6 + 26
    && r.packets[0][..6] == CommandBytes(COMMAND_PROG_START, memory, start, start + n - 1)
  }

  /** The bytes the handler counts for a range of `n`: the count is 16 bits wide, so the range from 0 to 0xFFFF
      counts for nothing. */
  function Counted(n: nat): (r: nat)
    ensures n < 0x1_0000 ==> r == n
  {
    n % 0x1_0000
  }

  /** The endpoint when the handler starts to read memory contents: past the first packet, and past the
      discarding of alignment filler. */
  function Contents(r: Request, start: word): Out
    requires r.Class? && r.packets != []
  {
    Discard(Out([], r.packets[1..], false), start % ENDPOINT_SIZE)
  }

  lemma ReachesContents(r: Request, start: word)
    requires r.Class? && r.packets != [] && |r.packets[0]| == 6 + FILLER_BYTES
    ensures var o := Out(r.packets[0][6..], r.packets[1..], false);
            Discard(Discard(o, FILLER_BYTES), start % ENDPOINT_SIZE) == Contents(r, start)
  {
    hide Discard;
    var o := Out(r.packets[0][6..], r.packets[1..], false);
    DiscardWithinBank(o, FILLER_BYTES);
    assert o.(bank := o.bank[FILLER_BYTES..]) == Out([], r.packets[1..], false);
  }

  /** The flash address a start address stands for. */
  function Base(d: Device, start: word): nat {
    d.flash64KBPage * 0x1_0000 + start
  }

  /** The device can take a download: unlocked, with no exit pending, and inside flash. */
  predicate Accepts(d: Device, start: word, n: nat) {
    !d.isSecure && !d.waitForExit && Base(d, start) + n <= |d.chip.flash|
  }

  /** Flash after the words have been programmed at `base`; without any, its page is just erased. */
  function FlashAfter(c: Chip, base: nat, words: seq<byte>): (r: seq<byte>)
    requires base < |c.flash| && base + |words| <= |c.flash|
    ensures |r| == |c.flash|
  {
    PageOf(base, |c.flash|, |c.buffer|);
    var off := base % |c.buffer|;
    if words == [] then Splice(c.flash, base - off, Blank(|c.buffer|))
    else Programmed(c.flash, base - off, words, Even(off), Unturned(c.buffer, Even(off)))
  }

  /** The chip after a download: a commit empties the page buffer. */
  function ChipAfter(c: Chip, base: nat, words: seq<byte>): Chip
    requires base < |c.flash| && base + |words| <= |c.flash|
  {
    c.(flash := FlashAfter(c, base, words), buffer := if words == [] then c.buffer else Blank(|c.buffer|), rww := true)
  }

  /** The device after a flash download of `n` bytes that programmed `words`. */
  function Downloaded(d: Device, r: Request, start: word, n: nat, words: seq<byte>): Device
    requires IsDownload(r, 0, start, n) && Accepts(d, start, n) && |words| <= n
  {
    var end := start + n - 1;
    d.(command := COMMAND_PROG_START, data := r.packets[0][1..6], dataSize := DecrementedBy(r.wLength, 6),
       startAddr := end, endAddr := end, state := DFU_DNLOAD_IDLE, chip := ChipAfter(d.chip, Base(d, start), words))
  }

  /** PROG_START erases the first page and remembers the range. */
  lemma ProgStart(p: Part, d: Device, start: word, end: word)
    requires p.Fits(d.chip) && !d.isSecure && d.command == COMMAND_PROG_START
    requires d.data == CommandBytes(COMMAND_PROG_START, 0, start, end)[1..]
    ensures var base := d.flash64KBPage * 0x1_0000 + start;
            ProcessCommand(p, d) == d.(startAddr := start, endAddr := end, state := DFU_DNLOAD_IDLE,
                                       chip := PageErase(d.chip, base))
  {
    hide PageErase, Word, LowByte, HighByte, Part.Fits;
    WordBytes(start);
    WordBytes(end);
    var e := LoadStartEndAddresses(d);
    assert e.startAddr == start && e.endAddr == end;
  }

  lemma WordBytes(w: word)
    ensures Word(LowByte(w), HighByte(w)) == w
  {
  }

  // ---- The handler ----

  /** The word loop starts with the first page erased, over whatever the page buffer holds. */
  lemma StartsFilling(c: Chip, from: nat, off: nat, o: Out, k: nat)
    requires Room(c.flash, from, 2 * k, |c.buffer|) && from < |c.flash| && off < |c.buffer|
    requires HasWords(o, k)
    ensures var j := FlashJob(PageErase(c, from + off), o, from + off, from + off, 0, k);
            Filling(j, from, off, [], Unturned(c.buffer, Even(off))) && Pending(j, []) == TakeWords(o, k)
  {
    hide TakeWords, HasWords, PageErase, Turned, Unturned;
    PageNumbers(from, |c.flash|, |c.buffer|);
    EraseAt(c, from, off);
    TurnedBack(c.buffer, Even(off));
    var pad := Unturned(c.buffer, Even(off));
    assert Padded([], pad) == pad;
    assert [] + TakeWords(o, k) == TakeWords(o, k);
  }

  lemma LoopWrites(o: Out, base: nat, k: nat, before: Chip)
    requires base < |before.flash| && base + 2 * k <= |before.flash|
    requires HasWords(o, k)
    ensures var done := ProgramWords(FlashJob(PageErase(before, base), o, base, base, 0, k));
            done.left == 0 && RwwEnable(done.chip) == ChipAfter(before, base, TakeWords(o, k))
  {
    hide ProgramWords, Programmed, Filling, Pending, Splice, TakeWords, HasWords, Even, Turned, Unturned, PageErase;
    var page := |before.buffer|;
    var off := base % page;
    var from := base - off;
    PageOf(base, |before.flash|, page);
    EraseAt(before, from, off);
    var j := FlashJob(PageErase(before, base), o, base, base, 0, k);
    if k == 0 {
      NoWordsLeft(j);
    } else {
      var pad := Unturned(before.buffer, Even(off));
      StartsFilling(before, from, off, o, k);
      ProgramWordsExact(j, from, off, [], pad);
      ProgrammedOverErased(before.flash, from, TakeWords(o, k), Even(off), pad);
    }
  }

  lemma RangeIsCounted(d: Device, n: nat)
    requires 0 < n && d.startAddr + n <= 0x1_0000 && d.endAddr == d.startAddr + n - 1
    ensures RangeLength(d) == Counted(n)
  {
  }

  lemma StreamedFlash(d: Device, o: Out, contents: Out, base: nat, n: nat, before: Chip)
    requires base + n <= |before.flash| && 0 < n
    requires contents == Discard(Discard(o, FILLER_BYTES), d.startAddr % ENDPOINT_SIZE)
    requires HasWords(contents, Counted(n) / 2)
    requires d.chip == PageErase(before, base) && d.data[0] == 0
    requires base == FlashAddress(d) && d.startAddr + n <= 0x1_0000 && d.endAddr == d.startAddr + n - 1
    ensures base + 2 * (Counted(n) / 2) <= |before.flash|
    ensures ReceiveFirmware(d, o)
         == (d.(chip := ChipAfter(before, base, TakeWords(contents, Counted(n) / 2)), startAddr := d.endAddr), true)
  {
    hide ProgramWords, FlashAfter, PageErase, Discard, TakeWords, HasWords;
    RangeIsCounted(d, n);
    LoopWrites(contents, base, Counted(n) / 2, before);
  }

  /** Every flash download whose words all come, from any start address, of any length, cut into packets in
      any way, over any page buffer: the new state of the whole device. */
  lemma FlashDownload(p: Part, d: Device, r: Request, start: word, n: nat)
    requires p.Fits(d.chip)
    requires IsDownload(r, 0, start, n) && Accepts(d, start, n) && HasWords(Contents(r, start), Counted(n) / 2)
    ensures Handle(p, d, r)
         == (Downloaded(d, r, start, n, TakeWords(Contents(r, start), Counted(n) / 2)), Response([], false, true))
  {
    hide ReceiveFirmware, PageErase, FlashAfter, TakeWords, HasWords, Contents, Discard, Handle;
    var d2 := Ranged(d, r, start, n).(chip := PageErase(d.chip, Base(d, start)));
    BeginsFlash(p, d, r, start, n);
    ReachesContents(r, start);
    StreamedFlash(d2, Out(r.packets[0][6..], r.packets[1..], false), Contents(r, start), Base(d, start), n, d.chip);
  }

  /** The device once the command of a download has been read and its range remembered. */
  function Ranged(d: Device, r: Request, start: word, n: nat): Device
    requires r.Class? && r.packets != [] && 6 <= |r.packets[0]| && 0 < n && start + n <= 0x1_0000
  {
    d.(command := COMMAND_PROG_START, data := r.packets[0][1..6], dataSize := DecrementedBy(r.wLength, 6),
       startAddr := start, endAddr := start + n - 1, state := DFU_DNLOAD_IDLE)
  }

  /** A flash download erases the page of its start address, and then receives the memory contents. */
  lemma BeginsFlash(p: Part, d: Device, r: Request, start: word, n: nat)
    requires p.Fits(d.chip) && IsDownload(r, 0, start, n) && !d.isSecure && !d.waitForExit
    ensures var d2 := Ranged(d, r, start, n).(chip := PageErase(d.chip, Base(d, start)));
            var (e, finished) := ReceiveFirmware(d2, Out(r.packets[0][6..], r.packets[1..], false));
            Handle(p, d, r) == (e, Response([], false, finished))
  {
    hide LoadCommand, ProcessCommand, ReceiveFirmware, PageErase;
    var d1 := Commanded(d, r);
    LoadsCommand(d, r, start);
    ProgStart(p, d1, start, start + n - 1);
    StillData(r.wLength);
  }

  /** The device once the command of a download has been read. */
  function Commanded(d: Device, r: Request): Device
    requires r.Class? && r.packets != [] && 6 <= |r.packets[0]|
  {
    d.(command := r.packets[0][0], data := r.packets[0][1..6], dataSize := DecrementedBy(r.wLength, 6))
  }

  lemma LoadsCommand(d: Device, r: Request, start: word)
    requires r.Class? && r.packets != [] && 6 <= |r.packets[0]|
    ensures LoadCommand(d.(dataSize := r.wLength), NextPacket(Out([], r.packets, false)))
         == (Commanded(d, r), Out(r.packets[0][6..], r.packets[1..], false))
    ensures r.packets[0][..6][1..] == r.packets[0][1..6] && r.packets[0][..6][0] == r.packets[0][0]
  {
    hide LoadCommand;
    var cmd, filler := r.packets[0][..6], r.packets[0][6..];
    assert r.packets[0] == cmd + filler;
    LoadHeader(d.(dataSize := r.wLength), cmd, filler, r.packets[1..]);
    assert cmd[1..] == r.packets[0][1..6];
  }

  // ---- Downloads in packets of whole words ----

  /** A flash download from a multiple of the packet size, so without alignment filler, whose packets carry
      whole words of the payload and anything after it. */
  predicate IsFlashDownload(r: Request, start: word, payload: seq<byte>) {
    && IsDownload(r, 0, start, |payload|)
    && start % ENDPOINT_SIZE == 0
    && EvenPackets(r.packets[1..])
    && payload <= Flatten(r.packets[1..])
  }

  /** The payload's bytes that are programmed: its counted whole words. */
  function Words(payload: seq<byte>): (r: seq<byte>)
    ensures |r| <= |payload|
    ensures |payload| < 0x1_0000 && |payload| % 2 == 0 ==> r == payload
  {
    payload[..2 * (Counted(|payload|) / 2)]
  }

  lemma WordsArePayload(r: Request, start: word, payload: seq<byte>)
    requires IsFlashDownload(r, start, payload)
    ensures var k := Counted(|payload|) / 2;
            HasWords(Contents(r, start), k) && TakeWords(Contents(r, start), k) == Words(payload)
  {
    hide TakeWords, HasWords;
    var o, k := Out([], r.packets[1..], false), Counted(|payload|) / 2;
    assert Contents(r, start) == o;
    assert Stream(o) == Flatten(r.packets[1..]);
    WordsOfStream(o, k);
    assert Stream(o)[..2 * k] == payload[..2 * k];
  }

  /** Such a download programs the payload's whole words. */
  lemma WholeWordDownload(p: Part, d: Device, r: Request, start: word, payload: seq<byte>)
    requires p.Fits(d.chip)
    requires IsFlashDownload(r, start, payload) && Accepts(d, start, |payload|)
    ensures Handle(p, d, r) == (Downloaded(d, r, start, |payload|, Words(payload)), Response([], false, true))
  {
    hide Handle, FlashAfter, Contents, TakeWords, HasWords;
    WordsArePayload(r, start, payload);
    FlashDownload(p, d, r, start, |payload|);
  }

  /** The chip with a payload written from a page boundary on, and an empty page buffer. */
  function Imaged(c: Chip, base: nat, payload: seq<byte>): Chip
    requires Room(c.flash, base, |payload|, |c.buffer|)
  {
    c.(flash := Image(c.flash, base, payload, |c.buffer|), buffer := Blank(|c.buffer|), rww := true)
  }

  /** For every page-aligned start and every payload of whole words, flash from the start address on holds the
      payload, the rest of the last page is blank and nothing else changes, exactly when the payload fills a page
      or the page buffer was blank where it does not. */
  lemma FlashDownloadExact(p: Part, d: Device, r: Request, start: word, payload: seq<byte>)
    requires p.Fits(d.chip) && |payload| % 2 == 0 && |payload| < 0x1_0000
    requires IsFlashDownload(r, start, payload) && Accepts(d, start, |payload|) && Aligned(d.chip, Base(d, start))
    ensures Handle(p, d, r).0.chip == Imaged(d.chip, Base(d, start), payload)
       <==> |payload| >= |d.chip.buffer| || d.chip.buffer[|payload|..] == Blank(|d.chip.buffer| - |payload|)
  {
    hide Handle, Programmed, Image;
    WholeWordDownload(p, d, r, start, payload);
    NoTurn(d.chip.buffer);
    BlankTailExact(d.chip.flash, Base(d, start), payload, d.chip.buffer);
  }

  /** The download stays inside one page, or starts on a page boundary. */
  predicate WellPlaced(c: Chip, base: nat, n: nat) {
    Aligned(c, base) || base % |c.buffer| + n <= |c.buffer|
  }

  /** The words end up at the address they were meant for. */
  predicate WordsLand(c: Chip, base: nat, words: seq<byte>)
    requires base < |c.flash| && base + |words| <= |c.flash|
  {
    FlashAfter(c, base, words)[base..base + |words|] == words
  }

  lemma LandIsExact(c: Chip, base: nat, words: seq<byte>)
    requires 0 < |words| && base + |words| <= |c.flash| && base % 2 == 0
    ensures base % |c.buffer| <= base && Room(c.flash, base - base % |c.buffer|, |words|, |c.buffer|)
    ensures var off := base % |c.buffer|;
            WordsLand(c, base, words) <==> WritesExactly(c.flash, base - off, words, off, Unturned(c.buffer, off))
  {
    hide Programmed;
    PageOf(base, |c.flash|, |c.buffer|);
    EvenOffset(base, |c.buffer|);
  }

  /** Words programmed from an even address land there, whatever they are, exactly when they are well placed. */
  lemma FlashAfterExact(c: Chip, base: nat, n: nat)
    requires 0 < n && base + n <= |c.flash| && base % 2 == 0
    ensures (forall words: seq<byte> :: |words| == n ==> WordsLand(c, base, words)) <==> WellPlaced(c, base, n)
  {
    hide WordsLand, WritesExactly;
    var page := |c.buffer|;
    var off := base % page;
    PageOf(base, |c.flash|, page);
    var pad := Unturned(c.buffer, off);
    ExactIffAligned(c.flash, base - off, n, off, pad);
    forall words: seq<byte> | |words| == n
      ensures WordsLand(c, base, words) <==> WritesExactly(c.flash, base - off, words, off, pad)
    {
      LandIsExact(c, base, words);
    }
  }

  lemma EvenOffset(base: nat, page: nat)
    requires (page == 128 || page == 256) && base % 2 == 0
    ensures Even(base % page) == base % page
  {
    if page == 128 {
      assert base == 128 * (base / 128) + base % 128;
    } else {
      assert base == 256 * (base / 256) + base % 256;
    }
  }

  lemma StillData(w: word)
    requires w > 6
    ensures DecrementedBy(w, 6) == w - 6
  {
    assert DecrementedBy(w, 6) == DecrementedBy(w - 2, 4);
    assert DecrementedBy(w - 2, 4) == DecrementedBy(w - 4, 2);
  }
}
