/** A session in which the chip erase does not blank the application: the host breaks off a download inside a
    page, and the words left in the page buffer are committed by the erase. */
module DfuLeftovers {
  import opened Avr
  import opened Endpoint
  import opened Pages
  import opened PageTurn
  import opened Dfu
  import opened DfuFlashLoop
  import opened DfuDownload

  /** A download of four bytes to address 0 of which the host sends one word. */
  function BrokenOff(wLength: word, head: seq<byte>, lo: byte, hi: byte): Request {
    Class(REQ_DNLOAD, wLength, [CommandBytes(COMMAND_PROG_START, 0, 0, 3) + head, [lo, hi]])
  }

  const CHIP_ERASE := Class(REQ_DNLOAD, 3, [[COMMAND_WRITE, 0, 0xFF]])

  /** The chip once one word has been put in an empty page buffer. */
  function WithWord(c: Chip, lo: byte, hi: byte): Chip {
    c.(buffer := c.buffer[0 := lo][1 := hi])
  }

  lemma OneWordThenNothing(c: Chip, lo: byte, hi: byte)
    ensures var j := ProgramWords(FlashJob(c, Out([], [[lo, hi]], false), 0, 0, 0, 2));
            j.left == 1 && j.chip == WithWord(c, lo, hi)
  {
    hide ProgramWords, PageFill, PageWrite, PageErase;
    var j := FlashJob(c, Out([], [[lo, hi]], false), 0, 0, 0, 2);
    var ready := j.(out := Out([lo, hi], [], false));
    assert Ready(j.out) == ready.out by { assert [[lo, hi]][1..] == []; }
    var next := ProgramWord(ready);
    assert Pop(Pop(ready.out)) == Out([], [], false);
    FillEvenSlot(c, 0, lo, hi, 0);
    assert next.chip == WithWord(c, lo, hi) && next.left == 1;
    FirstTurn(j);
    FirstTurn(next);
  }

  lemma FirstTurn(j: FlashJob)
    requires 0 < j.left
    ensures var ready := j.(out := Ready(j.out));
            ProgramWords(j) == if ready.out.detached then ready else ProgramWords(ProgramWord(ready))
  {
    hide ProgramWord;
  }

  /** The broken-off download leaves its word in the page buffer. */
  lemma LeavesWord(p: Part, d: Device, wLength: word, head: seq<byte>, lo: byte, hi: byte)
    requires p.Fits(d.chip) && !d.isSecure && !d.waitForExit && d.flash64KBPage == 0
    requires wLength > 6 && |head| == FILLER_BYTES
    ensures var r := BrokenOff(wLength, head, lo, hi);
            Handle(p, d, r).0 == Ranged(d, r, 0, 4).(chip := WithWord(PageErase(d.chip, 0), lo, hi))
  {
    hide Handle, ReceiveFirmware, PageErase;
    var r := BrokenOff(wLength, head, lo, hi);
    BrokenOffIsDownload(wLength, head, lo, hi);
    BeginsFlash(p, d, r, 0, 4);
    ReachesContents(r, 0);
    var d2 := Ranged(d, r, 0, 4).(chip := PageErase(d.chip, 0));
    StopsInside(d2, Out(head, [[lo, hi]], false), lo, hi);
  }

  lemma BrokenOffIsDownload(wLength: word, head: seq<byte>, lo: byte, hi: byte)
    requires wLength > 6 && |head| == FILLER_BYTES
    ensures var r := BrokenOff(wLength, head, lo, hi);
            && IsDownload(r, 0, 0, 4) && r.packets[0][6..] == head && r.packets[1..] == [[lo, hi]]
            && r.packets[0][1..6][0] == 0 && Contents(r, 0) == Out([], [[lo, hi]], false)
  {
  }

  lemma StopsInside(d: Device, o: Out, lo: byte, hi: byte)
    requires d.data[0] == 0 && d.startAddr == 0 && d.endAddr == 3 && d.flash64KBPage == 0
    requires Discard(Discard(o, FILLER_BYTES), 0) == Out([], [[lo, hi]], false)
    ensures ReceiveFirmware(d, o) == (d.(chip := WithWord(d.chip, lo, hi)), false)
  {
    hide ProgramWords, Discard;
    OneWordThenNothing(d.chip, lo, hi);
  }

  /** The command and two parameters of a chip erase. */
  lemma LoadsChipErase(d: Device, o: Out)
    requires o.bank == [COMMAND_WRITE, 0, 0xFF] && d.dataSize == 3
    ensures var e := LoadCommand(d, o).0;
            e.command == COMMAND_WRITE && e.data[0] == 0 && e.data[1] == 0xFF && e.dataSize == 0
  {
    var d0 := d.(command := COMMAND_WRITE, dataSize := 2);
    var o0 := Pop(o);
    assert o0.bank == [0, 0xFF];
    var d1 := d0.(data := d0.data[0 := 0], dataSize := 1);
    var d2 := d1.(data := d1.data[1 := 0xFF], dataSize := 0);
    assert Pop(o0).bank == [0xFF] && Pop(Pop(o0)).bank == [];
    assert LoadParams(d0, o0, 0) == LoadParams(d1, Pop(o0), 1);
    assert LoadParams(d1, Pop(o0), 1) == LoadParams(d2, Pop(Pop(o0)), 2);
    assert LoadParams(d2, Pop(Pop(o0)), 2) == (d2, Pop(Pop(o0)));
  }

  lemma ErasesChip(p: Part, d: Device)
    requires p.Fits(d.chip) && !d.isSecure && !d.waitForExit
    ensures Handle(p, d, CHIP_ERASE).0.chip == RwwEnable(EraseFrom(d.chip, 0, p.bootStart))
  {
    hide LoadCommand, EraseFrom, ReceiveFirmware;
    var o := NextPacket(Out([], CHIP_ERASE.packets, false));
    LoadsChipErase(d.(dataSize := 3), o);
  }

  /** From power-up, a broken-off download followed by a chip erase: the word the host got through is still in
      flash, and the rest of the application is blank. */
  lemma LeftoverSurvivesChipErase(p: Part, c: Chip, wLength: word, head: seq<byte>, lo: byte, hi: byte)
    requires p.Fits(c) && BlankBuffer(c) && |c.buffer| <= p.bootStart
    requires wLength > 6 && |head| == FILLER_BYTES
    ensures var d := PowerUp(false, c);
            After(p, d, [BrokenOff(wLength, head, lo, hi), CHIP_ERASE]).chip.flash
            == [lo, hi] + Blank(p.bootStart - 2) + c.flash[p.bootStart..]
  {
    hide Handle, EraseFrom, PageErase, After;
    var d := PowerUp(false, c);
    var r := BrokenOff(wLength, head, lo, hi);
    LeavesWord(p, d, wLength, head, lo, hi);
    var e := Handle(p, d, r).0;
    ErasesChip(p, e);
    TwoRequests(p, d, r, CHIP_ERASE);
    EraseKeepsBuffer(e.chip, p.bootStart);
    EraseAt(c, 0, 0);
    assert e.chip.buffer == [lo, hi] + Blank(|c.buffer| - 2);
    assert e.chip.flash[p.bootStart..] == c.flash[p.bootStart..] by { AboveFirstPage(c, p.bootStart); }
  }

  lemma AboveFirstPage(c: Chip, limit: nat)
    requires |c.buffer| <= limit <= |c.flash|
    ensures Splice(c.flash, 0, Blank(|c.buffer|))[limit..] == c.flash[limit..]
  {
  }

  lemma TwoRequests(p: Part, d: Device, a: Request, b: Request)
    requires p.Fits(d.chip) && Running(d) && Running(Handle(p, d, a).0)
    ensures After(p, d, [a, b]) == Handle(p, Handle(p, d, a).0, b).0
  {
    hide Handle;
    assert [a, b][1..] == [b] && [b][1..] == [];
    var e := Handle(p, d, a).0;
    assert After(p, e, [b]) == After(p, Handle(p, e, b).0, []);
  }
}
