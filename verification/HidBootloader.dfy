/** The HID bootloader: a SetReport request carries a page address and the page to program there. */
module HidBootloader {
  import opened Avr
  import opened Endpoint
  import opened PageTurn

  const COMMAND_STARTAPPLICATION: word := 0xFFFF

  datatype Hid = Hid(chip: Chip, runBootloader: bool)

  /** FLASHEND > 0xFFFF: page addresses then travel without their low byte. */
  predicate Large(c: Chip) {
    |c.flash| > 0x1_0000
  }

  function PageAddress(c: Chip, w: word): nat {
    if Large(c) then w * 0x100 else w
  }

  /** The page-filling loop from word `i` on; the second result is false if the data ran out and the
      device waits for ever. */
  function FillFrom(c: Chip, o: Out, addr: nat, i: nat): (r: (Chip, bool))
    requires i <= |c.buffer| / 2
    ensures |r.0.buffer| == |c.buffer| && r.0.flash == c.flash && r.0.eeprom == c.eeprom && r.0.rww == c.rww
    decreases |c.buffer| / 2 - i
  {
    if i == |c.buffer| / 2 then (c, true)
    else
      var ready := Ready(o);
      if ready.detached then (c, false)
      else FillFrom(PageFill(c, addr + 2 * i, Peek(ready), Peek(Pop(ready))), Pop(Pop(ready)), addr, i + 1)
  }

  function SetReport(h: Hid, packets: seq<Packet>): (r: Hid)
    ensures |r.chip.flash| == |h.chip.flash| && |r.chip.buffer| == |h.chip.buffer|
  {
    var o := NextPacket(Out([], packets, false));
    if o.detached then h
    else
      var w: word := Peek(o) + 0x100 * Peek(Pop(o));
      if w == COMMAND_STARTAPPLICATION then h.(runBootloader := false)
      else
        var addr := PageAddress(h.chip, w);
        var (filled, complete) := FillFrom(PageErase(h.chip, addr), Pop(Pop(o)), addr, 0);
        if complete then h.(chip := RwwEnable(PageWrite(filled, addr))) else h.(chip := filled)
  }

  class Bootloader {
    var chip: Chip
    var runBootloader: bool

    ghost function View(): Hid
      reads this
    {
      Hid(chip, runBootloader)
    }

    constructor (chip: Chip)
      ensures View() == Hid(chip, true)
    {
      this.chip := chip;
      runBootloader := true;
    }

    /** A HID SetReport control request. */
    method HandleSetReport(packets: seq<Packet>)
      modifies this
      ensures View() == SetReport(old(View()), packets)
    {
      hide PageErase, PageFill, PageWrite, Peek, Pop;
      var out := NextPacket(Out([], packets, false));
      if out.detached {
        return;
      }
      var address: word := Peek(out) + 0x100 * Peek(Pop(out));
      out := Pop(Pop(out));
      if address == COMMAND_STARTAPPLICATION {
        runBootloader := false;
      } else {
        var pageAddress := if |chip.flash| > 0x1_0000 then address * 0x100 else address;
        chip := PageErase(chip, pageAddress);
        ghost var whole := FillFrom(chip, out, pageAddress, 0);
        var pageWord := 0;
        while pageWord < |chip.buffer| / 2
          invariant pageWord <= |chip.buffer| / 2
          invariant runBootloader == old(runBootloader)
          invariant FillFrom(chip, out, pageAddress, pageWord) == whole
        {
          if out.bank == [] {
            out := NextPacket(out);
          }
          if out.detached {
            return;
          }
          chip := PageFill(chip, pageAddress + 2 * pageWord, Peek(out), Peek(Pop(out)));
          out := Pop(Pop(out));
          pageWord := pageWord + 1;
        }
        chip := PageWrite(chip, pageAddress);
        chip := RwwEnable(chip);
      }
    }
  }

  // ---- What a program request does ----

  /** The loop puts the stream into the buffer word by word, from word `i` on, turned by the address's offset. */
  lemma {:induction false} FillExact(c: Chip, o: Out, from: nat, off: nat, i: nat, x: seq<byte>)
    requires from % |c.buffer| == 0 && off < |c.buffer| == |x| && i <= |c.buffer| / 2
    requires c.buffer == Turned(x, Even(off))
    requires WholeWords(o) && |c.buffer| - 2 * i <= |Stream(o)|
    ensures FillFrom(c, o, from + off, i)
         == (c.(buffer := Turned(x[..2 * i] + Stream(o)[..|x| - 2 * i], Even(off))), true)
    decreases |c.buffer| / 2 - i
  {
    hide PageFill, Stream, Ready, Pop, Peek, WholeWords, Turned, Even;
    EvenPage(c);
    if i == |x| / 2 {
      assert x[..2 * i] + Stream(o)[..0] == x;
    } else {
      ReadWord(o);
      var ready := Ready(o);
      var lo, hi := Peek(ready), Peek(Pop(ready));
      FillTurned(c, from, off, x, 2 * i, lo, hi);
      var next := PageFill(c, from + off + 2 * i, lo, hi);
      FillExact(next, Pop(Pop(ready)), from, off, i + 1, x[2 * i := lo][2 * i + 1 := hi]);
      MoveWord(x, 2 * i, Stream(o));
    }
  }

  lemma MoveWord(buffer: seq<byte>, k: nat, s: seq<byte>)
    requires k + 2 <= |buffer| <= k + |s|
    ensures buffer[k := s[0]][k + 1 := s[1]][..k + 2] + s[2..][..|buffer| - k - 2] == buffer[..k] + s[..|buffer| - k]
  {
  }

  lemma EvenPage(c: Chip)
    ensures 2 * (|c.buffer| / 2) == |c.buffer|
  {
  }

  /** The packets of a program request. */
  predicate Carries(packets: seq<Packet>, w: word, block: seq<byte>) {
    packets != [] && EvenPackets(packets) && Flatten(packets) == [w % 0x100, w / 0x100] + block
  }

  /** A program request to any address: its page holds exactly the block sent, turned by the address's offset in
      the page, whatever was in it or in the page buffer, and the rest of memory is unchanged. */
  lemma ProgramsTurned(h: Hid, packets: seq<Packet>, w: word, block: seq<byte>)
    requires Carries(packets, w, block) && |block| == |h.chip.buffer| && w != COMMAND_STARTAPPLICATION
    ensures var c, addr := h.chip, PageAddress(h.chip, w);
            && PageStart(c, addr) + |block| <= |c.flash|
            && SetReport(h, packets)
            == h.(chip := c.(flash := Splice(c.flash, PageStart(c, addr), Turned(block, Even(addr % |block|))),
                             buffer := Blank(|block|), rww := true))
  {
    hide FillFrom, PageErase, PageWrite, Turned, Unturned, Even;
    var o := NextPacket(Out([], packets, false));
    assert Stream(o) == Flatten(packets);
    ReadWord(o);
    assert Ready(o) == o;
    var c, addr := h.chip, PageAddress(h.chip, w);
    var rest := Pop(Pop(o));
    assert Stream(rest) == block;
    assert Peek(o) + 0x100 * Peek(Pop(o)) == w;
    var page := |block|;
    var off := addr % page;
    PageMultiple(addr, page);
    var x := Unturned(c.buffer, Even(off));
    TurnedBack(c.buffer, Even(off));
    FillExact(PageErase(c, addr), rest, addr - off, off, 0, x);
    assert x[..0] + block[..page] == block;
    PageFits(c, addr);
    EraseThenWrite(c, addr, Turned(block, Even(off)));
  }

  lemma PageMultiple(addr: nat, page: nat)
    requires page == 128 || page == 256
    ensures addr % page <= addr && (addr - addr % page) % page == 0
  {
    if page == 128 {
    } else {
    }
  }

  /** A program request to the start of a page. */
  lemma ProgramsPage(h: Hid, packets: seq<Packet>, w: word, block: seq<byte>)
    requires Carries(packets, w, block) && |block| == |h.chip.buffer| && w != COMMAND_STARTAPPLICATION
    requires PageAddress(h.chip, w) % |h.chip.buffer| == 0
    requires PageAddress(h.chip, w) + |h.chip.buffer| <= |h.chip.flash|
    ensures SetReport(h, packets)
         == h.(chip := h.chip.(flash := Splice(h.chip.flash, PageAddress(h.chip, w), block),
                               buffer := Blank(|h.chip.buffer|), rww := true))
  {
    hide SetReport, Carries;
    var addr := PageAddress(h.chip, w);
    ProgramsTurned(h, packets, w, block);
    SmallMod(addr, |h.chip.flash|);
    NoTurn(block);
  }

  lemma {:induction false} FillCompletes(c: Chip, o: Out, addr: nat, i: nat)
    requires i <= |c.buffer| / 2
    ensures FillFrom(c, o, addr, i).1 <==> HasWords(o, |c.buffer| / 2 - i)
    decreases |c.buffer| / 2 - i
  {
    hide Ready, PageFill;
    if i < |c.buffer| / 2 && !Ready(o).detached {
      FillCompletes(PageFill(c, addr + 2 * i, Peek(Ready(o)), Peek(Pop(Ready(o)))), Pop(Pop(Ready(o))), addr, i + 1);
    }
  }

  /** A program request whose packets do not supply the page leaves the page erased and the section locked out: nothing
      is programmed. */
  lemma StarvedRequest(h: Hid, packets: seq<Packet>, w: word)
    requires packets != [] && 2 <= |packets[0]| && packets[0][..2] == [w % 0x100, w / 0x100] && w != 0xFFFF
    requires !HasWords(Out(packets[0][2..], packets[1..], false), |h.chip.buffer| / 2)
    ensures var c, page := h.chip, PageStart(h.chip, PageAddress(h.chip, w));
            && page + |c.buffer| <= |c.flash|
            && SetReport(h, packets).chip.flash == Splice(c.flash, page, Blank(|c.buffer|))
            && !SetReport(h, packets).chip.rww && SetReport(h, packets).runBootloader == h.runBootloader
  {
    hide FillFrom, HasWords;
    var o, addr := NextPacket(Out([], packets, false)), PageAddress(h.chip, w);
    assert Pop(Pop(o)) == Out(packets[0][2..], packets[1..], false);
    assert Peek(o) == packets[0][..2][0] && Peek(Pop(o)) == packets[0][..2][1];
    PageFits(h.chip, addr);
    FillCompletes(PageErase(h.chip, addr), Pop(Pop(o)), addr, 0);
  }

  /** A request whose data stage never comes changes nothing. */
  lemma NothingSent(h: Hid)
    ensures SetReport(h, []) == h
  {
  }

  /** The start command only ends the bootloader. */
  lemma StartsApplication(h: Hid, packets: seq<Packet>)
    requires packets != [] && 2 <= |packets[0]| && packets[0][..2] == [0xFF, 0xFF]
    ensures SetReport(h, packets) == h.(runBootloader := false)
  {
    assert packets[0][0] == packets[0][..2][0] && packets[0][1] == packets[0][..2][1];
  }
}
