/** Flash is worn and written the way a download means it: one erase and then one write for every page it
    covers, and no operation on any other page. */
module DfuPageCycles {
  import opened Avr
  import opened Endpoint
  import opened Pages
  import opened PageTurn
  import opened Dfu
  import opened DfuFlashLoop
  import opened DfuDownload
  import opened DfuPageOps
  import opened DfuSecure

  /** First byte of the page an address falls in, in a flash of `size` bytes. */
  function PageAt(addr: nat, size: nat, page: nat): int
    requires 0 < size && 0 < page
  {
    addr % size - (addr % size) % page
  }

  /** The operations on the page that starts at `q`, in order. */
  function OnPage(ops: seq<PageOp>, size: nat, page: nat, q: nat): seq<PageOp>
    requires 0 < size && 0 < page
  {
    if ops == [] then []
    else (if PageAt(ops[0].addr, size, page) == q then [ops[0]] else []) + OnPage(ops[1..], size, page, q)
  }

  lemma {:induction false} OnPageAppend(a: seq<PageOp>, b: seq<PageOp>, size: nat, page: nat, q: nat)
    requires 0 < size && 0 < page
    ensures OnPage(a + b, size, page, q) == OnPage(a, size, page, q) + OnPage(b, size, page, q)
  {
    hide PageAt;
    if a == [] {
      assert a + b == b;
    } else {
      assert (a + b)[1..] == a[1..] + b && (a + b)[0] == a[0];
      OnPageAppend(a[1..], b, size, page, q);
      hide OnPage;
      var head := if PageAt(a[0].addr, size, page) == q then [a[0]] else [];
      OnPageStep(a, size, page, q);
      OnPageStep(a + b, size, page, q);
      Reassociate(head, OnPage(a[1..], size, page, q), OnPage(b, size, page, q));
    }
  }

  lemma OnPageStep(ops: seq<PageOp>, size: nat, page: nat, q: nat)
    requires 0 < size && 0 < page && ops != []
    ensures OnPage(ops, size, page, q)
         == (if PageAt(ops[0].addr, size, page) == q then [ops[0]] else []) + OnPage(ops[1..], size, page, q)
  {
    hide PageAt;
  }

  lemma Reassociate(x: seq<PageOp>, y: seq<PageOp>, z: seq<PageOp>)
    ensures x + (y + z) == (x + y) + z
  {
  }

  lemma OneOp(op: PageOp, size: nat, page: nat, q: nat)
    requires 0 < size && 0 < page
    ensures OnPage([op], size, page, q) == if PageAt(op.addr, size, page) == q then [op] else []
  {
    hide PageAt;
    assert [op][1..] == [];
  }

  lemma AddressInPage(c: Chip, from: nat, off: nat)
    requires Aligned(c, from) && from + |c.buffer| <= |c.flash| && off < |c.buffer|
    ensures PageAt(from + off, |c.flash|, |c.buffer|) == from
  {
    StartWithin(c, from, off);
  }

  /** Page starts less than a page apart are the same page. */
  lemma PagesApart(a: nat, b: nat, page: nat)
    requires (page == 128 || page == 256) && a % page == 0 && b % page == 0
    ensures a < b ==> a + page <= b
  {
    if a < b {
      PageNumbers(a, b, page);
    }
  }

  /** What the programming loop does to page `q`, once the page it is filling has been erased. */
  function LoopCycle(from: nat, off: nat, n: nat, q: nat): seq<PageOp> {
    if q == from then [Commit(q + off)]
    else if from < q < from + n then [Erase(q + off), Commit(q + off)]
    else []
  }

  lemma BreakOps(j: FlashJob, from: nat, off: nat, filled: seq<byte>, pad: seq<byte>, q: nat)
    requires Filling(j, from, off, filled, pad) && 1 < j.left && |filled| + 2 == |j.chip.buffer|
    requires q % |j.chip.buffer| == 0
    ensures from + 2 * |j.chip.buffer| <= |j.chip.flash|
    ensures var page := |j.chip.buffer|;
            var ops := WordOps(j.(out := Ready(j.out)));
            OnPage(ops, |j.chip.flash|, page, q)
            == if q == from then [Commit(from + off)] else if q == from + page then [Erase(from + page + off)] else []
  {
    hide OnPage, PageAt, Ready, Turned, HasWords;
    var size, page := |j.chip.flash|, |j.chip.buffer|;
    PageNumbers(from, size, page);
    PageNumbers(from + page, size, page);
    AddressInPage(j.chip, from, off);
    AddressInPage(j.chip, from + page, off);
    var a, b := Commit(from + off), Erase(from + page + off);
    assert [a] + [b] == [a, b];
    OnPageAppend([a], [b], size, page, q);
    OneOp(a, size, page, q);
    OneOp(b, size, page, q);
  }

  lemma TurnOps(j: FlashJob, from: nat, off: nat, filled: seq<byte>, pad: seq<byte>)
    requires Filling(j, from, off, filled, pad) && 0 < j.left
    ensures LoopOps(j) == WordOps(j.(out := Ready(j.out))) + LoopOps(Step(j))
  {
    hide ProgramWord, WordOps, Turned;
    FillStep(j, from, off, filled, pad);
  }

  lemma {:induction false} LoopCycles(j: FlashJob, from: nat, off: nat, filled: seq<byte>, pad: seq<byte>, q: nat)
    requires Filling(j, from, off, filled, pad) && 0 < j.left && q % |j.chip.buffer| == 0
    ensures OnPage(LoopOps(j), |j.chip.flash|, |j.chip.buffer|, q) == LoopCycle(from, off, |filled| + 2 * j.left, q)
    decreases j.left
  {
    hide OnPage, LoopOps, Step, Turned, HasWords, Ready, PageAt, Padded, Even, TakeWords, NextWord;
    var size, page := |j.chip.flash|, |j.chip.buffer|;
    TurnOps(j, from, off, filled, pad);
    var next := Step(j);
    OnPageAppend(WordOps(j.(out := Ready(j.out))), LoopOps(next), size, page, q);
    PagesApart(from, q, page);
    if j.left == 1 {
      LastOps(j, from, off, filled, pad, q);
    } else if |filled| + 2 == page {
      BreakOps(j, from, off, filled, pad, q);
      PageBreak(j, from, off, filled, pad);
      PageBreakFilling(j, from, off, filled, pad);
      LoopCycles(next, from + page, off, [], Blank(page), q);
    } else {
      WithinPage(j, from, off, filled, pad);
      LoopCycles(next, from, off, filled + NextWord(j), pad, q);
      NoOps(size, page, q);
    }
  }

  lemma NoOps(size: nat, page: nat, q: nat)
    requires 0 < size && 0 < page
    ensures OnPage([], size, page, q) == []
  {
  }

  lemma LastOps(j: FlashJob, from: nat, off: nat, filled: seq<byte>, pad: seq<byte>, q: nat)
    requires Filling(j, from, off, filled, pad) && j.left == 1 && q % |j.chip.buffer| == 0
    ensures var size, page := |j.chip.flash|, |j.chip.buffer|;
            && OnPage(WordOps(j.(out := Ready(j.out))), size, page, q) == LoopCycle(from, off, |filled| + 2, q)
            && OnPage(LoopOps(Step(j)), size, page, q) == []
  {
    hide OnPage, Turned, HasWords, Ready, PageAt, ProgramWord;
    var size, page := |j.chip.flash|, |j.chip.buffer|;
    AddressInPage(j.chip, from, off);
    OneOp(Commit(from + off), size, page, q);
    PagesApart(from, q, page);
    NoOps(size, page, q);
  }

  /** Every page a flash download covers is erased once and then written once, and no other page is touched:
      for any start, any length of a word or more, and any cutting into packets. */
  lemma EachPageOnce(p: Part, d: Device, r: Request, start: word, n: nat, q: nat)
    requires p.Fits(d.chip)
    requires IsDownload(r, 0, start, n) && Accepts(d, start, n) && HasWords(Contents(r, start), Counted(n) / 2)
    requires 2 <= Counted(n) && q % |d.chip.buffer| == 0
    ensures var off := Base(d, start) % |d.chip.buffer|;
            var from := Base(d, start) - off;
            OnPage(HandleOps(p, d, r), |d.chip.flash|, |d.chip.buffer|, q)
            == if from <= q < from + 2 * (Counted(n) / 2) then [Erase(q + off), Commit(q + off)] else []
  {
    hide OnPage, HandleOps, HasWords, Contents, LoopOps, Filling, PageAt, PageErase;
    var size, page, base := |d.chip.flash|, |d.chip.buffer|, Base(d, start);
    var off := base % page;
    var from := base - off;
    PageOf(base, size, page);
    var j := FlashJob(PageErase(d.chip, base), Contents(r, start), base, base, 0, Counted(n) / 2);
    RequestOps(p, d, r, start, n);
    StartsFilling(d.chip, from, off, Contents(r, start), Counted(n) / 2);
    LoopCycles(j, from, off, [], Unturned(d.chip.buffer, Even(off)), q);
    OnPageAppend([Erase(base)], LoopOps(j), size, page, q);
    OneOp(Erase(base), size, page, q);
    PageNumbers(from, size, page);
    AddressInPage(d.chip, from, off);
  }

  /** The operations of a flash download: the erase of PROG_START, then the loop's. */
  lemma RequestOps(p: Part, d: Device, r: Request, start: word, n: nat)
    requires p.Fits(d.chip) && IsDownload(r, 0, start, n) && !d.isSecure && !d.waitForExit
    ensures var base := Base(d, start);
            HandleOps(p, d, r)
            == [Erase(base)]
             + LoopOps(FlashJob(PageErase(d.chip, base), Contents(r, start), base, base, 0, Counted(n) / 2))
  {
    hide HandleOps, CommandOps, BodyOps, LoopOps, PageErase, Contents, ProcessCommand;
    var d1 := Commanded(d, r);
    var base := Base(d, start);
    LoadsCommand(d, r, start);
    ProgStart(p, d1, start, start + n - 1);
    CommandErases(p, d1, start, start + n - 1);
    CommandThenBody(p, d, r, start);
    StillData(r.wLength);
    BodyIsLoop(ProcessCommand(p, d1), r, start, n);
  }

  lemma CommandThenBody(p: Part, d: Device, r: Request, start: word)
    requires p.Fits(d.chip) && !d.waitForExit
    requires r.Class? && r.bRequest == REQ_DNLOAD && r.wLength != 0 && r.packets != [] && 6 <= |r.packets[0]|
    ensures var d1 := Commanded(d, r);
            HandleOps(p, d, r)
            == CommandOps(p, d1) + BodyOps(ProcessCommand(p, d1), Out(r.packets[0][6..], r.packets[1..], false))
  {
    hide CommandOps, BodyOps, LoadCommand, ProcessCommand, Commanded;
    LoadsCommand(d, r, start);
    var d1 := Commanded(d, r);
    assert [] + CommandOps(p, d1) == CommandOps(p, d1);
  }

  lemma BodyIsLoop(d: Device, r: Request, start: word, n: nat)
    requires IsDownload(r, 0, start, n) && d.state == DFU_DNLOAD_IDLE && d.dataSize != 0 && d.data[0] == 0
    requires d.startAddr == start && d.endAddr == start + n - 1
    ensures BodyOps(d, Out(r.packets[0][6..], r.packets[1..], false))
         == LoopOps(FlashJob(d.chip, Contents(r, start), FlashAddress(d), FlashAddress(d), 0, Counted(n) / 2))
  {
    hide LoopOps, Contents, Discard;
    ReachesContents(r, start);
    RangeIsCounted(d, n);
  }

  lemma CommandErases(p: Part, d: Device, start: word, end: word)
    requires !d.isSecure && d.command == COMMAND_PROG_START
    requires d.data == CommandBytes(COMMAND_PROG_START, 0, start, end)[1..]
    ensures CommandOps(p, d) == [Erase(Base(d, start))]
  {
    assert Word(LowByte(start), HighByte(start)) == start;
  }

  /** The chip erase command erases and then writes every page of the application section once, and touches no
      other. */
  lemma ChipEraseCycles(p: Part, d: Device, q: nat)
    requires p.Fits(d.chip) && d.command == 4 && d.data[0] == 0 && d.data[1] == 0xFF && q % |d.chip.buffer| == 0
    ensures OnPage(CommandOps(p, d), |d.chip.flash|, |d.chip.buffer|, q)
         == if q < p.bootStart then [Erase(q), Commit(q)] else []
  {
    hide OnPage, EraseOps;
    EraseCycles(d.chip, 0, p.bootStart, q);
  }

  lemma {:induction false} EraseCycles(c: Chip, from: nat, limit: nat, q: nat)
    requires Aligned(c, from) && Aligned(c, limit) && Aligned(c, q) && limit <= |c.flash|
    ensures OnPage(EraseOps(from, limit, |c.buffer|), |c.flash|, |c.buffer|, q)
         == if from <= q < limit then [Erase(q), Commit(q)] else []
    decreases limit - from
  {
    hide OnPage, PageAt;
    var size, page := |c.flash|, |c.buffer|;
    if from >= limit {
      NoOps(size, page, q);
    } else {
      PageNumbers(from, limit, page);
      PagesApart(from, q, page);
      EraseCycles(c, from + page, limit, q);
      var pair := [Erase(from)] + [Commit(from)];
      assert EraseOps(from, limit, page) == pair + EraseOps(from + page, limit, page);
      OnPageAppend(pair, EraseOps(from + page, limit, page), size, page, q);
      OnPageAppend([Erase(from)], [Commit(from)], size, page, q);
      OneOp(Erase(from), size, page, q);
      OneOp(Commit(from), size, page, q);
      AddressInPage(c, from, 0);
    }
  }

  // ---- The log is complete ----

  /** No operation falls on the page of byte `a`. */
  predicate Untouched(ops: seq<PageOp>, c: Chip, a: nat) {
    forall i :: 0 <= i < |ops| ==> PageAt(ops[i].addr, |c.flash|, |c.buffer|) != a - a % |c.buffer|
  }

  lemma UntouchedParts(x: seq<PageOp>, y: seq<PageOp>, c: Chip, a: nat)
    requires Untouched(x + y, c, a)
    ensures Untouched(x, c, a) && Untouched(y, c, a)
  {
    hide PageAt;
    assert forall i :: 0 <= i < |x| ==> (x + y)[i] == x[i];
    assert forall i :: 0 <= i < |y| ==> (x + y)[|x| + i] == y[i];
  }

  predicate SameSizes(c: Chip, e: Chip) {
    |c.flash| == |e.flash| && |c.buffer| == |e.buffer|
  }

  lemma InPage(a: nat, q: nat, page: nat)
    requires (page == 128 || page == 256) && q % page == 0 && q <= a < q + page
    ensures a - a % page == q
  {
    PageOffset(q, a - q, page);
  }

  lemma OtherPages(c: Chip, addr: nat, a: nat)
    requires a < |c.flash| && PageAt(addr, |c.flash|, |c.buffer|) != a - a % |c.buffer|
    ensures PageErase(c, addr).flash[a] == c.flash[a] && PageWrite(c, addr).flash[a] == c.flash[a]
  {
    PageFits(c, addr);
    var q := PageStart(c, addr);
    if q <= a < q + |c.buffer| {
      InPage(a, q, |c.buffer|);
    }
  }

  lemma WordKeepsOthers(j: FlashJob, a: nat)
    requires 0 < j.left && a < |j.chip.flash| && Untouched(WordOps(j), j.chip, a)
    ensures SameSizes(j.chip, ProgramWord(j).chip) && ProgramWord(j).chip.flash[a] == j.chip.flash[a]
  {
    hide PageErase, PageWrite, PageFill, PageAt;
    var ops := WordOps(j);
    if ops != [] {
      assert ops[0] == Commit(j.page);
      var filled := PageFill(j.chip, j.addr, Peek(j.out), Peek(Pop(j.out)));
      OtherPages(filled, j.page, a);
      if j.left > 1 {
        assert ops[1] == Erase(j.addr + 2);
        OtherPages(PageWrite(filled, j.page), j.addr + 2, a);
      }
    }
  }

  lemma {:induction false} LoopKeepsOthers(j: FlashJob, a: nat)
    requires a < |j.chip.flash| && Untouched(LoopOps(j), j.chip, a)
    ensures ProgramWords(j).chip.flash[a] == j.chip.flash[a]
    decreases j.left
  {
    hide ProgramWord, WordOps, Untouched;
    if j.left > 0 {
      var ready := j.(out := Ready(j.out));
      if !ready.out.detached {
        UntouchedParts(WordOps(ready), LoopOps(ProgramWord(ready)), j.chip, a);
        WordKeepsOthers(ready, a);
        SameUntouched(LoopOps(ProgramWord(ready)), j.chip, ProgramWord(ready).chip, a);
        LoopKeepsOthers(ProgramWord(ready), a);
      }
    }
  }

  lemma SameUntouched(ops: seq<PageOp>, c: Chip, e: Chip, a: nat)
    requires Untouched(ops, c, a) && SameSizes(c, e)
    ensures Untouched(ops, e, a)
  {
  }

  lemma {:induction false} EraseKeepsOthers(c: Chip, from: nat, limit: nat, a: nat)
    requires a < |c.flash| && Untouched(EraseOps(from, limit, |c.buffer|), c, a)
    ensures EraseFrom(c, from, limit).flash[a] == c.flash[a]
    decreases limit - from
  {
    hide PageErase, PageWrite, Untouched;
    if from < limit {
      var rest := EraseOps(from + |c.buffer|, limit, |c.buffer|);
      UntouchedParts([Erase(from), Commit(from)], rest, c, a);
      var erased := PageErase(c, from);
      var next := PageWrite(erased, from);
      FirstUntouched([Erase(from), Commit(from)], c, a);
      OtherPages(c, from, a);
      OtherPages(erased, from, a);
      SameUntouched(rest, c, next, a);
      EraseKeepsOthers(next, from + |c.buffer|, limit, a);
    }
  }

  lemma FirstUntouched(ops: seq<PageOp>, c: Chip, a: nat)
    requires ops != [] && Untouched(ops, c, a)
    ensures PageAt(ops[0].addr, |c.flash|, |c.buffer|) != a - a % |c.buffer|
  {
  }

  lemma CommandKeepsOthers(p: Part, d: Device, a: nat)
    requires p.Fits(d.chip) && a < |d.chip.flash| && Untouched(CommandOps(p, d), d.chip, a)
    ensures SameSizes(d.chip, ProcessCommand(p, d).chip) && ProcessCommand(p, d).chip.flash[a] == d.chip.flash[a]
  {
    hide EraseFrom, EraseOps, PageErase, Untouched, PageAt, BlankCheck, Part.Fits;
    if !Refused(d) {
      if d.command == COMMAND_PROG_START && d.data[0] == 0 {
        FirstUntouched(CommandOps(p, d), d.chip, a);
        OtherPages(d.chip, FlashAddress(LoadStartEndAddresses(d)), a);
      } else if d.command == COMMAND_WRITE && d.data[0] == 0 && d.data[1] == 0xFF {
        EraseKeepsOthers(d.chip, 0, p.bootStart, a);
      } else if d.command == COMMAND_DISP_DATA {
        BlankCheckKeepsChip(p, d);
      }
    }
  }

  lemma BodyKeepsOthers(d: Device, o: Out, a: nat)
    requires a < |d.chip.flash| && Untouched(BodyOps(d, o), d.chip, a)
    ensures DnloadBody(d, o).0.chip.flash[a] == d.chip.flash[a]
  {
    hide LoopOps, ProgramWords, ProgramBytes, Discard, Untouched;
    if d.state == DFU_DNLOAD_IDLE && d.dataSize != 0 && d.data[0] == 0 {
      var o1 := Discard(Discard(o, FILLER_BYTES), d.startAddr % ENDPOINT_SIZE);
      LoopKeepsOthers(FlashJob(d.chip, o1, FlashAddress(d), FlashAddress(d), 0, RangeLength(d) / 2), a);
    }
  }

  lemma ExitKeepsOthers(p: Part, d: Device, a: nat)
    requires p.Fits(d.chip) && a < |d.chip.flash| && Untouched(ExitOps(p, d), d.chip, a)
    ensures SameSizes(d.chip, FinishExit(p, d).chip) && FinishExit(p, d).chip.flash[a] == d.chip.flash[a]
  {
    hide ProcessCommand, CommandOps, Untouched;
    if d.waitForExit {
      CommandKeepsOthers(p, d, a);
    }
  }

  /** Flash changes only through the operations listed: whatever the request, a byte whose page none of them
      falls on keeps its value. */
  lemma FlashChangesOnlyAsListed(p: Part, d: Device, r: Request, a: nat)
    requires p.Fits(d.chip) && a < |d.chip.flash| && Untouched(HandleOps(p, d, r), d.chip, a)
    ensures Handle(p, d, r).0.chip.flash[a] == d.chip.flash[a]
  {
    hide Dnload, DnloadOps, Upload, Untouched;
    if r.Class? && r.bRequest == REQ_DNLOAD {
      DnloadKeepsOthers(p, d.(dataSize := r.wLength), r.packets, a);
    } else if r.Class? && r.bRequest == REQ_UPLOAD {
      UploadKeepsChip(d.(dataSize := r.wLength));
    }
  }

  lemma UploadKeepsChip(d: Device)
    ensures Upload(d).0.chip == d.chip
  {
    hide UploadFlash, UploadEeprom;
  }

  lemma DnloadKeepsOthers(p: Part, d: Device, packets: seq<Packet>, a: nat)
    requires p.Fits(d.chip) && a < |d.chip.flash| && Untouched(DnloadOps(p, d, packets), d.chip, a)
    ensures Dnload(p, d, packets).0.chip.flash[a] == d.chip.flash[a]
  {
    hide FinishExit, ProcessCommand, DnloadBody, LoadCommand, CommandOps, BodyOps, ExitOps, Untouched;
    var c := d.chip;
    var d1 := FinishExit(p, d);
    if d1.dataSize == 0 {
      var o := Out([], packets, false);
      UntouchedParts(ExitOps(p, d), BodyOps(d1, o), c, a);
      ExitKeepsOthers(p, d, a);
      SameUntouched(BodyOps(d1, o), c, d1.chip, a);
      BodyKeepsOthers(d1, o, a);
    } else if packets == [] {
      ExitKeepsOthers(p, d, a);
    } else {
      var (d2, o2) := LoadCommand(d1, NextPacket(Out([], packets, false)));
      var d3 := ProcessCommand(p, d2);
      UntouchedParts(ExitOps(p, d) + CommandOps(p, d2), BodyOps(d3, o2), c, a);
      UntouchedParts(ExitOps(p, d), CommandOps(p, d2), c, a);
      ExitKeepsOthers(p, d, a);
      SameUntouched(CommandOps(p, d2), c, d2.chip, a);
      CommandKeepsOthers(p, d2, a);
      SameUntouched(BodyOps(d3, o2), c, d3.chip, a);
      BodyKeepsOthers(d3, o2, a);
    }
  }
}
