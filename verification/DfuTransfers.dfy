/** How DFU transfers end: what an UPLOAD leaves behind, when a DNLOAD is stalled, when a download reaches its status
    stage, and what one that is broken off has written. */
module DfuTransfers {
  import opened Avr
  import opened Endpoint
  import opened Pages
  import opened Dfu
  import opened DfuDownload
  import opened DfuRoundTrip
  import opened DfuSessions
  import opened DfuBuffer
  import opened DfuStatus

  // ---- After an upload ----

  /** An UPLOAD ends the upload state and moves the start address to the end of a flash range, or past the end of an
      EEPROM range; outside that state it changes nothing. */
  lemma UploadEnds(p: Part, d: Device, w: word)
    requires p.Fits(d.chip)
    ensures var (e, response) := Handle(p, d, Class(2, w, []));
            && e == d.(dataSize := w, state := e.state, startAddr := e.startAddr)
            && e.state == (if d.state == 9 then 2 else d.state)
            && e.startAddr == (if d.state == 9 && d.data[0] == 0 then d.endAddr
                               else if d.state == 9 && d.data[0] == 2 then (d.endAddr + 1) % 0x1_0000
                               else d.startAddr)
            && !response.stalled && response.finished
  {
    hide UploadFlash, UploadEeprom, SendBank;
    PastEnd(d.startAddr, d.endAddr);
  }

  lemma PastEnd(start: word, end: word)
    ensures Plus(start, (end - start + 1) % 0x1_0000) == (end + 1) % 0x1_0000
  {
  }

  /** A second UPLOAD gets the last response byte when the first one was a transfer, and the same answer again when it
      was not. */
  lemma UploadTwice(p: Part, d: Device, w: word)
    requires p.Fits(d.chip) && Running(d)
    ensures var rs := Responses(p, d, [Class(2, w, []), Class(2, w, [])]);
            && |rs| == 2
            && rs[1].packets == if d.state == 9 then [[d.responseByte]] else rs[0].packets
  {
    hide Handle;
    var r := Class(2, w, []);
    UploadEnds(p, d, w);
    TwoReplies(p, d, r, r);
    if d.state != 9 {
      AnswersIdle(p, d, w);
    }
    AnswersIdle(p, Handle(p, d, r).0, w);
  }

  lemma AnswersIdle(p: Part, d: Device, w: word)
    requires p.Fits(d.chip) && d.state != 9
    ensures Handle(p, d, Class(2, w, [])).1.packets == [IdleUpload(d)]
  {
  }

  /** A blank check that passes while a range is selected leaves the upload state on but no memory selected: the
      UPLOAD then sends an empty packet. */
  lemma CheckSpoilsSelection(p: Part, d: Device, w: word)
    requires p.Fits(d.chip) && !d.isSecure && !d.waitForExit && d.runBootloader && d.state == 9
    requires p.bootStart <= 0x100_0000 && !AnyNonBlank(p, d.chip)
    ensures var rs := Responses(p, d, [BLANK_CHECK, Class(2, w, [])]);
            |rs| == 2 && rs[1] == Response([[]], false, true)
  {
    hide Dnload, AnyNonBlank;
    BlankCheckRequest(p, d);
    TwoReplies(p, d, BLANK_CHECK, Class(2, w, []));
  }

  // ---- Requests nobody answers ----

  /** Requests of another type, and class requests other than 1 to 6, are left to the library: no memory, state, status
      or flag changes. */
  lemma OthersIgnored(p: Part, d: Device, r: Request)
    requires p.Fits(d.chip) && (r.Class? ==> r.bRequest == 0 || 6 < r.bRequest)
    ensures var (e, response) := Handle(p, d, r);
            e == d.(dataSize := e.dataSize) && response == Response([], false, false)
  {
  }

  // ---- Stalls ----

  /** In secure mode only READ and the chip erase are let through. */
  predicate Barred(d: Device) {
    d.isSecure && d.command != 5 && !(d.command == 4 && d.data[0] == 0 && d.data[1] == 0xFF)
  }

  /** A request is stalled exactly when it is a DNLOAD that runs a barred command: the last one, when an exit is
      pending, or the one it brings. */
  lemma StallsExactly(p: Part, d: Device, r: Request)
    requires p.Fits(d.chip)
    ensures Handle(p, d, r).1.stalled <==>
              && r.Class? && r.bRequest == 1
              && (|| (d.waitForExit && Barred(d))
                  || (&& r.wLength != 0 && r.packets != []
                      && Barred(LoadCommand(FinishExit(p, d.(dataSize := r.wLength)),
                                            Out(r.packets[0], r.packets[1..], false)).0)))
  {
    hide LoadCommand, ProcessCommand, DnloadBody, Part.Fits, UploadFlash, UploadEeprom, SendBank;
    if r.Class? {
      ExitKeepsSize(p, d.(dataSize := r.wLength));
    }
  }

  lemma ExitKeepsSize(p: Part, d: Device)
    requires p.Fits(d.chip)
    ensures FinishExit(p, d).dataSize == d.dataSize
  {
    hide ProcessCommand;
    CommandKeepsSize(p, d);
  }

  /** A device that is not in secure mode never stalls a request, over whole sessions. */
  lemma {:induction false} UnlockedNeverStalls(p: Part, d: Device, rs: seq<Request>)
    requires p.Fits(d.chip) && !d.isSecure
    ensures forall i :: 0 <= i < |Responses(p, d, rs)| ==> !Responses(p, d, rs)[i].stalled
    decreases |rs|
  {
    hide Handle, LoadCommand, FinishExit;
    if rs != [] && Running(d) {
      var e := Handle(p, d, rs[0]).0;
      assert !e.isSecure by {
        StaysUnlocked(p, d, [rs[0]]);
        assert After(p, d, [rs[0]]) == After(p, e, []);
      }
      if rs[0].Class? {
        ExitStaysUnlocked(p, d.(dataSize := rs[0].wLength));
      }
      StallsExactly(p, d, rs[0]);
      UnlockedNeverStalls(p, e, rs[1..]);
    }
  }

  lemma ExitStaysUnlocked(p: Part, d: Device)
    requires p.Fits(d.chip) && !d.isSecure
    ensures !FinishExit(p, d).isSecure
  {
    hide EraseFrom, PageErase, FirstNonBlank;
  }

  // ---- Downloads that end, and downloads that do not ----

  /** None of `k` byte reads waits for a packet that never comes. */
  predicate HasBytes(o: Out, k: nat)
    decreases k
  {
    k == 0 || (!Ready(o).detached && HasBytes(Pop(Ready(o)), k - 1))
  }

  lemma {:induction false} WordLoopEnds(j: FlashJob)
    ensures ProgramWords(j).left == 0 <==> HasWords(j.out, j.left)
    decreases j.left
  {
    hide Ready, PageFill, PageWrite, PageErase;
    if j.left > 0 {
      var ready := j.(out := Ready(j.out));
      if !ready.out.detached {
        WordLoopEnds(ProgramWord(ready));
      }
    }
  }

  lemma {:induction false} ByteLoopEnds(j: EepromJob)
    ensures ProgramBytes(j).left == 0 <==> HasBytes(j.out, j.left)
    decreases j.left
  {
    hide Ready, WriteEeprom;
    if j.left > 0 {
      var ready := j.(out := Ready(j.out));
      if !ready.out.detached {
        ByteLoopEnds(ProgramByte(ready));
      }
    }
  }

  /** A download reaches its status stage exactly when its packets supply every word of flash, or every byte of EEPROM,
      that it counts; otherwise the handler returns while it waits. */
  lemma DownloadEndsExactly(p: Part, d: Device, r: Request, start: word, n: nat, memory: byte)
    requires p.Fits(d.chip) && !d.isSecure && !d.waitForExit
    requires (memory == 0 || memory == 1) && IsDownload(r, memory, start, n)
    ensures var o := Contents(r, start);
            Handle(p, d, r).1.finished
            <==> if memory == 0 then HasWords(o, Counted(n) / 2) else HasBytes(o, Counted(n))
  {
    hide ProgramWords, ProgramBytes, HasWords, HasBytes, Handle, Discard, PageErase, Contents;
    var o := Contents(r, start);
    ReachesContents(r, start);
    var d2 := Ranged(d, r, start, n);
    RangeIsCounted(d2, n);
    if memory == 0 {
      BeginsFlash(p, d, r, start, n);
      var e := d2.(chip := PageErase(d.chip, Base(d, start)));
      WordLoopEnds(FlashJob(e.chip, o, FlashAddress(e), FlashAddress(e), 0, Counted(n) / 2));
    } else {
      BeginsEeprom(p, d, r, start, n);
      ByteLoopEnds(EepromJob(d2.chip, o, start, Counted(n)));
    }
  }

  /** An EEPROM download broken off after some of its bytes has written just those, and its start address stands behind
      them. */
  lemma BrokenOffEeprom(p: Part, d: Device, r: Request, start: word, n: nat, bytes: seq<byte>)
    requires p.Fits(d.chip) && !d.isSecure && !d.waitForExit
    requires IsDownload(r, 1, start, n) && start % 32 == 0 && n < 0x1_0000 && start + n <= |d.chip.eeprom|
    requires NonEmptyPackets(r.packets[1..]) && bytes == Flatten(r.packets[1..]) && |bytes| < n
    ensures Handle(p, d, r)
         == (Ranged(d, r, start, n).(startAddr := start + |bytes|,
                                     chip := d.chip.(eeprom := Splice(d.chip.eeprom, start, bytes))),
             Response([], false, false))
  {
    hide ProgramBytes, Handle, Discard;
    var o := Out([], r.packets[1..], false);
    BeginsEeprom(p, d, r, start, n);
    ReachesContents(r, start);
    assert Contents(r, start) == o by { DiscardWithinBank(o, 0); }
    assert Stream(o) == bytes;
    var d2 := Ranged(d, r, start, n);
    RangeIsCounted(d2, n);
    BytesRunOut(EepromJob(d.chip, o, start, n));
  }

  lemma {:induction false} BytesRunOut(j: EepromJob)
    requires !j.out.detached && NonEmptyPackets(j.out.queue) && |Stream(j.out)| < j.left
    requires j.addr + j.left <= |j.chip.eeprom| && j.addr + j.left <= 0x1_0000
    ensures var r := ProgramBytes(j);
            && r.left == j.left - |Stream(j.out)| && r.addr == j.addr + |Stream(j.out)|
            && r.chip == j.chip.(eeprom := Splice(j.chip.eeprom, j.addr, Stream(j.out)))
    decreases j.left
  {
    hide Stream, Ready, Plus, Splice;
    if Stream(j.out) == [] {
      NothingComes(j.out);
      EmptySplice(j.chip.eeprom, j.addr);
    } else {
      TakesByte(j);
      BytesRunOut(ProgramByte(j.(out := Ready(j.out))));
      SpliceFirst(j.chip.eeprom, j.addr, Stream(j.out));
    }
  }

  lemma NothingComes(o: Out)
    requires Stream(o) == [] && NonEmptyPackets(o.queue)
    ensures Ready(o).detached
  {
    assert o.queue == [];
  }

  lemma TakesByte(j: EepromJob)
    requires !j.out.detached && NonEmptyPackets(j.out.queue) && Stream(j.out) != [] && 0 < j.left
    requires j.addr + 1 < 0x1_0000 && j.addr < |j.chip.eeprom|
    ensures var next := ProgramByte(j.(out := Ready(j.out)));
            && !Ready(j.out).detached && !next.out.detached && NonEmptyPackets(next.out.queue)
            && Stream(next.out) == Stream(j.out)[1..] && next.left == j.left - 1 && next.addr == j.addr + 1
            && next.chip == j.chip.(eeprom := j.chip.eeprom[j.addr := Stream(j.out)[0]])
  {
    hide Stream;
    ReadByte(j.out);
    SmallMod(j.addr, |j.chip.eeprom|);
  }

  lemma EmptySplice(cells: seq<byte>, at: nat)
    requires at <= |cells|
    ensures Splice(cells, at, []) == cells
  {
  }

  lemma SpliceFirst(cells: seq<byte>, at: nat, values: seq<byte>)
    requires values != [] && at + |values| <= |cells|
    ensures Splice(cells[at := values[0]], at + 1, values[1..]) == Splice(cells, at, values)
  {
  }
}
