/** What the host can tell of the page buffer, which it cannot read: it is blank as long as every download ran to
    its end, and then chip erases and downloads are exact. */
module DfuBuffer {
  import opened Avr
  import opened Endpoint
  import opened Pages
  import opened Dfu
  import opened DfuFlashLoop
  import opened DfuDownload
  import opened DfuLeftovers
  import opened DfuSecure
  import opened DfuExit

  // ---- One request ----

  lemma {:induction false} CompletedLoopBlanks(j: FlashJob)
    requires 0 < j.left && ProgramWords(j).left == 0
    ensures BlankBuffer(ProgramWords(j).chip)
    decreases j.left
  {
    hide PageFill, PageWrite, PageErase, Ready, Peek, Pop;
    var ready := j.(out := Ready(j.out));
    if j.left > 1 {
      CompletedLoopBlanks(ProgramWord(ready));
    }
  }

  lemma CommandKeepsBlank(p: Part, d: Device)
    requires p.Fits(d.chip) && BlankBuffer(d.chip)
    ensures BlankBuffer(ProcessCommand(p, d).chip)
  {
    hide EraseFrom, PageErase, BlankCheck;
    EraseFromBlankBuffer(d.chip, 0, p.bootStart);
    assert BlankCheck(p, d).chip == d.chip by { BlankCheckKeepsChip(p, d); }
  }

  lemma BodyKeepsBlank(d: Device, o: Out)
    requires BlankBuffer(d.chip) && DnloadBody(d, o).1
    ensures BlankBuffer(DnloadBody(d, o).0.chip)
  {
    hide ProgramWords, ProgramBytes, Discard;
    var o1 := Discard(Discard(o, FILLER_BYTES), d.startAddr % ENDPOINT_SIZE);
    var job := FlashJob(d.chip, o1, FlashAddress(d), FlashAddress(d), 0, RangeLength(d) / 2);
    if job.left == 0 {
      NoWordsLeft(job);
    } else if ProgramWords(job).left == 0 {
      CompletedLoopBlanks(job);
    }
  }

  /** The page buffer is blank between requests: only a download the host broke off can leave words in it. */
  lemma FinishedRequestLeavesBufferBlank(p: Part, d: Device, r: Request)
    requires p.Fits(d.chip) && BlankBuffer(d.chip)
    ensures !IsDnload(r) || Handle(p, d, r).1.finished ==> BlankBuffer(Handle(p, d, r).0.chip)
  {
    hide ProcessCommand, LoadCommand, DnloadBody, UploadFlash, UploadEeprom;
    if IsDnload(r) && Handle(p, d, r).1.finished {
      var d0 := d.(dataSize := r.wLength);
      CommandKeepsBlank(p, d0);
      var d1 := FinishExit(p, d0);
      if d1.dataSize == 0 {
        BodyKeepsBlank(d1, Out([], r.packets, false));
      } else {
        var (d2, o2) := LoadCommand(d1, NextPacket(Out([], r.packets, false)));
        CommandKeepsBlank(p, d2);
        BodyKeepsBlank(ProcessCommand(p, d2), o2);
      }
    }
  }

  // ---- Whole sessions ----

  /** Every DNLOAD the session got to reached its status stage. */
  predicate DownloadsFinished(p: Part, d: Device, rs: seq<Request>)
    requires p.Fits(d.chip)
  {
    var responses := Responses(p, d, rs);
    forall i :: 0 <= i < |responses| && i < |rs| && IsDnload(rs[i]) ==> responses[i].finished
  }

  lemma FirstFinished(p: Part, d: Device, rs: seq<Request>)
    requires p.Fits(d.chip) && rs != [] && Running(d) && DownloadsFinished(p, d, rs)
    ensures IsDnload(rs[0]) ==> Handle(p, d, rs[0]).1.finished
    ensures DownloadsFinished(p, Handle(p, d, rs[0]).0, rs[1..])
  {
    hide Handle, IsDnload;
    var (e, response) := Handle(p, d, rs[0]);
    var all, rest := Responses(p, d, rs), Responses(p, e, rs[1..]);
    assert all == [response] + rest;
    assert all[0] == response;
    forall i | 0 <= i < |rest| && i < |rs[1..]| && IsDnload(rs[1..][i])
      ensures rest[i].finished
    {
      assert all[i + 1] == rest[i] && rs[i + 1] == rs[1..][i];
    }
  }

  /** The page buffer is blank after every session whose downloads all finished. */
  lemma {:induction false} BufferBlankAfter(p: Part, d: Device, rs: seq<Request>)
    requires p.Fits(d.chip) && BlankBuffer(d.chip) && DownloadsFinished(p, d, rs)
    ensures BlankBuffer(After(p, d, rs).chip)
    decreases |rs|
  {
    hide Handle, DownloadsFinished, BlankBuffer, IsDnload;
    if rs != [] && Running(d) {
      FirstFinished(p, d, rs);
      FinishedRequestLeavesBufferBlank(p, d, rs[0]);
      BufferBlankAfter(p, Handle(p, d, rs[0]).0, rs[1..]);
    }
  }

  lemma CommandKeepsSize(p: Part, d: Device)
    requires p.Fits(d.chip)
    ensures ProcessCommand(p, d).dataSize == d.dataSize
  {
    hide EraseFrom, PageErase, FirstNonBlank;
  }

  /** A chip erase request on any device with a blank page buffer, secure or not, with an exit pending or not. */
  lemma ErasesWhatever(p: Part, d: Device)
    requires p.Fits(d.chip) && BlankBuffer(d.chip)
    ensures var e := Handle(p, d, CHIP_ERASE).0;
            !e.isSecure && e.chip.flash[..p.bootStart] == Blank(p.bootStart)
  {
    hide LoadCommand, EraseFrom, ReceiveFirmware, ProcessCommand, BlankBuffer, Part.Fits;
    var d0 := d.(dataSize := 3);
    CommandKeepsSize(p, d0);
    CommandKeepsBlank(p, d0);
    var d1 := FinishExit(p, d0);
    var o := NextPacket(Out([], CHIP_ERASE.packets, false));
    LoadsChipErase(d1, o);
    var d2 := LoadCommand(d1, o).0;
    EraseCommand(p, d2);
  }

  lemma EraseCommand(p: Part, d: Device)
    requires p.Fits(d.chip) && BlankBuffer(d.chip)
    requires d.command == COMMAND_WRITE && d.data[0] == 0 && d.data[1] == 0xFF
    ensures var e := ProcessCommand(p, d);
            && !e.isSecure && e.chip.flash[..p.bootStart] == Blank(p.bootStart)
            && e.dataSize == d.dataSize
  {
    hide EraseFrom;
    ChipErase(p, d.chip);
  }

  /** From power-up, after any session whose downloads all finished, a chip erase blanks the whole application. */
  lemma ChipEraseAfterSession(p: Part, secure: bool, c: Chip, rs: seq<Request>)
    requires p.Fits(c) && BlankBuffer(c) && DownloadsFinished(p, PowerUp(secure, c), rs)
    ensures var e := Handle(p, After(p, PowerUp(secure, c), rs), CHIP_ERASE).0;
            !e.isSecure && e.chip.flash[..p.bootStart] == Blank(p.bootStart)
  {
    hide Handle, After, DownloadsFinished;
    BufferBlankAfter(p, PowerUp(secure, c), rs);
    ErasesWhatever(p, After(p, PowerUp(secure, c), rs));
  }

  /** And a page-aligned download of whole words leaves the payload, blanks to the end of its last page, and nothing
      else changed. */
  lemma DownloadAfterSession(p: Part, secure: bool, c: Chip, rs: seq<Request>,
        r: Request, start: word, payload: seq<byte>)
    requires p.Fits(c) && BlankBuffer(c) && DownloadsFinished(p, PowerUp(secure, c), rs)
    requires IsFlashDownload(r, start, payload) && |payload| % 2 == 0 && |payload| < 0x1_0000
    requires var d := After(p, PowerUp(secure, c), rs);
             Accepts(d, start, |payload|) && Aligned(d.chip, Base(d, start))
    ensures var d := After(p, PowerUp(secure, c), rs);
            Handle(p, d, r).0.chip == Imaged(d.chip, Base(d, start), payload)
  {
    hide Handle, After, DownloadsFinished, IsFlashDownload, Imaged;
    BufferBlankAfter(p, PowerUp(secure, c), rs);
    var d := After(p, PowerUp(secure, c), rs);
    FlashDownloadExact(p, d, r, start, payload);
    if |payload| < |d.chip.buffer| {
      assert d.chip.buffer[|payload|..] == Blank(|d.chip.buffer| - |payload|);
    }
  }
}
