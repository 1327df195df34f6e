/** The DFU bootloader as the source writes it: static variables updated by handlers that loop over
    words and packets. Every method is proved to compute the function of the same purpose in Dfu. */
module DfuBootloader {
  import opened Avr
  import opened Endpoint
  import opened Pages
  import opened Dfu
  import opened DfuPageOps

  class Bootloader {
    const part: Part

    var isSecure: bool
    var runBootloader: bool
    var waitForExit: bool
    var state: byte
    var status: byte
    var command: byte
    var data: Params
    var dataSize: word
    var responseByte: byte
    var appStart: word
    var bootKeySet: bool
    var flash64KBPage: byte
    var startAddr: word
    var endAddr: word

    // Hardware the handlers act on
    var chip: Chip
    var out: Out
    var stalled: bool

    // Every page erase and page write so far
    ghost var ops: seq<PageOp>

    ghost function View(): Device
      reads this
    {
      Device(isSecure, runBootloader, waitForExit, state, status, command, data, dataSize, responseByte,
             appStart, bootKeySet, flash64KBPage, startAddr, endAddr, chip)
    }

    ghost predicate Valid()
      reads this
    {
      part.Fits(chip)
    }

    constructor (part: Part, secureMode: bool, chip: Chip)
      requires part.Fits(chip)
      ensures Valid() && View() == PowerUp(secureMode, chip) && this.part == part && ops == []
    {
      this.part := part;
      isSecure, runBootloader, waitForExit := secureMode, true, false;
      state, status := DFU_IDLE, STATUS_OK;
      command, data, dataSize := 0, [0, 0, 0, 0, 0], 0;
      responseByte, appStart, bootKeySet, flash64KBPage := 0, 0, false, 0;
      startAddr, endAddr := 0, 0;
      this.chip := chip;
      out := Out([], [], false);
      stalled := false;
      ops := [];
    }

    /** main: handles requests while the bootloader is running or waiting to exit. */
    method Serve(requests: seq<Request>) returns (responses: seq<Response>)
      requires Valid()
      modifies this
      ensures Valid()
      ensures View() == After(part, old(View()), requests)
      ensures responses == Responses(part, old(View()), requests)
    {
      hide Handle, HandleOps, Part.Fits, After, Responses;
      responses := [];
      assert requests[0..] == requests && [] + Responses(part, View(), requests) == Responses(part, View(), requests);
      var i := 0;
      while i < |requests| && (runBootloader || waitForExit)
        invariant 0 <= i <= |requests|
        invariant Valid()
        invariant After(part, old(View()), requests) == After(part, View(), requests[i..])
        invariant Responses(part, old(View()), requests) == responses + Responses(part, View(), requests[i..])
      {
        ghost var rest := requests[i..];
        assert rest[0] == requests[i] && rest[1..] == requests[i + 1..];
        NextRequest(part, View(), rest);
        var response := ControlRequest(requests[i]);
        Reassociate(responses, response, Responses(part, View(), rest[1..]));
        responses := responses + [response];
        i := i + 1;
      }
      NoMoreRequests(part, View(), requests[i..]);
      assert responses + [] == responses;
    }

    method ControlRequest(request: Request) returns (response: Response)
      requires Valid()
      modifies this
      ensures Valid()
      ensures View() == Handle(part, old(View()), request).0
      ensures response == Handle(part, old(View()), request).1
      ensures ops == old(ops) + HandleOps(part, old(View()), request)
    {
      hide Dnload, Upload, DnloadOps, Part.Fits;
      stalled := false;
      if request.Foreign? {
        return NO_RESPONSE;
      }
      dataSize := request.wLength;
      if request.bRequest == REQ_DNLOAD {
        var finished := HandleDnload(request.packets);
        return Response([], stalled, finished);
      } else if request.bRequest == REQ_UPLOAD {
        var packets := HandleUpload();
        return Response(packets, false, true);
      } else if request.bRequest == REQ_GETSTATUS {
        return Response([[status, 0, 0, 0, state, 0]], false, true);
      } else if request.bRequest == REQ_CLRSTATUS {
        status := STATUS_OK;
        return Response([], false, true);
      } else if request.bRequest == REQ_GETSTATE {
        return Response([[state]], false, true);
      } else if request.bRequest == REQ_ABORT {
        state := DFU_IDLE;
        return Response([], false, true);
      }
      return NO_RESPONSE;
    }

    method HandleDnload(packets: seq<Packet>) returns (finished: bool)
      requires Valid() && !stalled
      modifies this
      ensures Valid()
      ensures View() == Dnload(part, old(View()), packets).0
      ensures Response([], stalled, finished) == Dnload(part, old(View()), packets).1
      ensures ops == old(ops) + DnloadOps(part, old(View()), packets)
    {
      hide ProcessCommand, LoadCommand, DnloadBody, FinishExit, CommandOps, BodyOps, ExitOps, Part.Fits;
      out := Out([], packets, false);

      ExitIfWaiting();

      if dataSize != 0 {
        out := NextPacket(out);
        if out.detached {
          return false;
        }
        ReadCommand();
        ProcessBootloaderCommand();
      }

      finished := ContinueDownload();
    }

    method ExitIfWaiting()
      requires Valid() && !stalled
      modifies this
      ensures Valid() && out == old(out)
      ensures View() == FinishExit(part, old(View()))
      ensures stalled == (old(waitForExit) && Refused(old(View())))
      ensures ops == old(ops) + ExitOps(part, old(View()))
    {
      hide ProcessCommand, CommandOps;
      if waitForExit {
        ProcessBootloaderCommand();
        waitForExit := false;
      }
    }

    method ContinueDownload() returns (finished: bool)
      requires Valid()
      modifies this`state, this`chip, this`startAddr, this`out, this`ops
      ensures Valid()
      ensures View() == DnloadBody(old(View()), old(out)).0
      ensures finished == DnloadBody(old(View()), old(out)).1
      ensures ops == old(ops) + BodyOps(old(View()), old(out))
    {
      hide ReceiveFirmware, FirmwareOps;
      finished := true;
      if state == DFU_DNLOAD_IDLE {
        if dataSize == 0 {
          state := DFU_IDLE;
        } else {
          finished := ReceiveMemory();
          if finished {
            DiscardFillerBytes(SUFFIX_BYTES);
          }
        }
      }
    }

    /** The first bytes of the data stage: the command and as many parameters as the bank holds. */
    method ReadCommand()
      requires Valid() && !out.detached
      modifies this`command, this`data, this`dataSize, this`out
      ensures View() == LoadCommand(old(View()), old(out)).0
      ensures out == LoadCommand(old(View()), old(out)).1
    {
      command := Peek(out);
      out := Pop(out);
      dataSize := Decremented(dataSize);
      ReadParameters();
    }

    method ReadParameters()
      modifies this`data, this`dataSize, this`out
      ensures View() == LoadParams(old(View()), old(out), 0).0
      ensures out == LoadParams(old(View()), old(out), 0).1
    {
      var i := 0;
      ghost var whole := LoadParams(View(), out, 0);
      while i < 5 && out.bank != []
        invariant 0 <= i <= 5
        invariant whole == LoadParams(View(), out, i)
      {
        data := data[i := Peek(out)];
        out := Pop(out);
        dataSize := Decremented(dataSize);
        i := i + 1;
      }
    }

    method DiscardFillerBytes(count: nat)
      modifies this`out
      ensures out == Discard(old(out), count)
    {
      var n := count;
      while n > 0
        invariant Discard(out, n) == Discard(old(out), count)
      {
        if out.bank == [] {
          out := NextPacket(out);
          if out.detached {
            return;
          }
        } else {
          out := Pop(out);
        }
        n := n - 1;
      }
    }

    method ReceiveMemory() returns (finished: bool)
      requires Valid()
      modifies this`chip, this`startAddr, this`out, this`ops
      ensures Valid()
      ensures View() == ReceiveFirmware(old(View()), old(out)).0
      ensures finished == ReceiveFirmware(old(View()), old(out)).1
      ensures ops == old(ops) + FirmwareOps(old(View()), old(out))
    {
      hide Discard, ProgramWords, ProgramBytes, LoopOps, Part.Fits, ReceiveFirmware, FirmwareOps;
      FirmwareCases(View(), out);
      SkipFillers();
      var bytesRemaining: word := (endAddr - startAddr + 1) % 0x1_0000;
      if data[0] == 0 {
        finished := WriteFlash(bytesRemaining / 2);
      } else {
        finished := WriteEepromBytes(bytesRemaining);
      }
    }

    /** The filler in front of the memory contents. */
    method SkipFillers()
      modifies this`out
      ensures out == Discard(Discard(old(out), FILLER_BYTES), startAddr % ENDPOINT_SIZE)
    {
      hide Discard;
      DiscardFillerBytes(FILLER_BYTES);
      DiscardFillerBytes(startAddr % ENDPOINT_SIZE);
    }

    method WriteFlash(words: nat) returns (finished: bool)
      requires Valid()
      modifies this`chip, this`startAddr, this`out, this`ops
      ensures Valid()
      ensures ops == old(ops) + LoopOps(FlashJobFor(old(View()), old(out), words))
      ensures var done := ProgramWords(FlashJobFor(old(View()), old(out), words));
              && finished == (done.left == 0)
              && chip == (if finished then RwwEnable(done.chip) else done.chip)
              && startAddr == (if finished then endAddr else old(startAddr))
    {
      hide PageErase, PageFill, PageWrite, ProgramWords, LoopOps, Part.Fits, Peek, Pop;
      var wordsRemaining := words;
      var currFlashAddress: nat := flash64KBPage * 0x1_0000 + startAddr;
      var pageStartAddress := currFlashAddress;
      var wordsInFlashPage := 0;
      ghost var job := FlashJob(chip, out, currFlashAddress, currFlashAddress, 0, words);
      ghost var now := job;

      while wordsRemaining > 0
        invariant |chip.flash| == |old(chip).flash| && |chip.buffer| == |old(chip).buffer|
                  && startAddr == old(startAddr)
        invariant now == FlashJob(chip, out, currFlashAddress, pageStartAddress, wordsInFlashPage, wordsRemaining)
        invariant ProgramWords(now) == ProgramWords(job)
        invariant ops + LoopOps(now) == old(ops) + LoopOps(job)
      {
        OneTurn(now);
        if out.bank == [] {
          out := NextPacket(out);
        }
        if out.detached {
          SameFit(part, old(chip), chip);
          return false;
        }
        ghost var before := now.(out := out);
        ghost var logged := ops;
        wordsRemaining := wordsRemaining - 1;

        chip := PageFill(chip, currFlashAddress, Peek(out), Peek(Pop(out)));
        out := Pop(Pop(out));
        wordsInFlashPage := wordsInFlashPage + 1;
        currFlashAddress := currFlashAddress + 2;

        if wordsInFlashPage == |chip.buffer| / 2 || wordsRemaining == 0 {
          FinishPage(pageStartAddress, currFlashAddress, wordsRemaining > 0);
          if wordsRemaining > 0 {
            pageStartAddress := currFlashAddress;
            wordsInFlashPage := 0;
          }
        }
        now := ProgramWord(before);
        assert ops == logged + WordOps(before);
        assert ops + LoopOps(now) == logged + (WordOps(before) + LoopOps(now));
      }
      NoTurn(now);
      startAddr := endAddr;
      chip := RwwEnable(chip);
      SameFit(part, old(chip), chip);
      finished := true;
    }

    /** Commits the page that has been filled, and erases the next one if there is more to come. */
    method FinishPage(page: nat, next: nat, more: bool)
      modifies this`chip, this`ops
      ensures var written := PageWrite(old(chip), page);
              chip == if more then PageErase(written, next) else written
      ensures ops == old(ops) + if more then [Commit(page), Erase(next)] else [Commit(page)]
    {
      hide PageErase, PageWrite;
      chip := PageWrite(chip, page);
      ops := ops + [Commit(page)];
      if more {
        chip := PageErase(chip, next);
        ops := ops + [Erase(next)];
      }
    }

    method WriteEepromBytes(bytes: nat) returns (finished: bool)
      requires Valid()
      modifies this`chip, this`startAddr, this`out
      ensures Valid()
      ensures var done := ProgramBytes(EepromJob(old(chip), old(out), old(startAddr), bytes));
              chip == done.chip && startAddr == done.addr && finished == (done.left == 0)
    {
      var bytesRemaining := bytes;
      while bytesRemaining > 0
        invariant Valid()
        invariant ProgramBytes(EepromJob(chip, out, startAddr, bytesRemaining))
               == ProgramBytes(EepromJob(old(chip), old(out), old(startAddr), bytes))
      {
        if out.bank == [] {
          out := NextPacket(out);
        }
        if out.detached {
          return false;
        }
        bytesRemaining := bytesRemaining - 1;
        chip := WriteEeprom(chip, startAddr, Peek(out));
        out := Pop(out);
        startAddr := Plus(startAddr, 1);
      }
      finished := true;
    }

    method HandleUpload() returns (packets: seq<Packet>)
      requires Valid()
      modifies this`startAddr, this`state
      ensures Valid()
      ensures View() == Upload(old(View())).0
      ensures Response(packets, false, true) == Upload(old(View())).1
    {
      if state != DFU_UPLOAD_IDLE {
        if state == DFU_ERROR && data[0] == 1 {
          return [[LowByte(startAddr), HighByte(startAddr)]];
        } else {
          return [[responseByte]];
        }
      }
      var bytesRemaining: word := (endAddr - startAddr + 1) % 0x1_0000;
      var bank := NO_IN;
      if data[0] == 0 {
        bank := SendFlash(bytesRemaining / 2);
        startAddr := endAddr;
      } else if data[0] == 2 {
        bank := SendEeprom(bytesRemaining);
      }
      state := DFU_IDLE;
      packets := SendBank(bank).sent;
    }

    method SendFlash(words: nat) returns (bank: In)
      ensures bank == UploadFlash(chip, FlashAddress(View()), words, NO_IN)
    {
      hide ReadFlash;
      bank := NO_IN;
      var wordsRemaining := words;
      var currFlashAddress: nat := flash64KBPage * 0x1_0000 + startAddr;
      while wordsRemaining > 0
        invariant UploadFlash(chip, currFlashAddress, wordsRemaining, bank)
               == UploadFlash(chip, FlashAddress(View()), words, NO_IN)
      {
        if |bank.bank| == ENDPOINT_SIZE {
          bank := SendBank(bank);
        }
        bank := bank.(bank := bank.bank + [ReadFlash(chip, currFlashAddress), ReadFlash(chip, currFlashAddress + 1)]);
        currFlashAddress := currFlashAddress + 2;
        wordsRemaining := wordsRemaining - 1;
      }
    }

    method SendEeprom(bytes: nat) returns (bank: In)
      modifies this`startAddr
      ensures bank == UploadEeprom(chip, old(startAddr), bytes, NO_IN)
      ensures startAddr == Plus(old(startAddr), bytes)
    {
      hide ReadEeprom, Plus;
      bank := NO_IN;
      var bytesRemaining := bytes;
      PlusStep(startAddr, 0);
      while bytesRemaining > 0
        invariant 0 <= bytesRemaining <= bytes
        invariant startAddr == Plus(old(startAddr), bytes - bytesRemaining)
        invariant UploadEeprom(chip, startAddr, bytesRemaining, bank)
               == UploadEeprom(chip, old(startAddr), bytes, NO_IN)
      {
        if |bank.bank| == ENDPOINT_SIZE {
          bank := SendBank(bank);
        }
        bank := bank.(bank := bank.bank + [ReadEeprom(chip, startAddr)]);
        PlusStep(old(startAddr), bytes - bytesRemaining);
        startAddr := Plus(startAddr, 1);
        bytesRemaining := bytesRemaining - 1;
      }
    }

    method ProcessBootloaderCommand()
      requires Valid()
      modifies this
      ensures Valid() && out == old(out)
      ensures View() == ProcessCommand(part, old(View()))
      ensures stalled == (old(stalled) || Refused(old(View())))
      ensures ops == old(ops) + CommandOps(part, old(View()))
    {
      hide ProcessMemProg, ProcessMemRead, ProcessWrite, ProcessRead, EraseOps, FlashAddress,
        LoadStartEndAddresses, Part.Fits;
      if isSecure {
        if !((command == COMMAND_WRITE && data[0] == 0 && data[1] == 0xFF) || command == COMMAND_READ) {
          state := DFU_ERROR;
          status := ERR_WRITE;
          stalled := true;
          return;
        }
      }
      if command == COMMAND_PROG_START {
        ProcessMemProgCommand();
      } else if command == COMMAND_DISP_DATA {
        ProcessMemReadCommand();
      } else if command == COMMAND_WRITE {
        ProcessWriteCommand();
      } else if command == COMMAND_READ {
        ProcessReadCommand();
      } else if command == COMMAND_CHANGE_BASE_ADDR {
        if data[0] == 3 && data[1] == 0 {
          flash64KBPage := data[2];
        }
      }
    }

    method ProcessMemProgCommand()
      requires Valid()
      modifies this`startAddr, this`endAddr, this`chip, this`state, this`ops
      ensures Valid() && View() == ProcessMemProg(old(View()))
      ensures ops == old(ops) + if data[0] == 0 then [Erase(FlashAddress(LoadStartEndAddresses(old(View()))))] else []
    {
      hide PageErase, Part.Fits, Word, ProcessMemProg, LoadStartEndAddresses, FlashAddress;
      MemProgCases(View());
      if data[0] == 0 || data[0] == 1 {
        startAddr := Word(data[2], data[1]);
        endAddr := Word(data[4], data[3]);
        if data[0] == 0 {
          chip := PageErase(chip, flash64KBPage * 0x1_0000 + startAddr);
          ops := ops + [Erase(flash64KBPage * 0x1_0000 + startAddr)];
        }
        state := DFU_DNLOAD_IDLE;
        SameFit(part, old(chip), chip);
      }
    }

    method ProcessMemReadCommand()
      requires Valid()
      modifies this`startAddr, this`endAddr, this`state, this`status, this`flash64KBPage
      ensures Valid() && View() == ProcessMemRead(part, old(View()))
    {
      if data[0] == 0 || data[0] == 2 {
        startAddr := Word(data[2], data[1]);
        endAddr := Word(data[4], data[3]);
        state := DFU_UPLOAD_IDLE;
      } else if data[0] == 1 {
        var currFlashAddress := 0;
        while currFlashAddress < part.bootStart
          invariant View() == old(View())
          invariant FirstNonBlank(chip, currFlashAddress, part.bootStart) == FirstNonBlank(chip, 0, part.bootStart)
        {
          if ReadFlash(chip, currFlashAddress) != BLANK {
            flash64KBPage := (currFlashAddress / 0x1_0000) % 0x100;
            startAddr := currFlashAddress % 0x1_0000;
            state := DFU_ERROR;
            status := ERR_CHECK_ERASED;
            return;
          }
          currFlashAddress := currFlashAddress + 1;
        }
      }
    }

    method ProcessWriteCommand()
      requires Valid()
      modifies this`waitForExit, this`appStart, this`bootKeySet, this`runBootloader, this`chip, this`isSecure, this`ops
      ensures Valid() && View() == ProcessWrite(part, old(View()))
      ensures ops == old(ops) +
                if data[0] == 0 && data[1] == 0xFF then EraseOps(0, part.bootStart, |chip.buffer|) else []
    {
      hide EraseFrom, EraseOps, Part.Fits, Word;
      if data[0] == 3 {
        waitForExit := true;
        if dataSize != 0 {
          if data[1] == 1 {
            appStart := Word(data[4], data[3]);
          }
        } else if data[1] == 0 {
          bootKeySet := true;
        } else {
          runBootloader := false;
        }
      } else if data[0] == 0 && data[1] == 0xFF {
        EraseApplication();
        isSecure := false;
      }
    }

    method ProcessReadCommand()
      requires Valid()
      modifies this`responseByte
      ensures Valid() && View() == ProcessRead(part, old(View()))
    {
      if data[0] == 0 {
        responseByte := part.info[data[1]];
      } else if data[0] == 1 {
        responseByte := part.signature[data[1]];
      }
    }

    method EraseApplication()
      requires Valid()
      modifies this`chip, this`ops
      ensures Valid() && chip == RwwEnable(EraseFrom(old(chip), 0, part.bootStart))
      ensures ops == old(ops) + EraseOps(0, part.bootStart, |chip.buffer|) && |chip.buffer| == |old(chip).buffer|
    {
      hide PageErase, PageWrite;
      var currFlashAddress := 0;
      while currFlashAddress < part.bootStart
        invariant Valid() && |chip.buffer| == |old(chip).buffer|
        invariant ops + EraseOps(currFlashAddress, part.bootStart, |chip.buffer|)
               == old(ops) + EraseOps(0, part.bootStart, |chip.buffer|)
        invariant EraseFrom(chip, currFlashAddress, part.bootStart) == EraseFrom(old(chip), 0, part.bootStart)
      {
        chip := PageErase(chip, currFlashAddress);
        ops := ops + [Erase(currFlashAddress)];
        chip := PageWrite(chip, currFlashAddress);
        ops := ops + [Commit(currFlashAddress)];
        currFlashAddress := currFlashAddress + |chip.buffer|;
      }
      chip := RwwEnable(chip);
    }
  }

  // ---- One turn of the programming loop ----

  /** The programming loop at its start. */
  function FlashJobFor(d: Device, o: Out, words: nat): FlashJob {
    FlashJob(d.chip, o, FlashAddress(d), FlashAddress(d), 0, words)
  }

  lemma OneTurn(j: FlashJob)
    requires 0 < j.left
    ensures var ready := j.(out := Ready(j.out));
            && (ready.out.detached ==> ProgramWords(j) == ready && LoopOps(j) == [])
            && (!ready.out.detached ==>
                  && ProgramWords(j) == ProgramWords(ProgramWord(ready))
                  && LoopOps(j) == WordOps(ready) + LoopOps(ProgramWord(ready)))
  {
    hide ProgramWord, WordOps;
  }

  lemma NoTurn(j: FlashJob)
    requires j.left == 0
    ensures ProgramWords(j) == j && LoopOps(j) == []
  {
  }

  lemma SameFit(p: Part, c: Chip, e: Chip)
    requires p.Fits(c) && |e.flash| == |c.flash| && |e.buffer| == |c.buffer|
    ensures p.Fits(e)
  {
  }

  // ---- Functions of the device field by field ----

  lemma FirmwareCases(d: Device, o: Out)
    ensures var o1 := Discard(Discard(o, FILLER_BYTES), d.startAddr % ENDPOINT_SIZE);
            var addr: nat := d.flash64KBPage * 0x1_0000 + d.startAddr;
            var n: word := (d.endAddr - d.startAddr + 1) % 0x1_0000;
            if d.data[0] == 0 then
              var job := FlashJob(d.chip, o1, addr, addr, 0, n / 2);
              var done := ProgramWords(job);
              && FirmwareOps(d, o) == LoopOps(job)
              && ReceiveFirmware(d, o).1 == (done.left == 0)
              && ReceiveFirmware(d, o).0
                 == if done.left == 0 then d.(chip := RwwEnable(done.chip), startAddr := d.endAddr)
                    else d.(chip := done.chip)
            else
              var done := ProgramBytes(EepromJob(d.chip, o1, d.startAddr, n));
              && FirmwareOps(d, o) == []
              && ReceiveFirmware(d, o) == (d.(chip := done.chip, startAddr := done.addr), done.left == 0)
  {
    hide Discard, ProgramWords, ProgramBytes, LoopOps;
  }

  lemma MemProgCases(d: Device)
    ensures var start, end := Word(d.data[2], d.data[1]), Word(d.data[4], d.data[3]);
            var addr: nat := d.flash64KBPage * 0x1_0000 + start;
            && FlashAddress(LoadStartEndAddresses(d)) == addr
            && ProcessMemProg(d) ==
                 if d.data[0] == 0 then
                   d.(startAddr := start, endAddr := end, chip := PageErase(d.chip, addr), state := DFU_DNLOAD_IDLE)
                 else if d.data[0] == 1 then d.(startAddr := start, endAddr := end, state := DFU_DNLOAD_IDLE)
                 else d
  {
    hide PageErase, Word;
  }

  // ---- Sessions request by request ----

  lemma NextRequest(p: Part, d: Device, rs: seq<Request>)
    requires p.Fits(d.chip) && rs != [] && Running(d)
    ensures After(p, d, rs) == After(p, Handle(p, d, rs[0]).0, rs[1..])
    ensures Responses(p, d, rs) == [Handle(p, d, rs[0]).1] + Responses(p, Handle(p, d, rs[0]).0, rs[1..])
  {
    hide Handle;
  }

  lemma NoMoreRequests(p: Part, d: Device, rs: seq<Request>)
    requires p.Fits(d.chip) && (rs == [] || !Running(d))
    ensures After(p, d, rs) == d && Responses(p, d, rs) == []
  {
    hide Handle;
  }

  lemma Reassociate(x: seq<Response>, r: Response, y: seq<Response>)
    ensures x + ([r] + y) == (x + [r]) + y
  {
  }
}
