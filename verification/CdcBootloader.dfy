/** The CDC bootloader as the source writes it: bytes fetched from and written to endpoint banks as each
    command runs. */
module CdcBootloader {
  import opened Avr
  import opened Endpoint
  import opened Pages
  import opened Cdc

  const TXRX_SIZE := 16

  // ---- Fetching bytes across packets ----

  /** Clears empty banks until a byte can be read, or the host has gone. */
  function FetchReady(o: Out): Out
    decreases |o.queue|, !o.detached
  {
    if o.bank != [] || o.detached then o else FetchReady(NextPacket(o))
  }

  /** The endpoint after `n` bytes have been fetched. */
  function Fetched(o: Out, n: nat): Out {
    if n == 0 then o else Pop(FetchReady(Fetched(o, n - 1)))
  }

  /** A detached endpoint has nothing more to give. */
  predicate Sound(o: Out) {
    o.detached ==> o.bank == [] && o.queue == []
  }

  lemma {:induction false} FetchReadyKeepsStream(o: Out)
    requires Sound(o)
    ensures Sound(FetchReady(o)) && Stream(FetchReady(o)) == Stream(o)
    ensures Stream(o) != [] ==> FetchReady(o).bank != []
    decreases |o.queue|, !o.detached
  {
    if o.bank == [] && !o.detached {
      FetchReadyKeepsStream(NextPacket(o));
    }
  }

  /** Fetching reads the stream byte by byte, wherever the packet boundaries are. */
  lemma {:induction false} FetchedStream(o: Out, n: nat)
    requires Sound(o)
    ensures Sound(Fetched(o, n))
    ensures Stream(Fetched(o, n)) == if n <= |Stream(o)| then Stream(o)[n..] else []
    ensures Peek(FetchReady(Fetched(o, n))) == At(Stream(o), n)
    decreases n
  {
    hide Stream, FetchReady, Peek, At;
    if n > 0 {
      FetchedStream(o, n - 1);
      FetchOne(Fetched(o, n - 1));
      DropMore(Stream(o), n);
    } else {
      assert Stream(o)[0..] == Stream(o);
    }
    NextByte(Fetched(o, n), Stream(o), n);
  }

  /** One fetch takes the first byte of the stream, if there is one. */
  lemma FetchOne(o: Out)
    requires Sound(o)
    ensures Sound(Pop(FetchReady(o)))
    ensures Stream(Pop(FetchReady(o))) == if Stream(o) == [] then [] else Stream(o)[1..]
  {
    hide FetchReady, Flatten;
    FetchReadyKeepsStream(o);
    var r := FetchReady(o);
    if r.bank != [] {
      assert r.bank[1..] + Flatten(r.queue) == (r.bank + Flatten(r.queue))[1..];
    }
  }

  lemma DropMore(s: seq<byte>, n: nat)
    requires 0 < n
    ensures var t := if n - 1 <= |s| then s[n - 1..] else [];
            (if t == [] then [] else t[1..]) == if n <= |s| then s[n..] else []
  {
  }

  lemma NextByte(o: Out, s: seq<byte>, n: nat)
    requires Sound(o) && Stream(o) == if n <= |s| then s[n..] else []
    ensures Peek(FetchReady(o)) == At(s, n)
  {
    hide FetchReady, Flatten;
    FetchReadyKeepsStream(o);
    var r := FetchReady(o);
    if n < |s| {
      assert Stream(r)[0] == r.bank[0] == s[n];
    } else {
      assert r.bank == [] by { assert Stream(r) == []; }
    }
  }

  // ---- Framing ----

  /** A transfer the host can tell the end of: full packets, then a short one. */
  predicate ShortEnded(packets: seq<Packet>) {
    && packets != []
    && FullPackets(packets[..|packets| - 1], 16)
    && |packets[|packets| - 1]| < 16
  }

  predicate Sending(i: In) {
    FullPackets(i.sent, TXRX_SIZE) && |i.bank| <= TXRX_SIZE
  }

  // ---- Turns of the task ----

  /** One turn of the task on an endpoint with packets waiting. */
  function Turn(p: Part, d: Device, o: Out): (Device, Out, seq<byte>)
    requires o.queue != []
  {
    var begun := NextPacket(o);
    var r := Exec(p, d, Stream(begun));
    (r.device, Fetched(begun, r.used).(bank := []), r.response)
  }

  /** The device and the responses after `n` turns of the task, for as long as main's loop runs. */
  function RunTurns(p: Part, d: Device, o: Out, n: nat): (Device, seq<seq<byte>>)
    decreases n
  {
    if n == 0 || o.queue == [] || !d.runBootloader then (d, [])
    else
      var (e, o', response) := Turn(p, d, o);
      var (f, rest) := RunTurns(p, e, o', n - 1);
      (f, [response] + rest)
  }

  /** Each transfer frames the response of its turn. */
  predicate Frames(transfers: seq<seq<Packet>>, responses: seq<seq<byte>>) {
    && |transfers| == |responses|
    && forall i :: 0 <= i < |transfers| ==> ShortEnded(transfers[i]) && Flatten(transfers[i]) == responses[i]
  }

  lemma TurnsFirst(p: Part, d: Device, o: Out, n: nat)
    requires 0 < n && o.queue != [] && d.runBootloader
    ensures var t := Turn(p, d, o);
            var r := RunTurns(p, t.0, t.1, n - 1);
            RunTurns(p, d, o, n) == (r.0, [t.2] + r.1)
  {
    hide Turn;
  }

  lemma TurnsStop(p: Part, d: Device, o: Out, n: nat)
    requires n == 0 || o.queue == [] || !d.runBootloader
    ensures RunTurns(p, d, o, n) == (d, [])
  {
  }

  lemma TurnIs(p: Part, d: Device, o: Out)
    requires o.queue != []
    ensures var begun := NextPacket(o);
            var r := Exec(p, d, Stream(begun));
            Turn(p, d, o) == (r.device, Fetched(begun, r.used).(bank := []), r.response)
  {
  }

  class Bootloader {
    const part: Part
    var chip: Chip
    var currAddress: nat
    var runBootloader: bool
    var lockBits: byte

    // The two data endpoints
    var out: Out
    var tx: In

    // The command being read: the endpoint when it began, the bytes taken, the response so far
    ghost var start: Out
    ghost var taken: nat
    ghost var response: seq<byte>

    ghost function View(): Device
      reads this
    {
      Device(chip, currAddress, runBootloader, lockBits)
    }

    ghost predicate Valid()
      reads this
    {
      part.Fits(chip) && Sound(start) && out == Fetched(start, taken) && Sending(tx) && Written(tx) == response
    }

    ghost function Input(): seq<byte>
      reads this
    {
      Stream(start)
    }

    constructor (part: Part, chip: Chip, lockBits: byte)
      requires part.Fits(chip)
      ensures Valid() && View() == Device(chip, 0, true, lockBits) && this.part == part
      ensures out == Out([], [], false)
    {
      this.part := part;
      this.chip := chip;
      currAddress, runBootloader := 0, true;
      this.lockBits := lockBits;
      out, tx := Out([], [], false), NO_IN;
      start, taken, response := Out([], [], false), 0, [];
    }

    method FetchNextCommandByte() returns (b: byte)
      requires Valid()
      modifies this`out, this`taken
      ensures Valid() && taken == old(taken) + 1
      ensures b == At(Input(), old(taken))
    {
      hide Written;
      ghost var before := out;
      while out.bank == [] && !out.detached
        invariant taken == old(taken) && FetchReady(out) == FetchReady(before)
        decreases |out.queue|, !out.detached
      {
        out := NextPacket(out);
      }
      FetchedStream(start, taken);
      b := Peek(out);
      out := Pop(out);
      taken := taken + 1;
    }

    method WriteNextResponseByte(b: byte)
      requires Valid()
      modifies this`tx, this`response
      ensures Valid() && response == old(response) + [b]
    {
      hide Fetched, Written;
      AppendWritten(tx, [b], TXRX_SIZE);
      if |tx.bank| == TXRX_SIZE {
        tx := SendBank(tx);
      }
      tx := tx.(bank := tx.bank + [b]);
      response := response + [b];
    }

    /** Sends what is left in the bank, and an empty packet after a full one. */
    method FinishResponse() returns (packets: seq<Packet>)
      requires Valid()
      modifies this`tx
      ensures ShortEnded(packets) && Flatten(packets) == response
    {
      hide Fetched, Flatten;
      var isEndpointFull := |tx.bank| == TXRX_SIZE;
      SendBankWritten(tx);
      tx := SendBank(tx);
      EmptyBank(tx);
      if isEndpointFull {
        SendBankWritten(tx);
        tx := SendBank(tx);
        EmptyBank(tx);
      }
      packets := tx.sent;
      assert packets[..|packets| - 1] == old(tx).sent || packets[..|packets| - 1] == old(tx).sent + [old(tx).bank];
    }

    /** main: turns of the task until the host says to leave, here bounded by `turns` and by the packets at
        hand. */
    method Serve(turns: nat) returns (transfers: seq<seq<Packet>>)
      requires part.Fits(chip) && out.bank == [] && Sound(out)
      modifies this
      ensures View() == RunTurns(part, old(View()), old(out), turns).0
      ensures Frames(transfers, RunTurns(part, old(View()), old(out), turns).1)
    {
      hide Turn, RunTurns, Exec, Fetched, NextPacket, Stream, Sound, ShortEnded;
      transfers := [];
      var i := 0;
      ghost var begun, o := View(), out;
      ghost var done: seq<seq<byte>> := [];
      while i < turns && runBootloader && out.queue != []
        invariant 0 <= i <= turns && part.Fits(chip) && out.bank == [] && Sound(out)
        invariant RunTurns(part, begun, o, turns).0 == RunTurns(part, View(), out, turns - i).0
        invariant RunTurns(part, begun, o, turns).1 == done + RunTurns(part, View(), out, turns - i).1
        invariant Frames(transfers, done)
      {
        ghost var d, q := View(), out;
        TurnIs(part, d, q);
        TurnsFirst(part, d, q, turns - i);
        var handled, packets := Task();
        ghost var response := Turn(part, d, q).2;
        transfers := transfers + [packets];
        assert done + ([response] + RunTurns(part, View(), out, turns - i - 1).1)
            == (done + [response]) + RunTurns(part, View(), out, turns - i - 1).1;
        done := done + [response];
        i := i + 1;
      }
      TurnsStop(part, View(), out, turns - i);
    }

    /** One turn of the task: if a packet has come in, runs the command that starts with it. */
    method Task() returns (handled: bool, packets: seq<Packet>)
      requires part.Fits(chip) && out.bank == [] && Sound(out)
      modifies this
      ensures part.Fits(chip) && out.bank == [] && Sound(out)
      ensures handled == (old(out).queue != [])
      ensures !handled ==> View() == old(View()) && out == old(out)
      ensures handled ==>
                var begun := NextPacket(old(out));
                var r := Exec(part, old(View()), Stream(begun));
                && View() == r.device
                && ShortEnded(packets) && Flatten(packets) == r.response
                && out == Fetched(begun, r.used).(bank := [])
    {
      if out.queue == [] {
        return false, [];
      }
      handled := true;
      out := NextPacket(out);
      tx := NO_IN;
      start, taken, response := out, 0, [];
      RunCommand();
      hide Exec, Fetched, ShortEnded;
      packets := FinishResponse();
      FetchedStream(start, taken);
      out := out.(bank := []);
    }

    method RunCommand()
      requires Valid() && taken == 0 && response == []
      modifies this
      ensures Valid() && start == old(start)
      ensures Outcome(View(), taken, response) == Exec(part, old(View()), Input())
    {
      hide Fetched, Written, Block, EraseFrom, PageFill, PageWrite, ReadFlash, ReadEeprom, WriteEeprom, Burn,
        SetAddress, Stream, Sound;
      var command := FetchNextCommandByte();
      if command == CMD_EXIT {
        runBootloader := false;
        WriteNextResponseByte(CONFIRM);
      } else if command == CMD_SET_ADDRESS {
        var hi := FetchNextCommandByte();
        var lo := FetchNextCommandByte();
        currAddress := SetAddress(hi, lo);
        WriteNextResponseByte(CONFIRM);
      } else if command == CMD_ERASE_FLASH {
        EraseApplication();
        WriteNextResponseByte(CONFIRM);
      } else if command == CMD_WRITE_LOCKBITS {
        var bits := FetchNextCommandByte();
        lockBits := Burn(lockBits, 0xFF - bits);
        WriteNextResponseByte(CONFIRM);
      } else if command == CMD_BLOCK_WRITE || command == CMD_BLOCK_READ {
        ReadWriteMemoryBlock(command);
      } else {
        RunByteCommand(command);
      }
    }

    method EraseApplication()
      requires Valid()
      modifies this`chip
      ensures Valid() && chip == EraseFrom(old(chip), 0, part.bootStart)
    {
      hide PageErase, PageWrite, Fetched, Written;
      var currFlashAddress := 0;
      while currFlashAddress < part.bootStart
        invariant Valid()
        invariant EraseFrom(chip, currFlashAddress, part.bootStart) == EraseFrom(old(chip), 0, part.bootStart)
      {
        chip := PageErase(chip, currFlashAddress);
        chip := PageWrite(chip, currFlashAddress);
        currFlashAddress := currFlashAddress + |chip.buffer|;
      }
    }

    /** Single-byte and single-word memory commands, and the ones that only answer. */
    method RunByteCommand(command: byte)
      requires Valid() && taken == 1 && response == []
      requires command == At(Input(), 0)
      requires command != CMD_EXIT && command != CMD_SET_ADDRESS && command != CMD_ERASE_FLASH
      requires command != CMD_WRITE_LOCKBITS && command != CMD_BLOCK_WRITE && command != CMD_BLOCK_READ
      modifies this
      ensures Valid() && start == old(start)
      ensures Outcome(View(), taken, response) == Exec(part, old(View()), Input())
    {
      hide Fetched, Written, Block, EraseFrom, PageFill, PageWrite, ReadFlash, ReadEeprom, WriteEeprom, Burn,
        SetAddress, Stream, Sound, Query;
      if command == CMD_FILL_WORD_HIGH {
        var b := FetchNextCommandByte();
        chip := PageFill(chip, currAddress, b, 0);
        WriteNextResponseByte(CONFIRM);
      } else if command == CMD_FILL_WORD_LOW {
        var b := FetchNextCommandByte();
        chip := PageFill(chip, OrHigh(currAddress, true), b, 0);
        currAddress := Add(currAddress, 2);
        WriteNextResponseByte(CONFIRM);
      } else if command == CMD_WRITE_FLASH_PAGE {
        chip := PageWrite(chip, currAddress);
        WriteNextResponseByte(CONFIRM);
      } else if command == CMD_READ_FLASH_WORD {
        WriteNextResponseByte(ReadFlash(chip, currAddress + 1));
        WriteNextResponseByte(ReadFlash(chip, currAddress));
      } else if command == CMD_WRITE_EEPROM {
        var b := FetchNextCommandByte();
        chip := WriteEeprom(chip, EepromAddress(currAddress), b);
        currAddress := Add(currAddress, 2);
        WriteNextResponseByte(CONFIRM);
      } else if command == CMD_READ_EEPROM {
        WriteNextResponseByte(ReadEeprom(chip, EepromAddress(currAddress)));
        currAddress := Add(currAddress, 2);
      } else {
        Answer(command);
      }
    }

    /** Commands that touch neither memory nor the address. */
    method Answer(command: byte)
      requires Valid() && taken == 1 && response == []
      modifies this`out, this`taken, this`tx, this`response
      ensures Valid() && taken == Query(part, View(), command).0 && response == Query(part, View(), command).1
    {
      hide Fetched, Written, Stream, Sound;
      if command == CMD_SET_LED || command == CMD_CLEAR_LED || command == CMD_SELECT_DEVICE {
        var ignored := FetchNextCommandByte();
        WriteNextResponseByte(CONFIRM);
      } else if command == CMD_ENTER_PROGRAMMING || command == CMD_LEAVE_PROGRAMMING {
        WriteNextResponseByte(CONFIRM);
      } else if command == CMD_READ_PART_CODE {
        WriteNextResponseByte(0x44);
        WriteNextResponseByte(0x00);
      } else if command == CMD_AUTO_INCREMENT {
        WriteNextResponseByte(0x59);
      } else if command == CMD_READ_INTERFACE {
        WriteNextResponseByte(0x53);
      } else if command == CMD_READ_IDENTIFIER {
        var currByte := 0;
        while currByte < 7
          invariant 0 <= currByte <= 7
          invariant Valid() && taken == 1 && response == IDENTIFIER[..currByte]
        {
          WriteNextResponseByte(IDENTIFIER[currByte]);
          currByte := currByte + 1;
        }
      } else if command == CMD_READ_VERSION {
        WriteNextResponseByte(0x31);
        WriteNextResponseByte(0x30);
      } else if command == CMD_READ_SIGNATURE {
        WriteNextResponseByte(part.signature3);
        WriteNextResponseByte(part.signature2);
        WriteNextResponseByte(part.signature1);
      } else if command == CMD_READ_LOCKBITS {
        WriteNextResponseByte(lockBits);
      } else if command == CMD_READ_LOW_FUSES {
        WriteNextResponseByte(part.lowFuses);
      } else if command == CMD_READ_HIGH_FUSES {
        WriteNextResponseByte(part.highFuses);
      } else if command == CMD_READ_EXT_FUSES {
        WriteNextResponseByte(part.extendedFuses);
      } else if command == CMD_BLOCK_SUPPORT {
        WriteNextResponseByte(0x59);
        WriteNextResponseByte(|chip.buffer| / 0x100);
        WriteNextResponseByte(|chip.buffer| % 0x100);
      } else if command != CMD_SYNC {
        WriteNextResponseByte(FAIL);
      }
    }

    method ReadWriteMemoryBlock(command: byte)
      requires Valid() && taken == 1 && response == [] && command == At(Input(), 0)
      modifies this
      ensures Valid() && start == old(start)
      ensures Outcome(View(), taken, response) == Block(old(View()), Input())
    {
      hide Fetched, Written, Stream, Sound, PageErase, PageWrite, FillFlashBlock, WriteEepromBlock,
        ReadFlashBlock, ReadEepromBlock;
      var high := FetchNextCommandByte();
      var low := FetchNextCommandByte();
      var blockSize: nat := BlockSize(high, low);
      var memoryType := FetchNextCommandByte();
      if memoryType != MEMORY_FLASH && memoryType != MEMORY_EEPROM {
        WriteNextResponseByte(FAIL);
        return;
      }
      if command == CMD_BLOCK_READ {
        chip := RwwEnable(chip);
        if memoryType == MEMORY_FLASH {
          SendFlash(blockSize);
        } else {
          SendEeprom(blockSize);
        }
      } else {
        var pageStartAddress := currAddress;
        if memoryType == MEMORY_FLASH {
          chip := PageErase(chip, pageStartAddress);
          ReceiveFlash(blockSize);
          chip := PageWrite(chip, pageStartAddress);
        } else {
          ReceiveEeprom(blockSize);
        }
        WriteNextResponseByte(CONFIRM);
      }
    }

    method SendFlash(blockSize: nat)
      requires Valid()
      modifies this`currAddress, this`tx, this`response
      ensures Valid()
      ensures response == old(response) + ReadFlashBlock(chip, old(currAddress), false, blockSize).0
      ensures currAddress == ReadFlashBlock(chip, old(currAddress), false, blockSize).1
    {
      hide Fetched, Written, Stream, Sound, ReadFlash, OrHigh, Add;
      var left, highByte := blockSize, false;
      ghost var whole := ReadFlashBlock(chip, currAddress, false, blockSize);
      while left > 0
        invariant Valid()
        invariant whole.1 == ReadFlashBlock(chip, currAddress, highByte, left).1
        invariant old(response) + whole.0 == response + ReadFlashBlock(chip, currAddress, highByte, left).0
      {
        WriteNextResponseByte(ReadFlash(chip, OrHigh(currAddress, highByte)));
        if highByte {
          currAddress := Add(currAddress, 2);
        }
        highByte := !highByte;
        left := left - 1;
      }
    }

    method SendEeprom(blockSize: nat)
      requires Valid()
      modifies this`currAddress, this`tx, this`response
      ensures Valid()
      ensures response == old(response) + ReadEepromBlock(chip, old(currAddress), blockSize).0
      ensures currAddress == ReadEepromBlock(chip, old(currAddress), blockSize).1
    {
      hide Fetched, Written, Stream, Sound, ReadEeprom, EepromAddress, Add;
      var left := blockSize;
      ghost var whole := ReadEepromBlock(chip, currAddress, blockSize);
      while left > 0
        invariant Valid()
        invariant whole.1 == ReadEepromBlock(chip, currAddress, left).1
        invariant old(response) + whole.0 == response + ReadEepromBlock(chip, currAddress, left).0
      {
        WriteNextResponseByte(ReadEeprom(chip, EepromAddress(currAddress)));
        currAddress := Add(currAddress, 2);
        left := left - 1;
      }
    }

    method ReceiveFlash(blockSize: nat)
      requires Valid()
      modifies this`chip, this`currAddress, this`out, this`taken
      ensures Valid() && taken == old(taken) + blockSize
      ensures (chip, currAddress)
           == FillFlashBlock(old(chip), old(currAddress), Input(), old(taken), false, 0, blockSize)
    {
      hide Fetched, Written, Stream, Sound, PageFill, Add, At;
      var left, highByte, lowByte := blockSize, false, 0;
      ghost var whole := FillFlashBlock(chip, currAddress, Input(), taken, false, 0, blockSize);
      while left > 0
        invariant Valid() && taken + left == old(taken) + blockSize
        invariant FillFlashBlock(chip, currAddress, Input(), taken, highByte, lowByte, left) == whole
      {
        var b := FetchNextCommandByte();
        if highByte {
          chip := PageFill(chip, currAddress, lowByte, b);
          currAddress := Add(currAddress, 2);
        } else {
          lowByte := b;
        }
        highByte := !highByte;
        left := left - 1;
      }
    }

    method ReceiveEeprom(blockSize: nat)
      requires Valid()
      modifies this`chip, this`currAddress, this`out, this`taken
      ensures Valid() && taken == old(taken) + blockSize
      ensures (chip, currAddress) == WriteEepromBlock(old(chip), old(currAddress), Input(), old(taken), blockSize)
    {
      hide Fetched, Written, Stream, Sound, WriteEeprom, EepromAddress, Add, At;
      var left := blockSize;
      ghost var whole := WriteEepromBlock(chip, currAddress, Input(), taken, blockSize);
      while left > 0
        invariant Valid() && taken + left == old(taken) + blockSize
        invariant WriteEepromBlock(chip, currAddress, Input(), taken, left) == whole
      {
        var b := FetchNextCommandByte();
        chip := WriteEeprom(chip, EepromAddress(currAddress), b);
        currAddress := Add(currAddress, 2);
        left := left - 1;
      }
    }
  }

  lemma EmptyBank(i: In)
    requires i.bank == []
    ensures Written(i) == Flatten(i.sent)
  {
  }
}
