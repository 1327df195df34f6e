/** The CDC bootloader's single commands, written out as the bytes the host sends and gets: chip erase, single EEPROM
    bytes, single flash words, exit, lock bits and the ones that only answer. */
module CdcCommands {
  import opened Avr
  import opened Endpoint
  import opened Pages
  import opened Cdc
  import opened CdcBootloader
  import opened CdcPackets
  import opened CdcProperties
  import opened CdcHistory

  // ---- Chip erase ----

  /** 'e' answers a carriage return, leaves EEPROM, address and lock bits alone, and locks the section out; it blanks
      the application and leaves the rest exactly when the page buffer was blank, or there is no application section. */
  lemma EraseExact(p: Part, d: Device)
    requires p.Fits(d.chip)
    ensures var r := Exec(p, d, [0x65]);
            && r.used == 1 && r.response == [13]
            && r.device == d.(chip := r.device.chip) && r.device.chip.eeprom == d.chip.eeprom
            && r.device.chip.rww == (d.chip.rww && p.bootStart == 0)
            && (r.device.chip.flash == Blank(p.bootStart) + d.chip.flash[p.bootStart..]
                <==> p.bootStart == 0 || BlankBuffer(d.chip))
  {
    hide EraseFrom, BlankBuffer;
    EraseLocks(d.chip, 0, p.bootStart);
    if p.bootStart == 0 {
      NothingErased(d.chip);
      assert Blank(0) + d.chip.flash[0..] == d.chip.flash;
    } else {
      ErasedFlash(d.chip, p.bootStart);
    }
  }

  lemma NothingErased(c: Chip)
    ensures EraseFrom(c, 0, 0) == c
  {
  }

  lemma ErasedFlash(c: Chip, limit: nat)
    requires Aligned(c, limit) && 0 < limit <= |c.flash|
    ensures EraseFrom(c, 0, limit).flash == Blank(limit) + c.flash[limit..] <==> BlankBuffer(c)
  {
    hide EraseFrom;
    EraseKeepsBuffer(c, limit);
    var r, page := EraseFrom(c, 0, limit).flash, |c.buffer|;
    assert r[..page] == c.buffer && (Blank(limit) + c.flash[limit..])[..page] == Blank(page);
    if BlankBuffer(c) {
      assert c.buffer + Blank(limit - page) == Blank(limit);
    }
  }

  /** So after every session without word fills a chip erase blanks the application. */
  lemma EraseAfterSession(p: Part, d: Device, cs: seq<seq<byte>>)
    requires p.Fits(d.chip) && BlankBuffer(d.chip) && forall i :: 0 <= i < |cs| ==> !Fills(cs[i])
    ensures var e := RunCommands(p, d, cs).0;
            && p.bootStart <= |e.chip.flash|
            && Exec(p, e, [0x65]).device.chip.flash == Blank(p.bootStart) + e.chip.flash[p.bootStart..]
  {
    hide Exec, RunCommands, Fills;
    SizesStay(p, d, cs);
    BufferStaysBlank(p, d, cs);
    EraseExact(p, RunCommands(p, d, cs).0);
  }

  lemma SizeStep(p: Part, d: Device, s: seq<byte>)
    ensures var c := Exec(p, d, s).device.chip; |c.flash| == |d.chip.flash| && |c.buffer| == |d.chip.buffer|
  {
    hide EraseFrom, FillFlashBlock, WriteEepromBlock, ReadFlashBlock, ReadEepromBlock, PageErase, PageWrite, PageFill,
      WriteEeprom, SetAddress, Query, At, Add;
  }

  lemma {:induction false} SizesStay(p: Part, d: Device, cs: seq<seq<byte>>)
    ensures var c := RunCommands(p, d, cs).0.chip; |c.flash| == |d.chip.flash| && |c.buffer| == |d.chip.buffer|
    decreases |cs|
  {
    hide Exec;
    if cs != [] && d.runBootloader {
      SizeStep(p, d, cs[0]);
      SizesStay(p, Exec(p, d, cs[0]).device, cs[1..]);
    }
  }

  // ---- Single EEPROM bytes ----

  /** 'D' and a byte, for each byte in turn. */
  function WriteEach(data: seq<byte>): seq<seq<byte>> {
    if data == [] then [] else [[0x44, data[0]]] + WriteEach(data[1..])
  }

  /** 'd', `n` times. */
  function ReadEach(n: nat): seq<seq<byte>> {
    if n == 0 then [] else [[0x64]] + ReadEach(n - 1)
  }

  /** `n` carriage returns, each a response of its own. */
  function Confirms(n: nat): seq<seq<byte>> {
    if n == 0 then [] else [[13]] + Confirms(n - 1)
  }

  /** Each byte a response of its own. */
  function Each(data: seq<byte>): seq<seq<byte>> {
    if data == [] then [] else [[data[0]]] + Each(data[1..])
  }

  lemma WriteOne(p: Part, d: Device, e: nat, b: byte)
    requires d.currAddress == 2 * e && e < |d.chip.eeprom| <= 0x1000
    ensures Exec(p, d, [0x44, b])
         == Outcome(d.(chip := d.chip.(eeprom := d.chip.eeprom[e := b]), currAddress := 2 * (e + 1)), 2, [13])
  {
    hide EepromAddress, WriteEeprom, Add;
    EepromCell(d.chip, e);
  }

  lemma ReadOne(p: Part, d: Device, e: nat)
    requires d.currAddress == 2 * e && e < |d.chip.eeprom| <= 0x1000
    ensures Exec(p, d, [0x64]) == Outcome(d.(currAddress := 2 * (e + 1)), 1, [d.chip.eeprom[e]])
  {
    hide EepromAddress, ReadEeprom, Add;
    EepromCell(d.chip, e);
  }

  lemma RunFirst(p: Part, d: Device, c: seq<byte>, rest: seq<seq<byte>>)
    requires d.runBootloader
    ensures var r := Exec(p, d, c);
            var (e, responses) := RunCommands(p, r.device, rest);
            RunCommands(p, d, [c] + rest) == (e, [r.response] + responses)
  {
    hide Exec;
    assert ([c] + rest)[1..] == rest;
  }

  lemma {:induction false} WritesEach(p: Part, d: Device, e: nat, data: seq<byte>)
    requires d.runBootloader && d.currAddress == 2 * e && e + |data| <= |d.chip.eeprom| <= 0x1000
    ensures RunCommands(p, d, WriteEach(data))
         == (d.(chip := d.chip.(eeprom := Splice(d.chip.eeprom, e, data)), currAddress := 2 * (e + |data|)),
             Confirms(|data|))
    decreases |data|
  {
    hide Exec, RunCommands;
    if data == [] {
      RunsNothing(p, d);
      assert Splice(d.chip.eeprom, e, data) == d.chip.eeprom;
    } else {
      WriteOne(p, d, e, data[0]);
      var next := Exec(p, d, [0x44, data[0]]).device;
      RunFirst(p, d, [0x44, data[0]], WriteEach(data[1..]));
      WritesEach(p, next, e + 1, data[1..]);
      assert Splice(d.chip.eeprom[e := data[0]], e + 1, data[1..]) == Splice(d.chip.eeprom, e, data);
    }
  }

  lemma RunsNothing(p: Part, d: Device)
    ensures RunCommands(p, d, []) == (d, [])
  {
  }

  lemma {:induction false} ReadsEach(p: Part, d: Device, e: nat, n: nat)
    requires d.runBootloader && d.currAddress == 2 * e && e + n <= |d.chip.eeprom| <= 0x1000
    ensures RunCommands(p, d, ReadEach(n)) == (d.(currAddress := 2 * (e + n)), Each(d.chip.eeprom[e..e + n]))
    decreases n
  {
    hide Exec, RunCommands;
    if n == 0 {
      RunsNothing(p, d);
      assert d.chip.eeprom[e..e] == [];
    } else {
      ReadOne(p, d, e);
      RunFirst(p, d, [0x64], ReadEach(n - 1));
      ReadsEach(p, d.(currAddress := 2 * (e + 1)), e + 1, n - 1);
      var cells := d.chip.eeprom[e..e + n];
      assert cells[0] == d.chip.eeprom[e] && cells[1..] == d.chip.eeprom[e + 1..e + n];
    }
  }

  /** Setting the address, writing bytes one by one, setting the address again and reading as many one by one
      returns them in order, and no other cell changes. */
  lemma EepromBytesRoundTrip(p: Part, d: Device, e: word, data: seq<byte>)
    requires d.runBootloader && e + |data| <= |d.chip.eeprom| <= 0x1000
    ensures var cs := [[0x41, e / 0x100, e % 0x100]] + WriteEach(data);
            var (f, responses) := RunCommands(p, d, cs);
            && responses == [[13]] + Confirms(|data|)
            && f.chip == d.chip.(eeprom := Splice(d.chip.eeprom, e, data))
            && RunCommands(p, f, [[0x41, e / 0x100, e % 0x100]] + ReadEach(|data|))
            == (f, [[13]] + Each(data))
  {
    hide Exec, RunCommands, Splice;
    var a := [0x41, e / 0x100, e % 0x100];
    assert a == AddressCommand(e);
    SetsAddress(p, d, e);
    var d1 := d.(currAddress := 2 * e);
    RunFirst(p, d, a, WriteEach(data));
    WritesEach(p, d1, e, data);
    var f := RunCommands(p, d, [a] + WriteEach(data)).0;
    SetsAddress(p, f, e);
    RunFirst(p, f, a, ReadEach(|data|));
    ReadsEach(p, f.(currAddress := 2 * e), e, |data|);
    assert f.chip.eeprom[e..e + |data|] == data by { SplicedCells(d.chip.eeprom, e, data); }
  }

  lemma SplicedCells(cells: seq<byte>, at: nat, data: seq<byte>)
    requires at + |data| <= |cells|
    ensures Splice(cells, at, data)[at..at + |data|] == data
  {
  }

  // ---- Exit ----

  /** The exit command. */
  predicate IsExit(c: seq<byte>) {
    At(c, 0) == 0x45
  }

  /** Only the exit command stops the bootloader, and it does nothing else. */
  lemma ExitStops(p: Part, d: Device, c: seq<byte>)
    ensures Exec(p, d, c).device.runBootloader == (d.runBootloader && !IsExit(c))
    ensures IsExit(c) ==> Exec(p, d, c) == Outcome(d.(runBootloader := false), 1, [13])
  {
    hide At, EraseFrom, FillFlashBlock, WriteEepromBlock, ReadFlashBlock, ReadEepromBlock, PageErase, PageWrite,
      PageFill, WriteEeprom, SetAddress, Query, Add, Burn;
  }

  /** The number of commands a session gets to: those up to its first exit command, or all of them. */
  function Reached(cs: seq<seq<byte>>): nat {
    if cs == [] then 0 else if IsExit(cs[0]) then 1 else 1 + Reached(cs[1..])
  }

  /** A session stops exactly at its first exit command: every command up to it is answered, and none after it. */
  lemma {:induction false} SessionStopsAtExit(p: Part, d: Device, cs: seq<seq<byte>>)
    requires d.runBootloader
    ensures Reached(cs) <= |cs| && RunCommands(p, d, cs) == RunCommands(p, d, cs[..Reached(cs)])
    ensures |RunCommands(p, d, cs).1| == Reached(cs)
    ensures RunCommands(p, d, cs).0.runBootloader <==> forall i :: 0 <= i < |cs| ==> !IsExit(cs[i])
    decreases |cs|
  {
    hide Exec, IsExit;
    if cs != [] {
      ExitStops(p, d, cs[0]);
      var n := Reached(cs);
      if !IsExit(cs[0]) {
        SessionStopsAtExit(p, Exec(p, d, cs[0]).device, cs[1..]);
        assert cs[..n][1..] == cs[1..][..n - 1];
        assert forall i :: 0 < i < |cs| ==> cs[i] == cs[1..][i - 1];
      }
    }
  }

  // ---- Single flash words ----

  /** 'c' puts its byte in the low half of the current word with a high half of zero, and steps on; 'C' does the same
      without stepping on. Each is answered by a carriage return. */
  lemma FillsWord(p: Part, d: Device, cmd: byte, b: byte, k: nat)
    requires (cmd == 0x63 || cmd == 0x43) && EvenAddress(d.currAddress) && k == d.currAddress % |d.chip.buffer|
    ensures k + 2 <= |d.chip.buffer|
    ensures Exec(p, d, [cmd, b])
         == Outcome(d.(chip := d.chip.(buffer := Splice(d.chip.buffer, k, [b, 0])),
                       currAddress := if cmd == 0x63 then Add(d.currAddress, 2) else d.currAddress), 2, [13])
  {
    hide PageFill, Add, Splice;
    var page := |d.chip.buffer|;
    EvenOffset(d.currAddress, page);
    WordFits(k, page);
    FillHalf(d.chip, d.currAddress, b, k);
  }

  lemma WordFits(k: nat, page: nat)
    requires (page == 128 || page == 256) && k < page && k % 2 == 0
    ensures k + 2 <= page
  {
  }

  lemma FillHalf(c: Chip, addr: nat, b: byte, k: nat)
    requires k == addr % |c.buffer| && k % 2 == 0 && addr % 2 == 0 && k + 2 <= |c.buffer|
    ensures PageFill(c, addr, b, 0) == c.(buffer := Splice(c.buffer, k, [b, 0]))
    ensures PageFill(c, OrHigh(addr, true), b, 0) == c.(buffer := Splice(c.buffer, k, [b, 0]))
  {
    OddByte(addr, k, |c.buffer|);
  }

  lemma OddByte(addr: nat, k: nat, page: nat)
    requires (page == 128 || page == 256) && k == addr % page && k + 2 <= page
    ensures (addr + 1) % page == k + 1
  {
    if page == 128 {
    } else {
    }
  }

  /** The commands that would write one flash word, as AVR109 has them: high byte, low byte, then the page. */
  function WordCommands(w: word, lo: byte, hi: byte): seq<seq<byte>> {
    [[0x41, w / 0x100, w % 0x100], [0x43, hi], [0x63, lo], [0x41, w / 0x100, w % 0x100], [0x6D]]
  }

  /** Flash with one word of an erased page programmed. */
  function WithWord(c: Chip, place: nat, lo: byte, hi: byte): Chip
    requires place + 2 <= |c.flash|
  {
    c.(flash := Splice(c.flash, place, [lo, hi]), buffer := Blank(|c.buffer|), rww := false)
  }

  lemma CommitsWord(c: Chip, addr: nat, s: nat, k: nat, lo: byte, hi: byte)
    requires BlankBuffer(c) && s == PageStart(c, addr) && s + |c.buffer| <= |c.flash| && k + 2 <= |c.buffer|
    requires c.flash[s..s + |c.buffer|] == Blank(|c.buffer|)
    ensures PageWrite(c.(buffer := Splice(c.buffer, k, [lo, hi])), addr) == WithWord(c, s + k, lo, hi)
  {
    hide PageStart, Splice;
    var filled := Splice(c.buffer, k, [lo, hi]);
    var d := c.(buffer := filled);
    assert PageStart(d, addr) == s by { SamePage(c, d, addr); }
    assert BurnAll(Blank(|c.buffer|), filled) == filled;
    WordInPage(c.flash, s, c.buffer, k, [lo, hi]);
  }

  lemma SamePage(c: Chip, d: Chip, addr: nat)
    requires |d.flash| == |c.flash| && |d.buffer| == |c.buffer|
    ensures PageStart(d, addr) == PageStart(c, addr)
  {
  }

  lemma PlaceSplits(c: Chip, addr: nat)
    ensures addr % |c.flash| == PageStart(c, addr) + addr % |c.buffer|
  {
    PlaceInPage(addr, |c.flash|, |c.buffer|);
  }

  lemma WordInPage(flash: seq<byte>, s: nat, page: seq<byte>, k: nat, word: seq<byte>)
    requires s + |page| <= |flash| && k + |word| <= |page| && flash[s..s + |page|] == page
    ensures Splice(flash, s, Splice(page, k, word)) == Splice(flash, s + k, word)
  {
    assert flash == flash[..s] + page + flash[s + |page|..];
  }

  /** On an erased page the word commands leave the low byte in place and a zero beside it: the word lands exactly when
      its high byte is zero. */
  lemma WordWriteExact(p: Part, d: Device, w: word, lo: byte, hi: byte)
    requires d.runBootloader && BlankBuffer(d.chip)
    requires var s := PageStart(d.chip, AddressOf(w));
             s + |d.chip.buffer| <= |d.chip.flash| && d.chip.flash[s..s + |d.chip.buffer|] == Blank(|d.chip.buffer|)
    ensures var place := AddressOf(w) % |d.chip.flash|;
            var e := RunCommands(p, d, WordCommands(w, lo, hi)).0;
            && place + 2 <= |d.chip.flash| && e.chip == WithWord(d.chip, place, lo, 0)
            && (e.chip.flash[place..place + 2] == [lo, hi] <==> hi == 0)
  {
    hide Exec, RunCommands, AddressOf, Add, Splice, PageStart, PageWrite;
    var a := AddressOf(w);
    var page, size := |d.chip.buffer|, |d.chip.flash|;
    var k := a % page;
    SetsAddress(p, d, w);
    var d1 := d.(currAddress := a);
    FillsWord(p, d1, 0x43, hi, k);
    var d2 := Exec(p, d1, [0x43, hi]).device;
    FillsWord(p, d2, 0x63, lo, k);
    var d3 := Exec(p, d2, [0x63, lo]).device;
    TwiceFilled(d.chip.buffer, k, hi, lo);
    SetsAddress(p, d3, w);
    var d4 := d3.(currAddress := a);
    PageCommand(p, d4);
    RunFive(p, d, WordCommands(w, lo, hi), d1, d2, d3, d4);
    PlaceSplits(d.chip, a);
    CommitsWord(d.chip, a, PageStart(d.chip, a), k, lo, 0);
    SplicedCells(d.chip.flash, a % size, [lo, 0]);
  }

  lemma TwiceFilled(buffer: seq<byte>, k: nat, x: byte, y: byte)
    requires k + 2 <= |buffer|
    ensures Splice(Splice(buffer, k, [x, 0]), k, [y, 0]) == Splice(buffer, k, [y, 0])
  {
  }

  lemma PageCommand(p: Part, d: Device)
    ensures Exec(p, d, [0x6D]) == Outcome(d.(chip := PageWrite(d.chip, d.currAddress)), 1, [13])
  {
    hide PageWrite;
  }

  lemma RunFive(p: Part, d: Device, cs: seq<seq<byte>>, d1: Device, d2: Device, d3: Device, d4: Device)
    requires |cs| == 5 && d.runBootloader && d1.runBootloader && d2.runBootloader && d3.runBootloader
    requires d4.runBootloader
    requires d1 == Exec(p, d, cs[0]).device && d2 == Exec(p, d1, cs[1]).device
    requires d3 == Exec(p, d2, cs[2]).device && d4 == Exec(p, d3, cs[3]).device
    ensures RunCommands(p, d, cs).0 == Exec(p, d4, cs[4]).device
  {
    hide Exec;
    assert RunCommands(p, d, cs).0 == RunCommands(p, d1, cs[1..]).0;
    assert cs[1..][1..] == cs[2..];
    assert RunCommands(p, d1, cs[1..]).0 == RunCommands(p, d2, cs[2..]).0;
    assert cs[2..][1..] == cs[3..];
    assert RunCommands(p, d2, cs[2..]).0 == RunCommands(p, d3, cs[3..]).0;
    assert cs[3..][1..] == cs[4..];
    assert RunCommands(p, d3, cs[3..]).0 == RunCommands(p, d4, cs[4..]).0;
    assert cs[4..][1..] == [];
    var e := Exec(p, d4, cs[4]).device;
    assert RunCommands(p, d4, cs[4..]).0 == RunCommands(p, e, []).0;
  }

  // ---- Lock bits ----

  /** The lock bits command clears the bits it names and leaves the others and all else as they were, and a read
      returns the new value. */
  lemma LockBits(p: Part, d: Device, x: bv8, b: bv8)
    requires d.lockBits == x as int
    ensures var e := d.(lockBits := (x & !b) as int);
            && Exec(p, d, [0x6C, b as int]) == Outcome(e, 2, [13])
            && Exec(p, e, [0x72]) == Outcome(e, 1, [(x & !b) as int])
  {
    hide Burn;
    BurnClears(x, b);
  }

  lemma BurnClears(x: bv8, b: bv8)
    ensures Burn(x as int, 0xFF - b as int) == (x & !b) as int
  {
    hide Burn;
    Complement(b);
    BurnsBits(x as int, 0xFF - b as int, x, !b);
  }

  lemma Complement(b: bv8)
    ensures 0xFF - b as int == (!b) as int
  {
  }

  lemma BurnsBits(cell: byte, value: byte, x: bv8, y: bv8)
    requires cell == x as int && value == y as int
    ensures Burn(cell, value) == (x & y) as int
  {
    hide Burn;
    AsBits(cell, x);
    AsBits(value, y);
    if cell == 0xFF {
      AllOnes(x, y);
      BurnsBlank(value);
    } else {
      BurnsRest(cell, value, x, y);
    }
  }

  lemma BurnsBlank(value: byte)
    ensures Burn(0xFF, value) == value
  {
  }

  lemma BurnsRest(cell: byte, value: byte, x: bv8, y: bv8)
    requires cell as bv8 == x && value as bv8 == y && cell != 0xFF
    ensures Burn(cell, value) == (x & y) as int
  {
  }

  lemma AllOnes(x: bv8, y: bv8)
    requires x as int == 0xFF
    ensures x & y == y
  {
  }

  lemma AsBits(n: byte, x: bv8)
    requires n == x as int
    ensures n as bv8 == x
  {
  }

  // ---- Commands that only answer ----

  /** The fixed answers, byte by byte. None of these commands changes the device. */
  lemma FixedAnswers(p: Part, d: Device)
    ensures Exec(p, d, [0x50]) == Outcome(d, 1, [13]) && Exec(p, d, [0x4C]) == Outcome(d, 1, [13])
    ensures Exec(p, d, [0x74]) == Outcome(d, 1, [0x44, 0]) && Exec(p, d, [0x61]) == Outcome(d, 1, [0x59])
    ensures Exec(p, d, [0x70]) == Outcome(d, 1, [0x53]) && Exec(p, d, [27]) == Outcome(d, 1, [])
  {
  }

  lemma VersionAnswers(p: Part, d: Device)
    ensures Exec(p, d, [0x53]) == Outcome(d, 1, [0x4C, 0x55, 0x46, 0x41, 0x43, 0x44, 0x43])
    ensures Exec(p, d, [0x56]) == Outcome(d, 1, [0x31, 0x30])
  {
  }

  /** Signature and fuses: the signature goes last byte first. */
  lemma PartAnswers(p: Part, d: Device)
    ensures Exec(p, d, [0x73]) == Outcome(d, 1, [p.signature3, p.signature2, p.signature1])
    ensures Exec(p, d, [0x46]) == Outcome(d, 1, [p.lowFuses]) && Exec(p, d, [0x4E]) == Outcome(d, 1, [p.highFuses])
    ensures Exec(p, d, [0x51]) == Outcome(d, 1, [p.extendedFuses])
  {
  }

  /** The block size answer spells the page size. */
  lemma BlockSizeAnswer(p: Part, d: Device)
    ensures var r := Exec(p, d, [0x62]);
            && r.device == d && r.used == 1 && |r.response| == 3 && r.response[0] == 0x59
            && var hi: int, lo: int := r.response[1], r.response[2]; 0x100 * hi + lo == |d.chip.buffer|
  {
  }

  /** Commands with an argument nobody looks at. */
  lemma IgnoredArguments(p: Part, d: Device, cmd: byte, b: byte)
    requires cmd == 0x78 || cmd == 0x79 || cmd == 0x54
    ensures Exec(p, d, [cmd, b]) == Outcome(d, 2, [13])
  {
  }

  /** The command bytes the bootloader knows. */
  const KNOWN: set<int> := {0x41, 0x42, 0x43, 0x44, 0x45, 0x46, 0x4C, 0x4E, 0x50, 0x51, 0x52, 0x53, 0x54, 0x56, 0x61,
                            0x62, 0x63, 0x64, 0x65, 0x67, 0x6C, 0x6D, 0x70, 0x72, 0x73, 0x74, 0x78, 0x79, 27}

  /** Any other command, and a block command for a memory that does not exist, is answered by a question mark and does
      nothing. */
  lemma UnknownAnswer(p: Part, d: Device, cmd: byte, hi: byte, lo: byte, memory: byte)
    ensures cmd !in KNOWN ==> Exec(p, d, [cmd]) == Outcome(d, 1, [0x3F])
    ensures (cmd == 0x42 || cmd == 0x67) && memory != 0x46 && memory != 0x45 ==>
              Exec(p, d, [cmd, hi, lo, memory]) == Outcome(d, 4, [0x3F])
  {
  }

  // ---- The rest of a packet ----

  /** Bytes behind a command in its packet are dropped with it. */
  lemma TailDropped(p: Part, d: Device, c: seq<byte>, tail: seq<byte>, rest: seq<Packet>)
    requires c != [] && Exec(p, d, c).used == |c|
    ensures Turn(p, d, Out([], [c + tail] + rest, false))
         == (Exec(p, d, c).device, Out([], rest, false), Exec(p, d, c).response)
  {
    hide Exec, Fetched;
    var begun := Out(c + tail, rest, false);
    assert NextPacket(Out([], [c + tail] + rest, false)) == begun by { assert ([c + tail] + rest)[1..] == rest; }
    var s := Stream(begun);
    assert forall i :: 0 <= i < |c| ==> s[i] == c[i];
    ReadsOwnBytes(p, d, c, s);
    FetchedInBank(begun, |c|);
  }

  lemma {:induction false} FetchedInBank(o: Out, n: nat)
    requires n <= |o.bank|
    ensures Fetched(o, n) == o.(bank := o.bank[n..])
    decreases n
  {
    if n > 0 {
      FetchedInBank(o, n - 1);
      assert o.bank[n - 1..][1..] == o.bank[n..];
    } else {
      assert o.bank[0..] == o.bank;
    }
  }
}
