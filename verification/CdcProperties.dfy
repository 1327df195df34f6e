/** Addresses and memory blocks of the CDC bootloader: where the address command leads, and what block
    writes and reads do. */
module CdcProperties {
  import opened Avr
  import opened Modular
  import opened Pages
  import opened Cdc

  // ---- Addresses ----

  predicate EvenAddress(a: nat) {
    a % 2 == 0 && a < 0x1_0000_0000
  }

  lemma AddKeepsEven(a: nat)
    requires EvenAddress(a)
    ensures EvenAddress(Add(a, 2))
  {
  }

  lemma {:induction false} ReadFlashKeepsEven(c: Chip, addr: nat, high: bool, n: nat)
    requires EvenAddress(addr)
    ensures EvenAddress(ReadFlashBlock(c, addr, high, n).1)
    decreases n
  {
    hide ReadFlash, OrHigh, Add;
    if n > 0 {
      AddKeepsEven(addr);
      ReadFlashKeepsEven(c, if high then Add(addr, 2) else addr, !high, n - 1);
    }
  }

  lemma {:induction false} ReadEepromKeepsEven(c: Chip, addr: nat, n: nat)
    requires EvenAddress(addr)
    ensures EvenAddress(ReadEepromBlock(c, addr, n).1)
    decreases n
  {
    hide ReadEeprom, EepromAddress, Add;
    if n > 0 {
      AddKeepsEven(addr);
      ReadEepromKeepsEven(c, Add(addr, 2), n - 1);
    }
  }

  lemma {:induction false} FillKeepsEven(c: Chip, addr: nat, s: seq<byte>, at: nat, high: bool, low: byte, n: nat)
    requires EvenAddress(addr)
    ensures EvenAddress(FillFlashBlock(c, addr, s, at, high, low, n).1)
    decreases n
  {
    hide PageFill, At, Add;
    if n > 0 {
      AddKeepsEven(addr);
      if high {
        FillKeepsEven(PageFill(c, addr, low, At(s, at)), Add(addr, 2), s, at + 1, false, low, n - 1);
      } else {
        FillKeepsEven(c, addr, s, at + 1, true, At(s, at), n - 1);
      }
    }
  }

  lemma {:induction false} WriteEepromKeepsEven(c: Chip, addr: nat, s: seq<byte>, at: nat, n: nat)
    requires EvenAddress(addr)
    ensures EvenAddress(WriteEepromBlock(c, addr, s, at, n).1)
    decreases n
  {
    hide WriteEeprom, EepromAddress, At, Add;
    if n > 0 {
      AddKeepsEven(addr);
      WriteEepromKeepsEven(WriteEeprom(c, EepromAddress(addr), At(s, at)), Add(addr, 2), s, at + 1, n - 1);
    }
  }

  lemma SetAddressIsEven(hi: byte, lo: byte)
    ensures EvenAddress(SetAddress(hi, lo))
  {
  }

  /** The current address stays even and within 32 bits, whatever is sent: every byte of flash and every
      cell of EEPROM is reached through it. */
  lemma AddressStaysEven(p: Part, d: Device, s: seq<byte>)
    requires EvenAddress(d.currAddress)
    ensures EvenAddress(Exec(p, d, s).device.currAddress)
  {
    hide ReadFlashBlock, ReadEepromBlock, FillFlashBlock, WriteEepromBlock, SetAddress, Add, EraseFrom,
      Query, EvenAddress;
    var n := BlockSize(At(s, 1), At(s, 2));
    AddKeepsEven(d.currAddress);
    SetAddressIsEven(At(s, 1), At(s, 2));
    ReadFlashKeepsEven(RwwEnable(d.chip), d.currAddress, false, n);
    ReadEepromKeepsEven(RwwEnable(d.chip), d.currAddress, n);
    FillKeepsEven(PageErase(d.chip, d.currAddress), d.currAddress, s, 4, false, 0, n);
    WriteEepromKeepsEven(d.chip, d.currAddress, s, 4, n);
  }

  /** Setting the address reaches the flash word the host named exactly when its word address is below
      0x4000 or from 0xC000 on, or the flash is no larger than 64K: in between, the 16-bit shift and the
      sign extension land elsewhere. */
  lemma SetAddressExact(w: word, flashSize: nat)
    requires flashSize == 0x2000 || flashSize == 0x4000 || flashSize == 0x8000
        || flashSize == 0x1_0000 || flashSize == 0x2_0000
    ensures SetAddress(w / 0x100, w % 0x100) % flashSize == (2 * w) % flashSize
       <==> w < 0x4000 || w >= 0xC000 || flashSize <= 0x1_0000
  {
    SetAddressValue(w);
    var a := SetAddress(w / 0x100, w % 0x100);
    if flashSize == 0x2_0000 {
      LargeFlash(w, a);
    } else {
      var m := if w < 0x4000 then 0 else if w < 0x8000 then 0xFFFF else if w < 0xC000 then -1 else 0xFFFE;
      assert a == 2 * w + 0x1_0000 * m;
      SmallFlash(2 * w, m, flashSize);
    }
  }

  lemma SetAddressValue(w: word)
    ensures SetAddress(w / 0x100, w % 0x100)
         == if w < 0x4000 then 2 * w else if w < 0x8000 then 2 * w + 0xFFFF_0000
            else if w < 0xC000 then 2 * w - 0x1_0000 else 2 * w + 0xFFFE_0000
  {
    var hi := w / 0x100;
    assert 2 * w == 0x200 * hi + 2 * (w % 0x100);
    assert (hi * 0x200) % 0x1_0000 == if hi < 0x80 then hi * 0x200 else hi * 0x200 - 0x1_0000;
  }

  lemma LargeFlash(w: word, a: nat)
    requires a == if w < 0x4000 then 2 * w else if w < 0x8000 then 2 * w + 0xFFFF_0000
                  else if w < 0xC000 then 2 * w - 0x1_0000 else 2 * w + 0xFFFE_0000
    ensures a % 0x2_0000 == (2 * w) % 0x2_0000 <==> w < 0x4000 || w >= 0xC000
  {
    assert (2 * w) % 0x2_0000 == 2 * w;
  }

  /** Sizes that go into 64K. */
  lemma SmallFlash(x: nat, m: int, size: nat)
    requires size == 128 || size == 256 || size == 0x2000 || size == 0x4000 || size == 0x8000 || size == 0x1_0000
    requires 0 <= x + 0x1_0000 * m
    ensures (x + 0x1_0000 * m) % size == x % size
  {
    var times := 0x1_0000 / size;
    assert size * times == 0x1_0000;
    if m >= 0 {
      assert size * (times * m) == 0x1_0000 * m;
      AddMultiple(x, times * m, size);
    } else {
      assert size * (times * -m) == 0x1_0000 * -m;
      AddMultiple(x + 0x1_0000 * m, times * -m, size);
    }
  }

  // ---- Memory round trips ----

  /** A whole block write lands in the page buffer at the address's offset. */
  lemma {:induction false} FillExact(c: Chip, addr: nat, s: seq<byte>, at: nat, low: byte, n: nat, k: nat)
    requires k == addr % |c.buffer| && k % 2 == 0 && n % 2 == 0 && k + n <= |c.buffer|
    requires addr < 0x1_0000_0000 && addr + n <= 0x1_0000_0000 && at + n <= |s|
    ensures FillFlashBlock(c, addr, s, at, false, low, n)
         == (c.(buffer := c.buffer[..k] + s[at..at + n] + c.buffer[k + n..]), Add(addr, n))
    decreases n
  {
    hide PageFill, FillFlashBlock, Add;
    Advance(addr, n);
    if n == 0 {
      FillNone(c, addr, s, at, low);
      assert c.buffer[..k] + s[at..at] + c.buffer[k..] == c.buffer;
    } else {
      var next := PageFill(c, addr, s[at], s[at + 1]);
      FillWord(c, addr, s, at, low, n);
      FillAt(c, addr, s[at], s[at + 1], k);
      MoreBytes(c.buffer, k, s, at, n);
      if n > 2 {
        NextOffset(addr, k, |c.buffer|);
        FillExact(next, addr + 2, s, at + 2, s[at], n - 2, k + 2);
      } else {
        FillNone(next, Add(addr, 2), s, at + 2, s[at]);
      }
    }
  }

  lemma FillNone(c: Chip, addr: nat, s: seq<byte>, at: nat, low: byte)
    ensures FillFlashBlock(c, addr, s, at, false, low, 0) == (c, addr)
  {
  }

  lemma MoreBytes(buffer: seq<byte>, k: nat, s: seq<byte>, at: nat, n: nat)
    requires 2 <= n && k + n <= |buffer| && at + n <= |s|
    ensures var next := buffer[..k] + [s[at], s[at + 1]] + buffer[k + 2..];
            next[..k + 2] + s[at + 2..at + n] + next[k + n..] == buffer[..k] + s[at..at + n] + buffer[k + n..]
    ensures n == 2 ==>
              buffer[..k] + [s[at], s[at + 1]] + buffer[k + 2..] == buffer[..k] + s[at..at + n] + buffer[k + n..]
  {
    assert s[at..at + n] == [s[at], s[at + 1]] + s[at + 2..at + n];
  }

  lemma FillWord(c: Chip, addr: nat, s: seq<byte>, at: nat, low: byte, n: nat)
    requires 2 <= n && at + 2 <= |s|
    ensures FillFlashBlock(c, addr, s, at, false, low, n)
         == FillFlashBlock(PageFill(c, addr, s[at], s[at + 1]), Add(addr, 2), s, at + 2, false, s[at], n - 2)
  {
    hide PageFill, Add;
    assert FillFlashBlock(c, addr, s, at, false, low, n) == FillFlashBlock(c, addr, s, at + 1, true, s[at], n - 1);
  }

  lemma FillAt(c: Chip, addr: nat, lo: byte, hi: byte, k: nat)
    requires k == addr % |c.buffer| && k % 2 == 0 && k + 2 <= |c.buffer|
    ensures PageFill(c, addr, lo, hi) == c.(buffer := c.buffer[..k] + [lo, hi] + c.buffer[k + 2..])
  {
  }

  lemma NextOffset(addr: nat, k: nat, page: nat)
    requires page == 128 || page == 256
    requires k == addr % page && k + 2 < page
    ensures (addr + 2) % page == k + 2
  {
    if page == 128 {
    } else {
    }
  }

  /** Address bits above the flash size are ignored. */
  predicate StandsFor(addr: nat, a: nat, size: nat) {
    0 < size && a == addr % size
  }

  /** A block read from the place in flash that an address stands for. */
  lemma {:induction false} ReadFlashExact(c: Chip, addr: nat, a: nat, n: nat)
    requires c.rww && addr % 2 == 0 && StandsFor(addr, a, |c.flash|) && a + n <= |c.flash|
    requires addr < 0x1_0000_0000 && addr + n <= 0x1_0000_0000
    ensures ReadFlashBlock(c, addr, false, n) == (c.flash[a..a + n], Add(addr, n - n % 2))
    decreases n
  {
    hide ReadFlashBlock, Add, StandsFor;
    Advance(addr, n);
    if n == 0 {
      ReadNone(c, addr);
      assert c.flash[a..a] == [];
    } else if n == 1 {
      ReadLow(c, addr, a);
      assert c.flash[a..a + 1] == [c.flash[a]];
    } else {
      ReadWordOf(c, addr, a, n);
      if n > 2 {
        NextPlace(addr, a, |c.flash|);
        ReadFlashExact(c, addr + 2, a + 2, n - 2);
      } else {
        ReadNone(c, Add(addr, 2));
        assert c.flash[a + 2..a + n] == [];
      }
      WordThenRest(c.flash, a, n);
    }
  }

  lemma WordThenRest(flash: seq<byte>, a: nat, n: nat)
    requires 2 <= n && a + n <= |flash|
    ensures flash[a..a + n] == [flash[a]] + ([flash[a + 1]] + flash[a + 2..a + n])
  {
  }

  lemma Advance(addr: nat, n: nat)
    requires addr < 0x1_0000_0000
    ensures Add(addr, 0) == addr && (addr + 2 < 0x1_0000_0000 ==> Add(addr, 2) == addr + 2)
    ensures 2 <= n ==> Add(addr + 2, n - 2 - (n - 2) % 2) == Add(addr, n - n % 2)
  {
  }

  lemma NextPlace(addr: nat, a: nat, size: nat)
    requires StandsFor(addr, a, size) && a + 2 < size
    ensures StandsFor(addr + 2, a + 2, size)
  {
    ModSuccessor(addr, size);
    ModSuccessor(addr + 1, size);
  }

  lemma ReadLow(c: Chip, addr: nat, a: nat)
    requires c.rww && addr % 2 == 0 && addr < 0x1_0000_0000 && StandsFor(addr, a, |c.flash|)
    ensures ReadFlashBlock(c, addr, false, 1) == ([c.flash[a]], Add(addr, 0))
  {
    assert ReadFlashBlock(c, addr, true, 0) == ([], addr);
    assert [c.flash[a]] + [] == [c.flash[a]];
  }

  lemma ReadNone(c: Chip, addr: nat)
    ensures ReadFlashBlock(c, addr, false, 0) == ([], addr)
  {
  }

  lemma ReadWordOf(c: Chip, addr: nat, a: nat, n: nat)
    requires c.rww && addr % 2 == 0 && 2 <= n && StandsFor(addr, a, |c.flash|) && a + 2 <= |c.flash|
    ensures var r := ReadFlashBlock(c, Add(addr, 2), false, n - 2);
            ReadFlashBlock(c, addr, false, n) == ([c.flash[a]] + ([c.flash[a + 1]] + r.0), r.1)
  {
    var r := ReadFlashBlock(c, Add(addr, 2), false, n - 2);
    assert ReadFlash(c, OrHigh(addr, false)) == c.flash[a];
    assert ReadFlash(c, OrHigh(addr, true)) == c.flash[a + 1] by { ModSuccessor(addr, |c.flash|); }
    hide ReadFlash, Add;
    assert ReadFlashBlock(c, addr, true, n - 1) == ([c.flash[a + 1]] + r.0, r.1);
  }

  /** The bytes of a block command. */
  function BlockCommand(cmd: byte, memory: byte, n: word): seq<byte> {
    [cmd, n / 0x100, n % 0x100, memory]
  }

  /** The chip with one page replaced, the page buffer empty and the application section locked out. */
  function WithPage(c: Chip, start: nat, page: seq<byte>): Chip
    requires |page| == |c.buffer| && start + |page| <= |c.flash|
  {
    c.(flash := Splice(c.flash, start, page), buffer := Blank(|page|), rww := false)
  }

  /** The place in flash an address stands for. */
  function Place(d: Device): nat {
    d.currAddress % |d.chip.flash|
  }

  /** A block of whole words that lies inside one page. */
  predicate FitsPage(d: Device, data: seq<byte>) {
    && |data| < 0x1_0000 && |data| % 2 == 0 && EvenAddress(d.currAddress)
    && d.currAddress % |d.chip.buffer| + |data| <= |d.chip.buffer|
  }

  /** The offset of a place in its page is that of the address, and 2^32 is a whole number of pages. */
  lemma PlaceInPage(addr: nat, flash: nat, page: nat)
    requires (page == 128 || page == 256) && 0 < flash && flash % page == 0
    ensures (addr % flash) % page == addr % page
  {
    var q, m := addr / flash, flash / page;
    Quotient(addr, flash);
    Quotient(flash, page);
    WholePages(page, m, q);
    AddMultiple(addr % flash, m * q, page);
  }

  lemma Quotient(x: nat, size: nat)
    requires 0 < size
    ensures x == size * (x / size) + x % size && 0 <= x / size
  {
  }

  lemma WholePages(page: nat, m: nat, q: nat)
    ensures (page * m) * q == page * (m * q) && 0 <= m * q
  {
  }

  lemma NoWrap(addr: nat, n: nat, page: nat)
    requires (page == 128 || page == 256) && addr < 0x1_0000_0000 && addr % page + n <= page
    ensures addr + n <= 0x1_0000_0000
  {
    PageOf(addr, 0x1_0000_0000, page);
  }

  /** The device after such a block has been written: the page holds the data at its offset and elsewhere what the
      page buffer held, and no other byte of memory changes. */
  function BlockWritten(d: Device, data: seq<byte>): Device
    requires FitsPage(d, data)
  {
    var page := |d.chip.buffer|;
    var k := d.currAddress % page;
    PageOf(Place(d), |d.chip.flash|, page);
    PlaceInPage(d.currAddress, |d.chip.flash|, page);
    d.(chip := WithPage(d.chip, Place(d) - k, Splice(d.chip.buffer, k, data)),
       currAddress := Add(d.currAddress, |data|))
  }

  /** A flash block write of whole words inside one page, at any address and over any page buffer. */
  lemma FlashBlockWrite(p: Part, d: Device, data: seq<byte>)
    requires FitsPage(d, data)
    ensures Exec(p, d, BlockCommand(CMD_BLOCK_WRITE, MEMORY_FLASH, |data|) + data)
         == Outcome(BlockWritten(d, data), 4 + |data|, [CONFIRM])
  {
    hide PageErase, PageWrite, FillFlashBlock, WriteEepromBlock, Splice, Add;
    var s := BlockCommand(CMD_BLOCK_WRITE, MEMORY_FLASH, |data|) + data;
    assert s[4..4 + |data|] == data;
    assert BlockSize(At(s, 1), At(s, 2)) == |data|;
    FillsPage(d, s, data);
  }

  lemma FillsBuffer(c: Chip, a: nat, s: seq<byte>, data: seq<byte>, k: nat)
    requires k == a % |c.buffer| && k % 2 == 0 && |data| % 2 == 0 && k + |data| <= |c.buffer|
    requires a < 0x1_0000_0000 && 4 + |data| <= |s| && s[4..4 + |data|] == data
    ensures FillFlashBlock(c, a, s, 4, false, 0, |data|) == (c.(buffer := Splice(c.buffer, k, data)), Add(a, |data|))
  {
    hide FillFlashBlock, Add;
    NoWrap(a, |data|, |c.buffer|);
    FillExact(c, a, s, 4, 0, |data|, k);
  }

  lemma CommitsPage(c: Chip, addr: nat, page: seq<byte>)
    requires |page| == |c.buffer|
    ensures PageStart(c, addr) + |c.buffer| <= |c.flash|
    ensures PageWrite(PageErase(c, addr).(buffer := page), addr) == WithPage(c, PageStart(c, addr), page)
  {
    hide PageErase, PageWrite, Splice, PageStart, Blank;
    PageFits(c, addr);
    EraseThenWrite(c, addr, page);
  }

  lemma FillsPage(d: Device, s: seq<byte>, data: seq<byte>)
    requires FitsPage(d, data) && 4 + |data| <= |s| && s[4..4 + |data|] == data
    ensures var r := FillFlashBlock(PageErase(d.chip, d.currAddress), d.currAddress, s, 4, false, 0, |data|);
            PageWrite(r.0, d.currAddress) == BlockWritten(d, data).chip && r.1 == BlockWritten(d, data).currAddress
  {
    hide PageErase, PageWrite, FillFlashBlock, WithPage, Blank, Add, PageStart, BlockWritten, Splice;
    var page, a := |d.chip.buffer|, d.currAddress;
    var k := a % page;
    EvenOffset(a, page);
    PageFits(d.chip, a);
    WrittenParts(d, data);
    FillsBuffer(PageErase(d.chip, a), a, s, data, k);
    CommitsPage(d.chip, a, Splice(d.chip.buffer, k, data));
  }

  lemma WrittenParts(d: Device, data: seq<byte>)
    requires FitsPage(d, data)
    ensures PageStart(d.chip, d.currAddress) + |d.chip.buffer| <= |d.chip.flash|
    ensures var k, start := d.currAddress % |d.chip.buffer|, PageStart(d.chip, d.currAddress);
            && BlockWritten(d, data).chip == WithPage(d.chip, start, Splice(d.chip.buffer, k, data))
            && BlockWritten(d, data).currAddress == Add(d.currAddress, |data|)
  {
    hide WithPage, Add, Splice;
    PageFits(d.chip, d.currAddress);
    PlaceInPage(d.currAddress, |d.chip.flash|, |d.chip.buffer|);
  }

  lemma EvenOffset(a: nat, page: nat)
    requires (page == 128 || page == 256) && a % 2 == 0
    ensures (a % page) % 2 == 0
  {
    if page == 128 {
      assert a == 128 * (a / 128) + a % 128;
    } else {
      assert a == 256 * (a / 256) + a % 256;
    }
  }

  /** A flash block read of any length, from wherever the address leads. */
  lemma FlashBlockRead(p: Part, d: Device, n: word)
    requires EvenAddress(d.currAddress) && Place(d) + n <= |d.chip.flash| && d.currAddress + n <= 0x1_0000_0000
    ensures Exec(p, d, BlockCommand(CMD_BLOCK_READ, MEMORY_FLASH, n))
         == Outcome(d.(chip := RwwEnable(d.chip), currAddress := Add(d.currAddress, n - n % 2)), 4,
                    d.chip.flash[Place(d)..Place(d) + n])
  {
    hide ReadFlashBlock, Add;
    var s := BlockCommand(CMD_BLOCK_READ, MEMORY_FLASH, n);
    assert BlockSize(At(s, 1), At(s, 2)) == n;
    ReadFlashExact(RwwEnable(d.chip), d.currAddress, Place(d), n);
  }

  /** The address command for a word address. */
  function AddressCommand(w: word): seq<byte> {
    [CMD_SET_ADDRESS, w / 0x100, w % 0x100]
  }

  /** The address a word address is turned into. */
  function AddressOf(w: word): nat {
    SetAddress(w / 0x100, w % 0x100)
  }

  lemma SetsAddress(p: Part, d: Device, w: word)
    ensures Exec(p, d, AddressCommand(w)) == Outcome(d.(currAddress := AddressOf(w)), 3, [CONFIRM])
    ensures EvenAddress(AddressOf(w)) && (w < 0x4000 ==> AddressOf(w) == 2 * w)
  {
    hide SetAddress;
    SetAddressIsEven(w / 0x100, w % 0x100);
    SetAddressValue(w);
  }

  /** The offset in a page is always that of the word the host named. */
  lemma AddressOffset(w: word, page: nat)
    requires page == 128 || page == 256
    ensures AddressOf(w) % page == (2 * w) % page
  {
    hide SetAddress;
    SetAddressValue(w);
    var m := if w < 0x4000 then 0 else if w < 0x8000 then 0xFFFF else if w < 0xC000 then -1 else 0xFFFE;
    assert AddressOf(w) == 2 * w + 0x1_0000 * m;
    SmallFlash(2 * w, m, page);
  }

  /** The commands that write a block and read it back. */
  function WriteAndRead(w: word, memory: byte, data: seq<byte>): seq<seq<byte>>
    requires |data| < 0x1_0000
  {
    [AddressCommand(w), BlockCommand(CMD_BLOCK_WRITE, memory, |data|) + data,
     AddressCommand(w), BlockCommand(CMD_BLOCK_READ, memory, |data|)]
  }

  /** The device and the responses after a number of commands. */
  function RunCommands(p: Part, d: Device, cs: seq<seq<byte>>): (Device, seq<seq<byte>>)
    decreases |cs|
  {
    if cs == [] || !d.runBootloader then (d, [])
    else
      var r := Exec(p, d, cs[0]);
      var (e, rest) := RunCommands(p, r.device, cs[1..]);
      (e, [r.response] + rest)
  }

  lemma RunFour(p: Part, d: Device, cs: seq<seq<byte>>, d1: Device, d2: Device, d3: Device)
    requires |cs| == 4 && d.runBootloader && d1.runBootloader && d2.runBootloader && d3.runBootloader
    requires d1 == Exec(p, d, cs[0]).device && d2 == Exec(p, d1, cs[1]).device && d3 == Exec(p, d2, cs[2]).device
    ensures var r := RunCommands(p, d, cs);
            |r.1| == 4 && r.1[3] == Exec(p, d3, cs[3]).response && r.0 == Exec(p, d3, cs[3]).device
  {
    hide Exec;
    var r4 := Exec(p, d3, cs[3]);
    assert cs[1..][1..] == cs[2..] && cs[2..][1..] == cs[3..] && cs[3..][1..] == [];
    assert RunCommands(p, r4.device, []) == (r4.device, []);
    assert RunCommands(p, d3, cs[3..]) == (r4.device, [r4.response] + []);
    assert RunCommands(p, d2, cs[2..]).1 == [Exec(p, d2, cs[2]).response] + RunCommands(p, d3, cs[3..]).1;
    assert RunCommands(p, d1, cs[1..]).1 == [Exec(p, d1, cs[1]).response] + RunCommands(p, d2, cs[2..]).1;
  }

  /** In every reachable state the current address is even. */
  lemma {:induction false} AddressAlwaysEven(p: Part, d: Device, cs: seq<seq<byte>>)
    requires EvenAddress(d.currAddress)
    ensures EvenAddress(RunCommands(p, d, cs).0.currAddress)
    decreases |cs|
  {
    hide Exec, EvenAddress;
    if cs != [] && d.runBootloader {
      AddressStaysEven(p, d, cs[0]);
      AddressAlwaysEven(p, Exec(p, d, cs[0]).device, cs[1..]);
    }
  }

  /** Flash round trip, for every word address: writing a block of whole words that stays inside its page and
      reading it back returns the same bytes, and leaves every byte of every other page as it was. Which page that
      is, SetAddressExact says. */
  lemma FlashBlockRoundTrip(p: Part, d: Device, w: word, data: seq<byte>)
    requires d.runBootloader && |data| < 0x1_0000 && |data| % 2 == 0
    requires (2 * w) % |d.chip.buffer| + |data| <= |d.chip.buffer|
    ensures var n, place := |data|, AddressOf(w) % |d.chip.flash|;
            var start := place - place % |d.chip.buffer|;
            var (e, responses) := RunCommands(p, d, WriteAndRead(w, MEMORY_FLASH, data));
            && |responses| == 4 && responses[3] == data
            && |e.chip.flash| == |d.chip.flash| && e.chip.eeprom == d.chip.eeprom && e.chip.rww
            && place + n <= |e.chip.flash| && e.chip.flash[place..place + n] == data
            && forall i :: 0 <= i < |d.chip.flash| && !(start <= i < start + |d.chip.buffer|)
                 ==> e.chip.flash[i] == d.chip.flash[i]
  {
    hide Exec, RunCommands, AddressOf, Add;
    var n, page, a := |data|, |d.chip.buffer|, AddressOf(w);
    var place := a % |d.chip.flash|;
    var cs := WriteAndRead(w, MEMORY_FLASH, data);
    var k := a % page;
    AddressOffset(w, page);
    SetsAddress(p, d, w);
    PageOf(place, |d.chip.flash|, page);
    PlaceInPage(a, |d.chip.flash|, page);
    NoWrap(a, n, page);
    var d1 := d.(currAddress := a);
    FlashBlockWrite(p, d1, data);
    var d2 := Exec(p, d1, cs[1]).device;
    SetsAddress(p, d2, w);
    var d3 := d2.(currAddress := a);
    FlashBlockRead(p, d3, n);
    RunFour(p, d, cs, d1, d2, d3);
    SpliceHolds(d.chip.flash, place - k, d.chip.buffer, k, data);
  }

  lemma SpliceHolds(flash: seq<byte>, start: nat, buffer: seq<byte>, k: nat, data: seq<byte>)
    requires k + |data| <= |buffer| && start + |buffer| <= |flash|
    ensures var r := Splice(flash, start, Splice(buffer, k, data));
            && r[start + k..start + k + |data|] == data
            && forall i :: 0 <= i < |flash| && !(start <= i < start + |buffer|) ==> r[i] == flash[i]
  {
  }

  // ---- EEPROM ----

  lemma EepromCell(c: Chip, e: nat)
    requires e < |c.eeprom| <= 0x1_0000
    ensures ReadEeprom(c, EepromAddress(2 * e)) == c.eeprom[e]
    ensures forall b: byte :: WriteEeprom(c, EepromAddress(2 * e), b) == c.(eeprom := c.eeprom[e := b])
    ensures Add(2 * e, 2) == 2 * (e + 1)
  {
    SmallMod(e, |c.eeprom|);
  }

  lemma {:induction false} EepromWriteExact(c: Chip, e: nat, s: seq<byte>, at: nat, n: nat)
    requires e + n <= |c.eeprom| <= 0x1_0000 && at + n <= |s|
    ensures WriteEepromBlock(c, 2 * e, s, at, n)
         == (c.(eeprom := c.eeprom[..e] + s[at..at + n] + c.eeprom[e + n..]), 2 * (e + n))
    decreases n
  {
    hide EepromAddress, WriteEeprom, Add;
    if n == 0 {
      assert c.eeprom[..e] + s[at..at] + c.eeprom[e..] == c.eeprom;
    } else {
      EepromCell(c, e);
      var next := WriteEeprom(c, EepromAddress(2 * e), s[at]);
      assert next.eeprom == c.eeprom[e := s[at]];
      EepromWriteExact(next, e + 1, s, at + 1, n - 1);
      assert next.eeprom[..e + 1] + s[at + 1..at + n] + next.eeprom[e + n..]
          == c.eeprom[..e] + s[at..at + n] + c.eeprom[e + n..];
    }
  }

  lemma {:induction false} EepromReadExact(c: Chip, e: nat, n: nat)
    requires e + n <= |c.eeprom| <= 0x1_0000
    ensures ReadEepromBlock(c, 2 * e, n) == (c.eeprom[e..e + n], 2 * (e + n))
    decreases n
  {
    hide EepromAddress, ReadEeprom, Add;
    if n == 0 {
      assert c.eeprom[e..e] == [];
    } else {
      EepromCell(c, e);
      EepromReadExact(c, e + 1, n - 1);
      assert c.eeprom[e..e + n] == [c.eeprom[e]] + c.eeprom[e + 1..e + n];
    }
  }

  /** EEPROM round trip, for EEPROMs of up to 4K as USB AVRs have. */
  lemma EepromBlockRoundTrip(p: Part, d: Device, e: word, data: seq<byte>)
    requires d.runBootloader && e + |data| <= |d.chip.eeprom| <= 0x1000
    ensures var n := |data|;
            var (r, responses) := RunCommands(p, d, WriteAndRead(e, MEMORY_EEPROM, data));
            && |responses| == 4 && responses[3] == data
            && r.chip.eeprom == d.chip.eeprom[..e] + data + d.chip.eeprom[e + n..]
            && r.chip.flash == d.chip.flash && r.chip.buffer == d.chip.buffer
  {
    hide RunCommands, Exec;
    var n := |data|;
    var cs := WriteAndRead(e, MEMORY_EEPROM, data);
    var d1 := d.(currAddress := 2 * e);
    SetsAddress(p, d, e);
    EepromBlockWrite(p, d1, e, data);
    var d2 := Exec(p, d1, cs[1]).device;
    SetsAddress(p, d2, e);
    var d3 := d2.(currAddress := 2 * e);
    EepromBlockRead(p, d3, e, n);
    RunFour(p, d, cs, d1, d2, d3);
    assert d3.chip.eeprom[e..e + n] == data;
  }

  lemma EepromBlockWrite(p: Part, d: Device, e: nat, data: seq<byte>)
    requires d.currAddress == 2 * e && e + |data| <= |d.chip.eeprom| <= 0x1_0000 && |data| < 0x1_0000
    ensures Exec(p, d, BlockCommand(CMD_BLOCK_WRITE, MEMORY_EEPROM, |data|) + data)
         == Outcome(d.(chip := d.chip.(eeprom := d.chip.eeprom[..e] + data + d.chip.eeprom[e + |data|..]),
                       currAddress := 2 * (e + |data|)), 4 + |data|, [CONFIRM])
  {
    hide WriteEepromBlock;
    var s := BlockCommand(CMD_BLOCK_WRITE, MEMORY_EEPROM, |data|) + data;
    assert s[4..4 + |data|] == data;
    assert BlockSize(At(s, 1), At(s, 2)) == |data|;
    EepromWriteExact(d.chip, e, s, 4, |data|);
  }

  lemma EepromBlockRead(p: Part, d: Device, e: nat, n: word)
    requires d.currAddress == 2 * e && e + n <= |d.chip.eeprom| <= 0x1_0000
    ensures Exec(p, d, BlockCommand(CMD_BLOCK_READ, MEMORY_EEPROM, n))
         == Outcome(d.(chip := RwwEnable(d.chip), currAddress := 2 * (e + n)), 4, d.chip.eeprom[e..e + n])
  {
    hide ReadEepromBlock;
    var s := BlockCommand(CMD_BLOCK_READ, MEMORY_EEPROM, n);
    assert BlockSize(At(s, 1), At(s, 2)) == n;
    EepromReadExact(RwwEnable(d.chip), e, n);
  }
}
