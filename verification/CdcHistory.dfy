/** What the host can tell of the CDC bootloader's hidden state from the commands it has sent: whether the page
    buffer is blank, and whether the application section can be read. */
module CdcHistory {
  import opened Avr
  import opened Pages
  import opened Cdc
  import opened CdcProperties

  // ---- The page buffer ----

  /** A command that puts a word in the page buffer and leaves it there. */
  predicate Fills(s: seq<byte>) {
    At(s, 0) == CMD_FILL_WORD_LOW || At(s, 0) == CMD_FILL_WORD_HIGH
  }

  lemma {:induction false} EraseKeepsBlank(c: Chip, from: nat, limit: nat)
    requires BlankBuffer(c)
    ensures BlankBuffer(EraseFrom(c, from, limit))
    decreases limit - from
  {
    hide PageErase, PageWrite;
    if from < limit {
      EraseKeepsBlank(PageWrite(PageErase(c, from), from), from + |c.buffer|, limit);
    }
  }

  lemma BlankStep(p: Part, d: Device, s: seq<byte>)
    requires BlankBuffer(d.chip) && !Fills(s)
    ensures BlankBuffer(Exec(p, d, s).device.chip)
  {
    hide EraseFrom, FillFlashBlock, WriteEepromBlock, ReadFlashBlock, ReadEepromBlock, PageErase, PageWrite, PageFill,
      WriteEeprom, SetAddress, Query, At, Add;
    EraseKeepsBlank(d.chip, 0, p.bootStart);
  }

  /** In every session without a word-fill command the page buffer stays blank. */
  lemma {:induction false} BufferStaysBlank(p: Part, d: Device, cs: seq<seq<byte>>)
    requires BlankBuffer(d.chip) && forall i :: 0 <= i < |cs| ==> !Fills(cs[i])
    ensures BlankBuffer(RunCommands(p, d, cs).0.chip)
    decreases |cs|
  {
    hide Exec, BlankBuffer, Fills;
    if cs != [] && d.runBootloader {
      BlankStep(p, d, cs[0]);
      BufferStaysBlank(p, Exec(p, d, cs[0]).device, cs[1..]);
    }
  }

  // ---- The lockout of the application section ----

  /** A command that writes or erases flash. */
  predicate Locks(p: Part, s: seq<byte>) {
    || At(s, 0) == CMD_WRITE_FLASH_PAGE
    || (At(s, 0) == CMD_ERASE_FLASH && 0 < p.bootStart)
    || (At(s, 0) == CMD_BLOCK_WRITE && At(s, 3) == MEMORY_FLASH)
  }

  /** A block read, of either memory. */
  predicate Unlocks(s: seq<byte>) {
    At(s, 0) == CMD_BLOCK_READ && (At(s, 3) == MEMORY_FLASH || At(s, 3) == MEMORY_EEPROM)
  }

  /** Some command wrote or erased flash, and no block read came after it. */
  ghost predicate LockedOut(p: Part, cs: seq<seq<byte>>) {
    exists i :: 0 <= i < |cs| && Locks(p, cs[i]) && forall j :: i < j < |cs| ==> !Unlocks(cs[j])
  }

  predicate AnyUnlocks(cs: seq<seq<byte>>) {
    exists j :: 0 <= j < |cs| && Unlocks(cs[j])
  }

  lemma {:induction false} EraseLocks(c: Chip, from: nat, limit: nat)
    ensures EraseFrom(c, from, limit).rww == (c.rww && from >= limit)
    decreases limit - from
  {
    if from < limit {
      EraseLocks(PageWrite(PageErase(c, from), from), from + |c.buffer|, limit);
    }
  }

  lemma LockStep(p: Part, d: Device, s: seq<byte>)
    ensures Exec(p, d, s).device.chip.rww == if Locks(p, s) then false else Unlocks(s) || d.chip.rww
  {
    hide EraseFrom, FillFlashBlock, WriteEepromBlock, ReadFlashBlock, ReadEepromBlock, PageFill, WriteEeprom,
      SetAddress,
      Query, At, Add;
    EraseLocks(d.chip, 0, p.bootStart);
  }

  /** The first command of a session only matters to the lockout as long as no block read follows. */
  lemma LockedOutStep(p: Part, cs: seq<seq<byte>>)
    requires cs != []
    ensures LockedOut(p, cs) <==> LockedOut(p, cs[1..]) || (Locks(p, cs[0]) && !AnyUnlocks(cs[1..]))
    ensures AnyUnlocks(cs) <==> Unlocks(cs[0]) || AnyUnlocks(cs[1..])
  {
    hide Locks, Unlocks;
    var rest := cs[1..];
    if LockedOut(p, rest) {
      var i :| 0 <= i < |rest| && Locks(p, rest[i]) && forall j :: i < j < |rest| ==> !Unlocks(rest[j]);
      assert Locks(p, cs[i + 1]) && forall j :: i + 1 < j < |cs| ==> cs[j] == rest[j - 1];
    }
    if Locks(p, cs[0]) && !AnyUnlocks(rest) {
      assert forall j :: 0 < j < |cs| ==> cs[j] == rest[j - 1];
    }
    if LockedOut(p, cs) {
      var i :| 0 <= i < |cs| && Locks(p, cs[i]) && forall j :: i < j < |cs| ==> !Unlocks(cs[j]);
      assert forall j :: 0 <= j < |rest| ==> rest[j] == cs[j + 1];
      if i > 0 {
        assert Locks(p, rest[i - 1]);
      }
    }
    if AnyUnlocks(rest) {
      var j :| 0 <= j < |rest| && Unlocks(rest[j]);
      assert Unlocks(cs[j + 1]);
    }
    if AnyUnlocks(cs) && !Unlocks(cs[0]) {
      var j :| 0 <= j < |cs| && Unlocks(cs[j]);
      assert Unlocks(rest[j - 1]);
    }
  }

  /** While the bootloader runs, the section is readable exactly when the last write or erase of flash has been
      followed by a block read, or, before any of these commands, when it was so at the start. */
  lemma {:induction false} LockoutIsHistory(p: Part, d: Device, cs: seq<seq<byte>>)
    requires RunCommands(p, d, cs).0.runBootloader
    ensures RunCommands(p, d, cs).0.chip.rww <==> !LockedOut(p, cs) && (d.chip.rww || AnyUnlocks(cs))
    decreases |cs|
  {
    hide Exec, LockedOut, AnyUnlocks, Locks, Unlocks;
    if cs == [] {
      NoHistory(p);
    } else if d.runBootloader {
      LockStep(p, d, cs[0]);
      LockedOutStep(p, cs);
      LockoutIsHistory(p, Exec(p, d, cs[0]).device, cs[1..]);
    }
  }

  lemma NoHistory(p: Part)
    ensures !LockedOut(p, []) && !AnyUnlocks([])
  {
  }

  /** The single-word read does not enable the section first. After any session, and at any address, it returns the
      flash word exactly when every write or erase of flash has been followed by a block read, or the word is blank
      anyway. */
  lemma WordReadAfterSession(p: Part, d: Device, cs: seq<seq<byte>>)
    requires d.chip.rww && RunCommands(p, d, cs).0.runBootloader
    ensures var e := RunCommands(p, d, cs).0;
            var size := |e.chip.flash|;
            var lo, hi := e.chip.flash[e.currAddress % size], e.chip.flash[(e.currAddress + 1) % size];
            Exec(p, e, [CMD_READ_FLASH_WORD]).response == [hi, lo]
            <==> !LockedOut(p, cs) || (lo == BLANK && hi == BLANK)
  {
    hide RunCommands, LockedOut;
    LockoutIsHistory(p, d, cs);
    WordRead(p, RunCommands(p, d, cs).0);
  }

  lemma WordRead(p: Part, d: Device)
    ensures var size := |d.chip.flash|;
            Exec(p, d, [CMD_READ_FLASH_WORD]).response
            == if d.chip.rww then [d.chip.flash[(d.currAddress + 1) % size], d.chip.flash[d.currAddress % size]]
               else [BLANK, BLANK]
  {
  }

  // ---- A block write at the end of a session ----

  /** After any session without word fills, a block of whole words inside its page leaves the page blank around the
      data. */
  lemma WriteAfterSession(p: Part, d: Device, cs: seq<seq<byte>>, data: seq<byte>)
    requires BlankBuffer(d.chip) && forall i :: 0 <= i < |cs| ==> !Fills(cs[i])
    requires FitsPage(RunCommands(p, d, cs).0, data)
    ensures var e := RunCommands(p, d, cs).0;
            var k, page, start := e.currAddress % |e.chip.buffer|, |e.chip.buffer|, PageStart(e.chip, e.currAddress);
            && start + page <= |e.chip.flash|
            && Exec(p, e, BlockCommand(CMD_BLOCK_WRITE, MEMORY_FLASH, |data|) + data).device.chip
            == WithPage(e.chip, start, Blank(k) + data + Blank(page - k - |data|))
  {
    hide RunCommands, Fills, Exec, BlockWritten, WithPage;
    BufferStaysBlank(p, d, cs);
    var e := RunCommands(p, d, cs).0;
    FlashBlockWrite(p, e, data);
    WrittenParts(e, data);
    BlankAround(e.chip.buffer, e.currAddress % |e.chip.buffer|, data);
  }

  lemma BlankAround(buffer: seq<byte>, k: nat, data: seq<byte>)
    requires buffer == Blank(|buffer|) && k + |data| <= |buffer|
    ensures Splice(buffer, k, data) == Blank(k) + data + Blank(|buffer| - k - |data|)
  {
  }
}
