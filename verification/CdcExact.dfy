/** When a CDC flash block write puts every block where the host asked, and the blocks that miss. */
module CdcExact {
  import opened Avr
  import opened Cdc
  import opened CdcProperties

  /** A flash block write. */
  function WriteCommand(data: seq<byte>): seq<byte>
    requires |data| < 0x1_0000
  {
    BlockCommand(CMD_BLOCK_WRITE, MEMORY_FLASH, |data|) + data
  }

  /** The words of a block written: its bytes in pairs. */
  lemma WriteOutcome(p: Part, d: Device, data: seq<byte>)
    requires |data| < 0x1_0000
    ensures var s := WriteCommand(data);
            && 4 + |data| == |s| && s[4..] == data
            && Exec(p, d, s).device.chip
            == PageWrite(FillFlashBlock(PageErase(d.chip, d.currAddress), d.currAddress, s, 4, false, 0, |data|).0,
                         d.currAddress)
  {
    hide PageErase, PageWrite, FillFlashBlock, WriteEepromBlock;
    var s := WriteCommand(data);
    assert BlockSize(At(s, 1), At(s, 2)) == |data|;
  }

  // ---- Odd blocks ----

  /** The last byte of an odd block waits for a high byte that never comes. */
  lemma {:induction false} OddByteDropped(c: Chip, addr: nat, s: seq<byte>, t: seq<byte>, at: nat, low: byte, n: nat)
    requires n % 2 == 0 && at + n <= |s| && at + n <= |t| && s[..at + n] == t[..at + n]
    ensures FillFlashBlock(c, addr, s, at, false, low, n + 1).0 == FillFlashBlock(c, addr, t, at, false, low, n).0
    decreases n
  {
    hide PageFill, Add, FillFlashBlock;
    if n == 0 {
      FillFirst(c, addr, s, at, low);
      FillNone(c, addr, t, at, low);
    } else {
      assert s[at] == s[..at + n][at] == t[at] && s[at + 1] == s[..at + n][at + 1] == t[at + 1];
      FillWord(c, addr, s, at, low, n + 1);
      FillWord(c, addr, t, at, low, n);
      OddByteDropped(PageFill(c, addr, s[at], s[at + 1]), Add(addr, 2), s, t, at + 2, s[at], n - 2);
    }
  }

  lemma FillFirst(c: Chip, addr: nat, s: seq<byte>, at: nat, low: byte)
    ensures FillFlashBlock(c, addr, s, at, false, low, 1).0 == c
  {
    hide PageFill;
    assert FillFlashBlock(c, addr, s, at + 1, true, At(s, at), 0) == (c, addr);
  }

  /** An odd block leaves the same memory whatever its last byte is. */
  lemma OddBlocksAlike(p: Part, d: Device, x: seq<byte>, y: seq<byte>)
    requires |x| == |y| < 0x1_0000 && |x| % 2 == 1 && x[..|x| - 1] == y[..|y| - 1]
    ensures Exec(p, d, WriteCommand(x)).device.chip == Exec(p, d, WriteCommand(y)).device.chip
  {
    hide Exec, FillFlashBlock, PageErase, PageWrite, WriteCommand;
    var s, t, n := WriteCommand(x), WriteCommand(y), |x| - 1;
    WriteOutcome(p, d, x);
    WriteOutcome(p, d, y);
    SameUpToLast(x, y);
    var c := PageErase(d.chip, d.currAddress);
    OddByteDropped(c, d.currAddress, s, t, 4, 0, n);
    OddByteDropped(c, d.currAddress, t, t, 4, 0, n);
  }

  lemma SameUpToLast(x: seq<byte>, y: seq<byte>)
    requires 0 < |x| == |y| < 0x1_0000 && x[..|x| - 1] == y[..|y| - 1]
    ensures WriteCommand(x)[..|x| + 3] == WriteCommand(y)[..|x| + 3]
  {
    assert WriteCommand(x)[..|x| + 3] == BlockCommand(CMD_BLOCK_WRITE, MEMORY_FLASH, |x|) + x[..|x| - 1];
    assert WriteCommand(y)[..|x| + 3] == BlockCommand(CMD_BLOCK_WRITE, MEMORY_FLASH, |x|) + y[..|x| - 1];
  }

  // ---- Blocks that run over a page ----

  /** Whatever its length, a block write changes no byte outside the page of the current address. */
  lemma WriteStaysInPage(p: Part, d: Device, data: seq<byte>, i: nat)
    requires |data| < 0x1_0000 && i < |d.chip.flash|
    requires !(PageStart(d.chip, d.currAddress) <= i < PageStart(d.chip, d.currAddress) + |d.chip.buffer|)
    ensures var e := Exec(p, d, WriteCommand(data)).device;
            |e.chip.flash| == |d.chip.flash| && e.chip.flash[i] == d.chip.flash[i]
  {
    hide Exec, FillFlashBlock;
    WriteOutcome(p, d, data);
    PageFits(d.chip, d.currAddress);
  }

  // ---- The exact condition ----

  /** After the block write the data is in flash at the place of the current address. */
  predicate BlockLands(p: Part, d: Device, data: seq<byte>)
    requires |data| < 0x1_0000
  {
    var f := Exec(p, d, WriteCommand(data)).device.chip.flash;
    Place(d) + |data| <= |f| && f[Place(d)..Place(d) + |data|] == data
  }

  lemma FittingBlockLands(p: Part, d: Device, data: seq<byte>)
    requires FitsPage(d, data)
    ensures BlockLands(p, d, data)
  {
    hide Exec, Add;
    FlashBlockWrite(p, d, data);
    var page, a := |d.chip.buffer|, d.currAddress;
    PageOf(Place(d), |d.chip.flash|, page);
    PlaceInPage(a, |d.chip.flash|, page);
    SpliceHolds(d.chip.flash, Place(d) - a % page, d.chip.buffer, a % page, data);
  }

  /** `n` bytes of which byte `k` is `b`. */
  function Marked(n: nat, k: nat, b: byte): (r: seq<byte>)
    requires k < n
    ensures |r| == n && r[k] == b
  {
    seq<byte>(n, _ => 0)[k := b]
  }

  lemma OddBlockMisses(p: Part, d: Device, n: nat)
    requires n < 0x1_0000 && n % 2 == 1
    ensures !BlockLands(p, d, Marked(n, n - 1, 0)) || !BlockLands(p, d, Marked(n, n - 1, 1))
  {
    hide Exec;
    var x, y := Marked(n, n - 1, 0), Marked(n, n - 1, 1);
    assert x[..n - 1] == y[..n - 1];
    assert x[n - 1] != y[n - 1];
    OddBlocksAlike(p, d, x, y);
  }

  /** A block that runs over the end of its page leaves the first byte of the next page as it was. */
  lemma OverrunMisses(p: Part, d: Device, n: nat)
    requires n < 0x1_0000 && Place(d) + n <= |d.chip.flash| && |d.chip.buffer| < d.currAddress % |d.chip.buffer| + n
    ensures var k := |d.chip.buffer| - d.currAddress % |d.chip.buffer|;
            var b: byte := if d.chip.flash[Place(d) + k] == 0 then 1 else 0;
            !BlockLands(p, d, Marked(n, k, b))
  {
    hide Exec;
    var page, a := |d.chip.buffer|, Place(d);
    PlaceInPage(d.currAddress, |d.chip.flash|, page);
    var k := page - d.currAddress % page;
    var b: byte := if d.chip.flash[a + k] == 0 then 1 else 0;
    var data := Marked(n, k, b);
    WriteStaysInPage(p, d, data, a + k);
    var f := Exec(p, d, WriteCommand(data)).device.chip.flash;
    assert a + n <= |f| ==> f[a..a + n][k] == f[a + k];
  }

  /** For every address the bootloader can hold and every length: a flash block write leaves every block of that
      length at its place exactly when the length is even and the block stays inside its page. */
  lemma BlockWriteExactIff(p: Part, d: Device, n: nat)
    requires n < 0x1_0000 && EvenAddress(d.currAddress) && Place(d) + n <= |d.chip.flash|
    ensures (forall data: seq<byte> :: |data| == n ==> BlockLands(p, d, data))
       <==> n % 2 == 0 && d.currAddress % |d.chip.buffer| + n <= |d.chip.buffer|
  {
    hide BlockLands, Marked;
    if n % 2 == 1 {
      OddBlockMisses(p, d, n);
    } else if |d.chip.buffer| < d.currAddress % |d.chip.buffer| + n {
      OverrunMisses(p, d, n);
    } else {
      forall data: seq<byte> | |data| == n
        ensures BlockLands(p, d, data)
      {
        FittingBlockLands(p, d, data);
      }
    }
  }

  /** A block of a single byte is not written at all: its page comes out as what the page buffer held. */
  lemma SingleByteIsLost(p: Part, d: Device, b: byte)
    ensures var e := Exec(p, d, WriteCommand([b])).device;
            && PageStart(d.chip, d.currAddress) + |d.chip.buffer| <= |d.chip.flash|
            && e.chip == WithPage(d.chip, PageStart(d.chip, d.currAddress), d.chip.buffer)
  {
    hide Exec, FillFlashBlock, PageErase, PageWrite;
    var a := d.currAddress;
    WriteOutcome(p, d, [b]);
    FillFirst(PageErase(d.chip, a), a, WriteCommand([b]), 4, 0);
    CommitsPage(d.chip, a, d.chip.buffer);
    assert PageErase(d.chip, a).(buffer := d.chip.buffer) == PageErase(d.chip, a);
  }
}
