/** The memory of a USB AVR as the bootloaders see it: flash programmed a page at a time through a
    one-page temporary buffer, and byte-addressed EEPROM. */
module Avr {

  type byte = x: int | 0 <= x < 0x100
  type word = x: int | 0 <= x < 0x1_0000

  const BLANK: byte := 0xFF

  /** `buffer` is the temporary page buffer; its length is SPM_PAGESIZE. `rww` says whether the
      application section can be read: erasing or writing a page locks it out. */
  datatype Memory = Memory(flash: seq<byte>, buffer: seq<byte>, eeprom: seq<byte>, rww: bool)
  {
    predicate Valid() {
      && (|buffer| == 128 || |buffer| == 256)
      && 0 < |flash| && |flash| % |buffer| == 0
      && 0 < |eeprom|
    }
  }

  type Chip = m: Memory | m.Valid() witness Memory(Blank(128), Blank(128), [0], true)

  function Blank(n: nat): seq<byte> {
    seq(n, _ => BLANK)
  }

  lemma SmallMod(a: nat, n: nat)
    requires a < n
    ensures a % n == a
  {
  }

  /** An offset into an aligned page. */
  lemma PageOffset(addr: nat, k: nat, page: nat)
    requires page == 128 || page == 256
    requires addr % page == 0 && k < page
    ensures (addr + k) % page == k
  {
    var q := addr / page;
    if page == 128 {
      assert addr + k == 128 * q + k;
    } else {
      assert addr + k == 256 * q + k;
    }
  }

  /** Every address of a whole number of pages lies in a whole page. */
  lemma PageOf(a: nat, limit: nat, page: nat)
    requires page == 128 || page == 256
    requires limit % page == 0 && a < limit
    ensures a % page <= a && (a - a % page) % page == 0 && a - a % page + page <= limit
  {
    var q, n := a / page, limit / page;
    if page == 128 {
      assert a == 128 * q + a % 128 && limit == 128 * n;
    } else {
      assert a == 256 * q + a % 256 && limit == 256 * n;
    }
  }

  /** First byte of the flash page that holds `addr`; address bits above the flash size are ignored. */
  function PageStart(c: Chip, addr: nat): nat {
    var a := addr % |c.flash|;
    a - a % |c.buffer|
  }

  lemma PageFits(c: Chip, addr: nat)
    ensures PageStart(c, addr) + |c.buffer| <= |c.flash|
    ensures PageStart(c, addr) % |c.buffer| == 0
    ensures PageStart(c, addr) <= addr % |c.flash| < PageStart(c, addr) + |c.buffer|
  {
    PageOf(addr % |c.flash|, |c.flash|, |c.buffer|);
  }

  /** Programming can only clear bits, so an erased cell takes the new value and any other cell
      keeps its zeros. */
  function Burn(cell: byte, value: byte): byte {
    if cell == BLANK then value else ((cell as bv8) & (value as bv8)) as int
  }

  function BurnAll(cells: seq<byte>, values: seq<byte>): (r: seq<byte>)
    requires |cells| == |values|
    ensures |r| == |cells|
  {
    seq(|cells|, i requires 0 <= i < |cells| => Burn(cells[i], values[i]))
  }

  /** `cells` with the ones from `at` on replaced by `values`. */
  function Splice<T>(cells: seq<T>, at: nat, values: seq<T>): (r: seq<T>)
    requires at + |values| <= |cells|
    ensures |r| == |cells|
  {
    cells[..at] + values + cells[at + |values|..]
  }

  /** boot_page_erase */
  function PageErase(c: Chip, addr: nat): (r: Chip)
    ensures |r.flash| == |c.flash| && r.buffer == c.buffer && r.eeprom == c.eeprom
  {
    PageFits(c, addr);
    c.(flash := Splice(c.flash, PageStart(c, addr), Blank(|c.buffer|)), rww := false)
  }

  /** boot_page_fill: one little-endian word into the temporary buffer; bit 0 of the address is ignored. */
  function PageFill(c: Chip, addr: nat, lo: byte, hi: byte): (r: Chip)
    ensures r.flash == c.flash && |r.buffer| == |c.buffer| && r.eeprom == c.eeprom && r.rww == c.rww
  {
    var k := addr % |c.buffer|;
    var e := k - k % 2;
    c.(buffer := c.buffer[e := lo][e + 1 := hi])
  }

  /** boot_page_write: commits the buffer to a page and leaves the buffer blank. */
  function PageWrite(c: Chip, addr: nat): (r: Chip)
    ensures |r.flash| == |c.flash| && r.buffer == Blank(|c.buffer|) && r.eeprom == c.eeprom
  {
    PageFits(c, addr);
    var p := PageStart(c, addr);
    var cells := c.flash[p..p + |c.buffer|];
    c.(flash := Splice(c.flash, p, BurnAll(cells, c.buffer)), buffer := Blank(|c.buffer|), rww := false)
  }

  /** boot_rww_enable */
  function RwwEnable(c: Chip): Chip {
    c.(rww := true)
  }

  /** pgm_read_byte; a locked-out section reads as blank. */
  function ReadFlash(c: Chip, addr: nat): byte {
    if c.rww then c.flash[addr % |c.flash|] else BLANK
  }

  function ReadEeprom(c: Chip, addr: nat): byte {
    c.eeprom[addr % |c.eeprom|]
  }

  function WriteEeprom(c: Chip, addr: nat, value: byte): (r: Chip)
    ensures r.flash == c.flash && r.buffer == c.buffer && |r.eeprom| == |c.eeprom| && r.rww == c.rww
  {
    c.(eeprom := c.eeprom[addr % |c.eeprom| := value])
  }

  // ---- What erasing, filling and committing one page come to ----

  /** An erase followed by a commit leaves exactly the buffer in the page and the rest alone. */
  lemma EraseThenWrite(c: Chip, addr: nat, buffer: seq<byte>)
    requires |buffer| == |c.buffer|
    ensures PageWrite(PageErase(c, addr).(buffer := buffer), addr)
         == c.(flash := Splice(c.flash, PageStart(c, addr), buffer), buffer := Blank(|c.buffer|), rww := false)
  {
    PageFits(c, addr);
    var p := PageStart(c, addr);
    var e := PageErase(c, addr).(buffer := buffer);
    assert e.flash[p..p + |buffer|] == Blank(|buffer|);
    assert BurnAll(Blank(|buffer|), buffer) == buffer;
    assert Splice(e.flash, p, buffer) == Splice(c.flash, p, buffer);
  }
}
