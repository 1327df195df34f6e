/** The CDC bootloader's AVR109 commands as functions of the byte stream the host sends: a command reads
    its bytes by position, and how they were cut into packets plays no part. */
module Cdc {
  import opened Avr
  import opened Pages

  // AVR109 commands
  const CMD_SYNC: byte := 27
  const CMD_READ_EEPROM: byte := 0x64          // 'd'
  const CMD_WRITE_EEPROM: byte := 0x44         // 'D'
  const CMD_READ_FLASH_WORD: byte := 0x52      // 'R'
  const CMD_WRITE_FLASH_PAGE: byte := 0x6D     // 'm'
  const CMD_FILL_WORD_LOW: byte := 0x63        // 'c'
  const CMD_FILL_WORD_HIGH: byte := 0x43       // 'C'
  const CMD_BLOCK_SUPPORT: byte := 0x62        // 'b'
  const CMD_BLOCK_WRITE: byte := 0x42          // 'B'
  const CMD_BLOCK_READ: byte := 0x67           // 'g'
  const CMD_READ_EXT_FUSES: byte := 0x51       // 'Q'
  const CMD_READ_HIGH_FUSES: byte := 0x4E      // 'N'
  const CMD_READ_LOW_FUSES: byte := 0x46       // 'F'
  const CMD_READ_LOCKBITS: byte := 0x72        // 'r'
  const CMD_WRITE_LOCKBITS: byte := 0x6C       // 'l'
  const CMD_ERASE_FLASH: byte := 0x65          // 'e'
  const CMD_READ_SIGNATURE: byte := 0x73       // 's'
  const CMD_READ_VERSION: byte := 0x56         // 'V'
  const CMD_READ_IDENTIFIER: byte := 0x53      // 'S'
  const CMD_READ_INTERFACE: byte := 0x70       // 'p'
  const CMD_SET_ADDRESS: byte := 0x41          // 'A'
  const CMD_AUTO_INCREMENT: byte := 0x61       // 'a'
  const CMD_READ_PART_CODE: byte := 0x74       // 't'
  const CMD_ENTER_PROGRAMMING: byte := 0x50    // 'P'
  const CMD_LEAVE_PROGRAMMING: byte := 0x4C    // 'L'
  const CMD_SELECT_DEVICE: byte := 0x54        // 'T'
  const CMD_SET_LED: byte := 0x78              // 'x'
  const CMD_CLEAR_LED: byte := 0x79            // 'y'
  const CMD_EXIT: byte := 0x45                 // 'E'

  const MEMORY_FLASH: byte := 0x46             // 'F'
  const MEMORY_EEPROM: byte := 0x45            // 'E'

  const CONFIRM: byte := 13                    // carriage return
  const FAIL: byte := 0x3F                     // '?'
  const IDENTIFIER: seq<byte> := [0x4C, 0x55, 0x46, 0x41, 0x43, 0x44, 0x43]   // "LUFACDC"

  /** What is fixed when the bootloader is built or the chip is fused. */
  datatype Part = Part(bootStart: nat, signature1: byte, signature2: byte, signature3: byte,
                       lowFuses: byte, highFuses: byte, extendedFuses: byte)
  {
    predicate Fits(c: Chip) {
      bootStart % |c.buffer| == 0 && bootStart <= |c.flash|
    }
  }

  datatype Device = Device(chip: Chip, currAddress: nat, runBootloader: bool, lockBits: byte)

  /** The new device, the number of bytes the command took, and the response. */
  datatype Outcome = Outcome(device: Device, used: nat, response: seq<byte>)

  /** Byte `i` of the stream; a detached host reads as zeros. */
  function At(s: seq<byte>, i: nat): byte {
    if i < |s| then s[i] else 0
  }

  // ---- Addresses ----

  /** 32-bit addition. */
  function Add(a: nat, n: nat): nat {
    (a + n) % 0x1_0000_0000
  }

  /** The two bytes of a word address turned into a byte address. The shift by nine is done in the AVR's
      16-bit int, so it wraps there and is then sign-extended to 32 bits. */
  function SetAddress(hi: byte, lo: byte): nat {
    var shifted := (hi * 0x200) % 0x1_0000;
    (if shifted >= 0x8000 then shifted + 0xFFFF_0000 else shifted) + 2 * lo
  }

  /** CurrAddress | HighByte */
  function OrHigh(a: nat, high: bool): nat {
    if high && a % 2 == 0 then a + 1 else a
  }

  /** EEPROM addresses are half the current address, as a 16-bit pointer. */
  function EepromAddress(a: nat): nat {
    (a / 2) % 0x1_0000
  }

  // ---- Block transfers ----

  /** Reads `n` flash bytes; `high` says whether the low byte of the current word has been read. */
  function ReadFlashBlock(c: Chip, addr: nat, high: bool, n: nat): (r: (seq<byte>, nat))
    ensures |r.0| == n
    decreases n
  {
    if n == 0 then ([], addr)
    else
      var b := ReadFlash(c, OrHigh(addr, high));
      var (rest, end) := ReadFlashBlock(c, if high then Add(addr, 2) else addr, !high, n - 1);
      ([b] + rest, end)
  }

  function ReadEepromBlock(c: Chip, addr: nat, n: nat): (r: (seq<byte>, nat))
    ensures |r.0| == n
    decreases n
  {
    if n == 0 then ([], addr)
    else
      var (rest, end) := ReadEepromBlock(c, Add(addr, 2), n - 1);
      ([ReadEeprom(c, EepromAddress(addr))] + rest, end)
  }

  /** Fills `n` bytes from stream position `at`, a word at a time; `low` is the pending low byte. */
  function FillFlashBlock(c: Chip, addr: nat, s: seq<byte>, at: nat, high: bool, low: byte, n: nat): (r: (Chip, nat))
    ensures r.0.flash == c.flash && |r.0.buffer| == |c.buffer| && r.0.eeprom == c.eeprom && r.0.rww == c.rww
    decreases n
  {
    if n == 0 then (c, addr)
    else if high then FillFlashBlock(PageFill(c, addr, low, At(s, at)), Add(addr, 2), s, at + 1, false, low, n - 1)
    else FillFlashBlock(c, addr, s, at + 1, true, At(s, at), n - 1)
  }

  function WriteEepromBlock(c: Chip, addr: nat, s: seq<byte>, at: nat, n: nat): (r: (Chip, nat))
    ensures r.0.flash == c.flash && r.0.buffer == c.buffer && |r.0.eeprom| == |c.eeprom| && r.0.rww == c.rww
    decreases n
  {
    if n == 0 then (c, addr)
    else WriteEepromBlock(WriteEeprom(c, EepromAddress(addr), At(s, at)), Add(addr, 2), s, at + 1, n - 1)
  }

  function BlockSize(hi: byte, lo: byte): nat {
    0x100 * hi + lo
  }

  /** ReadWriteMemoryBlock. */
  function BlockRead(d: Device, s: seq<byte>): Outcome {
    var n := BlockSize(At(s, 1), At(s, 2));
    var c := RwwEnable(d.chip);
    if At(s, 3) == MEMORY_FLASH then
      var (bytes, end) := ReadFlashBlock(c, d.currAddress, false, n);
      Outcome(d.(chip := c, currAddress := end), 4, bytes)
    else
      var (bytes, end) := ReadEepromBlock(c, d.currAddress, n);
      Outcome(d.(chip := c, currAddress := end), 4, bytes)
  }

  function BlockWrite(d: Device, s: seq<byte>): Outcome {
    var n := BlockSize(At(s, 1), At(s, 2));
    if At(s, 3) == MEMORY_FLASH then
      var (filled, end) := FillFlashBlock(PageErase(d.chip, d.currAddress), d.currAddress, s, 4, false, 0, n);
      Outcome(d.(chip := PageWrite(filled, d.currAddress), currAddress := end), 4 + n, [CONFIRM])
    else
      var (written, end) := WriteEepromBlock(d.chip, d.currAddress, s, 4, n);
      Outcome(d.(chip := written, currAddress := end), 4 + n, [CONFIRM])
  }

  function Block(d: Device, s: seq<byte>): Outcome {
    if At(s, 3) != MEMORY_FLASH && At(s, 3) != MEMORY_EEPROM then Outcome(d, 4, [FAIL])
    else if At(s, 0) == CMD_BLOCK_READ then BlockRead(d, s)
    else BlockWrite(d, s)
  }

  // ---- Commands ----

  /** Commands that touch neither memory nor the address: the bytes they take and their response. */
  function Query(p: Part, d: Device, cmd: byte): (nat, seq<byte>) {
    if cmd == CMD_SET_LED || cmd == CMD_CLEAR_LED || cmd == CMD_SELECT_DEVICE then (2, [CONFIRM])
    else if cmd == CMD_ENTER_PROGRAMMING || cmd == CMD_LEAVE_PROGRAMMING then (1, [CONFIRM])
    else if cmd == CMD_READ_PART_CODE then (1, [0x44, 0x00])
    else if cmd == CMD_AUTO_INCREMENT then (1, [0x59])
    else if cmd == CMD_READ_INTERFACE then (1, [0x53])
    else if cmd == CMD_READ_IDENTIFIER then (1, IDENTIFIER)
    else if cmd == CMD_READ_VERSION then (1, [0x31, 0x30])
    else if cmd == CMD_READ_SIGNATURE then (1, [p.signature3, p.signature2, p.signature1])
    else if cmd == CMD_READ_LOCKBITS then (1, [d.lockBits])
    else if cmd == CMD_READ_LOW_FUSES then (1, [p.lowFuses])
    else if cmd == CMD_READ_HIGH_FUSES then (1, [p.highFuses])
    else if cmd == CMD_READ_EXT_FUSES then (1, [p.extendedFuses])
    else if cmd == CMD_BLOCK_SUPPORT then (1, [0x59, |d.chip.buffer| / 0x100, |d.chip.buffer| % 0x100])
    else if cmd == CMD_SYNC then (1, [])
    else (1, [FAIL])
  }

  function Exec(p: Part, d: Device, s: seq<byte>): Outcome {
    var cmd := At(s, 0);
    if cmd == CMD_EXIT then Outcome(d.(runBootloader := false), 1, [CONFIRM])
    else if cmd == CMD_SET_ADDRESS then Outcome(d.(currAddress := SetAddress(At(s, 1), At(s, 2))), 3, [CONFIRM])
    else if cmd == CMD_ERASE_FLASH then Outcome(d.(chip := EraseFrom(d.chip, 0, p.bootStart)), 1, [CONFIRM])
    else if cmd == CMD_WRITE_LOCKBITS then Outcome(d.(lockBits := Burn(d.lockBits, 0xFF - At(s, 1))), 2, [CONFIRM])
    else if cmd == CMD_BLOCK_WRITE || cmd == CMD_BLOCK_READ then Block(d, s)
    else if cmd == CMD_FILL_WORD_HIGH then
      Outcome(d.(chip := PageFill(d.chip, d.currAddress, At(s, 1), 0)), 2, [CONFIRM])
    else if cmd == CMD_FILL_WORD_LOW then
      Outcome(d.(chip := PageFill(d.chip, OrHigh(d.currAddress, true), At(s, 1), 0),
                 currAddress := Add(d.currAddress, 2)), 2, [CONFIRM])
    else if cmd == CMD_WRITE_FLASH_PAGE then Outcome(d.(chip := PageWrite(d.chip, d.currAddress)), 1, [CONFIRM])
    else if cmd == CMD_READ_FLASH_WORD then
      Outcome(d, 1, [ReadFlash(d.chip, d.currAddress + 1), ReadFlash(d.chip, d.currAddress)])
    else if cmd == CMD_WRITE_EEPROM then
      Outcome(d.(chip := WriteEeprom(d.chip, EepromAddress(d.currAddress), At(s, 1)),
                 currAddress := Add(d.currAddress, 2)), 2, [CONFIRM])
    else if cmd == CMD_READ_EEPROM then
      Outcome(d.(currAddress := Add(d.currAddress, 2)), 1, [ReadEeprom(d.chip, EepromAddress(d.currAddress))])
    else
      var (used, response) := Query(p, d, cmd);
      Outcome(d, used, response)
  }
}
