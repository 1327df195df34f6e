/** The loading chain end to end: a hex file, the host's programming loop and the HID device. */
module HidLoader {
  import opened Avr
  import opened Endpoint
  import opened PageTurn
  import opened Hex
  import opened Optional
  import opened HexLoader
  import opened HidBootloader

  const CONTROL_SIZE := 8

  /** A row of the host's size table. */
  datatype Row = Row(codeSize: nat, blockSize: nat)

  const SMALL_8K := Row(0x2000, 128)
  const SMALL_16K := Row(0x4000, 128)
  const SMALL_32K := Row(0x8000, 128)
  const ROW_64K := Row(0x1_0000, 256)
  const ROW_128K := Row(0x2_0000, 256)

  predicate InTable(r: Row) {
    r == SMALL_8K || r == SMALL_16K || r == SMALL_32K || r == ROW_64K || r == ROW_128K
  }

  // ---- Address coding ----

  /** The two address bytes the host puts in front of a block, as a little-endian word. */
  function HostAddress(r: Row, addr: nat): word {
    if r.codeSize < 0x1_0000 then addr % 0x100 + 0x100 * ((addr / 0x100) % 0x100)
    else (addr / 0x100) % 0x100 + 0x100 * ((addr / 0x1_0000) % 0x100)
  }

  /** Where a device of the row's flash size programs the block. */
  function DeviceAddress(r: Row, w: word): nat {
    if r.codeSize > 0x1_0000 then w * 0x100 else w
  }

  /** Host and device agree on the address of every block of every row but the 64K one: there the host
      drops the low byte and the device does not put it back, so only block 0 goes where it should. */
  lemma AddressCodingAgrees(r: Row, addr: nat)
    requires InTable(r) && addr < r.codeSize && addr % r.blockSize == 0
    ensures DeviceAddress(r, HostAddress(r, addr)) == addr <==> r != ROW_64K || addr == 0
    ensures HostAddress(r, addr) != COMMAND_STARTAPPLICATION
  {
    if r.blockSize == 256 {
      assert addr == 0x100 * (addr / 0x100);
    }
  }

  // ---- The programming loop ----

  /** Blocks the host sends: the first one, and every one holding a byte of the image. */
  ghost predicate Sent(h: Loader, r: Row, addr: nat)
    requires h.Valid()
  {
    addr == 0 || WithinRange(h, addr, addr + r.blockSize - 1)
  }

  function Block(h: Loader, r: Row, addr: nat): seq<byte>
    requires h.Valid()
  {
    var w := HostAddress(r, addr);
    [w % 0x100, w / 0x100] + GetData(h, addr, r.blockSize)
  }

  /** The device after the host's loop has run from `addr` on. */
  ghost function ProgramFrom(h: Loader, d: Hid, r: Row, addr: nat): Hid
    requires h.Valid() && 0 < r.blockSize
    decreases r.codeSize - addr
  {
    if addr >= r.codeSize then d
    else
      var next := if Sent(h, r, addr) then SetReport(d, Chunks(Block(h, r, addr), CONTROL_SIZE)) else d;
      ProgramFrom(h, next, r, addr + r.blockSize)
  }

  /** main: reads the file, then programs the device, then starts the application if asked to. A file
      that is not accepted reaches the device in no way at all. */
  method Load(file: Option<string>, reader: Reader, device: Bootloader, r: Row, reboot: bool) returns (ok: bool)
    requires reader.Valid() && InTable(r)
    modifies reader, reader.image, reader.mask, device
    ensures reader.Valid()
    ensures ok <==> file.Some? && ParseLines(Empty(), Lines(file.value)).1
    ensures !ok ==> device.View() == old(device.View())
    ensures ok ==> reader.View() == ParseLines(Empty(), Lines(file.value)).0
    ensures ok ==> var done := ProgramFrom(reader.View(), old(device.View()), r, 0);
                   device.View() == if reboot then done.(runBootloader := false) else done
  {
    hide SetReport, ParseLines, Lines, Chunks, GetData, ProgramFrom;
    var num := reader.ReadIntelHex(file);
    if num < 0 {
      return false;
    }
    var buf := new byte[260](_ => 0);
    ProgramBlocks(reader, device, r, buf);
    if reboot {
      StartApplication(device, r, buf);
    }
    ok := true;
  }

  /** The programming loop. */
  method ProgramBlocks(reader: Reader, device: Bootloader, r: Row, buf: array<byte>)
    requires reader.Valid() && InTable(r) && buf.Length == 260 && buf != reader.image
    modifies device, buf
    ensures device.View() == ProgramFrom(reader.View(), old(device.View()), r, 0)
    ensures reader.View() == old(reader.View())
  {
    hide SetReport, Chunks, GetData;
    ghost var h := reader.View();
    var addr := 0;
    while addr < r.codeSize
      invariant reader.Valid() && reader.View() == h
      invariant ProgramFrom(h, device.View(), r, addr) == ProgramFrom(h, old(device.View()), r, 0)
      decreases r.codeSize - addr
    {
      var used := reader.BytesWithinRange(addr, addr + r.blockSize - 1);
      if addr == 0 || used {
        SendBlock(reader, device, r, addr, buf);
      }
      addr := addr + r.blockSize;
    }
  }

  /** Sends the start command. */
  method StartApplication(device: Bootloader, r: Row, buf: array<byte>)
    requires InTable(r) && buf.Length == 260
    modifies device, buf
    ensures device.View() == old(device.View()).(runBootloader := false)
  {
    hide SetReport, Chunks;
    buf[0] := 0xFF;
    buf[1] := 0xFF;
    var packets := Chunks(buf[..r.blockSize + 2], CONTROL_SIZE);
    StartPacket(buf[..r.blockSize + 2]);
    StartsApplication(device.View(), packets);
    device.HandleSetReport(packets);
  }

  method SendBlock(reader: Reader, device: Bootloader, r: Row, addr: nat, buf: array<byte>)
    requires reader.Valid() && InTable(r) && buf.Length == 260 && buf != reader.image
    modifies device, buf
    ensures device.View() == SetReport(old(device.View()), Chunks(Block(reader.View(), r, addr), CONTROL_SIZE))
    ensures reader.View() == old(reader.View())
  {
    hide SetReport, Chunks, GetData;
    if r.codeSize < 0x1_0000 {
      buf[0] := addr % 0x100;
      buf[1] := (addr / 0x100) % 0x100;
    } else {
      buf[0] := (addr / 0x100) % 0x100;
      buf[1] := (addr / 0x1_0000) % 0x100;
    }
    ghost var head := buf[..];
    reader.CopyData(addr, r.blockSize, buf, 2);
    BlockBytes(reader.View(), r, addr, head);
    device.HandleSetReport(Chunks(buf[..r.blockSize + 2], CONTROL_SIZE));
  }

  lemma BlockBytes(h: Loader, r: Row, addr: nat, head: seq<byte>)
    requires h.Valid() && InTable(r) && |head| == 260
    requires head[0] == HostAddress(r, addr) % 0x100 && head[1] == HostAddress(r, addr) / 0x100
    ensures Splice(head, 2, GetData(h, addr, r.blockSize))[..r.blockSize + 2] == Block(h, r, addr)
  {
    hide GetData, HostAddress;
  }

  lemma StartPacket(s: seq<byte>)
    requires CONTROL_SIZE < |s| && s[0] == 0xFF && s[1] == 0xFF
    ensures var packets := Chunks(s, CONTROL_SIZE);
            packets != [] && 2 <= |packets[0]| && packets[0][..2] == [0xFF, 0xFF]
  {
  }

  // ---- What the loop leaves in flash ----

  /** The device is the part the row describes. */
  predicate Matches(r: Row, d: Hid) {
    |d.chip.flash| == r.codeSize && |d.chip.buffer| == r.blockSize
  }

  /** Start of the block holding `a`. */
  function BlockOf(r: Row, a: nat): nat
    requires 0 < r.blockSize
  {
    a - a % r.blockSize
  }

  /** One turn of the loop: the block's page holds the data, and nothing else changes. */
  lemma SendsBlock(h: Loader, d: Hid, r: Row, addr: nat)
    requires h.Valid() && InTable(r) && r != ROW_64K && Matches(r, d)
    requires addr < r.codeSize && addr % r.blockSize == 0 && addr + r.blockSize <= r.codeSize
    ensures SetReport(d, Chunks(Block(h, r, addr), CONTROL_SIZE))
         == d.(chip := d.chip.(flash := Splice(d.chip.flash, addr, GetData(h, addr, r.blockSize)),
                               buffer := Blank(r.blockSize), rww := true))
  {
    hide SetReport, Chunks, GetData, HostAddress;
    var b := Block(h, r, addr);
    ChunksFlatten(b, CONTROL_SIZE);
    ChunksEven(b, CONTROL_SIZE);
    AddressCodingAgrees(r, addr);
    ProgramsPage(d, Chunks(b, CONTROL_SIZE), HostAddress(r, addr), GetData(h, addr, r.blockSize));
  }

  /** Flash byte `a` after the loop ran from `from` on. */
  ghost function Expected(h: Loader, flash: seq<byte>, r: Row, from: nat, a: nat): byte
    requires h.Valid() && 0 < r.blockSize && a < |flash|
  {
    var b := BlockOf(r, a);
    if from <= b && Sent(h, r, b) then GetData(h, b, r.blockSize)[a - b] else flash[a]
  }

  lemma {:induction false} ProgramFromExact(h: Loader, d: Hid, r: Row, addr: nat)
    requires h.Valid() && InTable(r) && r != ROW_64K && Matches(r, d)
    requires addr <= r.codeSize && addr % r.blockSize == 0
    ensures Matches(r, ProgramFrom(h, d, r, addr)) && ProgramFrom(h, d, r, addr).runBootloader == d.runBootloader
    ensures forall a :: 0 <= a < r.codeSize ==>
              ProgramFrom(h, d, r, addr).chip.flash[a] == Expected(h, d.chip.flash, r, addr, a)
    decreases r.codeSize - addr
  {
    hide SetReport, Sent, Block, Chunks, GetData;
    if addr < r.codeSize {
      var size := r.blockSize;
      PageOf(addr, r.codeSize, size);
      PageOffset(addr, 0, size);
      NextBlock(addr, size);
      var next := if Sent(h, r, addr) then SetReport(d, Chunks(Block(h, r, addr), CONTROL_SIZE)) else d;
      if Sent(h, r, addr) {
        SendsBlock(h, d, r, addr);
      }
      ProgramFromExact(h, next, r, addr + size);
      var done := ProgramFrom(h, d, r, addr).chip.flash;
      forall a | 0 <= a < r.codeSize
        ensures done[a] == Expected(h, d.chip.flash, r, addr, a)
      {
        OneTurn(h, d.chip.flash, next.chip.flash, r, addr, a);
      }
    } else {
      forall a | 0 <= a < r.codeSize
        ensures d.chip.flash[a] == Expected(h, d.chip.flash, r, addr, a)
      {
      }
    }
  }

  lemma NextBlock(addr: nat, size: nat)
    requires size == 128 || size == 256
    requires addr % size == 0
    ensures (addr + size) % size == 0
  {
    if size == 128 {
    } else {
    }
  }

  lemma BlockBounds(a: nat, addr: nat, size: nat)
    requires size == 128 || size == 256
    requires addr % size == 0
    ensures addr <= a < addr + size ==> a - a % size == addr
    ensures a < addr ==> a - a % size < addr
    ensures addr + size <= a ==> addr + size <= a - a % size
  {
    var q, n := addr / size, a / size;
    if size == 128 {
      assert addr == 128 * q && a == 128 * n + a % 128;
    } else {
      assert addr == 256 * q && a == 256 * n + a % 256;
    }
  }

  lemma OneTurn(h: Loader, flash: seq<byte>, next: seq<byte>, r: Row, addr: nat, a: nat)
    requires h.Valid() && InTable(r) && addr % r.blockSize == 0 && addr + r.blockSize <= |flash| && a < |flash|
    requires next == if Sent(h, r, addr) then Splice(flash, addr, GetData(h, addr, r.blockSize)) else flash
    ensures Expected(h, next, r, addr + r.blockSize, a) == Expected(h, flash, r, addr, a)
  {
    hide Sent, GetData;
    BlockBounds(a, addr, r.blockSize);
  }

  // ---- The end-to-end theorems ----

  /** A block of the image carries a byte of the file. */
  ghost predicate HoldsFileByte(ps: seq<Placement>, b: nat, size: nat) {
    exists a :: b <= a < b + size && LastWriter(ps, a).Some?
  }

  /** The byte a file puts at an address, blank where it says nothing. */
  function FileByte(ps: seq<Placement>, a: nat): byte {
    var w := LastWriter(ps, a);
    if w.Some? then w.value else BLANK
  }

  lemma {:induction false} PlacementsBounded(lines: seq<string>, base: nat, a: nat)
    requires Placements(lines, base).Some? && a >= MAX_MEMORY_SIZE - 1
    ensures LastWriter(Placements(lines, base).value, a).None?
    decreases |lines|
  {
    hide Decode;
    if lines != [] {
      if lines[0] == "" {
        PlacementsBounded(lines[1..], base, a);
      } else {
        DecodedBytesFit(lines[0]);
        var d := Decode(lines[0]);
        if d.body.SetBase? {
          PlacementsBounded(lines[1..], d.body.base, a);
        } else if d.body.Ignored? {
          PlacementsBounded(lines[1..], base, a);
        } else if d.body.Bytes? {
          PlacementsBounded(lines[1..], base, a);
          var ps := Placements(lines, base).value;
          assert ps[1..] == Placements(lines[1..], base).value;
        }
      }
    }
  }

  /** End to end, for every accepted file and every row but the 64K one: block 0 and the blocks that hold
      a byte of the file carry the file's bytes, blank in the gaps; every other block is as it was; and
      the only block that can come out wrong is the last one of the 64K image, which comes out blank. */
  lemma LoadExact(text: string, d: Hid, r: Row, a: nat)
    requires ParseLines(Empty(), Lines(text)).1
    requires InTable(r) && r != ROW_64K && Matches(r, d) && a < r.codeSize
    ensures Placements(Lines(text), 0).Some?
    ensures var ps := Placements(Lines(text), 0).value;
            var flash := ProgramFrom(ParseLines(Empty(), Lines(text)).0, d, r, 0).chip.flash;
            var b := BlockOf(r, a);
            && |flash| == r.codeSize
            && flash[a] ==
                 if b == 0 || HoldsFileByte(ps, b, r.blockSize) then
                   if b + r.blockSize < MAX_MEMORY_SIZE then FileByte(ps, a) else BLANK
                 else d.chip.flash[a]
  {
    hide Lines, ParseLines, Placements, ProgramFrom, LastWriter;
    FileMeaning(Empty(), Lines(text));
    var h := ParseLines(Empty(), Lines(text)).0;
    var ps := Placements(Lines(text), 0).value;
    ProgramFromExact(h, d, r, 0);
    var b := BlockOf(r, a);
    BlockHolds(h, ps, Lines(text), b, r.blockSize);
    if Sent(h, r, b) && b + r.blockSize < MAX_MEMORY_SIZE {
      WantedIsFileByte(h, ps, a);
    }
  }

  lemma WantedIsFileByte(h: Loader, ps: seq<Placement>, a: nat)
    requires h.Valid() && Holds(h, Empty(), ps) && a < MAX_MEMORY_SIZE
    ensures Wanted(h, a) == FileByte(ps, a)
  {
    hide LastWriter;
  }

  lemma BlockHolds(h: Loader, ps: seq<Placement>, lines: seq<string>, b: nat, size: nat)
    requires h.Valid() && Holds(h, Empty(), ps) && Placements(lines, 0) == Some(ps) && 0 < size
    requires size == 128 || size == 256
    requires b % size == 0
    ensures WithinRange(h, b, b + size - 1) <==> HoldsFileByte(ps, b, size)
  {
    hide LastWriter, Placements;
    forall a | a >= MAX_MEMORY_SIZE
      ensures LastWriter(ps, a).None?
    {
      PlacementsBounded(lines, 0, a);
    }
    assert b < MAX_MEMORY_SIZE ==> b + size <= MAX_MEMORY_SIZE by {
      if b < MAX_MEMORY_SIZE { PageOf(b, MAX_MEMORY_SIZE, size); }
    }
  }

  /** The whole file arrives, every byte of it below the flash size, exactly when the file puts nothing
      but blank bytes in the last block of the 64K image (rows up to 32K have no such block). */
  lemma WholeFileArrives(text: string, d: Hid, r: Row)
    requires ParseLines(Empty(), Lines(text)).1
    requires InTable(r) && r != ROW_64K && Matches(r, d)
    ensures Placements(Lines(text), 0).Some?
    ensures var ps := Placements(Lines(text), 0).value;
            var flash := ProgramFrom(ParseLines(Empty(), Lines(text)).0, d, r, 0).chip.flash;
            && |flash| == r.codeSize
            && ((forall a :: 0 <= a < r.codeSize && LastWriter(ps, a).Some? ==> flash[a] == LastWriter(ps, a).value)
                <==> (forall a :: MAX_MEMORY_SIZE - r.blockSize <= a < r.codeSize ==> FileByte(ps, a) == BLANK))
  {
    hide Lines, ParseLines, Placements, ProgramFrom, LastWriter;
    LoadExact(text, d, r, 0);
    var ps := Placements(Lines(text), 0).value;
    var flash := ProgramFrom(ParseLines(Empty(), Lines(text)).0, d, r, 0).chip.flash;
    forall a | 0 <= a < r.codeSize && LastWriter(ps, a).Some?
      ensures flash[a] == if a < MAX_MEMORY_SIZE - r.blockSize then LastWriter(ps, a).value else BLANK
    {
      LoadExact(text, d, r, a);
      var b := BlockOf(r, a);
      assert b <= a < b + r.blockSize;
      LastBlock(r, a);
    }
    if forall a :: MAX_MEMORY_SIZE - r.blockSize <= a < r.codeSize ==> FileByte(ps, a) == BLANK {
      forall a | 0 <= a < r.codeSize && LastWriter(ps, a).Some?
        ensures flash[a] == LastWriter(ps, a).value
      {
        assert FileByte(ps, a) == LastWriter(ps, a).value;
      }
    }
    if forall a :: 0 <= a < r.codeSize && LastWriter(ps, a).Some? ==> flash[a] == LastWriter(ps, a).value {
      forall a | MAX_MEMORY_SIZE - r.blockSize <= a < r.codeSize
        ensures FileByte(ps, a) == BLANK
      {
        assert LastWriter(ps, a).Some? ==> flash[a] == BLANK;
      }
    }
  }

  lemma LastBlock(r: Row, a: nat)
    requires InTable(r)
    ensures BlockOf(r, a) + r.blockSize < MAX_MEMORY_SIZE <==> a < MAX_MEMORY_SIZE - r.blockSize
  {
    BlockBounds(a, MAX_MEMORY_SIZE - r.blockSize, r.blockSize);
  }

  // ---- The 64K row ----

  const BLOCKS_64K := 256

  /** Block number `k` is one of those the host sends. */
  ghost predicate SentBlock(h: Loader, k: nat)
    requires h.Valid()
  {
    Sent(h, ROW_64K, 256 * k)
  }

  /** Block number `k` as it ends up in the first page of the 64K part. */
  function Misplaced(h: Loader, k: nat): (r: seq<byte>)
    requires h.Valid() && k < BLOCKS_64K
    ensures |r| == 256
  {
    Turned(GetData(h, 256 * k, 256), Even(k))
  }

  /** On the 64K part every block goes to the first page. */
  lemma SendsToFirstPage(h: Loader, d: Hid, k: nat)
    requires h.Valid() && Matches(ROW_64K, d) && k < BLOCKS_64K
    ensures SetReport(d, Chunks(Block(h, ROW_64K, 256 * k), CONTROL_SIZE))
         == d.(chip := d.chip.(flash := Splice(d.chip.flash, 0, Misplaced(h, k)), buffer := Blank(256), rww := true))
  {
    hide SetReport, Chunks, GetData, Turned, Even;
    var b, w := Block(h, ROW_64K, 256 * k), HostAddress(ROW_64K, 256 * k);
    ChunksFlatten(b, CONTROL_SIZE);
    ChunksEven(b, CONTROL_SIZE);
    assert w == k;
    ProgramsTurned(d, Chunks(b, CONTROL_SIZE), w, GetData(h, 256 * k, 256));
    SmallMod(w, 256);
    SmallMod(w, |d.chip.flash|);
  }

  /** The last of the first `n` blocks that the host sends. */
  ghost function LastSent(h: Loader, n: nat): (k: nat)
    requires h.Valid() && 0 < n
    ensures k < n && SentBlock(h, k) && forall j :: k < j < n ==> !SentBlock(h, j)
    decreases n
  {
    if n == 1 || SentBlock(h, n - 1) then n - 1 else LastSent(h, n - 1)
  }

  /** The loop from block `k` on leaves the last block it sends, if any, in the first page, and nothing else. */
  lemma {:induction false} ProgramFirstPage(h: Loader, d: Hid, k: nat)
    requires h.Valid() && Matches(ROW_64K, d)
    ensures var last := LastSent(h, BLOCKS_64K);
            ProgramFrom(h, d, ROW_64K, 256 * k).chip.flash
            == if k <= last then Splice(d.chip.flash, 0, Misplaced(h, last)) else d.chip.flash
    decreases BLOCKS_64K - k
  {
    hide SetReport, SentBlock, Sent, Block, Chunks, Misplaced, Splice, ProgramFrom;
    var last := LastSent(h, BLOCKS_64K);
    if k < BLOCKS_64K {
      NextBlock64K(h, d, k);
      if SentBlock(h, k) {
        SendsToFirstPage(h, d, k);
        var next := SetReport(d, Chunks(Block(h, ROW_64K, 256 * k), CONTROL_SIZE));
        ProgramFirstPage(h, next, k + 1);
        TwiceAtStart(d.chip.flash, Misplaced(h, k), Misplaced(h, last));
      } else {
        ProgramFirstPage(h, d, k + 1);
      }
    } else {
      NoBlocks64K(h, d, k);
    }
  }

  lemma NextBlock64K(h: Loader, d: Hid, k: nat)
    requires h.Valid() && k < BLOCKS_64K
    ensures var next := if SentBlock(h, k) then SetReport(d, Chunks(Block(h, ROW_64K, 256 * k), CONTROL_SIZE)) else d;
            ProgramFrom(h, d, ROW_64K, 256 * k) == ProgramFrom(h, next, ROW_64K, 256 * (k + 1))
  {
    hide SetReport, Sent, Block, Chunks;
  }

  lemma NoBlocks64K(h: Loader, d: Hid, k: nat)
    requires h.Valid() && BLOCKS_64K <= k
    ensures ProgramFrom(h, d, ROW_64K, 256 * k) == d
  {
  }

  lemma TwiceAtStart(flash: seq<byte>, x: seq<byte>, y: seq<byte>)
    requires |x| == |y| <= |flash|
    ensures Splice(Splice(flash, 0, x), 0, y) == Splice(flash, 0, y)
  {
  }

  /** A load of the 64K part, whatever the file: the first page holds the last block sent, turned by its number,
      and no other byte changes. */
  lemma Load64K(text: string, d: Hid)
    requires ParseLines(Empty(), Lines(text)).1 && Matches(ROW_64K, d)
    ensures var h := ParseLines(Empty(), Lines(text)).0;
            ProgramFrom(h, d, ROW_64K, 0).chip.flash
            == Splice(d.chip.flash, 0, Misplaced(h, LastSent(h, BLOCKS_64K)))
  {
    hide Lines, ParseLines, ProgramFrom, Misplaced, Splice;
    ProgramFirstPage(ParseLines(Empty(), Lines(text)).0, d, 0);
  }

  /** Every byte of the file is in flash after a load of the 64K part. */
  predicate Arrives64K(ps: seq<Placement>, flash: seq<byte>) {
    forall a :: 0 <= a < |flash| && LastWriter(ps, a).Some? ==> flash[a] == LastWriter(ps, a).value
  }

  /** A part filled with one byte. */
  function FilledWith(b: byte): Hid {
    Hid(Memory(seq(0x1_0000, _ => b), Blank(256), [0], true), true)
  }

  /** On the 64K part a file arrives whatever the device held before exactly when all its bytes are in the first
      page. */
  lemma Arrives64KExact(text: string)
    requires ParseLines(Empty(), Lines(text)).1
    ensures Placements(Lines(text), 0).Some?
    ensures var h, ps := ParseLines(Empty(), Lines(text)).0, Placements(Lines(text), 0).value;
            (forall d: Hid :: Matches(ROW_64K, d) ==> Arrives64K(ps, ProgramFrom(h, d, ROW_64K, 0).chip.flash))
            <==> (forall a :: 0 <= a && LastWriter(ps, a).Some? ==> a < 256)
  {
    hide Lines, ParseLines, Placements, ProgramFrom, LastWriter, Arrives64K, Misplaced;
    FileMeaning(Empty(), Lines(text));
    var h, ps := ParseLines(Empty(), Lines(text)).0, Placements(Lines(text), 0).value;
    if forall a :: 0 <= a && LastWriter(ps, a).Some? ==> a < 256 {
      forall d: Hid | Matches(ROW_64K, d)
        ensures Arrives64K(ps, ProgramFrom(h, d, ROW_64K, 0).chip.flash)
      {
        Load64K(text, d);
        OneBlockArrives(h, ps, Lines(text), d.chip.flash);
      }
    } else {
      var a :| 0 <= a && LastWriter(ps, a).Some? && a >= 256;
      var v := LastWriter(ps, a).value;
      var d := FilledWith(if v == 0 then 1 else 0);
      if a >= MAX_MEMORY_SIZE {
        PlacementsBounded(Lines(text), 0, a);
      } else {
        Load64K(text, d);
        BeyondMisses(h, ps, d.chip.flash, a);
      }
    }
  }

  lemma BeyondMisses(h: Loader, ps: seq<Placement>, flash: seq<byte>, a: nat)
    requires h.Valid() && 256 <= a < |flash| == ROW_64K.codeSize
    requires LastWriter(ps, a).Some? && flash[a] != LastWriter(ps, a).value
    ensures !Arrives64K(ps, Splice(flash, 0, Misplaced(h, LastSent(h, BLOCKS_64K))))
  {
    hide LastWriter, Misplaced;
    var r := Splice(flash, 0, Misplaced(h, LastSent(h, BLOCKS_64K)));
    assert r[a] == flash[a];
  }

  lemma OneBlockArrives(h: Loader, ps: seq<Placement>, lines: seq<string>, flash: seq<byte>)
    requires h.Valid() && Holds(h, Empty(), ps) && Placements(lines, 0) == Some(ps) && |flash| == ROW_64K.codeSize
    requires forall a :: 0 <= a && LastWriter(ps, a).Some? ==> a < 256
    ensures Arrives64K(ps, Splice(flash, 0, Misplaced(h, LastSent(h, BLOCKS_64K))))
  {
    hide LastWriter, Placements;
    var b := LastSent(h, BLOCKS_64K);
    assert b == 0 by {
      BlockHolds(h, ps, lines, 256 * b, 256);
    }
    NoTurn(GetData(h, 0, 256));
    var r := Splice(flash, 0, Misplaced(h, b));
    forall a | 0 <= a < |r| && LastWriter(ps, a).Some?
      ensures r[a] == LastWriter(ps, a).value
    {
      WantedIsFileByte(h, ps, a);
    }
  }
}
