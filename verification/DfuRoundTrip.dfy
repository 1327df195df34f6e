/** What is downloaded comes back: upload framing, flash and EEPROM round trips over whole sessions,
    and downloads to disjoint ranges. */
module DfuRoundTrip {
  import opened Avr
  import opened Endpoint
  import opened Pages
  import opened Dfu
  import opened DfuFlashLoop
  import opened DfuAlignment
  import opened DfuDownload

  // ---- Upload ----

  /** An IN transfer in progress: packets already sent are full, the bank is not over-full. */
  predicate Framed(i: In) {
    FullPackets(i.sent, ENDPOINT_SIZE) && |i.bank| <= ENDPOINT_SIZE
  }

  /** The packets of a finished transfer: all but the last are full. */
  predicate WellFramed(packets: seq<Packet>) {
    && packets != []
    && FullPackets(packets[..|packets| - 1], ENDPOINT_SIZE)
    && |packets[|packets| - 1]| <= ENDPOINT_SIZE
  }

  lemma Finish(i: In)
    requires Framed(i)
    ensures WellFramed(SendBank(i).sent) && Flatten(SendBank(i).sent) == Written(i)
  {
    SendBankWritten(i);
    assert SendBank(i).sent[..|i.sent|] == i.sent;
    assert Written(SendBank(i)) == Flatten(SendBank(i).sent);
  }

  lemma {:induction false} UploadFlashExact(c: Chip, addr: nat, words: nat, i: In)
    requires c.rww && addr + 2 * words <= |c.flash|
    requires Framed(i) && |i.bank| % 2 == 0
    ensures Framed(UploadFlash(c, addr, words, i))
    ensures Written(UploadFlash(c, addr, words, i)) == Written(i) + c.flash[addr..addr + 2 * words]
    decreases words
  {
    hide Written, Flatten, ReadFlash;
    if words > 0 {
      var w := [ReadFlash(c, addr), ReadFlash(c, addr + 1)];
      assert w == c.flash[addr..addr + 2] by { ReadsWord(c, addr); }
      AppendWritten(i, w, ENDPOINT_SIZE);
      UploadFlashExact(c, addr + 2, words - 1, Append(i, w, ENDPOINT_SIZE));
      assert c.flash[addr..addr + 2 * words] == w + c.flash[addr + 2..addr + 2 * words];
    } else {
      assert c.flash[addr..addr] == [];
    }
  }

  lemma ReadsWord(c: Chip, addr: nat)
    requires c.rww && addr + 2 <= |c.flash|
    ensures [ReadFlash(c, addr), ReadFlash(c, addr + 1)] == c.flash[addr..addr + 2]
  {
    SmallMod(addr, |c.flash|);
    SmallMod(addr + 1, |c.flash|);
  }

  lemma {:induction false} UploadEepromExact(c: Chip, addr: word, bytes: nat, i: In)
    requires addr + bytes <= |c.eeprom| && addr + bytes <= 0x1_0000
    requires Framed(i)
    ensures Framed(UploadEeprom(c, addr, bytes, i))
    ensures Written(UploadEeprom(c, addr, bytes, i)) == Written(i) + c.eeprom[addr..addr + bytes]
    decreases bytes
  {
    hide Written, Flatten, ReadEeprom;
    if bytes == 0 {
      assert c.eeprom[addr..addr] == [];
    } else {
      var b := [ReadEeprom(c, addr)];
      assert b == [c.eeprom[addr]] by { ReadsByte(c, addr); }
      AppendWritten(i, b, ENDPOINT_SIZE);
      var next := Append(i, b, ENDPOINT_SIZE);
      if bytes > 1 {
        UploadEepromExact(c, addr + 1, bytes - 1, next);
        assert c.eeprom[addr..addr + bytes] == b + c.eeprom[addr + 1..addr + bytes];
      } else {
        OneCell(c.eeprom, addr);
        assert UploadEeprom(c, Plus(addr, 1), 0, next) == next;
      }
    }
  }

  lemma OneCell(cells: seq<byte>, i: nat)
    requires i < |cells|
    ensures cells[i..i + 1] == [cells[i]]
  {
  }

  lemma ReadsByte(c: Chip, addr: nat)
    requires addr < |c.eeprom|
    ensures ReadEeprom(c, addr) == c.eeprom[addr]
  {
    SmallMod(addr, |c.eeprom|);
  }

  /** The answer to an UPLOAD in the upload state is the whole words of the selected flash range, cut into
      32-byte packets. */
  lemma UploadOfFlash(d: Device)
    requires d.state == DFU_UPLOAD_IDLE && d.data[0] == 0 && d.chip.rww
    requires FlashAddress(d) + RangeLength(d) <= |d.chip.flash|
    ensures var r := Upload(d).1;
            && WellFramed(r.packets) && !r.stalled && r.finished
            && Flatten(r.packets) == d.chip.flash[FlashAddress(d)..FlashAddress(d) + 2 * (RangeLength(d) / 2)]
  {
    hide UploadFlash;
    UploadFlashExact(d.chip, FlashAddress(d), RangeLength(d) / 2, NO_IN);
    Finish(UploadFlash(d.chip, FlashAddress(d), RangeLength(d) / 2, NO_IN));
  }

  lemma UploadOfEeprom(d: Device)
    requires d.state == DFU_UPLOAD_IDLE && d.data[0] == 2
    requires d.startAddr + RangeLength(d) <= |d.chip.eeprom| && d.startAddr + RangeLength(d) <= 0x1_0000
    ensures var r := Upload(d).1;
            && WellFramed(r.packets) && !r.stalled && r.finished
            && Flatten(r.packets) == d.chip.eeprom[d.startAddr..d.startAddr + RangeLength(d)]
  {
    hide UploadEeprom;
    UploadEepromExact(d.chip, d.startAddr, RangeLength(d), NO_IN);
    Finish(UploadEeprom(d.chip, d.startAddr, RangeLength(d), NO_IN));
  }

  // ---- EEPROM download ----

  /** One byte goes from the front of the stream to its cell. */
  lemma ByteStep(j: EepromJob)
    requires !j.out.detached && NonEmptyPackets(j.out.queue) && 0 < j.left <= |Stream(j.out)|
    requires j.addr < |j.chip.eeprom|
    ensures var ready := j.(out := Ready(j.out));
            var next := ProgramByte(ready);
            && !ready.out.detached
            && next.chip.eeprom == j.chip.eeprom[j.addr := Stream(j.out)[0]]
            && !next.out.detached && NonEmptyPackets(next.out.queue) && Stream(next.out) == Stream(j.out)[1..]
            && next.addr == Plus(j.addr, 1) && next.left == j.left - 1
  {
    hide Stream, Plus;
    ReadByte(j.out);
    SmallMod(j.addr, |j.chip.eeprom|);
  }

  lemma {:induction false} ProgramBytesExact(j: EepromJob)
    requires !j.out.detached && NonEmptyPackets(j.out.queue) && j.left <= |Stream(j.out)|
    requires j.addr + j.left <= |j.chip.eeprom| && j.addr + j.left <= 0x1_0000
    ensures ProgramBytes(j).left == 0 && ProgramBytes(j).addr == Plus(j.addr, j.left)
    ensures ProgramBytes(j).chip.eeprom
         == j.chip.eeprom[..j.addr] + Stream(j.out)[..j.left] + j.chip.eeprom[j.addr + j.left..]
    decreases j.left
  {
    hide Stream, ProgramByte, Ready;
    if j.left > 0 {
      ByteStep(j);
      var next := ProgramByte(j.(out := Ready(j.out)));
      assert ProgramBytes(j) == ProgramBytes(next);
      if j.left > 1 {
        ProgramBytesExact(next);
        assert Stream(j.out)[..j.left] == [Stream(j.out)[0]] + Stream(j.out)[1..][..j.left - 1];
      } else {
        assert Stream(j.out)[..1] == [Stream(j.out)[0]];
      }
    }
  }

  /** An EEPROM download from a multiple of the packet size, so without alignment filler. */
  predicate IsEepromDownload(r: Request, start: word, payload: seq<byte>) {
    && IsDownload(r, 1, start, |payload|)
    && start % ENDPOINT_SIZE == 0
    && NonEmptyPackets(r.packets[1..])
    && payload <= Flatten(r.packets[1..])
  }

  /** EEPROM with the counted bytes of a payload written from `start` on. */
  function EepromAfter(cells: seq<byte>, start: nat, payload: seq<byte>): seq<byte>
    requires start + |payload| <= |cells|
  {
    var n := Counted(|payload|);
    cells[..start] + payload[..n] + cells[start + n..]
  }

  function EepromDownloaded(d: Device, r: Request, start: word, payload: seq<byte>): Device
    requires IsEepromDownload(r, start, payload) && start + |payload| <= |d.chip.eeprom|
  {
    Ranged(d, r, start, |payload|).(startAddr := Plus(start, Counted(|payload|)),
                                    chip := d.chip.(eeprom := EepromAfter(d.chip.eeprom, start, payload)))
  }

  lemma StreamedEeprom(d: Device, o: Out, contents: Out, payload: seq<byte>)
    requires contents == Discard(Discard(o, FILLER_BYTES), d.startAddr % ENDPOINT_SIZE)
    requires !contents.detached && NonEmptyPackets(contents.queue) && payload <= Stream(contents)
    requires d.data[0] == 1 && 0 < |payload| && d.startAddr + |payload| <= |d.chip.eeprom|
    requires d.startAddr + |payload| <= 0x1_0000 && d.endAddr == d.startAddr + |payload| - 1
    ensures ReceiveFirmware(d, o)
         == (d.(chip := d.chip.(eeprom := EepromAfter(d.chip.eeprom, d.startAddr, payload)),
                startAddr := Plus(d.startAddr, Counted(|payload|))), true)
  {
    hide ProgramBytes, Discard, Stream, Plus;
    RangeIsCounted(d, |payload|);
    var n := Counted(|payload|);
    ProgramBytesExact(EepromJob(d.chip, contents, d.startAddr, n));
    assert Stream(contents)[..n] == payload[..n];
  }

  /** An EEPROM download writes exactly the counted bytes of the payload, and changes nothing else. */
  lemma EepromDownloadExact(p: Part, d: Device, r: Request, start: word, payload: seq<byte>)
    requires p.Fits(d.chip) && !d.isSecure && !d.waitForExit
    requires IsEepromDownload(r, start, payload) && start + |payload| <= |d.chip.eeprom|
    ensures Handle(p, d, r) == (EepromDownloaded(d, r, start, payload), Response([], false, true))
  {
    hide ReceiveFirmware, Handle, Discard;
    BeginsEeprom(p, d, r, start, |payload|);
    ReachesContents(r, start);
    var o := Out([], r.packets[1..], false);
    assert Contents(r, start) == o by { DiscardWithinBank(o, 0); }
    assert Stream(o) == Flatten(r.packets[1..]);
    StreamedEeprom(Ranged(d, r, start, |payload|), Out(r.packets[0][6..], r.packets[1..], false), o, payload);
  }

  /** An EEPROM download goes straight to receiving the memory contents. */
  lemma BeginsEeprom(p: Part, d: Device, r: Request, start: word, n: nat)
    requires p.Fits(d.chip) && IsDownload(r, 1, start, n) && !d.isSecure && !d.waitForExit
    ensures var (e, finished) := ReceiveFirmware(Ranged(d, r, start, n), Out(r.packets[0][6..], r.packets[1..], false));
            Handle(p, d, r) == (e, Response([], false, finished))
  {
    hide LoadCommand, ProcessCommand, ReceiveFirmware;
    LoadsCommand(d, r, start);
    EepromProgStart(p, Commanded(d, r), start, start + n - 1);
    StillData(r.wLength);
  }

  lemma EepromProgStart(p: Part, d: Device, start: word, end: word)
    requires p.Fits(d.chip) && !d.isSecure && d.command == COMMAND_PROG_START
    requires d.data == CommandBytes(COMMAND_PROG_START, 1, start, end)[1..]
    ensures ProcessCommand(p, d) == d.(startAddr := start, endAddr := end, state := DFU_DNLOAD_IDLE)
  {
    hide Word, LowByte, HighByte, Part.Fits;
    WordBytes(start);
    WordBytes(end);
  }

  // ---- Sessions ----

  /** The empty DNLOAD that ends a download. */
  const END_DOWNLOAD := Class(REQ_DNLOAD, 0, [])

  /** Selects a range for the next UPLOAD: memory 0 is flash, 2 is EEPROM. */
  function SelectRange(memory: byte, start: word, end: word): Request {
    Class(REQ_DNLOAD, 6, [CommandBytes(COMMAND_DISP_DATA, memory, start, end)])
  }

  /** The requests that read a range back. */
  function ReadBack(memory: byte, start: word, end: word, wLength: word): seq<Request> {
    [END_DOWNLOAD, SelectRange(memory, start, end), Class(REQ_UPLOAD, wLength, [])]
  }

  lemma EndDownload(p: Part, d: Device)
    requires p.Fits(d.chip) && !d.waitForExit && d.state == DFU_DNLOAD_IDLE
    ensures Handle(p, d, END_DOWNLOAD).0 == d.(dataSize := 0, state := DFU_IDLE)
  {
    hide ReceiveFirmware;
  }

  lemma SelectsRange(p: Part, d: Device, memory: byte, start: word, end: word)
    requires p.Fits(d.chip) && !d.isSecure && !d.waitForExit && (memory == 0 || memory == 2)
    ensures Handle(p, d, SelectRange(memory, start, end)).0
         == Selected(d, memory, start, end, 0)
  {
    hide LoadCommand, ReceiveFirmware, ProcessCommand, DecrementedBy, Part.Fits;
    var cmd := CommandBytes(COMMAND_DISP_DATA, memory, start, end);
    var d0 := d.(dataSize := 6);
    LoadHeader(d0, cmd, [], []);
    assert cmd + [] == cmd;
    SixDown();
    DispData(p, d0.(command := cmd[0], data := cmd[1..], dataSize := 0), memory, start, end);
    assert SelectRange(memory, start, end).packets[1..] == [];
  }

  lemma SixDown()
    ensures DecrementedBy(6, 6) == 0
  {
    assert DecrementedBy(6, 6) == DecrementedBy(4, 4);
    assert DecrementedBy(4, 4) == DecrementedBy(2, 2);
  }

  lemma DispData(p: Part, d: Device, memory: byte, start: word, end: word)
    requires p.Fits(d.chip) && !d.isSecure && (memory == 0 || memory == 2) && d.command == COMMAND_DISP_DATA
    requires d.data == CommandBytes(COMMAND_DISP_DATA, memory, start, end)[1..]
    ensures ProcessCommand(p, d) == d.(startAddr := start, endAddr := end, state := DFU_UPLOAD_IDLE)
  {
    hide BlankCheck, Word, LowByte, HighByte, Part.Fits;
    WordBytes(start);
    WordBytes(end);
  }

  /** The device with a range selected for an UPLOAD. */
  function Selected(d: Device, memory: byte, start: word, end: word, dataSize: word): Device {
    d.(command := COMMAND_DISP_DATA, data := CommandBytes(COMMAND_DISP_DATA, memory, start, end)[1..],
       dataSize := dataSize,
       startAddr := start, endAddr := end, state := DFU_UPLOAD_IDLE)
  }

  /** The responses to a read-back after a download: the last one answers the UPLOAD. */
  lemma ReadBackUploads(p: Part, d: Device, memory: byte, start: word, end: word, wLength: word)
    requires p.Fits(d.chip) && !d.isSecure && d.runBootloader && !d.waitForExit
    requires d.state == DFU_DNLOAD_IDLE && (memory == 0 || memory == 2)
    ensures var responses := Responses(p, d, ReadBack(memory, start, end, wLength));
            |responses| == 3 && responses[2] == Upload(Selected(d, memory, start, end, wLength)).1
  {
    hide Dnload, Upload;
    var d1 := d.(dataSize := 0, state := DFU_IDLE);
    EndDownload(p, d);
    SelectsRange(p, d1, memory, start, end);
    var rs := ReadBack(memory, start, end, wLength);
    var d2 := Handle(p, d1, rs[1]).0;
    assert rs[1..] == [rs[1], rs[2]] && rs[1..][1..] == [rs[2]] && rs[1..][1..][1..] == [];
    assert |Responses(p, d2, [rs[2]])| == 1;
  }

  lemma FlashAfterHolds(d: Device, start: word, payload: seq<byte>)
    requires start % ENDPOINT_SIZE == 0 && 0 < |payload| && Base(d, start) + |payload| <= |d.chip.flash|
    requires WellPlaced(d.chip, Base(d, start), |payload|)
    ensures FlashAfter(d.chip, Base(d, start), payload)[Base(d, start)..Base(d, start) + |payload|] == payload
  {
    hide FlashAfter, WellPlaced;
    FlashAfterExact(d.chip, Base(d, start), |payload|);
    assert WordsLand(d.chip, Base(d, start), payload);
  }

  /** Selecting the downloaded range and uploading it gives the payload. */
  lemma UploadAfterFlashDownload(d: Device, r: Request, start: word, payload: seq<byte>, wLength: word)
    requires IsFlashDownload(r, start, payload) && Accepts(d, start, |payload|)
    requires |payload| % 2 == 0 && |payload| < 0x1_0000
    requires WellPlaced(d.chip, Base(d, start), |payload|)
    ensures var e := Downloaded(d, r, start, |payload|, payload);
            var packets := Upload(Selected(e, 0, start, start + |payload| - 1, wLength)).1.packets;
            WellFramed(packets) && Flatten(packets) == payload
  {
    hide FlashAfter, Upload, WellFramed, Flatten, WellPlaced, EvenPackets;
    var e := Downloaded(d, r, start, |payload|, payload);
    var selected := Selected(e, 0, start, start + |payload| - 1, wLength);
    assert RangeLength(selected) == |payload| == 2 * (|payload| / 2) && FlashAddress(selected) == Base(d, start);
    UploadOfFlash(selected);
    FlashAfterHolds(d, start, payload);
  }

  /** Flash round trip: downloading any payload and uploading the same range returns its bytes in order,
      in packets of at most 32 bytes. */
  lemma FlashRoundTrip(p: Part, d: Device, r: Request, start: word, payload: seq<byte>, wLength: word)
    requires p.Fits(d.chip) && d.runBootloader
    requires IsFlashDownload(r, start, payload) && Accepts(d, start, |payload|)
    requires |payload| % 2 == 0 && |payload| < 0x1_0000
    requires WellPlaced(d.chip, Base(d, start), |payload|)
    ensures var responses := Responses(p, d, [r] + ReadBack(0, start, start + |payload| - 1, wLength));
            && |responses| == 4
            && WellFramed(responses[3].packets) && Flatten(responses[3].packets) == payload
  {
    hide Handle, FlashAfter, Responses, Upload, ReadBack, Flatten, WellFramed, Selected;
    WholeWordDownload(p, d, r, start, payload);
    var e := Downloaded(d, r, start, |payload|, payload);
    var end := start + |payload| - 1;
    ReadBackUploads(p, e, 0, start, end, wLength);
    FirstResponse(p, d, r, ReadBack(0, start, end, wLength));
    UploadAfterFlashDownload(d, r, start, payload, wLength);
  }

  lemma FirstResponse(p: Part, d: Device, r: Request, rs: seq<Request>)
    requires p.Fits(d.chip) && d.runBootloader
    ensures Responses(p, d, [r] + rs) == [Handle(p, d, r).1] + Responses(p, Handle(p, d, r).0, rs)
  {
    hide Handle;
    assert ([r] + rs)[1..] == rs;
  }

  /** EEPROM round trip. */
  lemma EepromRoundTrip(p: Part, d: Device, r: Request, start: word, payload: seq<byte>, wLength: word)
    requires p.Fits(d.chip) && !d.isSecure && d.runBootloader && !d.waitForExit
    requires IsEepromDownload(r, start, payload) && start + |payload| <= |d.chip.eeprom| && |payload| < 0x1_0000
    ensures var responses := Responses(p, d, [r] + ReadBack(2, start, start + |payload| - 1, wLength));
            && |responses| == 4
            && WellFramed(responses[3].packets) && Flatten(responses[3].packets) == payload
  {
    hide Handle, Responses, Upload;
    EepromDownloadExact(p, d, r, start, payload);
    var e := EepromDownloaded(d, r, start, payload);
    var end := start + |payload| - 1;
    ReadBackUploads(p, e, 2, start, end, wLength);
    FirstResponse(p, d, r, ReadBack(2, start, end, wLength));
    var selected := Selected(e, 2, start, end, wLength);
    assert RangeLength(selected) == |payload|;
    UploadOfEeprom(selected);
  }

  // ---- Several downloads ----

  /** Page-rounded end of a download. */
  function RoundedEnd(c: Chip, base: nat, n: nat): nat {
    base + n + Pad(n, |c.buffer|)
  }

  /** Two images whose page ranges do not meet can be written in either order; each holds its bytes, and
      no other byte changes. */
  lemma ImagesCommute(flash: seq<byte>, a: nat, x: seq<byte>, b: nat, y: seq<byte>, page: nat)
    requires Room(flash, a, |x|, page) && Room(flash, b, |y|, page)
    requires a + |x| + Pad(|x|, page) <= b
    ensures Image(Image(flash, a, x, page), b, y, page) == Image(Image(flash, b, y, page), a, x, page)
    ensures var r := Image(Image(flash, a, x, page), b, y, page);
            && r[a..a + |x|] == x && r[b..b + |y|] == y
            && forall i :: 0 <= i < |flash| && !(a <= i < a + |x| + Pad(|x|, page))
                           && !(b <= i < b + |y| + Pad(|y|, page))
                 ==> r[i] == flash[i]
  {
    hide Pad, Image;
    var xy, yx := Image(Image(flash, a, x, page), b, y, page), Image(Image(flash, b, y, page), a, x, page);
    forall i | 0 <= i < |flash|
      ensures xy[i] == yx[i]
      ensures xy[i] == if a <= i < a + |x| then x[i - a]
                       else if b <= i < b + |y| then y[i - b]
                       else if a <= i < a + |x| + Pad(|x|, page) || b <= i < b + |y| + Pad(|y|, page) then BLANK
                       else flash[i]
    {
      ImageAt(flash, a, x, page, i);
      ImageAt(flash, b, y, page, i);
      ImageAt(Image(flash, a, x, page), b, y, page, i);
      ImageAt(Image(flash, b, y, page), a, x, page, i);
    }
    assert xy == yx;
  }

  /** Selects the 64K page the following 16-bit addresses are in. */
  function SelectPage(b: byte): Request {
    Class(REQ_DNLOAD, 4, [[COMMAND_CHANGE_BASE_ADDR, 3, 0, b]])
  }

  /** Unlocked, running, and with nothing left in the page buffer. */
  predicate Idle(d: Device) {
    !d.isSecure && !d.waitForExit && d.runBootloader && BlankBuffer(d.chip)
  }

  lemma LoadsPage(d: Device, o: Out, b: byte)
    requires o.bank == [COMMAND_CHANGE_BASE_ADDR, 3, 0, b] && d.dataSize == 4
    ensures var e := LoadCommand(d, o).0;
            e.command == COMMAND_CHANGE_BASE_ADDR && e.data[0] == 3 && e.data[1] == 0
            && e.data[2] == b && e.dataSize == 0
  {
    var d0, o0 := d.(command := COMMAND_CHANGE_BASE_ADDR, dataSize := 3), Pop(o);
    assert o0.bank == [3, 0, b];
    var d1, o1 := d0.(data := d0.data[0 := 3], dataSize := 2), Pop(o0);
    assert o1.bank == [0, b];
    var d2, o2 := d1.(data := d1.data[1 := 0], dataSize := 1), Pop(o1);
    assert o2.bank == [b];
    var d3, o3 := d2.(data := d2.data[2 := b], dataSize := 0), Pop(o2);
    assert LoadParams(d0, o0, 0) == LoadParams(d1, o1, 1);
    assert LoadParams(d1, o1, 1) == LoadParams(d2, o2, 2);
    assert LoadParams(d2, o2, 2) == LoadParams(d3, o3, 3);
    assert LoadParams(d3, o3, 3) == (d3, o3);
  }

  lemma SelectsPage(p: Part, d: Device, b: byte)
    requires p.Fits(d.chip) && Idle(d)
    ensures var e := Handle(p, d, SelectPage(b)).0;
            e.chip == d.chip && e.flash64KBPage == b && Idle(e)
  {
    hide LoadCommand, ReceiveFirmware, BlankBuffer;
    LoadsPage(d.(dataSize := 4), NextPacket(Out([], SelectPage(b).packets, false)), b);
  }

  /** The address of a 16-bit address in a 64K page. */
  function PagedBase(b: byte, start: word): nat {
    b * 0x1_0000 + start
  }

  /** A page-aligned place inside flash for a payload of whole words. */
  predicate Placed(c: Chip, b: byte, start: word, payload: seq<byte>) {
    && PagedBase(b, start) + |payload| <= |c.flash| && Aligned(c, PagedBase(b, start))
    && |payload| % 2 == 0 && |payload| < 0x1_0000
  }

  /** Selecting a 64K page and downloading to it. */
  lemma PagedDownload(p: Part, d: Device, b: byte, r: Request, start: word, payload: seq<byte>)
    requires p.Fits(d.chip) && Idle(d)
    requires IsFlashDownload(r, start, payload) && Placed(d.chip, b, start, payload)
    ensures var e := Handle(p, Handle(p, d, SelectPage(b)).0, r).0;
            && Running(Handle(p, d, SelectPage(b)).0) && Idle(e)
            && e.chip == Imaged(d.chip, PagedBase(b, start), payload)
  {
    hide Handle, Image, FlashAfter, SelectPage, IsFlashDownload;
    SelectsPage(p, d, b);
    var d1 := Handle(p, d, SelectPage(b)).0;
    FlashDownloadExact(p, d1, r, start, payload);
    DownloadKeepsIdle(p, d1, r, start, payload);
  }

  lemma DownloadKeepsIdle(p: Part, d: Device, r: Request, start: word, payload: seq<byte>)
    requires p.Fits(d.chip) && Idle(d) && IsFlashDownload(r, start, payload)
             && Base(d, start) + |payload| <= |d.chip.flash|
    ensures Idle(Handle(p, d, r).0)
  {
    hide Handle, FlashAfter;
    WholeWordDownload(p, d, r, start, payload);
  }

  lemma FourRequests(p: Part, d: Device, a: Request, b: Request, c: Request, e: Request)
    requires p.Fits(d.chip) && Running(d)
    requires var d1 := Handle(p, d, a).0; var d2 := Handle(p, d1, b).0; var d3 := Handle(p, d2, c).0;
             Running(d1) && Running(d2) && Running(d3)
    ensures After(p, d, [a, b, c, e]) == Handle(p, Handle(p, Handle(p, Handle(p, d, a).0, b).0, c).0, e).0
  {
    hide Handle;
    var d1 := Handle(p, d, a).0;
    var d2 := Handle(p, d1, b).0;
    var d3 := Handle(p, d2, c).0;
    assert [a, b, c, e][1..] == [b, c, e] && [b, c, e][1..] == [c, e] && [c, e][1..] == [e] && [e][1..] == [];
    assert After(p, d3, [e]) == After(p, Handle(p, d3, e).0, []);
    assert After(p, d2, [c, e]) == After(p, d3, [e]);
    assert After(p, d1, [b, c, e]) == After(p, d2, [c, e]);
  }

  /** Two downloads, each after selecting its 64K page. */
  lemma TwoDownloads(p: Part, d: Device, b1: byte, r1: Request, s1: word, x: seq<byte>,
        b2: byte, r2: Request, s2: word, y: seq<byte>)
    requires p.Fits(d.chip) && Idle(d)
    requires IsFlashDownload(r1, s1, x) && Placed(d.chip, b1, s1, x)
    requires IsFlashDownload(r2, s2, y) && Placed(d.chip, b2, s2, y)
    ensures After(p, d, [SelectPage(b1), r1, SelectPage(b2), r2]).chip
         == Imaged(Imaged(d.chip, PagedBase(b1, s1), x), PagedBase(b2, s2), y)
  {
    hide Handle, Image, SelectPage, IsFlashDownload, After;
    PagedDownload(p, d, b1, r1, s1, x);
    var e := Handle(p, Handle(p, d, SelectPage(b1)).0, r1).0;
    PagedDownload(p, e, b2, r2, s2, y);
    FourRequests(p, d, SelectPage(b1), r1, SelectPage(b2), r2);
  }

  /** Downloads to disjoint page-aligned ranges, in the same or in different 64K pages, do not disturb each
      other: whichever comes first, the memory ends up the same, both ranges hold their payloads, and no byte
      outside their pages changes. */
  lemma DownloadsCompose(p: Part, d: Device, b1: byte, r1: Request, s1: word, x: seq<byte>,
        b2: byte, r2: Request, s2: word, y: seq<byte>)
    requires p.Fits(d.chip) && Idle(d)
    requires IsFlashDownload(r1, s1, x) && Placed(d.chip, b1, s1, x)
    requires IsFlashDownload(r2, s2, y) && Placed(d.chip, b2, s2, y)
    requires RoundedEnd(d.chip, PagedBase(b1, s1), |x|) <= PagedBase(b2, s2)
    ensures var a, b := PagedBase(b1, s1), PagedBase(b2, s2);
            var c := After(p, d, [SelectPage(b1), r1, SelectPage(b2), r2]).chip;
            && c == After(p, d, [SelectPage(b2), r2, SelectPage(b1), r1]).chip
            && |c.flash| == |d.chip.flash| && c.flash[a..a + |x|] == x && c.flash[b..b + |y|] == y
            && forall i :: 0 <= i < |d.chip.flash| && !(a <= i < RoundedEnd(d.chip, a, |x|))
                           && !(b <= i < RoundedEnd(d.chip, b, |y|))
                 ==> c.flash[i] == d.chip.flash[i]
  {
    hide After, Image, Pad, SelectPage, IsFlashDownload;
    TwoDownloads(p, d, b1, r1, s1, x, b2, r2, s2, y);
    TwoDownloads(p, d, b2, r2, s2, y, b1, r1, s1, x);
    ImagesCommute(d.chip.flash, PagedBase(b1, s1), x, PagedBase(b2, s2), y, |d.chip.buffer|);
  }
}
