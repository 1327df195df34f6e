/** The DFU bootloader's request handling as functions on device states. The class in
    DfuBootloader.dfy is proved to compute exactly these. */
module Dfu {
  import opened Avr
  import opened Endpoint
  import opened Pages

  // DFU_State_t and DFU_Status_t values
  const DFU_IDLE: byte := 2
  const DFU_DNLOAD_IDLE: byte := 5
  const DFU_UPLOAD_IDLE: byte := 9
  const DFU_ERROR: byte := 10
  const STATUS_OK: byte := 0
  const ERR_WRITE: byte := 3
  const ERR_CHECK_ERASED: byte := 5

  // Class requests
  const REQ_DNLOAD: byte := 1
  const REQ_UPLOAD: byte := 2
  const REQ_GETSTATUS: byte := 3
  const REQ_CLRSTATUS: byte := 4
  const REQ_GETSTATE: byte := 5
  const REQ_ABORT: byte := 6

  // Commands carried by a DNLOAD
  const COMMAND_PROG_START: byte := 1
  const COMMAND_DISP_DATA: byte := 3
  const COMMAND_WRITE: byte := 4
  const COMMAND_READ: byte := 5
  const COMMAND_CHANGE_BASE_ADDR: byte := 6

  const ENDPOINT_SIZE := 32
  const FILLER_BYTES := 26
  const SUFFIX_BYTES := 16

  /** What is fixed when the bootloader is built. The READ command indexes its three-byte tables with
      an unchecked byte; the tables here list all 256 bytes such an index can reach. */
  datatype Part = Part(bootStart: nat, info: seq<byte>, signature: seq<byte>)
  {
    predicate Fits(c: Chip) {
      && bootStart % |c.buffer| == 0 && bootStart <= |c.flash|
      && |info| == 256 && info[0..3] == [0x20, 0xDC, 0xFB]
      && |signature| == 256
    }
  }

  type Params = s: seq<byte> | |s| == 5 witness [0, 0, 0, 0, 0]

  datatype Device = Device(
    isSecure: bool,
    runBootloader: bool,
    waitForExit: bool,
    state: byte,
    status: byte,
    command: byte,
    data: Params,
    dataSize: word,
    responseByte: byte,
    appStart: word,
    bootKeySet: bool,
    flash64KBPage: byte,
    startAddr: word,
    endAddr: word,
    chip: Chip)

  /** The state at power-up around the given memory. */
  function PowerUp(secure: bool, chip: Chip): Device {
    Device(secure, true, false, DFU_IDLE, STATUS_OK, 0, [0, 0, 0, 0, 0], 0, 0, 0, false, 0, 0, 0, chip)
  }

  /** A control request: either one for another recipient, or a class request with its data stage. */
  datatype Request =
    | Foreign
    | Class(bRequest: byte, wLength: word, packets: seq<Packet>)

  /** The IN packets sent, whether the transfer was stalled, and whether the status stage was reached. */
  datatype Response = Response(packets: seq<Packet>, stalled: bool, finished: bool)

  const NO_RESPONSE := Response([], false, false)

  function Decremented(w: word): word {
    if w == 0 then 0xFFFF else w - 1
  }

  /** 16-bit addition. */
  function Plus(a: word, n: nat): word {
    (a + n) % 0x1_0000
  }

  lemma PlusStep(a: word, n: nat)
    ensures Plus(Plus(a, n), 1) == Plus(a, n + 1) && Plus(a, 0) == a
  {
  }

  function Word(lo: byte, hi: byte): word {
    lo + 0x100 * hi
  }

  function LowByte(w: word): byte { w % 0x100 }
  function HighByte(w: word): byte { w / 0x100 }

  // ---- Commands ----

  function LoadStartEndAddresses(d: Device): Device {
    d.(startAddr := Word(d.data[2], d.data[1]), endAddr := Word(d.data[4], d.data[3]))
  }

  /** The flash address formed from the 64KB page number and a 16-bit address. */
  function FlashAddress(d: Device): nat {
    d.flash64KBPage * 0x1_0000 + d.startAddr
  }

  function ProcessMemProg(d: Device): Device {
    if d.data[0] == 0 then
      var e := LoadStartEndAddresses(d);
      e.(chip := PageErase(e.chip, FlashAddress(e)), state := DFU_DNLOAD_IDLE)
    else if d.data[0] == 1 then
      LoadStartEndAddresses(d).(state := DFU_DNLOAD_IDLE)
    else
      d
  }

  /** The first address at or after `from`, and below `limit`, that does not read as blank; `limit` if none. */
  function FirstNonBlank(c: Chip, from: nat, limit: nat): nat
    decreases limit - from
  {
    if from >= limit then limit
    else if ReadFlash(c, from) != BLANK then from
    else FirstNonBlank(c, from + 1, limit)
  }

  function BlankCheck(p: Part, d: Device): Device {
    var a := FirstNonBlank(d.chip, 0, p.bootStart);
    if a < p.bootStart then
      d.(flash64KBPage := (a / 0x1_0000) % 0x100, startAddr := a % 0x1_0000,
         state := DFU_ERROR, status := ERR_CHECK_ERASED)
    else
      d
  }

  function ProcessMemRead(p: Part, d: Device): Device {
    if d.data[0] == 0 || d.data[0] == 2 then
      LoadStartEndAddresses(d).(state := DFU_UPLOAD_IDLE)
    else if d.data[0] == 1 then
      BlankCheck(p, d)
    else
      d
  }

  function ProcessWrite(p: Part, d: Device): Device {
    if d.data[0] == 3 then
      var e := d.(waitForExit := true);
      if d.dataSize != 0 then
        if d.data[1] == 1 then e.(appStart := Word(d.data[4], d.data[3])) else e
      else if d.data[1] == 0 then e.(bootKeySet := true)
      else e.(runBootloader := false)
    else if d.data[0] == 0 && d.data[1] == 0xFF then
      d.(chip := RwwEnable(EraseFrom(d.chip, 0, p.bootStart)), isSecure := false)
    else
      d
  }

  function ProcessRead(p: Part, d: Device): Device
    requires p.Fits(d.chip)
  {
    if d.data[0] == 0 then d.(responseByte := p.info[d.data[1]])
    else if d.data[0] == 1 then d.(responseByte := p.signature[d.data[1]])
    else d
  }

  /** Commands the secure mode lets through: chip erase and READ. */
  predicate AllowedWhenSecure(d: Device) {
    || (d.command == COMMAND_WRITE && d.data[0] == 0 && d.data[1] == 0xFF)
    || d.command == COMMAND_READ
  }

  predicate Refused(d: Device) {
    d.isSecure && !AllowedWhenSecure(d)
  }

  function ProcessCommand(p: Part, d: Device): (r: Device)
    requires p.Fits(d.chip)
    ensures p.Fits(r.chip) && |r.chip.flash| == |d.chip.flash| && |r.chip.buffer| == |d.chip.buffer|
    ensures r.chip.eeprom == d.chip.eeprom
  {
    if Refused(d) then d.(state := DFU_ERROR, status := ERR_WRITE)
    else if d.command == COMMAND_PROG_START then ProcessMemProg(d)
    else if d.command == COMMAND_DISP_DATA then ProcessMemRead(p, d)
    else if d.command == COMMAND_WRITE then ProcessWrite(p, d)
    else if d.command == COMMAND_READ then ProcessRead(p, d)
    else if d.command == COMMAND_CHANGE_BASE_ADDR && d.data[0] == 3 && d.data[1] == 0 then
      d.(flash64KBPage := d.data[2])
    else d
  }

  // ---- Streaming ----

  function Discard(o: Out, n: nat): Out
    decreases n
  {
    if n == 0 then o
    else if o.bank != [] then Discard(Pop(o), n - 1)
    else
      var o' := NextPacket(o);
      if o'.detached then o' else Discard(o', n - 1)
  }

  /** The command byte and up to five parameter bytes, from the bank alone. */
  function LoadParams(d: Device, o: Out, i: nat): (r: (Device, Out))
    requires i <= 5
    ensures r.0 == d.(data := r.0.data, dataSize := r.0.dataSize)
    decreases 5 - i
  {
    if i == 5 || o.bank == [] then (d, o)
    else LoadParams(d.(data := d.data[i := Peek(o)], dataSize := Decremented(d.dataSize)), Pop(o), i + 1)
  }

  function LoadCommand(d: Device, o: Out): (r: (Device, Out))
    ensures r.0 == d.(command := r.0.command, data := r.0.data, dataSize := r.0.dataSize)
  {
    LoadParams(d.(command := Peek(o), dataSize := Decremented(d.dataSize)), Pop(o), 0)
  }

  /** The flash programming loop: `left` words to go, the next one at `addr`; the page being filled
      starts at `page` and holds `inPage` words so far. */
  datatype FlashJob = FlashJob(chip: Chip, out: Out, addr: nat, page: nat, inPage: nat, left: nat)

  function ProgramWord(j: FlashJob): (r: FlashJob)
    requires 0 < j.left
    ensures r.left == j.left - 1
    ensures |r.chip.flash| == |j.chip.flash| && |r.chip.buffer| == |j.chip.buffer|
    ensures r.chip.eeprom == j.chip.eeprom
  {
    var filled := PageFill(j.chip, j.addr, Peek(j.out), Peek(Pop(j.out)));
    var next := j.(chip := filled, out := Pop(Pop(j.out)), addr := j.addr + 2,
                   inPage := j.inPage + 1, left := j.left - 1);
    if next.inPage == |j.chip.buffer| / 2 || next.left == 0 then
      var written := PageWrite(filled, j.page);
      if next.left != 0 then
        next.(chip := PageErase(written, next.addr), page := next.addr, inPage := 0)
      else
        next.(chip := written)
    else
      next
  }

  function ProgramWords(j: FlashJob): (r: FlashJob)
    ensures |r.chip.flash| == |j.chip.flash| && |r.chip.buffer| == |j.chip.buffer|
    ensures r.chip.eeprom == j.chip.eeprom
    decreases j.left
  {
    if j.left == 0 then j
    else
      var ready := j.(out := Ready(j.out));
      if ready.out.detached then ready else ProgramWords(ProgramWord(ready))
  }

  datatype EepromJob = EepromJob(chip: Chip, out: Out, addr: word, left: nat)

  function ProgramByte(j: EepromJob): EepromJob
    requires 0 < j.left
  {
    EepromJob(WriteEeprom(j.chip, j.addr, Peek(j.out)), Pop(j.out), Plus(j.addr, 1), j.left - 1)
  }

  function ProgramBytes(j: EepromJob): (r: EepromJob)
    ensures r.chip.flash == j.chip.flash && r.chip.buffer == j.chip.buffer && r.chip.rww == j.chip.rww
    ensures |r.chip.eeprom| == |j.chip.eeprom|
    decreases j.left
  {
    if j.left == 0 then j
    else
      var ready := j.(out := Ready(j.out));
      if ready.out.detached then ready else ProgramBytes(ProgramByte(ready))
  }

  /** Number of bytes in the current address range, in 16-bit arithmetic. */
  function RangeLength(d: Device): word {
    (d.endAddr - d.startAddr + 1) % 0x1_0000
  }

  /** The body of a download once the command is in: the filler, the memory contents and the suffix.
      The second result says whether the handler ran to its end. */
  function ReceiveFirmware(d: Device, o: Out): (r: (Device, bool))
    ensures |r.0.chip.flash| == |d.chip.flash| && |r.0.chip.buffer| == |d.chip.buffer|
  {
    var o1 := Discard(Discard(o, FILLER_BYTES), d.startAddr % ENDPOINT_SIZE);
    if d.data[0] == 0 then
      var job := FlashJob(d.chip, o1, FlashAddress(d), FlashAddress(d), 0, RangeLength(d) / 2);
      var done := ProgramWords(job);
      if done.left != 0 then (d.(chip := done.chip), false)
      else (d.(chip := RwwEnable(done.chip), startAddr := d.endAddr), true)
    else
      var done := ProgramBytes(EepromJob(d.chip, o1, d.startAddr, RangeLength(d)));
      (d.(chip := done.chip, startAddr := done.addr), done.left == 0)
  }

  /** The step for a request that found the bootloader waiting to exit: the last command is run again. */
  function FinishExit(p: Part, d: Device): (r: Device)
    requires p.Fits(d.chip)
    ensures p.Fits(r.chip) && |r.chip.flash| == |d.chip.flash|
  {
    if d.waitForExit then ProcessCommand(p, d).(waitForExit := false) else d
  }

  /** What follows the command: nothing, the end of a download, or the firmware itself. */
  function DnloadBody(d: Device, o: Out): (r: (Device, bool))
    ensures |r.0.chip.flash| == |d.chip.flash| && |r.0.chip.buffer| == |d.chip.buffer|
  {
    if d.state != DFU_DNLOAD_IDLE then (d, true)
    else if d.dataSize == 0 then (d.(state := DFU_IDLE), true)
    else ReceiveFirmware(d, o)
  }

  function Dnload(p: Part, d: Device, packets: seq<Packet>): (r: (Device, Response))
    requires p.Fits(d.chip)
    ensures p.Fits(r.0.chip) && |r.0.chip.flash| == |d.chip.flash|
  {
    var stalled1 := d.waitForExit && Refused(d);
    var d1 := FinishExit(p, d);
    if d1.dataSize == 0 then
      var (d4, finished) := DnloadBody(d1, Out([], packets, false));
      (d4, Response([], stalled1, finished))
    else
      var o := NextPacket(Out([], packets, false));
      if o.detached then (d1, Response([], stalled1, false))
      else
        var (d2, o2) := LoadCommand(d1, o);
        var d3 := ProcessCommand(p, d2);
        var (d4, finished) := DnloadBody(d3, o2);
        (d4, Response([], stalled1 || Refused(d2), finished))
  }

  // ---- Uploading ----

  function UploadFlash(c: Chip, addr: nat, words: nat, i: In): In
    decreases words
  {
    if words == 0 then i
    else UploadFlash(c, addr + 2, words - 1, Append(i, [ReadFlash(c, addr), ReadFlash(c, addr + 1)], ENDPOINT_SIZE))
  }

  function UploadEeprom(c: Chip, addr: word, bytes: nat, i: In): In
    decreases bytes
  {
    if bytes == 0 then i
    else UploadEeprom(c, Plus(addr, 1), bytes - 1, Append(i, [ReadEeprom(c, addr)], ENDPOINT_SIZE))
  }

  /** The answer to an UPLOAD outside the upload state. */
  function IdleUpload(d: Device): seq<byte> {
    if d.state == DFU_ERROR && d.data[0] == 1 then [LowByte(d.startAddr), HighByte(d.startAddr)]
    else [d.responseByte]
  }

  function Upload(d: Device): (Device, Response) {
    if d.state != DFU_UPLOAD_IDLE then
      (d, Response([IdleUpload(d)], false, true))
    else
      var n := RangeLength(d);
      if d.data[0] == 0 then
        var i := UploadFlash(d.chip, FlashAddress(d), n / 2, NO_IN);
        (d.(startAddr := d.endAddr, state := DFU_IDLE), Response(SendBank(i).sent, false, true))
      else if d.data[0] == 2 then
        var i := UploadEeprom(d.chip, d.startAddr, n, NO_IN);
        (d.(startAddr := Plus(d.startAddr, n), state := DFU_IDLE), Response(SendBank(i).sent, false, true))
      else
        (d.(state := DFU_IDLE), Response([[]], false, true))
  }

  // ---- Requests and sessions ----

  function Handle(p: Part, d: Device, r: Request): (s: (Device, Response))
    requires p.Fits(d.chip)
    ensures p.Fits(s.0.chip) && |s.0.chip.flash| == |d.chip.flash|
  {
    match r
    case Foreign => (d, NO_RESPONSE)
    case Class(bRequest, wLength, packets) =>
      var e := d.(dataSize := wLength);
      if bRequest == REQ_DNLOAD then Dnload(p, e, packets)
      else if bRequest == REQ_UPLOAD then Upload(e)
      else if bRequest == REQ_GETSTATUS then (e, Response([[e.status, 0, 0, 0, e.state, 0]], false, true))
      else if bRequest == REQ_CLRSTATUS then (e.(status := STATUS_OK), Response([], false, true))
      else if bRequest == REQ_GETSTATE then (e, Response([[e.state]], false, true))
      else if bRequest == REQ_ABORT then (e.(state := DFU_IDLE), Response([], false, true))
      else (e, NO_RESPONSE)
  }

  /** The condition of main's loop. */
  predicate Running(d: Device) {
    d.runBootloader || d.waitForExit
  }

  /** The device after the requests, taken for as long as main's loop runs. */
  function After(p: Part, d: Device, rs: seq<Request>): (r: Device)
    requires p.Fits(d.chip)
    ensures p.Fits(r.chip)
    decreases |rs|
  {
    if rs == [] || !Running(d) then d else After(p, Handle(p, d, rs[0]).0, rs[1..])
  }

  /** What the host sees of that session. */
  function Responses(p: Part, d: Device, rs: seq<Request>): seq<Response>
    requires p.Fits(d.chip)
    decreases |rs|
  {
    if rs == [] || !Running(d) then []
    else
      var (e, resp) := Handle(p, d, rs[0]);
      [resp] + Responses(p, e, rs[1..])
  }
}
