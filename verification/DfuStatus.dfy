/** What the host sees of the DFU bootloader's commands: the blank check, the status and state replies, the
    information bytes, and where Start Application leads. Requests and replies are written out as bytes. */
module DfuStatus {
  import opened Avr
  import opened Endpoint
  import opened Pages
  import opened Dfu
  import opened DfuDownload
  import opened DfuSecure
  import opened DfuBuffer

  /** A command of two bytes, and one of three, alone in their packet. */
  function TwoBytes(cmd: byte, a: byte): Request {
    Class(1, 2, [[cmd, a]])
  }

  function ThreeBytes(cmd: byte, a: byte, b: byte): Request {
    Class(1, 3, [[cmd, a, b]])
  }

  // ---- Loading short commands ----

  /** The size counts down modulo 64K. */
  lemma {:induction false} SizeCountsDown(w: word, n: nat)
    ensures DecrementedBy(w, n) == (w - n) % 0x1_0000
    decreases n
  {
    if n > 0 {
      SizeCountsDown(Decremented(w), n - 1);
    }
  }

  lemma LoadsTwo(d: Device, cmd: byte, a: byte)
    requires d.dataSize == 2
    ensures LoadCommand(d, Out([cmd, a], [], false))
         == (d.(command := cmd, data := d.data[0 := a], dataSize := 0), Out([], [], false))
  {
    var o := Out([cmd, a], [], false);
    var d0, o0 := d.(command := cmd, dataSize := 1), Out([a], [], false);
    assert Pop(o) == o0;
    var d1, o1 := d0.(data := d0.data[0 := a], dataSize := 0), Out([], [], false);
    assert Pop(o0) == o1;
    assert LoadParams(d0, o0, 0) == LoadParams(d1, o1, 1);
    assert LoadParams(d1, o1, 1) == (d1, o1);
  }

  lemma LoadsThree(d: Device, cmd: byte, a: byte, b: byte)
    requires d.dataSize == 3
    ensures LoadCommand(d, Out([cmd, a, b], [], false))
         == (d.(command := cmd, data := d.data[0 := a][1 := b], dataSize := 0), Out([], [], false))
  {
    var o := Out([cmd, a, b], [], false);
    var d0, o0 := d.(command := cmd, dataSize := 2), Out([a, b], [], false);
    assert Pop(o) == o0;
    var d1, o1 := d0.(data := d0.data[0 := a], dataSize := 1), Out([b], [], false);
    assert Pop(o0) == o1;
    var d2, o2 := d1.(data := d1.data[1 := b], dataSize := 0), Out([], [], false);
    assert Pop(o1) == o2;
    assert LoadParams(d0, o0, 0) == LoadParams(d1, o1, 1);
    assert LoadParams(d1, o1, 1) == LoadParams(d2, o2, 2);
    assert LoadParams(d2, o2, 2) == (d2, o2);
  }

  /** A command alone in its request is processed; a download that was under way ends. */
  lemma RunsCommand(p: Part, d: Device, r: Request, loaded: Device)
    requires p.Fits(d.chip) && !d.waitForExit && r.Class? && r.bRequest == 1 && r.wLength != 0 && r.packets != []
    requires LoadCommand(d.(dataSize := r.wLength), Out(r.packets[0], r.packets[1..], false)).0 == loaded
    requires loaded.dataSize == 0
    ensures var e := ProcessCommand(p, loaded);
            Handle(p, d, r) == (if e.state == 5 then e.(state := 2) else e, Response([], Refused(loaded), true))
  {
    hide LoadCommand, ProcessCommand, ReceiveFirmware, Refused, Part.Fits;
    CommandKeepsSize(p, loaded);
  }

  // ---- Replies to GETSTATUS and GETSTATE ----

  /** The bytes GETSTATUS answers with. */
  predicate Reports(p: Part, d: Device, bytes: seq<byte>)
    requires p.Fits(d.chip)
  {
    Handle(p, d, Class(3, 6, [])).1 == Response([bytes], false, true)
  }

  lemma Status(p: Part, d: Device)
    requires p.Fits(d.chip)
    ensures Reports(p, d, [d.status, 0, 0, 0, d.state, 0])
  {
    hide Dnload, Upload;
  }

  /** Every status reply has six bytes; the fifth is what GETSTATE answers, before and after; and asking changes
      neither. */
  lemma StatusAgreesWithState(p: Part, d: Device, bytes: seq<byte>, w: word)
    requires p.Fits(d.chip) && Reports(p, d, bytes)
    ensures |bytes| == 6 && bytes[1..4] == [0, 0, 0] && bytes[5] == 0
    ensures Handle(p, d, Class(5, w, [])).1 == Response([[bytes[4]]], false, true)
    ensures Reports(p, Handle(p, d, Class(3, w, [])).0, bytes) && Reports(p, Handle(p, d, Class(5, w, [])).0, bytes)
  {
    hide Dnload, Upload;
  }

  /** The replies over a whole session: the byte in place 4 of a status reply is the one a state request right after
      it gets. */
  lemma StatusThenState(p: Part, d: Device, rs: seq<Request>, v: word, w: word)
    requires p.Fits(d.chip) && Running(After(p, d, rs))
    ensures var e := After(p, d, rs);
            var replies := Responses(p, e, [Class(3, v, []), Class(5, w, [])]);
            && |replies| == 2 && |replies[0].packets| == 1 && |replies[0].packets[0]| == 6
            && replies[1].packets == [[replies[0].packets[0][4]]]
  {
    hide Dnload, Upload, After;
    var e := After(p, d, rs);
    var rest := [Class(5, w, [])];
    assert [Class(3, v, []), Class(5, w, [])][1..] == rest && rest[1..] == [];
    var f := Handle(p, e, Class(3, v, [])).0;
    assert Responses(p, f, rest) == [Handle(p, f, rest[0]).1] + Responses(p, Handle(p, f, rest[0]).0, []);
  }

  lemma PowerUpStatus(p: Part, secure: bool, c: Chip)
    requires p.Fits(c)
    ensures Reports(p, PowerUp(secure, c), [0, 0, 0, 0, 2, 0])
  {
    hide Handle;
    Status(p, PowerUp(secure, c));
  }

  /** CLRSTATUS sets the status to OK and leaves the state; ABORT sets the state to idle and leaves the status. */
  lemma ClearAndAbort(p: Part, d: Device, bytes: seq<byte>, w: word)
    requires p.Fits(d.chip) && Reports(p, d, bytes)
    ensures |bytes| == 6
    ensures Reports(p, Handle(p, d, Class(4, w, [])).0, [0, 0, 0, 0, bytes[4], 0])
    ensures Reports(p, Handle(p, d, Class(6, w, [])).0, [bytes[0], 0, 0, 0, 2, 0])
  {
    hide Dnload, Upload;
  }

  /** In secure mode every command but WRITE and READ is stalled and reported as a write error. */
  lemma RefusedStatus(p: Part, d: Device, w: word, packets: seq<Packet>)
    requires p.Fits(d.chip) && d.isSecure && !d.waitForExit && w != 0
    requires packets != [] && packets[0] != [] && packets[0][0] != 4 && packets[0][0] != 5
    ensures var (e, response) := Handle(p, d, Class(1, w, packets));
            response == Response([], true, true) && Reports(p, e, [3, 0, 0, 0, 10, 0]) && e.chip == d.chip
  {
    hide LoadParams;
    var d0 := d.(dataSize := w);
    var o := Out(packets[0], packets[1..], false);
    var d1 := LoadCommand(d0, o).0;
    assert d1.command == packets[0][0];
    assert Handle(p, d, Class(1, w, packets)).0 == d1.(state := 10, status := 3);
  }

  // ---- The blank check ----

  /** The blank check command. */
  const BLANK_CHECK := TwoBytes(3, 1)

  lemma RunsBlankCheck(p: Part, d: Device)
    requires p.Fits(d.chip) && !d.isSecure && !d.waitForExit
    ensures var e := BlankCheck(p, d.(command := 3, data := d.data[0 := 1], dataSize := 0));
            Handle(p, d, BLANK_CHECK) == (if e.state == 5 then e.(state := 2) else e, Response([], false, true))
  {
    hide LoadCommand, BlankCheck, FirstNonBlank, Handle, Part.Fits;
    var loaded := d.(command := 3, data := d.data[0 := 1], dataSize := 0);
    LoadsTwo(d.(dataSize := 2), 3, 1);
    assert BLANK_CHECK.packets[1..] == [];
    RunsCommand(p, d, BLANK_CHECK, loaded);
    assert ProcessCommand(p, loaded) == BlankCheck(p, loaded);
  }

  /** A non-blank byte that can be read in the application section. */
  ghost predicate AnyNonBlank(p: Part, c: Chip) {
    exists a :: 0 <= a < p.bootStart && NonBlankAt(c, a)
  }

  /** The least address of such a byte. */
  predicate FirstNonBlankAt(p: Part, c: Chip, a: nat) {
    a < p.bootStart && NonBlankAt(c, a) && forall b :: 0 <= b < a ==> !NonBlankAt(c, b)
  }

  /** The blank check request on an unlocked device: it is reported as an error exactly when a byte of the application
      section reads as non-blank, and otherwise changes nothing but the command, and ends a download. Memory stays as
      it is either way. */
  lemma BlankCheckRequest(p: Part, d: Device)
    requires p.Fits(d.chip) && !d.isSecure && !d.waitForExit && p.bootStart <= 0x100_0000
    ensures var (e, response) := Handle(p, d, BLANK_CHECK);
            && response == Response([], false, true) && e.chip == d.chip
            && (AnyNonBlank(p, d.chip) || d.state == 10 <==> e.state == 10)
            && (AnyNonBlank(p, d.chip) ==> Reports(p, e, [5, 0, 0, 0, 10, 0]))
            && (!AnyNonBlank(p, d.chip) ==>
                e == d.(command := 3, data := d.data[0 := 1], dataSize := 0,
                        state := if d.state == 5 then 2 else d.state))
  {
    hide Handle, BlankCheck, NonBlankAt, Reports, Part.Fits;
    var loaded := d.(command := 3, data := d.data[0 := 1], dataSize := 0);
    RunsBlankCheck(p, d);
    BlankCheckExact(p, loaded);
    BlankCheckKeepsChip(p, loaded);
    Status(p, Handle(p, d, BLANK_CHECK).0);
  }

  lemma LeastIsReported(p: Part, d: Device, a: nat)
    requires p.Fits(d.chip) && p.bootStart <= 0x100_0000 && FirstNonBlankAt(p, d.chip, a)
    ensures var e := BlankCheck(p, d);
            && e.state == 10 && e.data == d.data && e.runBootloader == d.runBootloader
            && e.startAddr == a % 0x1_0000
  {
    hide BlankCheck, NonBlankAt;
    BlankCheckExact(p, d);
    var e := BlankCheck(p, d);
    assert NonBlankAt(d.chip, FlashAddress(e)) && FlashAddress(e) <= a;
    assert FlashAddress(e) == a;
  }

  lemma AddressBytes(a: nat)
    ensures LowByte(a % 0x1_0000) == a % 0x100 && HighByte(a % 0x1_0000) == (a / 0x100) % 0x100
  {
  }

  /** And an UPLOAD after a failed blank check answers the least non-blank address, low byte first, as 16 bits. */
  lemma BlankCheckAnswer(p: Part, d: Device, a: nat, w: word)
    requires p.Fits(d.chip) && !d.isSecure && !d.waitForExit && d.runBootloader
    requires p.bootStart <= 0x100_0000 && FirstNonBlankAt(p, d.chip, a)
    ensures Responses(p, d, [BLANK_CHECK, Class(2, w, [])])
         == [Response([], false, true), Response([[a % 0x100, (a / 0x100) % 0x100]], false, true)]
  {
    hide Dnload, BlankCheck, FirstNonBlankAt, LowByte, HighByte, Part.Fits;
    var loaded := d.(command := 3, data := d.data[0 := 1], dataSize := 0);
    RunsBlankCheck(p, d);
    LeastIsReported(p, loaded, a);
    AddressBytes(a);
    BlankCheckKeepsChip(p, loaded);
    var e := Handle(p, d, BLANK_CHECK).0;
    TwoReplies(p, d, BLANK_CHECK, Class(2, w, []));
    assert IdleUpload(e.(dataSize := w)) == [LowByte(e.startAddr), HighByte(e.startAddr)];
  }

  lemma TwoReplies(p: Part, d: Device, a: Request, b: Request)
    requires p.Fits(d.chip) && Running(d) && Running(Handle(p, d, a).0)
    ensures Responses(p, d, [a, b]) == [Handle(p, d, a).1, Handle(p, Handle(p, d, a).0, b).1]
  {
    hide Handle;
    assert [a, b][1..] == [b] && [b][1..] == [];
    var e := Handle(p, d, a).0;
    assert Responses(p, e, [b]) == [Handle(p, e, b).1] + Responses(p, Handle(p, e, b).0, []);
  }

  /** From power-up, secure or not, a chip erase followed by a blank check reports nothing. */
  lemma EraseThenCheckSession(p: Part, secure: bool, c: Chip)
    requires p.Fits(c) && BlankBuffer(c) && p.bootStart <= 0x100_0000
    ensures var e := Handle(p, PowerUp(secure, c), ThreeBytes(4, 0, 0xFF)).0;
            !e.isSecure && Reports(p, Handle(p, e, BLANK_CHECK).0, [0, 0, 0, 0, 2, 0])
  {
    hide LoadCommand, Handle, EraseFrom, BlankCheck, Reports, Part.Fits;
    var d, r := PowerUp(secure, c), ThreeBytes(4, 0, 0xFF);
    var loaded := d.(command := 4, data := d.data[0 := 0][1 := 0xFF], dataSize := 0);
    LoadsThree(d.(dataSize := 3), 4, 0, 0xFF);
    assert r.packets[1..] == [];
    RunsCommand(p, d, r, loaded);
    var e := Handle(p, d, r).0;
    assert e == ProcessWrite(p, loaded);
    ChipErase(p, c);
    assert e.chip.flash == Blank(p.bootStart) + c.flash[p.bootStart..];
    assert forall a :: 0 <= a < p.bootStart ==> !NonBlankAt(e.chip, a);
    BlankCheckRequest(p, e);
    Status(p, Handle(p, e, BLANK_CHECK).0);
  }

  // ---- Information bytes ----

  /** The byte a READ command selects: table 0 is the bootloader's, table 1 the signature. */
  function TableByte(p: Part, d: Device, table: byte, i: byte): byte
    requires p.Fits(d.chip)
  {
    if table == 0 then p.info[i] else p.signature[i]
  }

  lemma ReadCommand(p: Part, d: Device, table: byte, i: byte)
    requires p.Fits(d.chip) && !d.waitForExit && d.state != 5 && table < 2
    ensures Handle(p, d, ThreeBytes(5, table, i)).0
         == d.(command := 5, data := d.data[0 := table][1 := i], dataSize := 0,
               responseByte := TableByte(p, d, table, i))
  {
    hide LoadCommand, Handle;
    var loaded := d.(command := 5, data := d.data[0 := table][1 := i], dataSize := 0);
    LoadsThree(d.(dataSize := 3), 5, table, i);
    assert ThreeBytes(5, table, i).packets[1..] == [];
    RunsCommand(p, d, ThreeBytes(5, table, i), loaded);
  }

  /** Secure or not, outside a transfer, a READ and an UPLOAD answer the selected byte, but for one case: in the error
      state a signature request is taken for a failed blank check, and answered with the start address. */
  lemma ReadAnswer(p: Part, d: Device, table: byte, i: byte, w: word)
    requires p.Fits(d.chip) && Running(d) && !d.waitForExit && d.state != 5 && d.state != 9 && table < 2
    ensures var replies := Responses(p, d, [ThreeBytes(5, table, i), Class(2, w, [])]);
            && |replies| == 2
            && replies[1].packets == if table == 1 && d.state == 10 then [[d.startAddr % 0x100, d.startAddr / 0x100]]
                                     else [[TableByte(p, d, table, i)]]
  {
    hide Dnload, Part.Fits, TableByte;
    ReadCommand(p, d, table, i);
    TwoReplies(p, d, ThreeBytes(5, table, i), Class(2, w, []));
  }

  /** The first three information bytes are the version and the two identification bytes. */
  lemma InfoBytes(p: Part, d: Device)
    requires p.Fits(d.chip)
    ensures TableByte(p, d, 0, 0) == 0x20 && TableByte(p, d, 0, 1) == 0xDC && TableByte(p, d, 0, 2) == 0xFB
  {
    assert p.info[0..3][0] == p.info[0] && p.info[0..3][1] == p.info[1] && p.info[0..3][2] == p.info[2];
  }

  // ---- Start Application ----

  /** Only Start Application sets the jump address and the boot key, each in one of its forms. */
  lemma StartTargets(p: Part, d: Device)
    requires p.Fits(d.chip)
    ensures var e := ProcessCommand(p, d);
            var start := !d.isSecure && d.command == 4 && d.data[0] == 3;
            && e.appStart == (if start && d.dataSize != 0 && d.data[1] == 1 then 0x100 * d.data[3] + d.data[4]
                              else d.appStart)
            && e.bootKeySet == (d.bootKeySet || (start && d.dataSize == 0 && d.data[1] == 0))
  {
    hide EraseFrom, FirstNonBlank, PageErase, Part.Fits;
  }

  /** Start Application with an address: mode 1 and the address high byte first, with data left over. */
  function JumpTo(hi: byte, lo: byte): Request {
    Class(1, 7, [[4, 3, 1, 0, hi, lo]])
  }

  lemma JumpLoads(p: Part, d: Device, hi: byte, lo: byte)
    requires p.Fits(d.chip) && !d.isSecure && !d.waitForExit && d.state != 5
    ensures Handle(p, d, JumpTo(hi, lo)).0
         == d.(command := 4, data := [3, 1, 0, hi, lo], dataSize := 1, waitForExit := true, appStart := 0x100 * hi + lo)
  {
    hide LoadCommand, EraseFrom;
    var r := JumpTo(hi, lo);
    var cmd: seq<byte> := [4, 3, 1, 0, hi, lo];
    LoadHeader(d.(dataSize := 7), cmd, [], []);
    assert cmd + [] == cmd && r.packets[1..] == [];
    SizeCountsDown(7, 6);
    assert cmd[1..] == [3, 1, 0, hi, lo];
  }

  /** From an unlocked device outside a download this command and an empty DNLOAD leave main's loop with that address to
      jump to. */
  lemma JumpsToAddress(p: Part, d: Device, hi: byte, lo: byte)
    requires p.Fits(d.chip) && !d.isSecure && !d.waitForExit && d.runBootloader && d.state != 5
    ensures var e := After(p, d, [JumpTo(hi, lo), Class(1, 0, [])]);
            !Running(e) && e.appStart == 0x100 * hi + lo && !e.waitForExit
  {
    hide EraseFrom, JumpTo, Part.Fits;
    JumpLoads(p, d, hi, lo);
    var e := Handle(p, d, JumpTo(hi, lo)).0;
    var rs := [JumpTo(hi, lo), Class(1, 0, [])];
    assert rs[1..] == [Class(1, 0, [])] && rs[1..][1..] == [];
    var f := Handle(p, e, Class(1, 0, [])).0;
    assert f.runBootloader == false && f.waitForExit == false && f.appStart == e.appStart;
    assert After(p, e, rs[1..]) == After(p, f, []);
  }

  /** Start Application by the watchdog sets the boot key and the pending exit, and does not stop the loop. */
  lemma WatchdogStart(p: Part, d: Device)
    requires p.Fits(d.chip) && !d.isSecure && !d.waitForExit
    ensures var e := Handle(p, d, ThreeBytes(4, 3, 0)).0;
            e.bootKeySet && e.waitForExit && e.runBootloader == d.runBootloader && e.chip == d.chip
  {
    hide LoadCommand, Handle, EraseFrom, Part.Fits;
    var loaded := d.(command := 4, data := d.data[0 := 3][1 := 0], dataSize := 0);
    LoadsThree(d.(dataSize := 3), 4, 3, 0);
    assert ThreeBytes(4, 3, 0).packets[1..] == [];
    RunsCommand(p, d, ThreeBytes(4, 3, 0), loaded);
  }
}
