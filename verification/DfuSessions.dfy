/** What secure mode hides and protects over whole DFU sessions. */
module DfuSessions {
  import opened Avr
  import opened Endpoint
  import opened Pages
  import opened Dfu
  import opened DfuSecure
  import DfuExit

  // ---- Secure mode ----

  /** What every secure state keeps: no memory transfer is under way, no exit is pending and the page
      buffer is blank. */
  predicate Locked(d: Device) {
    d.isSecure ==>
      && d.state != DFU_DNLOAD_IDLE && d.state != DFU_UPLOAD_IDLE
      && !d.waitForExit && BlankBuffer(d.chip)
  }

  predicate IsChipErase(d: Device) {
    d.command == COMMAND_WRITE && d.data[0] == 0 && d.data[1] == 0xFF
  }

  /** The device right after a chip erase. */
  function Erased(p: Part, d: Device): Device
    requires p.Fits(d.chip)
  {
    d.(isSecure := false, chip := d.chip.(flash := Blank(p.bootStart) + d.chip.flash[p.bootStart..], rww := true))
  }

  /** A command processed in secure mode erases the chip, or leaves the memory and the lock alone. */
  lemma SecureCommand(p: Part, d: Device)
    requires p.Fits(d.chip) && d.isSecure && Locked(d)
    ensures IsChipErase(d) ==> ProcessCommand(p, d) == Erased(p, d)
    ensures !IsChipErase(d) ==>
              && ProcessCommand(p, d) == d.(state := ProcessCommand(p, d).state, status := ProcessCommand(p, d).status,
                                            responseByte := ProcessCommand(p, d).responseByte)
              && Locked(ProcessCommand(p, d))
  {
    hide EraseFrom;
    ChipErase(p, d.chip);
  }

  /** Chip erase does not look at the flash it erases; READ and refusals do not look at it at all. */
  lemma CommandIgnoresFlash(p: Part, d: Device, flash: seq<byte>)
    requires p.Fits(d.chip) && d.isSecure && Locked(d) && !IsChipErase(d)
    requires |flash| == |d.chip.flash|
    ensures ProcessCommand(p, WithFlash(d, flash)) == WithFlash(ProcessCommand(p, d), flash)
  {
    hide EraseFrom;
  }

  function WithFlash(d: Device, flash: seq<byte>): Device
    requires |flash| == |d.chip.flash|
  {
    d.(chip := d.chip.(flash := flash))
  }

  /** Two devices that differ at most in application flash, and not even there once unlocked. */
  predicate Alike(p: Part, a: Device, b: Device)
    requires p.Fits(a.chip) && p.Fits(b.chip)
  {
    || a == b
    || (&& a.isSecure
        && |a.chip.flash| == |b.chip.flash|
        && b == WithFlash(a, b.chip.flash)
        && a.chip.flash[p.bootStart..] == b.chip.flash[p.bootStart..])
  }

  /** A DNLOAD in secure mode: at most the command is processed, never a memory transfer. */
  lemma SecureDnload(p: Part, d: Device, packets: seq<Packet>)
    requires p.Fits(d.chip) && d.isSecure && Locked(d)
    ensures Dnload(p, d, packets)
         == if d.dataSize == 0 then (d, Response([], false, true))
            else if packets == [] then (d, Response([], false, false))
            else
              var e := LoadCommand(d, Out(packets[0], packets[1..], false)).0;
              (ProcessCommand(p, e), Response([], Refused(e), true))
    ensures Locked(Dnload(p, d, packets).0)
  {
    hide LoadCommand, ProcessCommand, ReceiveFirmware;
    if d.dataSize != 0 && packets != [] {
      var e := LoadCommand(d, Out(packets[0], packets[1..], false)).0;
      SecureCommand(p, e);
    }
  }

  lemma {:induction false} LoadParamsIgnoresFlash(d: Device, o: Out, i: nat, flash: seq<byte>)
    requires |flash| == |d.chip.flash| && i <= 5
    ensures LoadParams(WithFlash(d, flash), o, i).0 == WithFlash(LoadParams(d, o, i).0, flash)
    decreases 5 - i
  {
    if i < 5 && o.bank != [] {
      var e := d.(data := d.data[i := Peek(o)], dataSize := Decremented(d.dataSize));
      LoadParamsIgnoresFlash(e, Pop(o), i + 1, flash);
    }
  }

  lemma LoadCommandIgnoresFlash(d: Device, o: Out, flash: seq<byte>)
    requires |flash| == |d.chip.flash|
    ensures LoadCommand(WithFlash(d, flash), o).0 == WithFlash(LoadCommand(d, o).0, flash)
  {
    LoadParamsIgnoresFlash(d.(command := Peek(o), dataSize := Decremented(d.dataSize)), Pop(o), 0, flash);
  }

  lemma AlikeDnload(p: Part, a: Device, b: Device, packets: seq<Packet>)
    requires p.Fits(a.chip) && p.Fits(b.chip) && Alike(p, a, b) && a != b && Locked(a)
    ensures Dnload(p, a, packets).1 == Dnload(p, b, packets).1
    ensures Alike(p, Dnload(p, a, packets).0, Dnload(p, b, packets).0)
  {
    hide LoadCommand, ProcessCommand, Dnload;
    SecureDnload(p, a, packets);
    SecureDnload(p, b, packets);
    if a.dataSize != 0 && packets != [] {
      var o := Out(packets[0], packets[1..], false);
      var flash := b.chip.flash;
      LoadCommandIgnoresFlash(a, o, flash);
      var e := LoadCommand(a, o).0;
      SecureCommand(p, e);
      SecureCommand(p, WithFlash(e, flash));
      if !IsChipErase(e) {
        CommandIgnoresFlash(p, e, flash);
      }
    }
  }

  lemma AlikeOther(p: Part, a: Device, b: Device, r: Request)
    requires p.Fits(a.chip) && p.Fits(b.chip) && Alike(p, a, b) && a != b && Locked(a)
    requires r.Foreign? || r.bRequest != REQ_DNLOAD
    ensures Handle(p, a, r).1 == Handle(p, b, r).1
    ensures Alike(p, Handle(p, a, r).0, Handle(p, b, r).0)
    ensures Locked(Handle(p, a, r).0)
  {
    hide Dnload, Upload, IdleUpload, BlankBuffer;
    if r.Class? {
      var a' := a.(dataSize := r.wLength);
      UploadOutsideTransfer(a');
      UploadOutsideTransfer(b.(dataSize := r.wLength));
      IdleUploadIgnoresFlash(a', b.chip.flash);
    }
  }

  lemma UploadOutsideTransfer(d: Device)
    requires d.state != DFU_UPLOAD_IDLE
    ensures Upload(d) == (d, Response([IdleUpload(d)], false, true))
  {
  }

  lemma IdleUploadIgnoresFlash(d: Device, flash: seq<byte>)
    requires |flash| == |d.chip.flash|
    ensures IdleUpload(WithFlash(d, flash)) == IdleUpload(d)
  {
  }

  /** One request: alike devices answer alike and stay alike. */
  lemma AlikeStep(p: Part, a: Device, b: Device, r: Request)
    requires p.Fits(a.chip) && p.Fits(b.chip) && Alike(p, a, b) && a != b && Locked(a)
    ensures Handle(p, a, r).1 == Handle(p, b, r).1
    ensures Alike(p, Handle(p, a, r).0, Handle(p, b, r).0)
    ensures Locked(Handle(p, a, r).0)
  {
    hide Dnload;
    if r.Class? && r.bRequest == REQ_DNLOAD {
      var a' := a.(dataSize := r.wLength);
      var b' := b.(dataSize := r.wLength);
      SecureDnload(p, a', r.packets);
      AlikeDnload(p, a', b', r.packets);
    } else {
      AlikeOther(p, a, b, r);
    }
  }

  /** Secure mode hides the application: two devices that start secure and differ only in application
      flash give the same responses to every sequence of requests. */
  lemma {:induction false} SecureModeHidesFlash(p: Part, a: Device, b: Device, rs: seq<Request>)
    requires p.Fits(a.chip) && p.Fits(b.chip) && Alike(p, a, b) && Locked(a)
    ensures Responses(p, a, rs) == Responses(p, b, rs)
    ensures Alike(p, After(p, a, rs), After(p, b, rs))
    decreases |rs|
  {
    hide Handle;
    if a != b && rs != [] && Running(a) {
      AlikeStep(p, a, b, rs[0]);
      SecureModeHidesFlash(p, Handle(p, a, rs[0]).0, Handle(p, b, rs[0]).0, rs[1..]);
    }
  }

  /** A request in secure mode leaves memory alone, or ends secure mode with all application flash
      blank and everything else as it was. */
  lemma SecureStep(p: Part, d: Device, r: Request)
    requires p.Fits(d.chip) && d.isSecure && Locked(d)
    ensures var e := Handle(p, d, r).0;
            Locked(e) && e.chip == if e.isSecure then d.chip else Erased(p, d).chip
  {
    hide Dnload, ProcessCommand, LoadCommand, UploadFlash, UploadEeprom;
    if r.Class? && r.bRequest == REQ_DNLOAD {
      var e := d.(dataSize := r.wLength);
      SecureDnload(p, e, r.packets);
      if e.dataSize != 0 && r.packets != [] {
        SecureCommand(p, LoadCommand(e, Out(r.packets[0], r.packets[1..], false)).0);
      }
    }
  }

  /** Request `k` of the session is the one that ends secure mode, and it leaves application flash blank. */
  predicate UnlocksBlank(p: Part, d: Device, rs: seq<Request>, k: nat)
    requires p.Fits(d.chip)
  {
    && k < |rs|
    && After(p, d, rs[..k]).isSecure
    && !After(p, d, rs[..k + 1]).isSecure
    && After(p, d, rs[..k + 1]).chip == Erased(p, d).chip
  }

  lemma UnlockLater(p: Part, d: Device, rs: seq<Request>, k: nat)
    requires p.Fits(d.chip) && rs != [] && Running(d)
    requires Handle(p, d, rs[0]).0.chip == d.chip
    requires UnlocksBlank(p, Handle(p, d, rs[0]).0, rs[1..], k)
    ensures UnlocksBlank(p, d, rs, k + 1)
  {
    hide Handle;
    AfterPrefix(p, d, rs, k);
    AfterPrefix(p, d, rs, k + 1);
  }

  lemma UnlockNow(p: Part, d: Device, rs: seq<Request>)
    requires p.Fits(d.chip) && d.isSecure && rs != [] && Running(d)
    requires !Handle(p, d, rs[0]).0.isSecure && Handle(p, d, rs[0]).0.chip == Erased(p, d).chip
    ensures UnlocksBlank(p, d, rs, 0)
  {
    hide Handle;
    AfterPrefix(p, d, rs, 0);
    assert rs[..0] == [];
  }

  /** Nothing sets the secure flag again once it is cleared. */
  lemma {:induction false} StaysUnlocked(p: Part, d: Device, rs: seq<Request>)
    requires p.Fits(d.chip) && !d.isSecure
    ensures !After(p, d, rs).isSecure
    decreases |rs|
  {
    hide Handle;
    if rs != [] && Running(d) {
      if DfuExit.IsDnload(rs[0]) {
        DfuExit.DnloadFlags(p, d, rs[0]);
      } else {
        DfuExit.OtherFlags(p, d, rs[0]);
      }
      StaysUnlocked(p, Handle(p, d, rs[0]).0, rs[1..]);
    }
  }

  /** Secure mode protects the memory: whatever the host sends, flash, EEPROM and page buffer are
      untouched for as long as the device stays secure, and the request that ends secure mode leaves
      every byte of application flash blank and the rest as it was. */
  lemma {:induction false} SecureModeProtectsMemory(p: Part, d: Device, rs: seq<Request>)
    requires p.Fits(d.chip) && d.isSecure && Locked(d)
    ensures After(p, d, rs).isSecure ==> After(p, d, rs).chip == d.chip
    ensures !After(p, d, rs).isSecure ==> exists k :: UnlocksBlank(p, d, rs, k)
    decreases |rs|
  {
    hide Handle, UnlocksBlank, Locked;
    if rs != [] && Running(d) {
      var e := Handle(p, d, rs[0]).0;
      SecureStep(p, d, rs[0]);
      if e.isSecure {
        SecureModeProtectsMemory(p, e, rs[1..]);
        if !After(p, e, rs[1..]).isSecure {
          var k: nat :| UnlocksBlank(p, e, rs[1..], k);
          UnlockLater(p, d, rs, k);
        }
      } else {
        StaysUnlocked(p, e, rs[1..]);
        UnlockNow(p, d, rs);
      }
    }
  }

  lemma AfterPrefix(p: Part, d: Device, rs: seq<Request>, k: nat)
    requires p.Fits(d.chip) && k < |rs| && Running(d)
    ensures After(p, d, rs[..k + 1]) == After(p, Handle(p, d, rs[0]).0, rs[1..][..k])
  {
    assert rs[..k + 1][1..] == rs[1..][..k];
  }

  /** In particular from power-up: two chips that differ only in application flash cannot be told apart. */
  lemma SecureFromPowerUp(p: Part, c: Chip, flash: seq<byte>, rs: seq<Request>)
    requires p.Fits(c) && BlankBuffer(c)
    requires |flash| == |c.flash| && flash[p.bootStart..] == c.flash[p.bootStart..]
    ensures Responses(p, PowerUp(true, c), rs) == Responses(p, PowerUp(true, c.(flash := flash)), rs)
  {
    hide Responses, After;
    SecureModeHidesFlash(p, PowerUp(true, c), PowerUp(true, c.(flash := flash)), rs);
  }
}
