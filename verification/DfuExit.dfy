/** How the DFU bootloader's main loop can end. */
module DfuExit {
  import opened Avr
  import opened Endpoint
  import opened Pages
  import opened Dfu

  predicate IsDnload(r: Request) {
    r.Class? && r.bRequest == REQ_DNLOAD
  }

  /** Start Application, accepted. */
  predicate IsStart(d: Device) {
    !d.isSecure && d.command == COMMAND_WRITE && d.data[0] == 3
  }

  /** Start Application by a jump: nonzero mode byte, no data left. */
  predicate IsJump(d: Device) {
    IsStart(d) && d.data[1] != 0 && d.dataSize == 0
  }

  /** The device as it stands when a DNLOAD's own command has been loaded, if it carries one. */
  function Loaded(p: Part, d: Device, r: Request): Device
    requires p.Fits(d.chip) && IsDnload(r)
  {
    var e := FinishExit(p, d.(dataSize := r.wLength));
    if e.dataSize == 0 || r.packets == [] then e else LoadCommand(e, Out(r.packets[0], r.packets[1..], false)).0
  }

  predicate CarriesCommand(p: Part, d: Device, r: Request)
    requires p.Fits(d.chip) && IsDnload(r)
  {
    FinishExit(p, d.(dataSize := r.wLength)).dataSize != 0 && r.packets != []
  }

  /** Handling `r` processes a jump: the pending command run again, or the one the request carries. */
  predicate ProcessesJump(p: Part, d: Device, r: Request)
    requires p.Fits(d.chip)
  {
    IsDnload(r) &&
    (|| (d.waitForExit && IsJump(d.(dataSize := r.wLength)))
     || (CarriesCommand(p, d, r) && IsJump(Loaded(p, d, r))))
  }

  /** `r` carries a Start Application command of any mode. */
  predicate CarriesStart(p: Part, d: Device, r: Request)
    requires p.Fits(d.chip)
  {
    IsDnload(r) && CarriesCommand(p, d, r) && IsStart(Loaded(p, d, r))
  }

  /** Only Start Application touches the two flags. */
  lemma CommandFlags(p: Part, d: Device)
    requires p.Fits(d.chip)
    ensures var e := ProcessCommand(p, d);
            && (e.runBootloader <==> d.runBootloader && !IsJump(d))
            && (e.waitForExit <==> d.waitForExit || IsStart(d))
            && (e.isSecure ==> d.isSecure)
  {
    hide EraseFrom, BlankCheck;
    assert BlankCheck(p, d).runBootloader == d.runBootloader by { BlankCheckFlags(p, d); }
    BlankCheckFlags(p, d);
  }

  lemma BlankCheckFlags(p: Part, d: Device)
    ensures var e := BlankCheck(p, d);
            e.runBootloader == d.runBootloader && e.waitForExit == d.waitForExit && e.isSecure == d.isSecure
  {
  }

  lemma BodyFlags(d: Device, o: Out)
    ensures var e := DnloadBody(d, o).0;
            e.runBootloader == d.runBootloader && e.waitForExit == d.waitForExit && e.isSecure == d.isSecure
  {
    hide Discard, ProgramWords, ProgramBytes;
  }

  /** The exact effect of a request on the flags that keep main's loop going. */
  lemma DnloadFlags(p: Part, d: Device, r: Request)
    requires p.Fits(d.chip) && IsDnload(r)
    ensures var e := Handle(p, d, r).0;
            && (e.runBootloader <==> d.runBootloader && !ProcessesJump(p, d, r))
            && (e.waitForExit <==> CarriesStart(p, d, r))
            && (e.isSecure ==> d.isSecure)
  {
    hide ProcessCommand, LoadCommand, DnloadBody;
    var d0 := d.(dataSize := r.wLength);
    CommandFlags(p, d0);
    var d1 := FinishExit(p, d0);
    if d1.dataSize == 0 {
      BodyFlags(d1, Out([], r.packets, false));
    } else if r.packets != [] {
      var (d2, o2) := LoadCommand(d1, Out(r.packets[0], r.packets[1..], false));
      CommandFlags(p, d2);
      BodyFlags(ProcessCommand(p, d2), o2);
    }
  }

  lemma OtherFlags(p: Part, d: Device, r: Request)
    requires p.Fits(d.chip) && !IsDnload(r)
    ensures var e := Handle(p, d, r).0;
            e.runBootloader == d.runBootloader && e.waitForExit == d.waitForExit && e.isSecure == d.isSecure
  {
    hide Dnload, Upload, Part.Fits;
    if r.Class? && r.bRequest == REQ_UPLOAD {
      UploadFlags(d.(dataSize := r.wLength));
    }
  }

  lemma UploadFlags(d: Device)
    ensures var e := Upload(d).0;
            e.runBootloader == d.runBootloader && e.waitForExit == d.waitForExit && e.isSecure == d.isSecure
  {
    hide UploadFlash, UploadEeprom;
  }

  /** One request leaves main's loop exactly when it is a DNLOAD that carries no Start Application,
      arrives while an exit is pending, and finds or makes the bootloader stopped. */
  lemma ExitStep(p: Part, d: Device, r: Request)
    requires p.Fits(d.chip) && Running(d)
    ensures !Running(Handle(p, d, r).0) <==>
              && IsDnload(r) && d.waitForExit && !CarriesStart(p, d, r)
              && (!d.runBootloader || ProcessesJump(p, d, r))
  {
    hide Handle;
    if IsDnload(r) {
      DnloadFlags(p, d, r);
    } else {
      OtherFlags(p, d, r);
    }
  }

  // ---- Over whole sessions ----

  lemma {:induction false} AfterSnoc(p: Part, d: Device, rs: seq<Request>, r: Request)
    requires p.Fits(d.chip)
    ensures After(p, d, rs + [r])
         == if Running(After(p, d, rs)) then Handle(p, After(p, d, rs), r).0 else After(p, d, rs)
    decreases |rs|
  {
    hide Handle;
    if rs == [] {
      assert ([r] + [])[1..] == [];
      assert rs + [r] == [r];
      if Running(d) {
        assert After(p, d, [r]) == After(p, Handle(p, d, r).0, []);
      }
    } else if Running(d) {
      assert (rs + [r])[1..] == rs[1..] + [r];
      AfterSnoc(p, Handle(p, d, rs[0]).0, rs[1..], r);
    }
  }

  /** The state before request `i` of a session. */
  function Before(p: Part, d: Device, rs: seq<Request>, i: nat): Device
    requires p.Fits(d.chip) && i <= |rs|
  {
    After(p, d, rs[..i])
  }

  predicate StartAt(p: Part, d: Device, rs: seq<Request>, i: nat)
    requires p.Fits(d.chip)
  {
    i < |rs| && CarriesStart(p, Before(p, d, rs, i), rs[i])
  }

  predicate JumpAt(p: Part, d: Device, rs: seq<Request>, i: nat)
    requires p.Fits(d.chip)
  {
    i < |rs| && ProcessesJump(p, Before(p, d, rs, i), rs[i])
  }

  /** A DNLOAD that arrives while an exit is pending. */
  predicate HandshakeAt(p: Part, d: Device, rs: seq<Request>, i: nat)
    requires p.Fits(d.chip)
  {
    i < |rs| && IsDnload(rs[i]) && Before(p, d, rs, i).waitForExit
  }

  /** In a session from power-up, an exit is pending only after a Start Application, and the
      bootloader is stopped only after a jump was processed; neither in secure mode. */
  lemma {:induction false} FlagsHaveCauses(p: Part, secure: bool, c: Chip, rs: seq<Request>)
    requires p.Fits(c)
    ensures var d := PowerUp(secure, c);
            var e := After(p, d, rs);
            && (e.waitForExit ==> exists i :: StartAt(p, d, rs, i))
            && (!e.runBootloader ==> exists k :: JumpAt(p, d, rs, k))
            && (e.isSecure ==> e.runBootloader && !e.waitForExit)
    decreases |rs|
  {
    hide Handle, CarriesStart, ProcessesJump;
    var d := PowerUp(secure, c);
    if rs != [] {
      var n := |rs| - 1;
      var init, r := rs[..n], rs[n];
      FlagsHaveCauses(p, secure, c, init);
      CausesExtend(p, d, init, r);
      assert rs == init + [r];
      AfterSnoc(p, d, init, r);
      var m := After(p, d, init);
      if Running(m) {
        if IsDnload(r) {
          DnloadFlags(p, m, r);
          assert rs[..n] == init;
          if CarriesStart(p, m, r) { assert StartAt(p, d, rs, n); }
          if ProcessesJump(p, m, r) { assert JumpAt(p, d, rs, n); }
          SecureNeverStarts(p, m, r);
        } else {
          OtherFlags(p, m, r);
        }
      }
    }
  }

  lemma SecureNeverStarts(p: Part, d: Device, r: Request)
    requires p.Fits(d.chip) && IsDnload(r)
    ensures Handle(p, d, r).0.isSecure && !d.waitForExit ==> !CarriesStart(p, d, r) && !ProcessesJump(p, d, r)
  {
    hide ProcessCommand, LoadCommand, DnloadBody;
    var d0 := d.(dataSize := r.wLength);
    var d1 := FinishExit(p, d0);
    if d1.dataSize != 0 && r.packets != [] {
      var (d2, o2) := LoadCommand(d1, Out(r.packets[0], r.packets[1..], false));
      CommandFlags(p, d2);
      BodyFlags(ProcessCommand(p, d2), o2);
    }
  }

  /** Events of a session are events of every longer session. */
  lemma CausesExtend(p: Part, d: Device, rs: seq<Request>, r: Request)
    requires p.Fits(d.chip)
    ensures forall i: nat :: StartAt(p, d, rs, i) ==> StartAt(p, d, rs + [r], i)
    ensures forall i: nat :: JumpAt(p, d, rs, i) ==> JumpAt(p, d, rs + [r], i)
    ensures forall i: nat :: HandshakeAt(p, d, rs, i) ==> HandshakeAt(p, d, rs + [r], i)
  {
    hide After, CarriesStart, ProcessesJump;
    forall i: nat | i < |rs|
      ensures Before(p, d, rs + [r], i) == Before(p, d, rs, i) && (rs + [r])[i] == rs[i]
    {
      assert (rs + [r])[..i] == rs[..i];
    }
  }

  /** The three events of an exit, in the session: a Start Application, a later DNLOAD while it is
      pending, and a jump no later than that DNLOAD. */
  ghost predicate Handshake(p: Part, d: Device, rs: seq<Request>)
    requires p.Fits(d.chip)
  {
    exists i: nat, j: nat, k: nat ::
      i < j && k <= j && StartAt(p, d, rs, i) && HandshakeAt(p, d, rs, j) && JumpAt(p, d, rs, k)
  }

  lemma HandshakeExtends(p: Part, d: Device, rs: seq<Request>, r: Request)
    requires p.Fits(d.chip) && Handshake(p, d, rs)
    ensures Handshake(p, d, rs + [r])
  {
    hide StartAt, HandshakeAt, JumpAt;
    CausesExtend(p, d, rs, r);
    var i: nat, j: nat, k: nat :| i < j && k <= j &&
      StartAt(p, d, rs, i) && HandshakeAt(p, d, rs, j) && JumpAt(p, d, rs, k);
    assert StartAt(p, d, rs + [r], i) && HandshakeAt(p, d, rs + [r], j) && JumpAt(p, d, rs + [r], k);
  }

  /** The exit handshake: main's loop is left only in sessions where a Start Application command came
      in, a later DNLOAD arrived while that exit was pending, and a jump was processed no later than
      that DNLOAD; so never within the first request, and never in secure mode. */
  lemma {:induction false} ExitNeedsHandshake(p: Part, secure: bool, c: Chip, rs: seq<Request>)
    requires p.Fits(c)
    ensures var d := PowerUp(secure, c);
            !Running(After(p, d, rs)) ==> !After(p, d, rs).isSecure && Handshake(p, d, rs)
    decreases |rs|
  {
    hide Handle, CarriesStart, ProcessesJump, Handshake;
    var d := PowerUp(secure, c);
    if !Running(After(p, d, rs)) {
      FlagsHaveCauses(p, secure, c, rs);
      assert rs != [];
      var n := |rs| - 1;
      var init, r := rs[..n], rs[n];
      assert rs == init + [r];
      AfterSnoc(p, d, init, r);
      if !Running(After(p, d, init)) {
        ExitNeedsHandshake(p, secure, c, init);
        HandshakeExtends(p, d, init, r);
      } else {
        LastHandshake(p, secure, c, init, r);
      }
    }
  }

  lemma LastHandshake(p: Part, secure: bool, c: Chip, init: seq<Request>, r: Request)
    requires p.Fits(c)
    requires var d := PowerUp(secure, c); Running(After(p, d, init)) && !Running(After(p, d, init + [r]))
    ensures Handshake(p, PowerUp(secure, c), init + [r])
  {
    hide Handle, CarriesStart, ProcessesJump;
    var d, rs, n := PowerUp(secure, c), init + [r], |init|;
    AfterSnoc(p, d, init, r);
    ExitStep(p, After(p, d, init), r);
    FlagsHaveCauses(p, secure, c, init);
    FlagsHaveCauses(p, secure, c, rs);
    CausesExtend(p, d, init, r);
    assert rs[..n] == init;
    var i: nat :| StartAt(p, d, init, i);
    var k: nat :| JumpAt(p, d, rs, k);
    assert StartAt(p, d, rs, i) && HandshakeAt(p, d, rs, n);
  }

  /** The shortest exit: Start Application by a jump, then an empty DNLOAD. */
  const START_BY_JUMP := Class(REQ_DNLOAD, 3, [[COMMAND_WRITE, 3, 1]])
  const EMPTY_DNLOAD := Class(REQ_DNLOAD, 0, [])

  /** From power-up without secure mode these two requests leave main's loop, and the first alone does not. */
  lemma ShortestExit(p: Part, c: Chip)
    requires p.Fits(c)
    ensures var d := PowerUp(false, c);
            Running(After(p, d, [START_BY_JUMP])) && !Running(After(p, d, [START_BY_JUMP, EMPTY_DNLOAD]))
  {
    hide Handle, After, CarriesStart, ProcessesJump;
    var d := PowerUp(false, c);
    AfterSnoc(p, d, [], START_BY_JUMP);
    AfterSnoc(p, d, [START_BY_JUMP], EMPTY_DNLOAD);
    assert [] + [START_BY_JUMP] == [START_BY_JUMP] && [START_BY_JUMP] + [EMPTY_DNLOAD] == [START_BY_JUMP, EMPTY_DNLOAD];
    NoRequests(p, d);
    JumpIsCarried(p, d);
    DnloadFlags(p, d, START_BY_JUMP);
    var e := Handle(p, d, START_BY_JUMP).0;
    CarriesNothing(p, e);
    ExitStep(p, e, EMPTY_DNLOAD);
  }

  lemma NoRequests(p: Part, d: Device)
    requires p.Fits(d.chip)
    ensures After(p, d, []) == d
  {
  }

  lemma JumpIsCarried(p: Part, d: Device)
    requires p.Fits(d.chip) && !d.isSecure && !d.waitForExit
    ensures CarriesStart(p, d, START_BY_JUMP) && ProcessesJump(p, d, START_BY_JUMP)
  {
    hide ProcessCommand, LoadParams;
    var e := d.(dataSize := 3);
    var o := Out([COMMAND_WRITE, 3, 1], [], false);
    assert Pop(o).bank == [3, 1];
    var f := e.(command := COMMAND_WRITE, dataSize := 2);
    TwoParams(f, Pop(o));
    assert START_BY_JUMP.packets[0] == o.bank && START_BY_JUMP.packets[1..] == [];
  }

  lemma TwoParams(d: Device, o: Out)
    requires o.bank == [3, 1] && d.dataSize == 2
    ensures var e := LoadParams(d, o, 0).0; e.data[0] == 3 && e.data[1] == 1 && e.dataSize == 0
  {
    var d1 := d.(data := d.data[0 := 3], dataSize := 1);
    var d2 := d1.(data := d1.data[1 := 1], dataSize := 0);
    assert Pop(o).bank == [1] && Pop(Pop(o)).bank == [];
    assert LoadParams(d, o, 0) == LoadParams(d1, Pop(o), 1);
    assert LoadParams(d1, Pop(o), 1) == LoadParams(d2, Pop(Pop(o)), 2);
    assert LoadParams(d2, Pop(Pop(o)), 2) == (d2, Pop(Pop(o)));
  }

  lemma CarriesNothing(p: Part, d: Device)
    requires p.Fits(d.chip)
    ensures !CarriesStart(p, d, EMPTY_DNLOAD)
  {
  }
}
