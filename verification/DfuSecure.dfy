/** The DFU chip erase and the blank check. */
module DfuSecure {
  import opened Avr
  import opened Pages
  import opened Dfu

  // ---- Chip erase ----

  /** The chip erase leaves all application flash blank exactly when it starts with a blank page
      buffer: anything left in the buffer is committed to the first page. */
  lemma ChipEraseExact(p: Part, c: Chip)
    requires p.Fits(c) && 0 < p.bootStart
    ensures EraseFrom(c, 0, p.bootStart).flash[..p.bootStart] == Blank(p.bootStart) <==> BlankBuffer(c)
  {
    hide EraseFrom;
    EraseKeepsBuffer(c, p.bootStart);
    var r := EraseFrom(c, 0, p.bootStart).flash[..p.bootStart];
    assert r == c.buffer + Blank(p.bootStart - |c.buffer|);
    if r == Blank(p.bootStart) {
      assert c.buffer == r[..|c.buffer|];
    }
    if BlankBuffer(c) {
      assert r == Blank(p.bootStart);
    }
  }

  /** The whole chip after an erase that starts with a blank buffer. */
  lemma ChipErase(p: Part, c: Chip)
    requires p.Fits(c) && BlankBuffer(c)
    ensures RwwEnable(EraseFrom(c, 0, p.bootStart))
         == c.(flash := Blank(p.bootStart) + c.flash[p.bootStart..], rww := true)
  {
    EraseFromBlankBuffer(c, 0, p.bootStart);
  }

  // ---- Blank check ----

  lemma BlankCheckKeepsChip(p: Part, d: Device)
    ensures BlankCheck(p, d).chip == d.chip
  {
  }

  /** The search stops at the least address that does not read as blank, and reaches the limit only
      if there is none. */
  lemma {:induction false} FirstNonBlankIsLeast(c: Chip, from: nat, limit: nat)
    requires from <= limit
    ensures var a := FirstNonBlank(c, from, limit);
            && from <= a <= limit
            && (a < limit ==> ReadFlash(c, a) != BLANK)
            && forall i :: from <= i < a ==> ReadFlash(c, i) == BLANK
    decreases limit - from
  {
    if from < limit && ReadFlash(c, from) == BLANK {
      FirstNonBlankIsLeast(c, from + 1, limit);
    }
  }

  /** A cell that is not blank, in a section that is not locked out. */
  predicate NonBlankAt(c: Chip, a: nat) {
    c.rww && a < |c.flash| && c.flash[a] != BLANK
  }

  lemma ReadsBelowBoot(p: Part, c: Chip, a: nat)
    requires p.Fits(c) && a < p.bootStart
    ensures ReadFlash(c, a) != BLANK <==> NonBlankAt(c, a)
  {
    SmallMod(a, |c.flash|);
  }

  /** Blank check on any flash: nothing changes when all of the application section is blank;
      otherwise the error state is raised, and the page number and start address spell the least
      non-blank address. */
  lemma BlankCheckExact(p: Part, d: Device)
    requires p.Fits(d.chip) && p.bootStart <= 0x100_0000
    ensures (forall a :: 0 <= a < p.bootStart ==> !NonBlankAt(d.chip, a)) ==> BlankCheck(p, d) == d
    ensures forall a :: 0 <= a < p.bootStart && NonBlankAt(d.chip, a) ==>
              var e := BlankCheck(p, d);
              && e == d.(state := DFU_ERROR, status := ERR_CHECK_ERASED,
                         flash64KBPage := e.flash64KBPage, startAddr := e.startAddr)
              && NonBlankAt(d.chip, FlashAddress(e)) && FlashAddress(e) <= a
  {
    hide ReadFlash, FirstNonBlank;
    FirstNonBlankIsLeast(d.chip, 0, p.bootStart);
    var f := FirstNonBlank(d.chip, 0, p.bootStart);
    forall a | 0 <= a < p.bootStart
      ensures ReadFlash(d.chip, a) != BLANK <==> NonBlankAt(d.chip, a)
    {
      ReadsBelowBoot(p, d.chip, a);
    }
    if f < p.bootStart {
      assert f / 0x1_0000 < 0x100;
      assert FlashAddress(BlankCheck(p, d)) == f;
    }
  }

  /** A chip erase followed by a blank check reports nothing. */
  lemma EraseThenBlankCheck(p: Part, d: Device)
    requires p.Fits(d.chip) && BlankBuffer(d.chip) && p.bootStart <= 0x100_0000
    requires d.data[0] == 0 && d.data[1] == 0xFF
    ensures BlankCheck(p, ProcessWrite(p, d)) == ProcessWrite(p, d)
  {
    hide EraseFrom, BlankCheck;
    ChipErase(p, d.chip);
    var e := ProcessWrite(p, d);
    assert e.chip.flash == Blank(p.bootStart) + d.chip.flash[p.bootStart..];
    BlankCheckExact(p, e);
  }
}
