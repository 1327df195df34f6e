/** Whole pages: what erasing, filling and committing them comes to at page boundaries. */
module Pages {
  import opened Avr

  /** Erases and commits every page from `from` up to `limit`. */
  function EraseFrom(c: Chip, from: nat, limit: nat): (r: Chip)
    ensures |r.flash| == |c.flash| && |r.buffer| == |c.buffer| && r.eeprom == c.eeprom
    decreases limit - from
  {
    if from >= limit then c
    else EraseFrom(PageWrite(PageErase(c, from), from), from + |c.buffer|, limit)
  }

  predicate BlankBuffer(c: Chip) {
    c.buffer == Blank(|c.buffer|)
  }

  predicate Aligned(c: Chip, addr: nat) {
    addr % |c.buffer| == 0
  }

  /** Page arithmetic on plain numbers. */
  lemma PageNumbers(addr: nat, limit: nat, page: nat)
    requires page == 128 || page == 256
    requires addr % page == 0 && limit % page == 0 && addr < limit
    ensures addr + page <= limit && (addr + page) % page == 0
  {
    if page == 128 {
    } else {
    }
  }

  lemma AlignedPageStart(c: Chip, addr: nat)
    requires Aligned(c, addr) && addr < |c.flash|
    ensures PageStart(c, addr) == addr && addr + |c.buffer| <= |c.flash|
  {
    PageNumbers(addr, |c.flash|, |c.buffer|);
    SmallMod(addr, |c.flash|);
  }

  /** One step of the erase loop: the page ends up holding whatever was in the temporary buffer. */
  lemma ErasePage(c: Chip, addr: nat)
    requires Aligned(c, addr) && addr < |c.flash|
    ensures addr + |c.buffer| <= |c.flash|
    ensures PageWrite(PageErase(c, addr), addr)
         == c.(flash := Splice(c.flash, addr, c.buffer), buffer := Blank(|c.buffer|), rww := false)
  {
    AlignedPageStart(c, addr);
    EraseThenWrite(c, addr, c.buffer);
    assert PageErase(c, addr).(buffer := c.buffer) == PageErase(c, addr);
  }

  lemma {:induction false} EraseFromBlankBuffer(c: Chip, from: nat, limit: nat)
    requires BlankBuffer(c) && Aligned(c, from) && Aligned(c, limit) && from <= limit <= |c.flash|
    ensures EraseFrom(c, from, limit).flash == c.flash[..from] + Blank(limit - from) + c.flash[limit..]
    ensures BlankBuffer(EraseFrom(c, from, limit))
    decreases limit - from
  {
    hide PageErase, PageWrite;
    if from < limit {
      ErasePage(c, from);
      PageNumbers(from, limit, |c.buffer|);
      var next := PageWrite(PageErase(c, from), from);
      EraseFromBlankBuffer(next, from + |c.buffer|, limit);
    }
  }

  lemma FirstSplice(flash: seq<byte>, page: seq<byte>, limit: nat)
    requires |page| <= limit <= |flash|
    ensures Splice(flash, 0, page)[..|page|] == page && Splice(flash, 0, page)[limit..] == flash[limit..]
  {
  }

  /** Erasing from the start commits whatever was in the page buffer to the first page. */
  lemma EraseKeepsBuffer(c: Chip, limit: nat)
    requires Aligned(c, limit) && 0 < limit <= |c.flash|
    ensures |c.buffer| <= limit
    ensures EraseFrom(c, 0, limit).flash == c.buffer + Blank(limit - |c.buffer|) + c.flash[limit..]
    ensures BlankBuffer(EraseFrom(c, 0, limit))
  {
    hide PageErase, PageWrite, Splice, EraseFrom;
    ErasePage(c, 0);
    PageNumbers(0, limit, |c.buffer|);
    var next := PageWrite(PageErase(c, 0), 0);
    EraseFirst(c, limit);
    EraseFromBlankBuffer(next, |c.buffer|, limit);
    FirstSplice(c.flash, c.buffer, limit);
  }

  lemma EraseFirst(c: Chip, limit: nat)
    requires 0 < limit
    ensures EraseFrom(c, 0, limit) == EraseFrom(PageWrite(PageErase(c, 0), 0), |c.buffer|, limit)
  {
    hide PageErase, PageWrite;
  }
}
