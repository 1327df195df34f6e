/** The DFU flash programming loop, from any start address and for any cutting of the data into packets:
    what it leaves in every page. */
module DfuFlashLoop {
  import opened Avr
  import opened Endpoint
  import opened Pages
  import opened PageTurn
  import opened Dfu

  // ---- What the loop leaves in flash ----

  /** A page-aligned place for `n` bytes. */
  predicate Room(flash: seq<byte>, from: nat, n: nat, page: nat) {
    && (page == 128 || page == 256)
    && from % page == 0 && |flash| % page == 0 && from + n <= |flash|
  }

  /** `bytes` over the beginning of a page. */
  function Padded(bytes: seq<byte>, pad: seq<byte>): (r: seq<byte>)
    requires |bytes| <= |pad|
    ensures |r| == |pad|
  {
    bytes + pad[|bytes|..]
  }

  /** Flash after the loop wrote `bytes` starting at offset `off` of the page at `from`: the loop counts a
      page's worth of words from wherever it starts, while the page buffer wraps at the page's end. What the
      bytes leave of their last page is blank, but for a first page: there it is `pad`, what the buffer held. */
  function Programmed(flash: seq<byte>, from: nat, bytes: seq<byte>, off: nat, pad: seq<byte>): (r: seq<byte>)
    requires Room(flash, from, |bytes|, |pad|) && from < |flash| && off < |pad|
    ensures |r| == |flash|
    decreases |bytes|
  {
    var page := |pad|;
    PageNumbers(from, |flash|, page);
    if |bytes| <= page then Splice(flash, from, Turned(Padded(bytes, pad), off))
    else Programmed(Splice(flash, from, Turned(bytes[..page], off)), from + page, bytes[page..], off, Blank(page))
  }

  lemma SpliceTwice(flash: seq<byte>, from: nat, x: seq<byte>, y: seq<byte>)
    requires |x| == |y| && from + |x| <= |flash|
    ensures Splice(Splice(flash, from, x), from, y) == Splice(flash, from, y)
  {
  }

  /** Erasing the first page beforehand makes no difference. */
  lemma ProgrammedOverErased(flash: seq<byte>, from: nat, bytes: seq<byte>, off: nat, pad: seq<byte>)
    requires Room(flash, from, |bytes|, |pad|) && from < |flash| && off < |pad|
    ensures from + |pad| <= |flash|
    ensures Programmed(Splice(flash, from, Blank(|pad|)), from, bytes, off, pad)
         == Programmed(flash, from, bytes, off, pad)
  {
    hide Splice;
    var page := |pad|;
    PageNumbers(from, |flash|, page);
    if |bytes| <= page {
      SpliceTwice(flash, from, Blank(page), Turned(Padded(bytes, pad), off));
    } else {
      SpliceTwice(flash, from, Blank(page), Turned(bytes[..page], off));
    }
  }

  // ---- The word loop ----

  /** What holds at the top of the loop: the page at `from` is erased, the buffer holds the words so far over
      what it held before, turned by the offset of the start address, and the remaining words will come. */
  predicate Filling(j: FlashJob, from: nat, off: nat, filled: seq<byte>, pad: seq<byte>) {
    var page := |j.chip.buffer|;
    && Room(j.chip.flash, from, |filled| + 2 * j.left, page) && from + page <= |j.chip.flash|
    && off < page == |pad| && j.page == from + off
    && |filled| == 2 * j.inPage < page && j.addr == j.page + |filled|
    && j.chip.buffer == Turned(Padded(filled, pad), Even(off))
    && j.chip.flash[from..from + page] == Blank(page)
    && HasWords(j.out, j.left)
  }

  /** All bytes for the current page and the ones after it. */
  function Pending(j: FlashJob, filled: seq<byte>): seq<byte> {
    filled + TakeWords(j.out, j.left)
  }

  /** The word the next turn of the loop reads. */
  function NextWord(j: FlashJob): (w: seq<byte>)
    ensures |w| == 2
  {
    var o := Ready(j.out);
    [Peek(o), Peek(Pop(o))]
  }

  function Step(j: FlashJob): (r: FlashJob)
    requires 0 < j.left
    ensures r.left == j.left - 1
  {
    ProgramWord(j.(out := Ready(j.out)))
  }

  /** One word moves from the endpoint to its slot in the buffer. */
  lemma FillStep(j: FlashJob, from: nat, off: nat, filled: seq<byte>, pad: seq<byte>)
    requires Filling(j, from, off, filled, pad) && 0 < j.left
    ensures var o := Ready(j.out);
            && !o.detached && HasWords(Pop(Pop(o)), j.left - 1)
            && TakeWords(j.out, j.left) == NextWord(j) + TakeWords(Pop(Pop(o)), j.left - 1)
            && |filled| + 2 <= |pad|
            && PageFill(j.chip, j.addr, Peek(o), Peek(Pop(o)))
            == j.chip.(buffer := Turned(Padded(filled + NextWord(j), pad), Even(off)))
  {
    hide Turned, Ready, Peek, Pop, Room, PageFill, Even;
    var o := Ready(j.out);
    var lo: byte, hi: byte := Peek(o), Peek(Pop(o));
    AlignedRoom(j, from, off, filled, pad);
    var x: seq<byte> := Padded(filled, pad);
    FillTurned(j.chip, from, off, x, |filled|, lo, hi);
    assert x[|filled| := lo][|filled| + 1 := hi] == Padded(filled + [lo, hi], pad);
  }

  lemma AlignedRoom(j: FlashJob, from: nat, off: nat, filled: seq<byte>, pad: seq<byte>)
    requires Filling(j, from, off, filled, pad)
    ensures from % |j.chip.buffer| == 0 && |j.chip.buffer| % 2 == 0
    ensures |filled| % 2 == 0 && |filled| + 2 <= |j.chip.buffer|
  {
  }

  lemma WithinPage(j: FlashJob, from: nat, off: nat, filled: seq<byte>, pad: seq<byte>)
    requires Filling(j, from, off, filled, pad) && 1 < j.left && |filled| + 2 < |j.chip.buffer|
    ensures var filled' := filled + NextWord(j);
            && Filling(Step(j), from, off, filled', pad) && Pending(Step(j), filled') == Pending(j, filled)
            && Step(j).chip.flash == j.chip.flash && |Step(j).chip.buffer| == |j.chip.buffer|
  {
    hide PageFill, PageWrite, PageErase, Turned, Padded, Room, TakeWords, HasWords, NextWord, Even;
    FillStep(j, from, off, filled, pad);
    assert Step(j).chip == j.chip.(buffer := Turned(Padded(filled + NextWord(j), pad), Even(off)));
  }

  /** A commit to a page that was erased for it; any address of the page will do. */
  lemma CommitAt(c: Chip, from: nat, off: nat)
    requires Aligned(c, from) && from + |c.buffer| <= |c.flash| && off < |c.buffer|
    requires c.flash[from..from + |c.buffer|] == Blank(|c.buffer|)
    ensures PageWrite(c, from + off)
         == c.(flash := Splice(c.flash, from, c.buffer), buffer := Blank(|c.buffer|), rww := false)
  {
    StartWithin(c, from, off);
    assert BurnAll(Blank(|c.buffer|), c.buffer) == c.buffer;
  }

  lemma StartWithin(c: Chip, from: nat, off: nat)
    requires Aligned(c, from) && from + |c.buffer| <= |c.flash| && off < |c.buffer|
    ensures PageStart(c, from + off) == from
  {
    SmallMod(from + off, |c.flash|);
    PageOffset(from, off, |c.buffer|);
  }

  lemma EraseAt(c: Chip, from: nat, off: nat)
    requires Aligned(c, from) && from + |c.buffer| <= |c.flash| && off < |c.buffer|
    ensures PageErase(c, from + off) == c.(flash := Splice(c.flash, from, Blank(|c.buffer|)), rww := false)
  {
    StartWithin(c, from, off);
  }

  /** The last word commits the page. */
  lemma LastWord(j: FlashJob, from: nat, off: nat, filled: seq<byte>, pad: seq<byte>)
    requires Filling(j, from, off, filled, pad) && j.left == 1
    ensures |Pending(j, filled)| <= |j.chip.buffer|
    ensures Step(j).chip.flash == Programmed(j.chip.flash, from, Pending(j, filled), Even(off), pad)
    ensures BlankBuffer(Step(j).chip)
  {
    hide PageFill, PageWrite, PageErase, Turned, Padded, Splice, NextWord, Even;
    FillStep(j, from, off, filled, pad);
    var o := Ready(j.out);
    assert TakeWords(Pop(Pop(o)), 0) == [];
    assert Pending(j, filled) == filled + NextWord(j);
    CommitAt(PageFill(j.chip, j.addr, Peek(o), Peek(Pop(o))), from, off);
  }

  /** A full page is committed, and the next one erased before its first word. */
  lemma PageBreak(j: FlashJob, from: nat, off: nat, filled: seq<byte>, pad: seq<byte>)
    requires Filling(j, from, off, filled, pad) && 1 < j.left && |filled| + 2 == |j.chip.buffer|
    ensures var page := |j.chip.buffer|;
            var head := filled + NextWord(j);
            && from + 2 * page <= |j.chip.flash|
            && Step(j).chip == j.chip.(flash := Splice(Splice(j.chip.flash, from, Turned(head, Even(off))),
                                                     from + page, Blank(page)),
                                       buffer := Blank(page), rww := false)
            && Step(j).inPage == 0 && Step(j).addr == Step(j).page == from + page + off
            && HasWords(Step(j).out, j.left - 1)
            && TakeWords(j.out, j.left) == NextWord(j) + TakeWords(Step(j).out, j.left - 1)
  {
    hide PageFill, PageWrite, PageErase, Turned, Splice, TakeWords, HasWords, NextWord, Even;
    FillStep(j, from, off, filled, pad);
    var page := |j.chip.buffer|;
    var o := Ready(j.out);
    var head := filled + NextWord(j);
    assert Padded(head, pad) == head;
    var c := PageFill(j.chip, j.addr, Peek(o), Peek(Pop(o)));
    CommitAt(c, from, off);
    PageNumbers(from, |c.flash|, page);
    PageNumbers(from + page, |c.flash|, page);
    EraseAt(PageWrite(c, from + off), from + page, off);
  }

  lemma PageBreakFilling(j: FlashJob, from: nat, off: nat, filled: seq<byte>, pad: seq<byte>)
    requires Filling(j, from, off, filled, pad) && 1 < j.left && |filled| + 2 == |j.chip.buffer|
    ensures Filling(Step(j), from + |j.chip.buffer|, off, [], Blank(|j.chip.buffer|))
    ensures Pending(j, filled) == (filled + NextWord(j)) + Pending(Step(j), [])
  {
    hide Step, TakeWords, HasWords, NextWord, Even;
    PageBreak(j, from, off, filled, pad);
    var page := |j.chip.buffer|;
    PageNumbers(from, |j.chip.flash|, page);
    BlankTurned(page, Even(off));
    assert Padded([], Blank(page)) == Blank(page);
  }

  lemma TakesWord(j: FlashJob, from: nat, off: nat, filled: seq<byte>, pad: seq<byte>)
    requires Filling(j, from, off, filled, pad) && 0 < j.left
    ensures ProgramWords(j) == ProgramWords(Step(j))
  {
    hide PageFill, PageWrite, PageErase, ProgramWord;
    FillStep(j, from, off, filled, pad);
  }

  /** The loop takes every word it was asked for and leaves the pages as `Programmed` says, and the page
      buffer empty. */
  lemma {:induction false} ProgramWordsExact(j: FlashJob, from: nat, off: nat, filled: seq<byte>, pad: seq<byte>)
    requires Filling(j, from, off, filled, pad) && 0 < j.left
    ensures Room(j.chip.flash, from, |Pending(j, filled)|, |j.chip.buffer|)
    ensures ProgramWords(j).left == 0
    ensures ProgramWords(j).chip.flash == Programmed(j.chip.flash, from, Pending(j, filled), Even(off), pad)
    ensures BlankBuffer(ProgramWords(j).chip)
    decreases j.left
  {
    hide Step, Programmed, Splice, Turned, ProgramWords, TakeWords, HasWords, NextWord, Even, Pending;
    TakesWord(j, from, off, filled, pad);
    PendingSize(j, filled);
    EvenParts(off, |j.chip.buffer|);
    var next := Step(j);
    if j.left == 1 {
      LastWord(j, from, off, filled, pad);
      NoWordsLeft(next);
    } else if |filled| + 2 == |j.chip.buffer| {
      PageBreak(j, from, off, filled, pad);
      PageBreakFilling(j, from, off, filled, pad);
      PendingSize(next, []);
      ProgramWordsExact(next, from + |j.chip.buffer|, off, [], Blank(|j.chip.buffer|));
      AfterBreak(j.chip.flash, from, filled + NextWord(j), Pending(next, []), Even(off), pad);
    } else {
      WithinPage(j, from, off, filled, pad);
      ProgramWordsExact(next, from, off, filled + NextWord(j), pad);
    }
  }

  lemma PendingSize(j: FlashJob, filled: seq<byte>)
    ensures |Pending(j, filled)| == |filled| + 2 * j.left
  {
  }

  lemma NoWordsLeft(j: FlashJob)
    requires j.left == 0
    ensures ProgramWords(j) == j
  {
  }

  lemma AfterBreak(flash: seq<byte>, from: nat, head: seq<byte>, rest: seq<byte>, off: nat, pad: seq<byte>)
    requires Room(flash, from, |pad| + |rest|, |pad|) && |head| == |pad| && 0 < |rest| && off < |pad|
    ensures from + 2 * |pad| <= |flash| && (from + |pad|) % |pad| == 0
    ensures var page := |pad|;
            var g := Splice(Splice(flash, from, Turned(head, off)), from + page, Blank(page));
            Programmed(g, from + page, rest, off, Blank(page)) == Programmed(flash, from, head + rest, off, pad)
  {
    var page := |pad|;
    PageNumbers(from, |flash|, page);
    PageNumbers(from + page, |flash|, page);
    var g := Splice(flash, from, Turned(head, off));
    hide Splice, Turned;
    ProgrammedOverErased(g, from + page, rest, off, Blank(page));
    assert (head + rest)[..page] == head && (head + rest)[page..] == rest;
  }
}
