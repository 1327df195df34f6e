/** Filling the page buffer from an address inside a page: word slots wrap at the page's end, so the buffer
    holds the words turned by the address's offset. */
module PageTurn {
  import opened Avr
  import opened Modular

  /** The word slot of an offset: bit 0 of a fill address is ignored. */
  function Even(off: nat): (r: nat)
    ensures r % 2 == 0 && r <= off <= r + 1
  {
    off - off % 2
  }

  /** A page turned forward by `off`: what runs over its end comes round to its beginning. */
  function Turned(x: seq<byte>, off: nat): (r: seq<byte>)
    requires off <= |x|
    ensures |r| == |x|
  {
    x[|x| - off..] + x[..|x| - off]
  }

  /** The page that turns into `x`. */
  function Unturned(x: seq<byte>, off: nat): (r: seq<byte>)
    requires off <= |x|
    ensures |r| == |x|
  {
    x[off..] + x[..off]
  }

  lemma TurnedBack(x: seq<byte>, off: nat)
    requires off <= |x|
    ensures Turned(Unturned(x, off), off) == x
  {
  }

  lemma NoTurn(x: seq<byte>)
    ensures Turned(x, 0) == x == Unturned(x, 0)
  {
  }

  lemma BlankTurned(page: nat, off: nat)
    requires off <= page
    ensures Turned(Blank(page), off) == Blank(page) == Unturned(Blank(page), off)
  {
  }

  /** Where word `m` of a page goes: it wraps at the page's end. */
  function Slot(off: nat, m: nat, page: nat): nat
    requires off < page && m < page
  {
    if off + m < page then off + m else off + m - page
  }

  lemma SlotAddress(from: nat, off: nat, m: nat, page: nat)
    requires (page == 128 || page == 256) && from % page == 0 && off < page && m < page
    ensures (from + off + m) % page == Slot(off, m, page)
  {
    if off + m < page {
      PageOffset(from, off + m, page);
    } else {
      ModPlusSize(from, page);
      PageOffset(from + page, off + m - page, page);
    }
  }

  lemma EvenParts(off: nat, page: nat)
    requires off < page && page % 2 == 0
    ensures Even(off) % 2 == 0 && Even(off) <= off <= Even(off) + 1 < page
  {
  }

  /** The slot of an even word is that of its even offset, or the byte after it. */
  lemma EvenSlot(off: nat, m: nat, page: nat)
    requires off < page && page % 2 == 0 && m % 2 == 0 && m + 2 <= page
    ensures var s := Slot(Even(off), m, page);
            s % 2 == 0 && s + 2 <= page && s <= Slot(off, m, page) <= s + 1
  {
    hide Even;
    var a, b, c := Even(off) / 2, page / 2, m / 2;
    assert Even(off) == 2 * a && page == 2 * b && m == 2 * c;
    assert Even(off) + m < page <==> off + m < page;
    assert Slot(Even(off), m, page) == 2 * (if a + c < b then a + c else a + c - b);
  }

  lemma TurnedUpdate(x: seq<byte>, m: nat, off: nat, lo: byte, hi: byte)
    requires off < |x| && off % 2 == 0 && |x| % 2 == 0 && m % 2 == 0 && m + 2 <= |x|
    ensures var s := Slot(off, m, |x|);
            s + 2 <= |x| && Turned(x, off)[s := lo][s + 1 := hi] == Turned(x[m := lo][m + 1 := hi], off)
  {
  }

  lemma FillEvenSlot(c: Chip, addr: nat, lo: byte, hi: byte, s: nat)
    requires s <= addr % |c.buffer| <= s + 1 && s % 2 == 0 && s + 2 <= |c.buffer|
    ensures PageFill(c, addr, lo, hi) == c.(buffer := c.buffer[s := lo][s + 1 := hi])
  {
  }

  /** Filling the word `m` bytes after an address at offset `off` of a page. */
  lemma FillTurned(c: Chip, from: nat, off: nat, x: seq<byte>, m: nat, lo: byte, hi: byte)
    requires from % |c.buffer| == 0 && off < |c.buffer| == |x| && m % 2 == 0 && m + 2 <= |x|
    requires c.buffer == Turned(x, Even(off))
    ensures PageFill(c, from + off + m, lo, hi) == c.(buffer := Turned(x[m := lo][m + 1 := hi], Even(off)))
  {
    hide Turned, Even, Slot, PageFill;
    var page := |c.buffer|;
    SlotAddress(from, off, m, page);
    EvenSlot(off, m, page);
    TurnedUpdate(x, m, Even(off), lo, hi);
    FillEvenSlot(c, from + off + m, lo, hi, Slot(Even(off), m, page));
  }
}
