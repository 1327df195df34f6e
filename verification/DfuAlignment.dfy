/** When a DFU flash download puts its bytes where the host asked: closed forms of the loop's result, and
    the exact conditions on alignment. */
module DfuAlignment {
  import opened Avr
  import opened Endpoint
  import opened Pages
  import opened PageTurn
  import opened Dfu
  import opened DfuFlashLoop

  // ---- Page-aligned starts ----

  /** Bytes missing from `n` to the next multiple of the page size. */
  function Pad(n: nat, page: nat): nat
    requires 0 < page
  {
    if n % page == 0 then 0 else page - n % page
  }

  lemma PadFits(from: nat, n: nat, limit: nat, page: nat)
    requires page == 128 || page == 256
    requires from % page == 0 && limit % page == 0 && from + n <= limit
    ensures from + n + Pad(n, page) <= limit
  {
    var a, b, q := from / page, limit / page, n / page;
    if page == 128 {
      assert from == 128 * a && limit == 128 * b && n == 128 * q + n % 128;
    } else {
      assert from == 256 * a && limit == 256 * b && n == 256 * q + n % 256;
    }
  }

  lemma PadNumbers(n: nat, page: nat)
    requires page == 128 || page == 256
    ensures 0 < n <= page ==> n + Pad(n, page) == page
    ensures page < n ==> Pad(n, page) == Pad(n - page, page)
  {
    if page == 128 {
    } else {
    }
  }

  /** `flash` with `bytes` written from the page boundary `from` on: the rest of the last page they touch is
      blank, and no other byte changes. */
  function Image(flash: seq<byte>, from: nat, bytes: seq<byte>, page: nat): (r: seq<byte>)
    requires Room(flash, from, |bytes|, page)
    ensures |r| == |flash|
  {
    PadFits(from, |bytes|, |flash|, page);
    var end := from + |bytes| + Pad(|bytes|, page);
    flash[..from] + bytes + Blank(end - from - |bytes|) + flash[end..]
  }

  /** An image byte by byte. */
  lemma ImageAt(flash: seq<byte>, from: nat, bytes: seq<byte>, page: nat, i: nat)
    requires Room(flash, from, |bytes|, page) && i < |flash|
    ensures Image(flash, from, bytes, page)[i]
         == if from <= i < from + |bytes| then bytes[i - from]
            else if from <= i < from + |bytes| + Pad(|bytes|, page) then BLANK
            else flash[i]
  {
    hide Pad;
  }

  /** Taking the first page off an image. */
  lemma ImageOfPages(flash: seq<byte>, from: nat, bytes: seq<byte>, page: nat)
    requires Room(flash, from, |bytes|, page) && page < |bytes|
    ensures from + page <= |flash| && Room(flash, from + page, |bytes| - page, page)
    ensures Image(Splice(flash, from, bytes[..page]), from + page, bytes[page..], page)
         == Image(flash, from, bytes, page)
  {
    PageNumbers(from, |flash|, page);
    hide Pad, Image, Splice;
    var g := Splice(flash, from, bytes[..page]);
    var l, r := Image(g, from + page, bytes[page..], page), Image(flash, from, bytes, page);
    forall i | 0 <= i < |flash|
      ensures l[i] == r[i]
    {
      ImageOfPagesAt(flash, from, bytes, page, i);
    }
    assert l == r;
  }

  lemma ImageOfPagesAt(flash: seq<byte>, from: nat, bytes: seq<byte>, page: nat, i: nat)
    requires Room(flash, from, |bytes|, page) && page < |bytes| && i < |flash|
    requires Room(flash, from + page, |bytes| - page, page)
    ensures Image(Splice(flash, from, bytes[..page]), from + page, bytes[page..], page)[i]
         == Image(flash, from, bytes, page)[i]
  {
    hide Pad, Image;
    PadNumbers(|bytes|, page);
    ImageAt(Splice(flash, from, bytes[..page]), from + page, bytes[page..], page, i);
    ImageAt(flash, from, bytes, page, i);
  }

  /** From a page boundary, with a blank buffer, the loop writes exactly its bytes. */
  lemma {:induction false} ProgrammedBlank(flash: seq<byte>, from: nat, bytes: seq<byte>, page: nat)
    requires Room(flash, from, |bytes|, page) && 0 < |bytes|
    ensures Programmed(flash, from, bytes, 0, Blank(page)) == Image(flash, from, bytes, page)
    decreases |bytes|
  {
    PageNumbers(from, |flash|, page);
    if |bytes| <= page {
      PadNumbers(|bytes|, page);
      NoTurn(Padded(bytes, Blank(page)));
    } else {
      NoTurn(bytes[..page]);
      ImageOfPages(flash, from, bytes, page);
      hide Splice, Image;
      ProgrammedBlank(Splice(flash, from, bytes[..page]), from + page, bytes[page..], page);
    }
  }

  /** From a page boundary, whatever the buffer held: less than a page of bytes is followed by leftovers of the
      buffer, and a page or more by blanks. */
  lemma ProgrammedAligned(flash: seq<byte>, from: nat, bytes: seq<byte>, pad: seq<byte>)
    requires Room(flash, from, |bytes|, |pad|) && 0 < |bytes|
    ensures from + |pad| <= |flash|
    ensures Programmed(flash, from, bytes, 0, pad)
         == if |bytes| < |pad| then Splice(flash, from, Padded(bytes, pad)) else Image(flash, from, bytes, |pad|)
  {
    var page := |pad|;
    PageNumbers(from, |flash|, page);
    if |bytes| <= page {
      NoTurn(Padded(bytes, pad));
      if |bytes| == page {
        PadNumbers(page, page);
        assert Padded(bytes, pad) == bytes;
      }
    } else {
      NoTurn(bytes[..page]);
      ImageOfPages(flash, from, bytes, page);
      hide Splice, Image;
      ProgrammedBlank(Splice(flash, from, bytes[..page]), from + page, bytes[page..], page);
    }
  }

  /** From a page boundary the rest of the last page is blank exactly when the bytes fill the first page, or
      the buffer was blank where they do not. */
  lemma BlankTailExact(flash: seq<byte>, from: nat, bytes: seq<byte>, pad: seq<byte>)
    requires Room(flash, from, |bytes|, |pad|) && 0 < |bytes|
    ensures Programmed(flash, from, bytes, 0, pad) == Image(flash, from, bytes, |pad|)
       <==> |bytes| >= |pad| || pad[|bytes|..] == Blank(|pad| - |bytes|)
  {
    hide Programmed;
    ProgrammedAligned(flash, from, bytes, pad);
    if |bytes| < |pad| {
      OnePageImage(flash, from, bytes, |pad|);
      var l, r := Splice(flash, from, Padded(bytes, pad)), Image(flash, from, bytes, |pad|);
      var n, page := |bytes|, |pad|;
      assert l[from + n..from + page] == pad[n..] && r[from + n..from + page] == Blank(page - n);
      if pad[n..] == Blank(page - n) {
        assert Padded(bytes, pad) == bytes + Blank(page - n);
      }
    }
  }

  lemma OnePageImage(flash: seq<byte>, from: nat, bytes: seq<byte>, page: nat)
    requires Room(flash, from, |bytes|, page) && 0 < |bytes| < page
    ensures from + page <= |flash|
    ensures Image(flash, from, bytes, page) == Splice(flash, from, bytes + Blank(page - |bytes|))
  {
    PageNumbers(from, |flash|, page);
    PadNumbers(|bytes|, page);
  }

  lemma ImageHolds(flash: seq<byte>, base: nat, payload: seq<byte>, page: nat)
    requires Room(flash, base, |payload|, page)
    ensures Image(flash, base, payload, page)[base..base + |payload|] == payload
  {
    hide Pad;
  }

  // ---- Starts inside a page ----

  /** Bytes that stay inside the page go where they should. */
  lemma ProgrammedInPage(flash: seq<byte>, from: nat, bytes: seq<byte>, off: nat, pad: seq<byte>)
    requires Room(flash, from, |bytes|, |pad|) && 0 < |bytes| && off + |bytes| <= |pad|
    ensures from + |pad| <= |flash|
    ensures Programmed(flash, from, bytes, off, pad)[from + off..from + off + |bytes|] == bytes
  {
    hide Turned, Splice;
    var x := Padded(bytes, pad);
    PageNumbers(from, |flash|, |pad|);
    InsideTurned(x, off, |bytes|);
    InsideSplice(flash, from, Turned(x, off), off, |bytes|);
    assert x[..|bytes|] == bytes;
  }

  lemma InsideTurned(x: seq<byte>, off: nat, n: nat)
    requires off + n <= |x|
    ensures Turned(x, off)[off..off + n] == x[..n]
  {
  }

  lemma InsideSplice(flash: seq<byte>, from: nat, x: seq<byte>, off: nat, n: nat)
    requires from + |x| <= |flash| && off + n <= |x|
    ensures Splice(flash, from, x)[from + off..from + off + n] == x[off..off + n]
  {
  }

  /** The loop never goes back to an earlier page. */
  lemma {:induction false} ProgrammedKeepsBelow(flash: seq<byte>, from: nat, bytes: seq<byte>, off: nat, pad: seq<byte>)
    requires Room(flash, from, |bytes|, |pad|) && 0 < |bytes| && off < |pad|
    ensures Programmed(flash, from, bytes, off, pad)[..from] == flash[..from]
    decreases |bytes|
  {
    hide Turned;
    var page := |pad|;
    PageNumbers(from, |flash|, page);
    if |bytes| > page {
      var g := Splice(flash, from, Turned(bytes[..page], off));
      ProgrammedKeepsBelow(g, from + page, bytes[page..], off, Blank(page));
      var r := Programmed(flash, from, bytes, off, pad);
      assert r[..from] == r[..from + page][..from] == g[..from + page][..from];
    }
  }

  /** The byte that ends up first in the second page when a start inside a page runs over the page's end. */
  function Overrun(flash: seq<byte>, from: nat, bytes: seq<byte>, off: nat, page: nat): byte
    requires from + page < |flash| && 0 < off < page && page < off + |bytes|
  {
    if |bytes| <= page then flash[from + page]
    else if 2 * page - off < |bytes| then bytes[2 * page - off]
    else BLANK
  }

  /** There the host wanted byte `page - off` of its data; it gets something else's value. */
  lemma ProgrammedOverrun(flash: seq<byte>, from: nat, bytes: seq<byte>, off: nat, pad: seq<byte>)
    requires Room(flash, from, |bytes|, |pad|) && from + |pad| < |flash| && 0 < off < |pad| < off + |bytes|
    ensures Programmed(flash, from, bytes, off, pad)[from + |pad|] == Overrun(flash, from, bytes, off, |pad|)
  {
    hide Turned, Padded;
    var page := |pad|;
    PageNumbers(from, |flash|, page);
    if |bytes| > page {
      hide Splice;
      var g := Splice(flash, from, Turned(bytes[..page], off));
      PageNumbers(from + page, |flash|, page);
      SecondPage(g, from + page, bytes[page..], off, page);
    }
  }

  lemma SecondPage(flash: seq<byte>, from: nat, bytes: seq<byte>, off: nat, page: nat)
    requires Room(flash, from, |bytes|, page) && 0 < |bytes| && 0 < off < page
    ensures from + page <= |flash|
    ensures Programmed(flash, from, bytes, off, Blank(page))[from]
         == if page - off < |bytes| then bytes[page - off] else BLANK
  {
    PageNumbers(from, |flash|, page);
    if |bytes| <= page {
      var x := Padded(bytes, Blank(page));
      assert Turned(x, off)[0] == x[page - off];
    } else {
      var g := Splice(flash, from, Turned(bytes[..page], off));
      assert g[from] == Turned(bytes[..page], off)[0] == bytes[page - off];
      ProgrammedKeepsBelow(g, from + page, bytes[page..], off, Blank(page));
      var r := Programmed(flash, from, bytes, off, Blank(page));
      assert r[from] == r[..from + page][from] == g[..from + page][from];
    }
  }

  /** The loop puts `bytes` at the address asked for. */
  predicate WritesExactly(flash: seq<byte>, from: nat, bytes: seq<byte>, off: nat, pad: seq<byte>)
    requires Room(flash, from, |bytes|, |pad|) && 0 < |bytes| && off < |pad| && from + off + |bytes| <= |flash|
  {
    Programmed(flash, from, bytes, off, pad)[from + off..from + off + |bytes|] == bytes
  }

  lemma ExactWhenFits(flash: seq<byte>, from: nat, bytes: seq<byte>, off: nat, pad: seq<byte>)
    requires Room(flash, from, |bytes|, |pad|) && 0 < |bytes| && off < |pad| && from + off + |bytes| <= |flash|
    requires off == 0 || off + |bytes| <= |pad|
    ensures WritesExactly(flash, from, bytes, off, pad)
  {
    if off + |bytes| <= |pad| {
      ProgrammedInPage(flash, from, bytes, off, pad);
    } else {
      ProgrammedAligned(flash, from, bytes, pad);
      ImageHolds(flash, from, bytes, |pad|);
    }
  }

  /** Data that the loop misplaces: its byte `page - off` differs from what ends up in its place. */
  function Misplaced(flash: seq<byte>, from: nat, n: nat, off: nat, page: nat): (bytes: seq<byte>)
    requires from + page < |flash| && 0 < off < page && page < off + n
    ensures |bytes| == n
  {
    var x: byte := if n <= page then (if flash[from + page] == 1 then 2 else 1) else 1;
    seq<byte>(n, i => if i == page - off then x else 0)
  }

  lemma MisplacedFails(flash: seq<byte>, from: nat, n: nat, off: nat, pad: seq<byte>)
    requires Room(flash, from, n, |pad|) && 0 < off < |pad| < off + n && from + off + n <= |flash|
    ensures from + |pad| < |flash|
    ensures !WritesExactly(flash, from, Misplaced(flash, from, n, off, |pad|), off, pad)
  {
    var page := |pad|;
    var bytes := Misplaced(flash, from, n, off, page);
    ProgrammedOverrun(flash, from, bytes, off, pad);
    var r := Programmed(flash, from, bytes, off, pad);
    assert r[from + off..from + off + n][page - off] == r[from + page];
    assert bytes[page - off] != Overrun(flash, from, bytes, off, page);
  }

  /** The loop puts every payload of length `n` where the host asked exactly when the start is on a page
      boundary or the whole payload stays inside the page, whatever the buffer held. */
  lemma ExactIffAligned(flash: seq<byte>, from: nat, n: nat, off: nat, pad: seq<byte>)
    requires Room(flash, from, n, |pad|) && 0 < n && off < |pad| && from + off + n <= |flash|
    ensures (forall bytes: seq<byte> :: |bytes| == n ==> WritesExactly(flash, from, bytes, off, pad))
       <==> off == 0 || off + n <= |pad|
  {
    hide WritesExactly;
    if off == 0 || off + n <= |pad| {
      forall bytes: seq<byte> | |bytes| == n
        ensures WritesExactly(flash, from, bytes, off, pad)
      {
        ExactWhenFits(flash, from, bytes, off, pad);
      }
    } else {
      MisplacedFails(flash, from, n, off, pad);
    }
  }

  // ---- Filler bytes ----

  lemma {:induction false} DiscardSuffix(o: Out, n: nat)
    requires !o.detached && n <= |Stream(o)|
    ensures !Discard(o, n).detached
    ensures |Stream(Discard(o, n))| <= |Stream(o)|
    ensures |o.bank| < n ==> |Stream(Discard(o, n))| > |Stream(o)| - n
    ensures n <= |o.bank| ==> Discard(o, n) == o.(bank := o.bank[n..])
    decreases n
  {
    if n > 0 {
      if o.bank != [] {
        DiscardSuffix(Pop(o), n - 1);
      } else {
        assert Stream(o) == Flatten(o.queue);
        var next := NextPacket(o);
        assert Stream(next) == Stream(o);
        DiscardSuffix(next, n - 1);
      }
    }
  }

  /** DiscardFillerBytes drops exactly the bytes asked for when they are all in the bank, and only then:
      stepping to the next packet uses up a count without dropping a byte. */
  lemma DiscardExact(o: Out, n: nat)
    requires !o.detached && n <= |Stream(o)|
    ensures Stream(Discard(o, n)) == Stream(o)[n..] <==> n <= |o.bank|
  {
    hide Discard;
    DiscardSuffix(o, n);
    if n <= |o.bank| {
      assert o.bank[n..] + Flatten(o.queue) == Stream(o)[n..];
    }
  }
}
