/** Hex records of every type, in either case of letters, and files whose rows stand behind extended address
    records. */
module HexBases {
  import opened Avr
  import opened Hex
  import opened Optional
  import opened HexText

  // ---- Records of every type ----

  /** The bytes of the record, checksum included, add up to zero modulo 256. */
  predicate SumsToZero(code: byte, addr: word, bytes: seq<byte>, sum: byte) {
    (|bytes| + addr / 0x100 + addr % 0x100 + code + Sum(bytes) + sum) % 0x100 == 0
  }

  /** Two bytes as a number, high byte first. */
  function BigEndian(bytes: seq<byte>): word
    requires |bytes| == 2
  {
    var hi: int, lo: int := bytes[0], bytes[1];
    0x100 * hi + lo
  }

  /** What a record says: type 0 carries data, type 1 ends the file, a type 2 record of two bytes gives a paragraph and
      a type 4 record the upper half of an address, if their checksum holds; anything else says nothing. */
  function Says(code: byte, addr: word, bytes: seq<byte>, sum: byte): Body {
    var ok := SumsToZero(code, addr, bytes, sum);
    if code == 0 then Bytes(bytes, ok)
    else if code == 1 then EndOfFile
    else if code == 2 && |bytes| == 2 && ok then SetBase(16 * BigEndian(bytes))
    else if code == 4 && |bytes| == 2 && ok then SetBase(65536 * BigEndian(bytes))
    else Ignored
  }

  /** Every printed record is read as it should be, whatever its type, its checksum byte, and the end of its line. */
  lemma TypedRecordDecodes(code: byte, addr: word, bytes: seq<byte>, sum: byte, end: string)
    requires |bytes| < 0x100
    ensures Decode(PrintTyped(code, addr, bytes, sum) + end) == Record(addr, |bytes|, Says(code, addr, bytes, sum))
  {
    hide Scan2, Scan4, ScanBytes, Hex2, Hex4, HexBytes, BaseBody, DataBody, Sum;
    var n := |bytes|;
    var line := PrintTyped(code, addr, bytes, sum) + end;
    var tail := Hex2(sum) + end;
    var data := HexBytes(bytes) + tail;
    assert line[1..] == Hex2(n) + (Hex4(addr) + (Hex2(code) + data));
    assert line[3..] == Hex4(addr) + (Hex2(code) + data);
    assert line[7..] == Hex2(code) + data;
    assert line[9..] == data;
    ScanPrinted2(n, Hex4(addr) + (Hex2(code) + data));
    ScanPrinted4(addr, Hex2(code) + data);
    ScanPrinted2(code, data);
    PrintedData(addr, bytes, sum, end);
    if n == 2 {
      PrintedBase(addr, code, bytes, sum, end);
    }
  }

  lemma PrintedData(addr: word, bytes: seq<byte>, sum: byte, end: string)
    requires |bytes| < 0x100
    ensures DataBody(HexBytes(bytes) + (Hex2(sum) + end), |bytes|, addr)
         == Bytes(bytes, SumsToZero(0, addr, bytes, sum))
  {
    hide Scan2, ScanBytes, Hex2, HexBytes, Sum;
    var tail := Hex2(sum) + end;
    var data := HexBytes(bytes) + tail;
    ScanPrintedBytes(bytes, tail);
    assert data[2 * |bytes|..] == tail;
    ScanPrinted2(sum, end);
  }

  lemma PrintedBase(addr: word, code: byte, bytes: seq<byte>, sum: byte, end: string)
    requires |bytes| == 2
    ensures var w := BigEndian(bytes);
            BaseBody(HexBytes(bytes) + (Hex2(sum) + end), addr, code)
            == if SumsToZero(code, addr, bytes, sum) then SetBase(if code == 2 then 16 * w else 65536 * w) else Ignored
  {
    hide Scan2, Scan4, Hex2;
    var tail := Hex2(sum) + end;
    var w := BigEndian(bytes);
    TwoHexBytes(bytes);
    var data := HexBytes(bytes) + tail;
    assert data == Hex4(w) + tail;
    ScanPrinted4(w, tail);
    assert data[4..] == tail;
    ScanPrinted2(sum, end);
    SumOfTwo(bytes);
  }

  lemma TwoHexBytes(bytes: seq<byte>)
    requires |bytes| == 2
    ensures HexBytes(bytes) == Hex4(BigEndian(bytes))
  {
    hide Hex2;
    assert bytes[1..][1..] == [];
    assert HexBytes(bytes[1..]) == Hex2(bytes[1]) + HexBytes([]);
    assert Hex2(bytes[1]) + "" == Hex2(bytes[1]);
    var w := BigEndian(bytes);
    assert w / 0x100 == bytes[0] && w % 0x100 == bytes[1];
  }

  lemma SumOfTwo(bytes: seq<byte>)
    requires |bytes| == 2
    ensures var a: int, b: int := bytes[0], bytes[1]; Sum(bytes) == a + b
  {
    assert bytes[1..][1..] == [];
    assert Sum(bytes[1..]) == bytes[1] + Sum([]);
  }

  // ---- Letters of either case ----

  function LowerChar(c: char): char {
    if 'A' <= c <= 'F' then (c as int - 'A' as int + 'a' as int) as char else c
  }

  function Lower(s: string): (r: string)
    ensures |r| == |s| && forall i :: 0 <= i < |s| ==> r[i] == LowerChar(s[i])
  {
    seq(|s|, i requires 0 <= i < |s| => LowerChar(s[i]))
  }

  lemma SameDigit(c: char)
    ensures IsHex(LowerChar(c)) == IsHex(c) && (IsHex(c) ==> Value(LowerChar(c)) == Value(c))
    ensures LowerChar(c) == ':' <==> c == ':'
  {
  }

  lemma LowerTail(s: string, k: nat)
    requires k <= |s|
    ensures Lower(s)[k..] == Lower(s[k..])
  {
    hide LowerChar;
  }

  lemma {:induction false} LowerDigits(s: string, width: nat, acc: nat)
    ensures Digits(Lower(s), width, acc) == Digits(s, width, acc)
    decreases width
  {
    hide IsHex, Value, LowerChar, Lower;
    if width > 0 && s != "" {
      SameDigit(s[0]);
      LowerTail(s, 1);
      if IsHex(s[0]) {
        LowerDigits(s[1..], width - 1, 16 * acc + Value(s[0]));
      }
    }
  }

  lemma LowerScans(s: string)
    ensures Scan2(Lower(s)) == Scan2(s) && Scan4(Lower(s)) == Scan4(s)
  {
    hide Digits, IsHex, LowerChar, Lower;
    LowerDigits(s, 2, 0);
    LowerDigits(s, 4, 0);
    if s != "" {
      SameDigit(s[0]);
    }
  }

  lemma {:induction false} LowerBytes(s: string, n: nat)
    requires 2 * n <= |s|
    ensures ScanBytes(Lower(s), n) == ScanBytes(s, n)
    decreases n
  {
    hide Scan2, Lower, LowerChar;
    if n > 0 {
      LowerScans(s);
      LowerTail(s, 2);
      LowerBytes(s[2..], n - 1);
    }
  }

  lemma LowerBodies(s: string, len: byte, addr: word, code: byte)
    ensures 2 * len + 2 <= |s| ==> DataBody(Lower(s), len, addr) == DataBody(s, len, addr)
    ensures 6 <= |s| ==> BaseBody(Lower(s), addr, code) == BaseBody(s, addr, code)
  {
    hide Scan2, Scan4, ScanBytes, Lower, Sum;
    if 2 * len + 2 <= |s| {
      LowerBytes(s, len);
      LowerTail(s, 2 * len);
      LowerScans(s[2 * len..]);
    }
    if 6 <= |s| {
      LowerScans(s);
      LowerTail(s, 4);
      LowerScans(s[4..]);
    }
  }

  /** Every line says the same in lower case. */
  lemma LowerCaseDecodes(line: string)
    ensures Decode(Lower(line)) == Decode(line)
  {
    hide Scan2, Scan4, DataBody, BaseBody, Lower, LowerChar;
    if 11 <= |line| {
      SameDigit(line[0]);
      LowerTail(line, 1);
      LowerTail(line, 3);
      LowerTail(line, 7);
      LowerTail(line, 9);
      LowerScans(line[1..]);
      LowerScans(line[3..]);
      LowerScans(line[7..]);
      var len, addr := Scan2(line[1..]), Scan4(line[3..]);
      if len.Some? && addr.Some? {
        LowerBodies(line[9..], len.value, addr.value, 2);
        LowerBodies(line[9..], len.value, addr.value, 4);
      }
    }
  }

  // ---- Files with extended address records ----

  /** A piece of a file: an extended address record of type 2 or 4, or a row of bytes at an absolute address. */
  datatype Item = Base(code: byte, w: word) | Row(at: nat, bytes: seq<byte>)

  /** The base such a record sets. */
  function BaseOf(code: byte, w: word): nat {
    if code == 2 then 16 * w else 65536 * w
  }

  /** The byte that makes a record sum to zero. */
  function SumByte(code: byte, addr: word, bytes: seq<byte>): (r: byte)
    requires |bytes| < 0x100
    ensures SumsToZero(code, addr, bytes, r)
  {
    var total := |bytes| + addr / 0x100 + addr % 0x100 + code + Sum(bytes);
    ZeroSum(total);
    (0x100 - total % 0x100) % 0x100
  }

  lemma ZeroSum(total: nat)
    ensures (total + (0x100 - total % 0x100) % 0x100) % 0x100 == 0
  {
  }

  /** The items can be printed: rows are not below the base they stand behind, and are at most 64K above it. */
  predicate Spellable(items: seq<Item>, base: nat)
    decreases |items|
  {
    items == [] ||
    match items[0]
    case Base(code, w) => (code == 2 || code == 4) && Spellable(items[1..], BaseOf(code, w))
    case Row(at, bytes) => base <= at < base + 0x1_0000 && |bytes| < 0x100 && Spellable(items[1..], base)
  }

  /** Every record stays below the image limit under the base it stands behind, the address records and the end
      record included. */
  predicate InRange(items: seq<Item>, base: nat)
    decreases |items|
  {
    if items == [] then base < 0x1_0000
    else
      match items[0]
      case Base(code, w) => base + 2 < 0x1_0000 && InRange(items[1..], BaseOf(code, w))
      case Row(at, bytes) => at + |bytes| < 0x1_0000 && InRange(items[1..], base)
  }

  function PrintItem(item: Item, base: nat): string
    requires item.Row? ==> base <= item.at < base + 0x1_0000 && |item.bytes| < 0x100
  {
    match item
    case Base(code, w) => PrintTyped(code, 0, [w / 0x100, w % 0x100], SumByte(code, 0, [w / 0x100, w % 0x100]))
    case Row(at, bytes) => PrintTyped(0, at - base, bytes, SumByte(0, at - base, bytes))
  }

  /** The text of a file: a line for each item, and the end record. */
  function PrintItems(items: seq<Item>, base: nat): string
    requires Spellable(items, base)
    decreases |items|
  {
    if items == [] then END_RECORD + "\n"
    else PrintItem(items[0], base) + "\n"
         + PrintItems(items[1..], if items[0].Base? then BaseOf(items[0].code, items[0].w) else base)
  }

  /** The rows of a file. */
  function RowsOf(items: seq<Item>): seq<Placement> {
    if items == [] then []
    else if items[0].Base? then RowsOf(items[1..])
    else [Placement(items[0].at, items[0].bytes)] + RowsOf(items[1..])
  }

  /** How a line that decodes to a record continues the meaning of a file. */
  lemma FirstRecord(line: string, rest: string, base: nat, addr: word, len: byte, body: Body)
    requires Plain(line) && |line| < LINE_LIMIT && Decode(line + "\n") == Record(addr, len, body)
    ensures Placements(Lines(line + "\n" + rest), base) ==
              if addr + base + len >= 0x1_0000 then None
              else match body
                   case EndOfFile => Some([])
                   case SetBase(b) => Placements(Lines(rest), b)
                   case Ignored => Placements(Lines(rest), base)
                   case Bytes(bytes, ok) =>
                     if !ok || Placements(Lines(rest), base).None? then None
                     else Some([Placement(addr + base, bytes)] + Placements(Lines(rest), base).value)
  {
    hide Decode, Lines, Plain;
    PlainLineFirst(line, rest);
    var lines := Lines(line + "\n" + rest);
    assert lines[0] == line + "\n" && lines[1..] == Lines(rest);
  }

  /** The meaning of every such file: it is accepted exactly when its records stay in range, and then says just its
      rows, each at its absolute address. */
  lemma {:induction false} ItemsMean(items: seq<Item>, base: nat)
    requires Spellable(items, base)
    ensures Placements(Lines(PrintItems(items, base)), base)
         == if InRange(items, base) then Some(RowsOf(items)) else None
    decreases |items|
  {
    hide Decode, Lines, PrintItem, PrintTyped, SumByte, Placements, Plain;
    if items == [] {
      EndRecordDecodes("\n");
      NothingPlain();
      FirstRecord(END_RECORD, "", base, 0, 0, EndOfFile);
      assert END_RECORD + "\n" + "" == END_RECORD + "\n";
    } else {
      var item := items[0];
      var next := if item.Base? then BaseOf(item.code, item.w) else base;
      var rest := PrintItems(items[1..], next);
      ItemsMean(items[1..], next);
      match item
      case Base(code, w) =>
        BaseItem(code, w, base);
        FirstRecord(PrintItem(item, base), rest, base, 0, 2, SetBase(next));
      case Row(at, bytes) =>
        RowItem(at, bytes, base);
        FirstRecord(PrintItem(item, base), rest, base, at - base, |bytes|, Bytes(bytes, true));
    }
  }

  lemma BaseItem(code: byte, w: word, base: nat)
    requires code == 2 || code == 4
    ensures var line := PrintItem(Base(code, w), base);
            Plain(line) && |line| < LINE_LIMIT && Decode(line + "\n") == Record(0, 2, SetBase(BaseOf(code, w)))
  {
    hide Decode, Plain, PrintTyped, SumByte, SumsToZero;
    var bytes: seq<byte> := [w / 0x100, w % 0x100];
    var sum := SumByte(code, 0, bytes);
    TypedRecordDecodes(code, 0, bytes, sum, "\n");
    TypedPlain(code, 0, bytes, sum);
    assert BigEndian(bytes) == w;
  }

  lemma RowItem(at: nat, bytes: seq<byte>, base: nat)
    requires base <= at < base + 0x1_0000 && |bytes| < 0x100
    ensures var line := PrintItem(Row(at, bytes), base);
            && Plain(line) && |line| < LINE_LIMIT
            && Decode(line + "\n") == Record(at - base, |bytes|, Bytes(bytes, true))
  {
    hide Decode, Plain, PrintTyped, SumByte, SumsToZero;
    var sum := SumByte(0, at - base, bytes);
    TypedRecordDecodes(0, at - base, bytes, sum, "\n");
    TypedPlain(0, at - base, bytes, sum);
  }

  /** A type 4 record of anything but zero, wherever it stands, sinks the file: the base it sets is past the image
      limit, so that even the end record behind it is refused. */
  lemma LinearBaseRefused(items: seq<Item>, base: nat, i: nat, w: word)
    requires Spellable(items, base) && i < |items| && items[i] == Base(4, w) && 0 < w
    ensures Placements(Lines(PrintItems(items, base)), base).None?
  {
    hide Placements, Lines, PrintItems;
    ItemsMean(items, base);
    SunkByBase(items, base, i);
  }

  lemma {:induction false} SunkByBase(items: seq<Item>, base: nat, i: nat)
    requires Spellable(items, base) && i < |items| && items[i].Base? && items[i].code == 4 && 0 < items[i].w
    ensures !InRange(items, base)
    decreases i
  {
    if i == 0 {
      PastLimit(items[1..], 65536 * items[0].w);
    } else {
      SunkByBase(items[1..], if items[0].Base? then BaseOf(items[0].code, items[0].w) else base, i - 1);
    }
  }

  lemma PastLimit(items: seq<Item>, base: nat)
    requires Spellable(items, base) && 0x1_0000 <= base
    ensures !InRange(items, base)
  {
  }

  /** A line that does not start with a colon, or is shorter than its length field says, is no record. */
  lemma NotARecord(line: string, len: byte)
    requires line == "" || line[0] != ':' || |line| < 11 || (Scan2(line[1..]) == Some(len) && |line| < 11 + 2 * len)
    ensures Decode(line).Malformed?
  {
    hide Scan2, Scan4;
  }

  // ---- The round trip ----

  /** The rows of an image, each behind a type 2 record of its own. */
  function Segmented(ps: seq<Placement>): seq<Item>
    requires forall i :: 0 <= i < |ps| ==> ps[i].at < 0x1_0000
  {
    if ps == [] then []
    else [Base(2, ps[0].at / 16), Row(ps[0].at, ps[0].bytes)] + Segmented(ps[1..])
  }

  lemma {:induction false} SegmentedFits(ps: seq<Placement>, base: nat)
    requires Printable(ps) && base < 0xFFFE
    ensures forall i :: 0 <= i < |ps| ==> ps[i].at < 0x1_0000
    ensures Spellable(Segmented(ps), base) && InRange(Segmented(ps), base) && RowsOf(Segmented(ps)) == ps
    decreases |ps|
  {
    if ps != [] {
      var p := ps[0];
      var items := Segmented(ps);
      var w := p.at / 16;
      assert items[0] == Base(2, w) && items[1..][0] == Row(p.at, p.bytes) && items[1..][1..] == Segmented(ps[1..]);
      SegmentedFits(ps[1..], 16 * w);
      assert Spellable(items[1..], 16 * w) && InRange(items[1..], 16 * w);
      assert RowsOf(items[1..]) == [p] + ps[1..];
    }
  }

  /** The round trip with bases: an image printed in rows, each behind an extended address record and at its offset
      from that base, reads back as the image. */
  lemma SegmentedRoundTrip(m: Image)
    requires |m| < MAX_MEMORY_SIZE
    ensures Printable(Rows(m, 0)) && (forall i :: 0 <= i < |Rows(m, 0)| ==> Rows(m, 0)[i].at < 0x1_0000)
    ensures Spellable(Segmented(Rows(m, 0)), 0)
    ensures var (h, ok) := ParseLines(Empty(), Lines(PrintItems(Segmented(Rows(m, 0)), 0)));
            && ok
            && forall a :: 0 <= a < MAX_MEMORY_SIZE ==>
                 && h.mask[a] == (a < |m| && m[a].Some?)
                 && h.image[a] == if a < |m| && m[a].Some? then m[a].value else BLANK
  {
    hide ParseLines, Rows, PrintItems, Placements, Lines, Segmented;
    RowsPrintable(m, 0);
    var ps := Rows(m, 0);
    SegmentedFits(ps, 0);
    var lines := Lines(PrintItems(Segmented(ps), 0));
    ItemsMean(Segmented(ps), 0);
    FileMeaning(Empty(), lines);
    var (h, ok) := ParseLines(Empty(), lines);
    forall a | 0 <= a < MAX_MEMORY_SIZE
      ensures h.mask[a] == (a < |m| && m[a].Some?)
      ensures h.image[a] == if a < |m| && m[a].Some? then m[a].value else BLANK
    {
      RowsSpell(m, 0, a);
    }
  }

  // ---- Lines that are skipped or cut ----

  /** A line that starts with a NUL is skipped. */
  lemma NulLineSkipped(h: Loader, s: string, rest: string)
    requires h.Valid() && !h.endSeen && Plain(s) && |s| + 1 < LINE_LIMIT
    ensures ParseLines(h, Lines("\0" + s + "\n" + rest)) == ParseLines(h, Lines(rest))
  {
    hide FirstLine;
    var text := "\0" + s + "\n" + rest;
    FirstPlainLine(s, rest, LINE_LIMIT - 1);
    assert text[1..] == s + "\n" + rest;
    TakesFirst(text);
    var line := FirstLine(text, LINE_LIMIT);
    assert line == ['\0'] + (s + "\n");
    assert text[|line|..] == rest;
    assert Lines(text) == [""] + Lines(rest);
    assert ([""] + Lines(rest))[1..] == Lines(rest);
  }

  lemma TakesFirst(text: string)
    requires text != "" && text[0] != '\n'
    ensures FirstLine(text, LINE_LIMIT) == [text[0]] + FirstLine(text[1..], LINE_LIMIT - 1)
  {
  }

  /** A line is cut after 1023 characters, and what follows is read as a line of its own. */
  lemma LongLineCut(text: string)
    requires 1023 <= |text| && Plain(text[..1023])
    ensures Lines(text) == [text[..1023]] + Lines(text[1023..])
  {
    hide FirstLine, UpToNul;
    FillsLimit(text, LINE_LIMIT);
    KeepsAll(text[..1023]);
  }

  lemma {:induction false} KeepsAll(s: string)
    requires Plain(s)
    ensures UpToNul(s) == s
    decreases |s|
  {
    if s != "" {
      KeepsAll(s[1..]);
    }
  }

  lemma {:induction false} FillsLimit(text: string, limit: nat)
    requires limit <= |text| && Plain(text[..limit])
    ensures FirstLine(text, limit) == text[..limit]
    decreases limit
  {
    if limit > 0 {
      assert text[..limit][0] == text[0] && text[..limit][1..] == text[1..][..limit - 1];
      FillsLimit(text[1..], limit - 1);
    }
  }
}
