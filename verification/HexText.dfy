/** Checksums and printing of Intel HEX: a bad data record sinks the file, and printed images parse
    back to themselves. */
module HexText {
  import opened Avr
  import opened Hex
  import opened Optional

  // ---- The checksum gate ----

  /** A data record whose checksum does not hold, or with an unreadable byte. */
  predicate BadData(line: string) {
    var d := Decode(line);
    d.Record? && d.body.Bytes? && !d.body.ok
  }

  predicate IsEnd(line: string) {
    var d := Decode(line);
    d.Record? && d.body.EndOfFile?
  }

  /** The whole read fails if any data record reached before an end record has a bad checksum, and likewise if
      any line reached before it is no record at all. */
  lemma {:induction false} ChecksumGate(h: Loader, lines: seq<string>, i: nat)
    requires h.Valid() && !h.endSeen
    requires i < |lines| && lines[i] != "" && (BadData(lines[i]) || Decode(lines[i]).Malformed?)
    requires forall j :: 0 <= j < i ==> !IsEnd(lines[j])
    ensures !ParseLines(h, lines).1
    decreases |lines|
  {
    hide Decode;
    if i > 0 {
      var rest := lines[1..];
      assert rest[i - 1] == lines[i];
      assert forall j :: 0 <= j < i - 1 ==> rest[j] == lines[j + 1];
      assert !IsEnd(lines[0]);
      if lines[0] == "" {
        ChecksumGate(h, rest, i - 1);
      } else if ParseLine(h, lines[0]).1 {
        ChecksumGate(ParseLine(h, lines[0]).0, rest, i - 1);
      }
    }
  }

  /** A text that stops at a line end. */
  predicate Ended(text: string) {
    text == "" || text[|text| - 1] == '\n'
  }

  lemma {:induction false} FirstLineAppend(a: string, b: string, limit: nat)
    requires Ended(a) && a != ""
    ensures FirstLine(a + b, limit) == FirstLine(a, limit) && Ended(a[|FirstLine(a, limit)|..])
    decreases limit
  {
    if limit > 0 && a[0] != '\n' {
      assert (a + b)[1..] == a[1..] + b;
      FirstLineAppend(a[1..], b, limit - 1);
      var line := FirstLine(a[1..], limit - 1);
      assert a[1..][|line|..] == a[|line| + 1..];
    }
  }

  lemma {:induction false} LinesAppend(a: string, b: string)
    requires Ended(a)
    ensures Lines(a + b) == Lines(a) + Lines(b)
    decreases |a|
  {
    hide FirstLine, UpToNul, Lines;
    if a == "" {
      NoLines();
      assert a + b == b && [] + Lines(b) == Lines(b);
    } else {
      FirstLineAppend(a, b, LINE_LIMIT);
      var line := FirstLine(a, LINE_LIMIT);
      assert (a + b)[|line|..] == a[|line|..] + b;
      LinesAppend(a[|line|..], b);
      LinesStep(a);
      LinesStep(a + b);
      assert [UpToNul(line)] + (Lines(a[|line|..]) + Lines(b)) == [UpToNul(line)] + Lines(a[|line|..]) + Lines(b);
    }
  }

  lemma NoLines()
    ensures Lines("") == []
  {
  }

  lemma LinesStep(text: string)
    requires text != ""
    ensures var line := FirstLine(text, LINE_LIMIT);
            line != "" && Lines(text) == [UpToNul(line)] + Lines(text[|line|..])
  {
    hide FirstLine, UpToNul;
  }

  /** A blank line is not skipped: its line end is there and is no record, so the file is refused, unless an end
      record comes first. */
  lemma BlankLineRefused(h: Loader, before: string, after: string)
    requires h.Valid() && !h.endSeen && Ended(before)
    requires forall j :: 0 <= j < |Lines(before)| ==> !IsEnd(Lines(before)[j])
    ensures !ParseLines(h, Lines(before + "\n" + after)).1
  {
    hide Decode, IsEnd, ParseLines, Lines;
    LinesAppend(before, "\n" + after);
    assert before + ("\n" + after) == before + "\n" + after;
    NothingPlain();
    PlainLineFirst("", after);
    assert "" + "\n" + after == "\n" + after && "" + "\n" == "\n";
    var lines, i := Lines(before + "\n" + after), |Lines(before)|;
    assert lines[i] == "\n";
    assert Decode("\n").Malformed? by { TooShort(); }
    ChecksumGate(h, lines, i);
  }

  lemma TooShort()
    ensures Decode("\n").Malformed?
  {
  }

  /** The bytes a record spells, two digits each: length, address, type, data and checksum. */
  function RecordBytes(line: string, n: nat): seq<byte>
    requires 1 + 2 * n <= |line|
  {
    ScanBytes(line[1..], n).0
  }

  predicate AllHex(s: string) {
    forall i :: 0 <= i < |s| ==> IsHex(s[i])
  }

  lemma TwoDigits(s: string)
    requires 2 <= |s| && AllHex(s[..2])
    ensures Digits(s, 2, 0) == 16 * Value(s[0]) + Value(s[1]) && Scan2(s) == Some(16 * Value(s[0]) + Value(s[1]))
  {
    hide Digits, IsHex, Value;
    assert s[..2][0] == s[0] && s[..2][1] == s[1];
    OneDigit(s, 2, 0);
    OneDigit(s[1..], 1, Value(s[0]));
    NoDigit(s[1..][1..], 16 * Value(s[0]) + Value(s[1]));
  }

  lemma OneDigit(s: string, width: nat, acc: nat)
    requires 0 < width && s != "" && IsHex(s[0])
    ensures Digits(s, width, acc) == Digits(s[1..], width - 1, 16 * acc + Value(s[0]))
  {
  }

  lemma NoDigit(s: string, acc: nat)
    ensures Digits(s, 0, acc) == acc
  {
  }

  lemma FourDigits(s: string)
    requires 4 <= |s| && AllHex(s[..4])
    ensures Scan4(s).Some? && Scan2(s).Some? && Scan2(s[2..]).Some?
    ensures Scan4(s).value == 0x100 * Scan2(s).value + Scan2(s[2..]).value
  {
    hide Digits, IsHex, Value;
    assert forall i :: 0 <= i < 4 ==> s[..4][i] == s[i];
    TwoDigits(s);
    TwoDigits(s[2..]);
    var v := 16 * Value(s[0]) + Value(s[1]);
    assert s[1..][1..] == s[2..] && s[2..][1..] == s[3..] && s[3..][1..] == s[4..];
    OneDigit(s, 4, 0);
    OneDigit(s[1..], 3, Value(s[0]));
    OneDigit(s[2..], 2, v);
    OneDigit(s[3..], 1, 16 * v + Value(s[2]));
    NoDigit(s[4..], 16 * (16 * v + Value(s[2])) + Value(s[3]));
  }

  lemma {:induction false} ScanBytesAppend(s: string, n: nat, m: nat)
    requires 2 * (n + m) <= |s| && ScanBytes(s, n).1
    ensures ScanBytes(s, n + m).0 == ScanBytes(s, n).0 + ScanBytes(s[2 * n..], m).0
    ensures ScanBytes(s, n + m).1 == ScanBytes(s[2 * n..], m).1
    decreases n
  {
    hide Scan2;
    if n > 0 {
      assert s[2..][2 * (n - 1)..] == s[2 * n..];
      ScanBytesAppend(s[2..], n - 1, m);
    } else {
      assert s[0..] == s;
    }
  }

  lemma {:induction false} SumAppend(a: seq<byte>, b: seq<byte>)
    ensures Sum(a + b) == Sum(a) + Sum(b)
  {
    if a == [] {
      assert a + b == b;
    } else {
      assert (a + b)[1..] == a[1..] + b;
      SumAppend(a[1..], b);
    }
  }

  lemma {:induction false} ScanHexBytes(s: string, n: nat)
    requires 2 * n <= |s| && AllHex(s[..2 * n])
    ensures ScanBytes(s, n).1
    decreases n
  {
    if n > 0 {
      assert forall i :: 0 <= i < 2 * n ==> s[..2 * n][i] == s[i];
      TwoDigits(s);
      ScanHexBytes(s[2..], n - 1);
    }
  }

  /** The fields behind a data record. */
  lemma DataFields(line: string)
    requires Decode(line).Record? && Decode(line).body.Bytes?
    ensures var d := Decode(line);
            && 11 + 2 * d.len <= |line|
            && Scan2(line[1..]) == Some(d.len) && Scan4(line[3..]) == Some(d.addr) && Scan2(line[7..]) == Some(0)
            && d.body == DataBody(line[9..], d.len, d.addr)
  {
    hide Scan2, Scan4, DataBody;
  }

  /** Digits `i` to `j` of a line whose digits from `from` to `to` are hexadecimal. */
  lemma AllHexPart(s: string, from: nat, to: nat, i: nat, j: nat)
    requires from <= i <= j <= to <= |s| && AllHex(s[from..to])
    ensures AllHex(s[i..][..j - i])
  {
    var part := s[i..][..j - i];
    forall k | 0 <= k < |part|
      ensures IsHex(part[k])
    {
      assert part[k] == s[from..to][i - from + k];
    }
  }

  /** For a data record spelt in hexadecimal digits, the loader's verdict is the standard's: the bytes of
      the whole record, checksum included, add up to zero modulo 256. */
  lemma ChecksumIsRecordSum(line: string)
    requires Decode(line).Record? && Decode(line).body.Bytes?
    requires AllHex(line[1..11 + 2 * Decode(line).len])
    ensures Decode(line).body.ok <==> Sum(RecordBytes(line, Decode(line).len + 5)) % 0x100 == 0
  {
    hide Decode, Scan2, ScanBytes, AllHex, Sum;
    DataFields(line);
    var d := Decode(line);
    var n: nat := d.len;
    var t := line[1..];
    HeaderBytes(line);
    assert t[8..] == line[9..] && t[8..][2 * n..] == line[9 + 2 * n..];
    AllHexPart(line, 1, 11 + 2 * n, 9, 9 + 2 * n);
    ScanHexBytes(t[8..], n);
    AllHexPart(line, 1, 11 + 2 * n, 9 + 2 * n, 11 + 2 * n);
    TwoDigits(t[8..][2 * n..]);
    ScanBytesAppend(t, 4, n + 1);
    ScanBytesAppend(t[8..], n, 1);
    var head, data, sum := ScanBytes(t, 4).0, ScanBytes(t[8..], n).0, ScanBytes(t[8..][2 * n..], 1).0;
    assert RecordBytes(line, n + 5) == head + (data + sum);
    SumAppend(head, data + sum);
    SumAppend(data, sum);
    OneByte(t[8..][2 * n..]);
  }

  lemma OneByte(s: string)
    requires 2 <= |s| && Scan2(s).Some?
    ensures ScanBytes(s, 1).0 == [Scan2(s).value] && Sum([Scan2(s).value]) == Scan2(s).value
  {
    hide Scan2;
    assert ScanBytes(s[2..], 0) == ([], true);
    assert [Scan2(s).value][1..] == [];
  }

  lemma HeaderBytes(line: string)
    requires Decode(line).Record? && Decode(line).body.Bytes?
    requires AllHex(line[1..11 + 2 * Decode(line).len])
    ensures ScanBytes(line[1..], 4).1
    ensures Sum(ScanBytes(line[1..], 4).0) == HeaderSum(Decode(line).len, Decode(line).addr, 0)
  {
    hide Decode, Scan2, Scan4, ScanBytes, AllHex, Sum;
    DataFields(line);
    var t := line[1..];
    var to := 11 + 2 * Decode(line).len;
    AllHexPart(line, 1, to, 1, 9);
    ScanHexBytes(t, 4);
    AllHexPart(line, 1, to, 3, 7);
    FourDigits(line[3..]);
    assert t[2..] == line[3..] && t[4..] == line[5..] && t[6..] == line[7..] && line[3..][2..] == line[5..];
    FourBytes(t);
  }

  lemma FourBytes(t: string)
    requires 8 <= |t| && Scan2(t).Some? && Scan2(t[2..]).Some? && Scan2(t[4..]).Some? && Scan2(t[6..]).Some?
    ensures Sum(ScanBytes(t, 4).0) == Scan2(t).value + Scan2(t[2..]).value + Scan2(t[4..]).value + Scan2(t[6..]).value
  {
    hide Scan2;
    assert t[2..][2..] == t[4..] && t[4..][2..] == t[6..];
    var a, b, c, d := Scan2(t).value, Scan2(t[2..]).value, Scan2(t[4..]).value, Scan2(t[6..]).value;
    OneByte(t[6..]);
    assert ScanBytes(t[4..], 2).0 == [c] + [d];
    assert ScanBytes(t[2..], 3).0 == [b] + ([c] + [d]);
    assert ScanBytes(t, 4).0 == [a] + ([b] + ([c] + [d]));
    SumAppend([a], [b] + ([c] + [d]));
    SumAppend([b], [c] + [d]);
    SumAppend([c], [d]);
  }

  // ---- Printing ----

  const DIGITS := "0123456789ABCDEF"

  function Digit(v: nat): (c: char)
    requires v < 16
    ensures IsHex(c) && Value(c) == v
  {
    DIGITS[v]
  }

  function Hex2(b: byte): (s: string)
    ensures |s| == 2
  {
    [Digit(b / 16), Digit(b % 16)]
  }

  function Hex4(w: word): (s: string)
    ensures |s| == 4
  {
    Hex2(w / 0x100) + Hex2(w % 0x100)
  }

  function HexBytes(bytes: seq<byte>): (s: string)
    ensures |s| == 2 * |bytes|
  {
    if bytes == [] then "" else Hex2(bytes[0]) + HexBytes(bytes[1..])
  }

  /** The byte that makes the record sum to zero modulo 256. */
  function Checksum(addr: word, bytes: seq<byte>): byte
    requires |bytes| < 0x100
  {
    (0x100 - (HeaderSum(|bytes|, addr, 0) + Sum(bytes)) % 0x100) % 0x100
  }

  /** Any record: its type, address, bytes and checksum byte. */
  function PrintTyped(code: byte, addr: word, bytes: seq<byte>, sum: byte): string
    requires |bytes| < 0x100
  {
    ":" + Hex2(|bytes|) + Hex4(addr) + Hex2(code) + HexBytes(bytes) + Hex2(sum)
  }

  /** A data record. */
  function PrintRecord(addr: word, bytes: seq<byte>): string
    requires |bytes| < 0x100
  {
    PrintTyped(0, addr, bytes, Checksum(addr, bytes))
  }

  const END_RECORD := ":00000001FF"

  lemma ScanPrinted2(b: byte, rest: string)
    ensures Scan2(Hex2(b) + rest) == Some(b)
  {
    var s := Hex2(b) + rest;
    assert s[..2] == Hex2(b);
    assert IsHex(s[..2][0]) && IsHex(s[..2][1]);
    TwoDigits(s);
  }

  lemma ScanPrinted4(w: word, rest: string)
    ensures Scan4(Hex4(w) + rest) == Some(w)
  {
    hide Scan2, Scan4;
    var s := Hex4(w) + rest;
    var hi, lo := Hex2(w / 0x100), Hex2(w % 0x100);
    assert s[..4] == hi + lo;
    FourDigits(s);
    assert s == hi + (lo + rest);
    ScanPrinted2(w / 0x100, lo + rest);
    assert s[2..] == lo + rest;
    ScanPrinted2(w % 0x100, rest);
  }

  lemma {:induction false} ScanPrintedBytes(bytes: seq<byte>, rest: string)
    ensures ScanBytes(HexBytes(bytes) + rest, |bytes|) == (bytes, true)
  {
    hide Scan2, Hex2;
    if bytes != [] {
      var s := HexBytes(bytes) + rest;
      var tail := HexBytes(bytes[1..]) + rest;
      assert s == Hex2(bytes[0]) + tail;
      ScanPrinted2(bytes[0], tail);
      assert s[2..] == tail;
      ScanPrintedBytes(bytes[1..], rest);
      assert [bytes[0]] + bytes[1..] == bytes;
    }
  }

  /** A printed record decodes to its address and bytes, with a good checksum, whatever ends its line. */
  lemma PrintedRecordDecodes(addr: word, bytes: seq<byte>, end: string)
    requires |bytes| < 0x100
    ensures Decode(PrintRecord(addr, bytes) + end) == Record(addr, |bytes|, Bytes(bytes, true))
  {
    hide Scan2, Scan4, ScanBytes, Hex2, Hex4, HexBytes, BaseBody;
    var n := |bytes|;
    var line := PrintRecord(addr, bytes) + end;
    var sum := Hex2(Checksum(addr, bytes)) + end;
    var data := HexBytes(bytes) + sum;
    assert line[1..] == Hex2(n) + (Hex4(addr) + (Hex2(0) + data));
    assert line[3..] == Hex4(addr) + (Hex2(0) + data);
    assert line[7..] == Hex2(0) + data;
    assert line[9..] == data;
    ScanPrinted2(n, Hex4(addr) + (Hex2(0) + data));
    ScanPrinted4(addr, Hex2(0) + data);
    ScanPrinted2(0, data);
    ScanPrintedBytes(bytes, sum);
    assert data[2 * n..] == sum;
    ScanPrinted2(Checksum(addr, bytes), end);
  }

  lemma EndRecordDecodes(end: string)
    ensures Decode(END_RECORD + end) == Record(0, 0, EndOfFile)
  {
    hide Scan2, Scan4, DataBody, BaseBody;
    var line := END_RECORD + end;
    assert line[1..] == "00" + ("0000" + ("01FF" + end)) && line[3..] == "0000" + ("01FF" + end)
        && line[7..] == "01" + ("FF" + end);
    TwoDigits(line[1..]);
    FourDigits(line[3..]);
    TwoDigits(line[3..]);
    TwoDigits(line[3..][2..]);
    TwoDigits(line[7..]);
  }

  predicate Printable(ps: seq<Placement>) {
    forall i :: 0 <= i < |ps| ==> |ps[i].bytes| < 0x100 && ps[i].at + |ps[i].bytes| < MAX_MEMORY_SIZE
  }

  /** A hex file: a line for each placement, and the end record. */
  function PrintFile(ps: seq<Placement>): string
    requires Printable(ps)
  {
    if ps == [] then END_RECORD + "\n"
    else PrintRecord(ps[0].at, ps[0].bytes) + "\n" + PrintFile(ps[1..])
  }

  // ---- A printed file falls into its lines ----

  /** Characters that neither end a line nor a string. */
  predicate Plain(s: string) {
    forall i :: 0 <= i < |s| ==> s[i] != '\n' && s[i] != '\0'
  }

  lemma {:induction false} FirstPlainLine(s: string, rest: string, limit: nat)
    requires Plain(s) && |s| < limit
    ensures FirstLine(s + "\n" + rest, limit) == s + "\n"
    decreases |s|
  {
    var text := s + "\n" + rest;
    if s == "" {
      assert text[0] == '\n';
    } else {
      assert text[1..] == s[1..] + "\n" + rest;
      FirstPlainLine(s[1..], rest, limit - 1);
      assert [s[0]] + (s[1..] + "\n") == s + "\n";
    }
  }

  lemma {:induction false} NoNul(s: string)
    requires Plain(s)
    ensures UpToNul(s + "\n") == s + "\n"
    decreases |s|
  {
    var line := s + "\n";
    if s == "" {
      assert line[1..] == "";
    } else {
      assert line[1..] == s[1..] + "\n";
      NoNul(s[1..]);
      assert [s[0]] + (s[1..] + "\n") == line;
    }
  }

  lemma PlainLineFirst(s: string, rest: string)
    requires Plain(s) && |s| < LINE_LIMIT
    ensures Lines(s + "\n" + rest) == [s + "\n"] + Lines(rest)
  {
    hide FirstLine, UpToNul;
    var text := s + "\n" + rest;
    FirstPlainLine(s, rest, LINE_LIMIT);
    NoNul(s);
    assert text[|s| + 1..] == rest;
  }

  lemma DigitIsPlain(v: nat)
    requires v < 16
    ensures Digit(v) != '\n' && Digit(v) != '\0'
  {
  }

  lemma PlainAppend(a: string, b: string)
    requires Plain(a) && Plain(b)
    ensures Plain(a + b)
  {
  }

  lemma Hex2Plain(b: byte)
    ensures Plain(Hex2(b))
  {
    DigitIsPlain(b / 16);
    DigitIsPlain(b % 16);
  }

  lemma {:induction false} HexBytesPlain(bytes: seq<byte>)
    ensures Plain(HexBytes(bytes))
  {
    hide Hex2, Plain;
    if bytes == [] {
      NothingPlain();
    } else {
      Hex2Plain(bytes[0]);
      HexBytesPlain(bytes[1..]);
      PlainAppend(Hex2(bytes[0]), HexBytes(bytes[1..]));
    }
  }

  lemma NothingPlain()
    ensures Plain("") && Plain(":") && Plain(END_RECORD)
  {
  }

  lemma TypedPlain(code: byte, addr: word, bytes: seq<byte>, sum: byte)
    requires |bytes| < 0x100
    ensures Plain(PrintTyped(code, addr, bytes, sum)) && |PrintTyped(code, addr, bytes, sum)| < LINE_LIMIT
  {
    hide Plain, Hex2, HexBytes;
    var n, hi, lo := Hex2(|bytes|), Hex2(addr / 0x100), Hex2(addr % 0x100);
    NothingPlain();
    Hex2Plain(|bytes|);
    Hex2Plain(addr / 0x100);
    Hex2Plain(addr % 0x100);
    Hex2Plain(code);
    HexBytesPlain(bytes);
    Hex2Plain(sum);
    PlainAppend(":", n);
    PlainAppend(hi, lo);
    PlainAppend(":" + n, hi + lo);
    PlainAppend(":" + n + (hi + lo), Hex2(code));
    PlainAppend(":" + n + (hi + lo) + Hex2(code), HexBytes(bytes));
    PlainAppend(":" + n + (hi + lo) + Hex2(code) + HexBytes(bytes), Hex2(sum));
  }

  lemma RecordPlain(addr: word, bytes: seq<byte>)
    requires |bytes| < 0x100
    ensures Plain(PrintRecord(addr, bytes)) && |PrintRecord(addr, bytes)| < LINE_LIMIT
  {
    hide Plain, PrintTyped;
    TypedPlain(0, addr, bytes, Checksum(addr, bytes));
  }

  /** Printing then parsing gives back the placements that were printed. */
  lemma {:induction false} PrintedFileMeans(ps: seq<Placement>)
    requires Printable(ps)
    ensures Placements(Lines(PrintFile(ps)), 0) == Some(ps)
    decreases |ps|
  {
    hide Decode, PrintRecord, Lines;
    if ps == [] {
      EndRecordDecodes("\n");
      NothingPlain();
      PlainLineFirst(END_RECORD, "");
      assert END_RECORD + "\n" + "" == END_RECORD + "\n";
    } else {
      var record := PrintRecord(ps[0].at, ps[0].bytes);
      PrintedRecordDecodes(ps[0].at, ps[0].bytes, "\n");
      RecordPlain(ps[0].at, ps[0].bytes);
      PlainLineFirst(record, PrintFile(ps[1..]));
      var lines := Lines(PrintFile(ps));
      assert lines[0] == record + "\n" && lines[1..] == Lines(PrintFile(ps[1..]));
      PrintedFileMeans(ps[1..]);
      assert [ps[0]] + ps[1..] == ps;
    }
  }

  // ---- Images ----

  /** An image: which addresses hold a byte, and which byte. */
  type Image = seq<Option<byte>>

  /** The bytes from `a` on that are present without a gap, at most `max` of them. */
  function Run(m: Image, a: nat, max: nat): (r: seq<byte>)
    requires a <= |m|
    ensures |r| <= max && a + |r| <= |m|
    ensures forall i :: 0 <= i < |r| ==> m[a + i] == Some(r[i])
    decreases max
  {
    if max == 0 || a == |m| || m[a].None? then []
    else [m[a].value] + Run(m, a + 1, max - 1)
  }

  const ROW := 16

  /** The image as data records of at most sixteen bytes. */
  function Rows(m: Image, a: nat): seq<Placement>
    requires a <= |m|
    decreases |m| - a
  {
    if a == |m| then []
    else if m[a].None? then Rows(m, a + 1)
    else
      var run := Run(m, a, ROW);
      assert |run| > 0 by { RunStarts(m, a); }
      [Placement(a, run)] + Rows(m, a + |run|)
  }

  lemma RunStarts(m: Image, a: nat)
    requires a < |m| && m[a].Some?
    ensures 0 < |Run(m, a, ROW)|
  {
  }

  lemma {:induction false} RowsSpell(m: Image, a: nat, x: nat)
    requires a <= |m|
    ensures LastWriter(Rows(m, a), x) == if a <= x < |m| then m[x] else None
    decreases |m| - a
  {
    hide Run, Rows, LastWriter;
    NextRow(m, a);
    if a < |m| {
      if m[a].None? {
        RowsSpell(m, a + 1, x);
      } else {
        var run := Run(m, a, ROW);
        RunStarts(m, a);
        RowsSpell(m, a + |run|, x);
        WriterStep(Placement(a, run), Rows(m, a + |run|), x);
        if a <= x < a + |run| {
          assert m[a + (x - a)] == Some(run[x - a]);
        }
      }
    } else {
      NoWriter(x);
    }
  }

  lemma NextRow(m: Image, a: nat)
    requires a <= |m|
    ensures Rows(m, a) ==
              if a == |m| then []
              else if m[a].None? then Rows(m, a + 1)
              else [Placement(a, Run(m, a, ROW))] + Rows(m, a + |Run(m, a, ROW)|)
  {
    hide Run;
  }

  lemma NoWriter(x: nat)
    ensures LastWriter([], x) == None
  {
  }

  lemma WriterStep(p: Placement, ps: seq<Placement>, x: nat)
    ensures LastWriter([p] + ps, x) ==
              if LastWriter(ps, x).Some? then LastWriter(ps, x)
              else if Covers(p, x) then Some(p.bytes[x - p.at]) else None
  {
    assert ([p] + ps)[1..] == ps;
  }

  lemma {:induction false} RowsPrintable(m: Image, a: nat)
    requires a <= |m| < MAX_MEMORY_SIZE
    ensures Printable(Rows(m, a))
    decreases |m| - a
  {
    hide Run;
    if a < |m| {
      if m[a].None? {
        RowsPrintable(m, a + 1);
      } else {
        RunStarts(m, a);
        RowsPrintable(m, a + |Run(m, a, ROW)|);
      }
    }
  }

  /** Print and parse round trip: any image below the loader's bound, printed as a text of checksummed rows, reads
      back as itself, with every other cell blank and unmarked. */
  lemma ImageRoundTrip(m: Image)
    requires |m| < MAX_MEMORY_SIZE
    ensures Printable(Rows(m, 0))
    ensures var (h, ok) := ParseLines(Empty(), Lines(PrintFile(Rows(m, 0))));
            && ok
            && forall a :: 0 <= a < MAX_MEMORY_SIZE ==>
                 && h.mask[a] == (a < |m| && m[a].Some?)
                 && h.image[a] == if a < |m| && m[a].Some? then m[a].value else BLANK
  {
    hide ParseLines, Rows, PrintFile, Placements, Lines;
    RowsPrintable(m, 0);
    var ps := Rows(m, 0);
    PrintedFileMeans(ps);
    FileMeaning(Empty(), Lines(PrintFile(ps)));
    var (h, ok) := ParseLines(Empty(), Lines(PrintFile(ps)));
    forall a | 0 <= a < MAX_MEMORY_SIZE
      ensures h.mask[a] == (a < |m| && m[a].Some?)
      ensures h.image[a] == if a < |m| && m[a].Some? then m[a].value else BLANK
    {
      RowsSpell(m, 0, a);
    }
  }
}
