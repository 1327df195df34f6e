/** Intel HEX text as the HID loader reads it: what one line says, what it does to the image being
    built, and what a whole file means. */
module Hex {
  import opened Avr
  import opened Optional

  const MAX_MEMORY_SIZE := 0x1_0000

  // ---- Hexadecimal fields ----

  predicate IsHex(c: char) {
    '0' <= c <= '9' || 'a' <= c <= 'f' || 'A' <= c <= 'F'
  }

  function Value(c: char): (v: nat)
    requires IsHex(c)
    ensures v < 16
  {
    if '0' <= c <= '9' then c as int - '0' as int
    else if 'a' <= c <= 'f' then c as int - 'a' as int + 10
    else c as int - 'A' as int + 10
  }

  /** At most `width` hexadecimal digits from the front of `s`, on top of `acc`. */
  function Digits(s: string, width: nat, acc: nat): nat
    decreases width
  {
    if width == 0 || s == "" || !IsHex(s[0]) then acc
    else Digits(s[1..], width - 1, 16 * acc + Value(s[0]))
  }

  /** sscanf of "%02x" and "%04x": fails unless the field starts with a digit. */
  function Scan2(s: string): Option<byte> {
    if s == "" || !IsHex(s[0]) then None
    else (Digits2(s); Some(Digits(s, 2, 0)))
  }

  function Scan4(s: string): Option<word> {
    if s == "" || !IsHex(s[0]) then None
    else (Digits4(s); Some(Digits(s, 4, 0)))
  }

  lemma {:induction false} DigitsBound(s: string, width: nat, acc: nat, limit: nat)
    requires acc < limit
    ensures Digits(s, width, acc) < Scaled(limit, width)
    decreases width
  {
    ScaledGrows(limit, width);
    if width > 0 && s != "" && IsHex(s[0]) {
      DigitsBound(s[1..], width - 1, 16 * acc + Value(s[0]), 16 * limit);
    }
  }

  function Scaled(limit: nat, width: nat): nat
    decreases width
  {
    if width == 0 then limit else Scaled(16 * limit, width - 1)
  }

  lemma {:induction false} ScaledGrows(limit: nat, width: nat)
    ensures limit <= Scaled(limit, width)
    decreases width
  {
    if width > 0 {
      ScaledGrows(16 * limit, width - 1);
    }
  }

  lemma Digits2(s: string)
    ensures Digits(s, 2, 0) < 0x100
  {
    DigitsBound(s, 2, 0, 1);
    assert Scaled(1, 2) == Scaled(16, 1) == Scaled(256, 0);
  }

  lemma Digits4(s: string)
    ensures Digits(s, 4, 0) < 0x1_0000
  {
    DigitsBound(s, 4, 0, 1);
    assert Scaled(1, 4) == Scaled(256, 2);
    assert Scaled(256, 2) == Scaled(65536, 0);
  }

  // ---- One line ----

  /** `Bytes` carries the data bytes up to the first unreadable one, and whether all of them were
      readable and the checksum holds. */
  datatype Body = Bytes(bytes: seq<byte>, ok: bool) | EndOfFile | SetBase(base: nat) | Ignored

  datatype Line = Malformed | Record(addr: word, len: byte, body: Body)

  /** The two-digit fields at the front of `s`, up to `n` of them, and whether all were readable. */
  function ScanBytes(s: string, n: nat): (r: (seq<byte>, bool))
    requires 2 * n <= |s|
    ensures |r.0| <= n && (r.1 <==> |r.0| == n)
    decreases n
  {
    if n == 0 then ([], true)
    else
      match Scan2(s)
      case None => ([], false)
      case Some(b) =>
        var (rest, ok) := ScanBytes(s[2..], n - 1);
        ([b] + rest, ok)
  }

  function Sum(bytes: seq<byte>): nat {
    if bytes == [] then 0 else bytes[0] + Sum(bytes[1..])
  }

  /** The sum of a record's length, address and type bytes. */
  function HeaderSum(len: byte, addr: word, code: byte): nat {
    len + addr / 0x100 + addr % 0x100 + code
  }

  function DataBody(s: string, len: byte, addr: word): Body
    requires 2 * len + 2 <= |s|
  {
    var (bytes, readable) := ScanBytes(s, len);
    var cksum := Scan2(s[2 * len..]);
    Bytes(bytes, readable && cksum.Some? && (HeaderSum(len, addr, 0) + Sum(bytes) + cksum.value) % 0x100 == 0)
  }

  /** A type 2 record gives a paragraph, a type 4 record the upper half of a linear address. */
  function NewBase(code: byte, i: word): nat {
    if code == 2 then i * 0x10 else i * 0x1_0000
  }

  /** Extended address records: one with an unreadable field or a wrong checksum is skipped. */
  function BaseBody(s: string, addr: word, code: byte): Body
    requires 6 <= |s|
  {
    var i := Scan4(s);
    var cksum := Scan2(s[4..]);
    if i.Some? && cksum.Some?
       && (HeaderSum(2, addr, code) + i.value / 0x100 + i.value % 0x100 + cksum.value) % 0x100 == 0
    then SetBase(NewBase(code, i.value))
    else Ignored
  }

  function Decode(line: string): Line {
    if |line| < 11 || line[0] != ':' then Malformed
    else
      var len := Scan2(line[1..]);
      var addr := Scan4(line[3..]);
      var code := Scan2(line[7..]);
      if len.None? || |line| < 11 + 2 * len.value || addr.None? || code.None? then Malformed
      else
        var s := line[9..];
        Record(addr.value, len.value,
               if code.value == 0 then DataBody(s, len.value, addr.value)
               else if code.value == 1 then EndOfFile
               else if code.value == 2 && len.value == 2 then BaseBody(s, addr.value, 2)
               else if code.value == 4 && len.value == 2 then BaseBody(s, addr.value, 4)
               else Ignored)
  }

  // ---- The loader's state ----

  datatype Loader = Loader(image: seq<byte>, mask: seq<bool>, endSeen: bool, byteCount: nat, base: nat)
  {
    predicate Valid() {
      |image| == MAX_MEMORY_SIZE && |mask| == MAX_MEMORY_SIZE
    }
  }

  function Empty(): (h: Loader)
    ensures h.Valid()
  {
    Loader(Blank(MAX_MEMORY_SIZE), seq(MAX_MEMORY_SIZE, _ => false), false, 0, 0)
  }

  function Marks(n: nat): (r: seq<bool>)
    ensures |r| == n
  {
    seq(n, _ => true)
  }

  function StoreBytes(h: Loader, at: nat, bytes: seq<byte>): (r: Loader)
    requires h.Valid() && at + |bytes| <= MAX_MEMORY_SIZE
    ensures r.Valid()
  {
    h.(image := Splice(h.image, at, bytes), mask := Splice(h.mask, at, Marks(|bytes|)))
  }

  /** A record that would end at or beyond the image limit under the current base. */
  predicate OutOfRange(h: Loader, r: Line)
    requires r.Record?
  {
    r.addr + h.base + r.len >= MAX_MEMORY_SIZE
  }

  /** parse_hex_line: the new state, and whether the line was accepted. */
  function ParseLine(h: Loader, line: string): (r: (Loader, bool))
    requires h.Valid()
    ensures r.0.Valid()
  {
    var d := Decode(line);
    if d.Malformed? || OutOfRange(h, d) then (h, false)
    else
      match d.body
      case EndOfFile => (h.(endSeen := true), true)
      case SetBase(b) => (h.(base := b), true)
      case Ignored => (h, true)
      case Bytes(bytes, ok) =>
        DecodedBytesFit(line);
        (StoreBytes(h.(byteCount := h.byteCount + d.len), d.addr + h.base, bytes), ok)
  }

  lemma DecodedBytesFit(line: string)
    ensures var d := Decode(line);
            d.Record? && d.body.Bytes? ==> |d.body.bytes| <= d.len && (d.body.ok ==> |d.body.bytes| == d.len)
  {
  }

  // ---- Lines of a file ----

  /** The size of the line buffer, less one for the terminator. */
  const LINE_LIMIT := 1023

  /** What fgets takes off the front of a text: up to and including the first line end, or as much as the
      buffer holds. */
  function FirstLine(text: string, limit: nat): (r: string)
    ensures r <= text && |r| <= limit
    ensures 0 < limit && text != "" ==> r != ""
    decreases limit
  {
    if limit == 0 || text == "" then ""
    else if text[0] == '\n' then "\n"
    else [text[0]] + FirstLine(text[1..], limit - 1)
  }

  /** A buffer as the string functions see it: up to the first NUL. */
  function UpToNul(s: string): string {
    if s == "" || s[0] == '\0' then "" else [s[0]] + UpToNul(s[1..])
  }

  /** The lines of a text in turn. */
  function Lines(text: string): seq<string>
    decreases |text|
  {
    if text == "" then []
    else
      var line := FirstLine(text, LINE_LIMIT);
      [UpToNul(line)] + Lines(text[|line|..])
  }

  /** read_intel_hex once the file is open: lines up to the end record, or to the first one refused. A line
      that starts with a NUL is skipped; any other line, a blank one included, must be a record. */
  function ParseLines(h: Loader, lines: seq<string>): (r: (Loader, bool))
    requires h.Valid()
    ensures r.0.Valid()
    decreases |lines|
  {
    if lines == [] then (h, true)
    else if lines[0] == "" then (if h.endSeen then (h, true) else ParseLines(h, lines[1..]))
    else
      var (next, ok) := ParseLine(h, lines[0]);
      if !ok then (next, false)
      else if next.endSeen then (next, true)
      else ParseLines(next, lines[1..])
  }

  // ---- What a file means ----

  /** Data placed at an absolute address. */
  datatype Placement = Placement(at: nat, bytes: seq<byte>)

  /** The data records before the end record, each shifted by the latest accepted base; None when some
      line before the end record is malformed, out of range or fails its checksum. */
  function Placements(lines: seq<string>, base: nat): Option<seq<Placement>>
    decreases |lines|
  {
    if lines == [] then Some([])
    else if lines[0] == "" then Placements(lines[1..], base)
    else
      match Decode(lines[0])
      case Malformed => None
      case Record(addr, len, body) =>
        if addr + base + len >= MAX_MEMORY_SIZE then None
        else
          match body
          case EndOfFile => Some([])
          case SetBase(b) => Placements(lines[1..], b)
          case Ignored => Placements(lines[1..], base)
          case Bytes(bytes, ok) =>
            if !ok then None
            else
              match Placements(lines[1..], base)
              case None => None
              case Some(rest) => Some([Placement(addr + base, bytes)] + rest)
  }

  predicate Covers(p: Placement, a: nat) {
    p.at <= a < p.at + |p.bytes|
  }

  /** The byte the last placement covering `a` puts there. */
  function LastWriter(ps: seq<Placement>, a: nat): Option<byte> {
    if ps == [] then None
    else
      var later := LastWriter(ps[1..], a);
      if later.Some? then later
      else if Covers(ps[0], a) then Some(ps[0].bytes[a - ps[0].at])
      else None
  }

  function TotalBytes(ps: seq<Placement>): nat {
    if ps == [] then 0 else |ps[0].bytes| + TotalBytes(ps[1..])
  }

  /** `h` holds `before`, overwritten by the placements. */
  ghost predicate Holds(h: Loader, before: Loader, ps: seq<Placement>)
    requires h.Valid() && before.Valid()
  {
    forall a :: 0 <= a < MAX_MEMORY_SIZE ==>
      && h.mask[a] == (before.mask[a] || LastWriter(ps, a).Some?)
      && h.image[a] == (if LastWriter(ps, a).Some? then LastWriter(ps, a).value else before.image[a])
  }

  lemma StoreThenRest(h: Loader, p: Placement, rest: seq<Placement>, final: Loader)
    requires h.Valid() && final.Valid() && p.at + |p.bytes| <= MAX_MEMORY_SIZE
    requires Holds(final, StoreBytes(h, p.at, p.bytes), rest)
    ensures Holds(final, h, [p] + rest)
  {
    var s := StoreBytes(h, p.at, p.bytes);
    var ps := [p] + rest;
    assert ps[1..] == rest;
    forall a | 0 <= a < MAX_MEMORY_SIZE
      ensures final.mask[a] == (h.mask[a] || LastWriter(ps, a).Some?)
      ensures final.image[a] == (if LastWriter(ps, a).Some? then LastWriter(ps, a).value else h.image[a])
    {
      StoredCell(h, p, a);
    }
  }

  lemma StoredCell(h: Loader, p: Placement, a: nat)
    requires h.Valid() && p.at + |p.bytes| <= MAX_MEMORY_SIZE && a < MAX_MEMORY_SIZE
    ensures var s := StoreBytes(h, p.at, p.bytes);
            && s.mask[a] == (h.mask[a] || Covers(p, a))
            && s.image[a] == if Covers(p, a) then p.bytes[a - p.at] else h.image[a]
  {
  }

  /** The meaning of a file: it is accepted exactly when every line before its end record is sound, and
      the loader then holds the last-writer-wins image of the data records and counts their bytes. */
  lemma {:induction false} FileMeaning(h: Loader, lines: seq<string>)
    requires h.Valid() && !h.endSeen
    ensures ParseLines(h, lines).1 <==> Placements(lines, h.base).Some?
    ensures ParseLines(h, lines).1 ==>
              var ps := Placements(lines, h.base).value;
              && Holds(ParseLines(h, lines).0, h, ps)
              && ParseLines(h, lines).0.byteCount == h.byteCount + TotalBytes(ps)
    decreases |lines|
  {
    hide Decode, Holds, StoreBytes;
    if lines == [] {
      HoldsNothing(h, h);
    } else if lines[0] == "" {
      FileMeaning(h, lines[1..]);
    } else {
      var (next, ok) := ParseLine(h, lines[0]);
      var d := Decode(lines[0]);
      if ok {
        match d.body
        case EndOfFile => HoldsNothing(next, h);
        case SetBase(b) =>
          FileMeaning(next, lines[1..]);
          SameCells(next, h);
        case Ignored => FileMeaning(next, lines[1..]);
        case Bytes(bytes, good) =>
          StepData(h, lines);
          FileMeaning(next, lines[1..]);
          if ParseLines(next, lines[1..]).1 {
            DecodedBytesFit(lines[0]);
            var rest := Placements(lines[1..], h.base).value;
            var p := Placement(d.addr + h.base, bytes);
            SameCounted(h, d.len, p, ParseLines(next, lines[1..]).0, rest);
            assert ([p] + rest)[1..] == rest;
          }
      }
    }
  }

  lemma StepData(h: Loader, lines: seq<string>)
    requires h.Valid() && !h.endSeen && lines != [] && lines[0] != ""
    requires Decode(lines[0]).Record? && Decode(lines[0]).body.Bytes? && ParseLine(h, lines[0]).1
    ensures var next := ParseLine(h, lines[0]).0;
            !next.endSeen && next.base == h.base && next.byteCount == h.byteCount + Decode(lines[0]).len
  {
    hide Decode;
  }

  lemma SameCounted(h: Loader, len: nat, p: Placement, final: Loader, rest: seq<Placement>)
    requires h.Valid() && final.Valid() && p.at + |p.bytes| <= MAX_MEMORY_SIZE
    requires Holds(final, StoreBytes(h.(byteCount := h.byteCount + len), p.at, p.bytes), rest)
    ensures Holds(final, h, [p] + rest)
  {
    var h' := h.(byteCount := h.byteCount + len);
    StoreThenRest(h', p, rest, final);
  }

  lemma HoldsNothing(h: Loader, before: Loader)
    requires h.Valid() && before.Valid() && h.image == before.image && h.mask == before.mask
    ensures Holds(h, before, [])
  {
  }

  lemma SameCells(h: Loader, before: Loader)
    requires h.Valid() && before.Valid() && h.image == before.image && h.mask == before.mask
    ensures forall final: Loader, ps :: final.Valid() && Holds(final, h, ps) ==> Holds(final, before, ps)
  {
  }

  // ---- What the programming loop asks of the image ----

  /** ihex_bytes_within_range */
  ghost predicate WithinRange(h: Loader, begin: int, end: int)
    requires h.Valid()
  {
    && 0 <= begin < MAX_MEMORY_SIZE && 0 <= end < MAX_MEMORY_SIZE
    && exists i :: begin <= i <= end && h.mask[i]
  }

  /** The byte wanted at an address: blank where the file says nothing. */
  function Wanted(h: Loader, a: nat): byte
    requires h.Valid() && a < MAX_MEMORY_SIZE
  {
    if h.mask[a] then h.image[a] else BLANK
  }

  /** ihex_get_data: a block that reaches the image limit comes back blank. */
  function GetData(h: Loader, addr: int, len: nat): (r: seq<byte>)
    requires h.Valid()
    ensures |r| == len
  {
    if addr < 0 || addr + len >= MAX_MEMORY_SIZE then Blank(len)
    else seq<byte>(len, i requires 0 <= i < len => Wanted(h, addr + i))
  }
}
