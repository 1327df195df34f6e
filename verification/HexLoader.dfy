/** The Intel HEX reader as the source writes it: global arrays filled while a line is being scanned. */
module HexLoader {
  import opened Avr
  import opened Hex
  import opened Optional

  class Reader {
    const image: array<byte>
    const mask: array<bool>
    var endRecordSeen: bool
    var byteCount: nat
    var extendedAddr: nat

    ghost predicate Valid()
      reads this
    {
      image.Length == MAX_MEMORY_SIZE && mask.Length == MAX_MEMORY_SIZE
    }

    ghost function View(): (h: Loader)
      requires Valid()
      reads this, image, mask
      ensures h.Valid()
    {
      Loader(image[..], mask[..], endRecordSeen, byteCount, extendedAddr)
    }

    constructor ()
      ensures Valid() && fresh(image) && fresh(mask)
    {
      image := new byte[MAX_MEMORY_SIZE];
      mask := new bool[MAX_MEMORY_SIZE];
      endRecordSeen, byteCount, extendedAddr := false, 0, 0;
    }

    /** Reads a file line by line, or fails if there is none; the result is the number of data bytes,
        or negative. */
    method ReadIntelHex(file: Option<string>) returns (n: int)
      requires Valid()
      modifies this, image, mask
      ensures Valid()
      ensures file.None? ==> n == -1 && View() == Empty()
      ensures file.Some? ==>
                && View() == ParseLines(Empty(), Lines(file.value)).0
                && n == if ParseLines(Empty(), Lines(file.value)).1 then byteCount else -2
    {
      hide FirstLine, UpToNul;
      Reset();
      if file.None? {
        return -1;
      }
      var rest := file.value;
      while rest != ""
        invariant Valid() && !endRecordSeen
        invariant ParseLines(View(), Lines(rest)) == ParseLines(Empty(), Lines(file.value))
        decreases |rest|
      {
        var taken := FirstLine(rest, LINE_LIMIT);
        var buf := UpToNul(taken);
        ghost var lines := Lines(rest);
        rest := rest[|taken|..];
        assert lines[0] == buf && lines[1..] == Lines(rest);
        if buf != "" {
          var ok := ParseHexLine(buf);
          if !ok {
            return -2;
          }
        }
        if endRecordSeen {
          return byteCount;
        }
      }
      n := byteCount;
    }

    method Reset()
      requires Valid()
      modifies this, image, mask
      ensures Valid() && View() == Empty()
    {
      byteCount, endRecordSeen, extendedAddr := 0, false, 0;
      var i := 0;
      while i < MAX_MEMORY_SIZE
        invariant 0 <= i <= MAX_MEMORY_SIZE
        invariant byteCount == 0 && !endRecordSeen && extendedAddr == 0
        invariant forall j :: 0 <= j < i ==> image[j] == BLANK && !mask[j]
      {
        image[i] := BLANK;
        mask[i] := false;
        i := i + 1;
      }
      assert image[..] == Empty().image && mask[..] == Empty().mask;
    }

    method ParseHexLine(line: string) returns (ok: bool)
      requires Valid()
      modifies this, image, mask
      ensures Valid()
      ensures View() == ParseLine(old(View()), line).0
      ensures ok == ParseLine(old(View()), line).1
    {
      hide Scan2, Scan4, ScanBytes;
      if |line| < 11 || line[0] != ':' {
        return false;
      }
      var len := Scan2(line[1..]);
      if len.None? || |line| < 11 + 2 * len.value {
        return false;
      }
      var addr := Scan4(line[3..]);
      if addr.None? {
        return false;
      }
      var code := Scan2(line[7..]);
      if code.None? || addr.value + extendedAddr + len.value >= MAX_MEMORY_SIZE {
        return false;
      }
      var ptr := line[9..];
      var sum := len.value + addr.value / 0x100 + addr.value % 0x100 + code.value;
      if code.value != 0 {
        if code.value == 1 {
          endRecordSeen := true;
          return true;
        }
        if code.value == 2 && len.value == 2 {
          SetExtendedAddress(ptr, sum, code.value);
        } else if code.value == 4 && len.value == 2 {
          SetExtendedAddress(ptr, sum, code.value);
        }
        return true;
      }
      ok := ReadData(ptr, len.value, addr.value, sum);
    }

    /** An extended address record takes effect only if it is readable and its checksum holds. */
    method SetExtendedAddress(ptr: string, headerSum: nat, code: byte)
      requires Valid() && 6 <= |ptr|
      modifies this`extendedAddr
      ensures var i := Scan4(ptr);
              var cksum := Scan2(ptr[4..]);
              extendedAddr ==
                if i.Some? && cksum.Some? && (headerSum + i.value / 0x100 + i.value % 0x100 + cksum.value) % 0x100 == 0
                then NewBase(code, i.value) else old(extendedAddr)
    {
      hide Scan2, Scan4;
      var i := Scan4(ptr);
      if i.None? {
        return;
      }
      var sum := headerSum + i.value / 0x100 + i.value % 0x100;
      var cksum := Scan2(ptr[4..]);
      if cksum.Some? {
        SumModulo(sum, cksum.value);
      }
      if cksum.None? || (sum % 0x100 + cksum.value) % 0x100 != 0 {
        return;
      }
      var segment: nat := i.value;
      extendedAddr := if code == 2 then segment * 0x10 else segment * 0x1_0000;
    }

    /** The data bytes go into the image as they are read, before the checksum is known. */
    method ReadData(ptr: string, len: byte, addr: word, headerSum: nat) returns (ok: bool)
      requires Valid() && 2 * len + 2 <= |ptr| && addr + extendedAddr + len < MAX_MEMORY_SIZE
      requires headerSum == HeaderSum(len, addr, 0)
      modifies this`byteCount, image, mask
      ensures Valid()
      ensures View() == StoreBytes(old(View()).(byteCount := old(byteCount) + len),
                                 addr + extendedAddr, ScanBytes(ptr, len).0)
      ensures DataBody(ptr, len, addr) == Bytes(ScanBytes(ptr, len).0, ok)
    {
      hide Scan2, Sum, Splice, ScanBytes, HeaderSum, DataBody;
      DataVerdict(ptr, len, addr);
      byteCount := byteCount + len;
      var readable, dataSum := StoreData(ptr, len, addr + extendedAddr);
      var cksum := Scan2(ptr[2 * len..]);
      if !readable || cksum.None? {
        return false;
      }
      SumModulo(headerSum + dataSum, cksum.value);
      ok := ((headerSum + dataSum) % 0x100 + cksum.value) % 0x100 == 0;
    }

    /** The byte loop; it stops at the first unreadable byte. */
    method StoreData(start: string, len: byte, at: nat) returns (readable: bool, sum: nat)
      requires Valid() && 2 * len + 2 <= |start| && at + len < MAX_MEMORY_SIZE
      modifies image, mask
      ensures View() == StoreBytes(old(View()), at, ScanBytes(start, len).0)
      ensures readable == ScanBytes(start, len).1 && sum == Sum(ScanBytes(start, len).0)
    {
      hide Scan2, Sum, Splice, Marks, ScanBytes;
      var num := 0;
      var ptr := start;
      sum := 0;
      ghost var (all, complete) := ScanBytes(start, len);
      assert start[0..] == start && all[0..] == all && all[..0] == [];
      SumOfNothing();
      StoreNothing(image[..], at);
      StoreNothing(mask[..], at);
      assert Marks(0) == [];
      while num != len
        invariant 0 <= num <= |all| <= len
        invariant ptr == start[2 * num..]
        invariant ScanBytes(ptr, len - num) == (all[num..], complete)
        invariant image[..] == Splice(old(image[..]), at, all[..num])
        invariant mask[..] == Splice(old(mask[..]), at, Marks(num))
        invariant sum == Sum(all[..num])
        decreases len - num
      {
        var i := Scan2(ptr);
        ScanStep(ptr, len - num);
        if i.None? {
          assert all[..num] == all;
          return false, sum;
        }
        ghost var rest := ScanBytes(ptr[2..], len - num - 1).0;
        assert all[num..] == [i.value] + rest;
        assert all[num + 1..] == all[num..][1..] == rest;
        StoreOneMore(old(image[..]), at, all[..num], i.value);
        StoreOneMore(old(mask[..]), at, Marks(num), true);
        assert all[..num + 1] == all[..num] + [i.value];
        OneMoreMark(num);
        SumOneMore(all[..num], i.value);
        image[at + num] := i.value;
        mask[at + num] := true;
        ptr := ptr[2..];
        sum := sum + i.value;
        num := num + 1;
      }
      assert all[..num] == all;
      readable := true;
    }

    method BytesWithinRange(begin: int, end: int) returns (found: bool)
      requires Valid()
      ensures found <==> WithinRange(View(), begin, end)
    {
      if begin < 0 || begin >= MAX_MEMORY_SIZE || end < 0 || end >= MAX_MEMORY_SIZE {
        return false;
      }
      var i := begin;
      while i <= end
        invariant begin <= i && (i <= end + 1 || i == begin)
        invariant forall j :: begin <= j < i ==> !mask[j]
      {
        if mask[i] {
          assert View().mask[i];
          return true;
        }
        i := i + 1;
      }
      assert forall j :: begin <= j <= end ==> !View().mask[j];
      found := false;
    }

    /** Copies a block of the image into `bytes` from `offset` on. */
    method CopyData(addr: int, len: nat, bytes: array<byte>, offset: nat)
      requires Valid() && offset + len <= bytes.Length && bytes != image
      modifies bytes
      ensures bytes[..] == Splice(old(bytes[..]), offset, GetData(View(), addr, len))
    {
      hide GetData, Splice;
      ghost var data := GetData(View(), addr, len);
      DataBytes(View(), addr, len);
      StoreNothing(bytes[..], offset);
      var i := 0;
      if addr < 0 || addr + len >= MAX_MEMORY_SIZE {
        while i < len
          invariant 0 <= i <= len
          invariant bytes[..] == Splice(old(bytes[..]), offset, data[..i])
        {
          StoreOneMore(old(bytes[..]), offset, data[..i], BLANK);
          assert data[..i + 1] == data[..i] + [BLANK];
          bytes[offset + i] := BLANK;
          i := i + 1;
        }
      } else {
        var a := addr;
        while i < len
          invariant 0 <= i <= len && a == addr + i
          invariant View() == old(View())
          invariant bytes[..] == Splice(old(bytes[..]), offset, data[..i])
        {
          var b: byte := if mask[a] then image[a] else BLANK;
          StoreOneMore(old(bytes[..]), offset, data[..i], b);
          assert b == Wanted(View(), addr + i);
          assert data[..i + 1] == data[..i] + [b];
          bytes[offset + i] := b;
          a := a + 1;
          i := i + 1;
        }
      }
      assert data[..len] == data;
    }
  }

  lemma DataVerdict(s: string, len: byte, addr: word)
    requires 2 * len + 2 <= |s|
    ensures var cksum := Scan2(s[2 * len..]);
            DataBody(s, len, addr)
            == Bytes(ScanBytes(s, len).0,
                     ScanBytes(s, len).1 && cksum.Some?
                     && (HeaderSum(len, addr, 0) + Sum(ScanBytes(s, len).0) + cksum.value) % 0x100 == 0)
  {
    hide Scan2, Sum, ScanBytes, HeaderSum;
  }

  lemma DataBytes(h: Loader, addr: int, len: nat)
    requires h.Valid()
    ensures var data := GetData(h, addr, len);
            forall i :: 0 <= i < len ==>
              data[i] == if addr < 0 || addr + len >= MAX_MEMORY_SIZE then BLANK else Wanted(h, addr + i)
  {
  }

  lemma SumModulo(a: nat, b: nat)
    ensures (a % 0x100 + b) % 0x100 == (a + b) % 0x100
  {
  }

  lemma SumOfNothing()
    ensures Sum([]) == 0
  {
  }

  lemma {:induction false} SumOneMore(bytes: seq<byte>, b: byte)
    ensures Sum(bytes + [b]) == Sum(bytes) + b
  {
    if bytes == [] {
      assert [b][1..] == [];
    } else {
      assert (bytes + [b])[1..] == bytes[1..] + [b];
      SumOneMore(bytes[1..], b);
    }
  }

  lemma ScanStep(s: string, n: nat)
    requires 0 < n && 2 * n <= |s|
    ensures ScanBytes(s, n) == match Scan2(s)
                               case None => ([], false)
                               case Some(b) => ([b] + ScanBytes(s[2..], n - 1).0, ScanBytes(s[2..], n - 1).1)
  {
    hide Scan2;
  }

  lemma OneMoreMark(n: nat)
    ensures Marks(n + 1) == Marks(n) + [true]
  {
  }

  lemma StoreNothing<T>(cells: seq<T>, at: nat)
    requires at <= |cells|
    ensures Splice(cells, at, []) == cells
  {
  }

  lemma StoreOneMore<T>(cells: seq<T>, at: nat, values: seq<T>, v: T)
    requires at + |values| < |cells|
    ensures Splice(cells, at, values)[at + |values| := v] == Splice(cells, at, values + [v])
  {
  }
}
