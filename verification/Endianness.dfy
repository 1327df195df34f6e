/** Byte order reversal: the in-place loop for any length, and the 16- and 32-bit forms. */
module Endianness {

  function Reversed<T>(s: seq<T>): (r: seq<T>)
    ensures |r| == |s|
  {
    seq(|s|, i requires 0 <= i < |s| => s[|s| - 1 - i])
  }

  /** SwapEndian_n: swaps the ends and works inwards. */
  method SwapEndianN<T>(data: array<T>, length: nat)
    requires length <= data.Length
    modifies data
    ensures data[..length] == Reversed(old(data[..length]))
    ensures data[length..] == old(data[length..])
  {
    var pos, left := 0, length;
    while left > 1
      invariant 0 <= left && 2 * pos + left == length
      invariant forall i :: 0 <= i < pos ==> data[i] == old(data[length - 1 - i])
      invariant forall i :: pos <= i < pos + left ==> data[i] == old(data[i])
      invariant forall i :: pos + left <= i < length ==> data[i] == old(data[length - 1 - i])
      invariant data[length..] == old(data[length..])
    {
      var temp := data[pos];
      data[pos] := data[pos + left - 1];
      data[pos + left - 1] := temp;
      pos := pos + 1;
      left := left - 2;
    }
    assert left == 1 ==> length - 1 - pos == pos;
  }

  /** Reversing twice restores the data. */
  lemma ReversedTwice<T>(s: seq<T>)
    ensures Reversed(Reversed(s)) == s
  {
  }

  /** Swapping the same bytes twice is the identity on the whole array. */
  method SwapTwice<T>(data: array<T>, length: nat)
    requires length <= data.Length
    modifies data
    ensures data[..] == old(data[..])
  {
    ghost var before := data[..];
    SwapEndianN(data, length);
    SwapEndianN(data, length);
    ReversedTwice(before[..length]);
    assert before == before[..length] + before[length..];
    assert data[..] == data[..length] + data[length..];
  }

  // ---- Words ----

  /** The bytes of a word in memory, least significant first. */
  function Bytes16(x: bv16): seq<bv8> {
    [(x & 0xFF) as bv8, (x >> 8) as bv8]
  }

  function Word16(b: seq<bv8>): bv16
    requires |b| == 2
  {
    Join16(b[0], b[1])
  }

  function Bytes32(x: bv32): seq<bv8> {
    [(x & 0xFF) as bv8, ((x >> 8) & 0xFF) as bv8, ((x >> 16) & 0xFF) as bv8, (x >> 24) as bv8]
  }

  function Word32(b: seq<bv8>): bv32
    requires |b| == 4
  {
    Join32(b[0], b[1], b[2], b[3])
  }

  /** SWAPENDIAN_16 and SWAPENDIAN_32 */
  function SwapMacro16(x: bv16): bv16 {
    ((x & 0xFF00) >> 8) | ((x & 0x00FF) << 8)
  }

  function SwapMacro32(x: bv32): bv32 {
    ((x & 0xFF00_0000) >> 24) | ((x & 0x00FF_0000) >> 8) | ((x & 0x0000_FF00) << 8) | ((x & 0x0000_00FF) << 24)
  }

  /** SwapEndian_16: the union's two bytes exchanged. */
  method SwapEndian16(x: bv16) returns (r: bv16)
    ensures r == Word16(Reversed(Bytes16(x)))
  {
    var bytes := Bytes16(x);
    var temp := bytes[0];
    bytes := bytes[0 := bytes[1]];
    bytes := bytes[1 := temp];
    assert bytes == Reversed(Bytes16(x));
    r := Word16(bytes);
  }

  /** SwapEndian_32: the outer and the inner pair of bytes exchanged. */
  method SwapEndian32(x: bv32) returns (r: bv32)
    ensures r == Word32(Reversed(Bytes32(x)))
  {
    var bytes := Bytes32(x);
    var temp := bytes[0];
    bytes := bytes[0 := bytes[3]];
    bytes := bytes[3 := temp];
    temp := bytes[1];
    bytes := bytes[1 := bytes[2]];
    bytes := bytes[2 := temp];
    assert bytes == Reversed(Bytes32(x));
    r := Word32(bytes);
  }

  function Join16(lo: bv8, hi: bv8): bv16 {
    (lo as bv16) | ((hi as bv16) << 8)
  }

  function Join32(b0: bv8, b1: bv8, b2: bv8, b3: bv8): bv32 {
    (b0 as bv32) | ((b1 as bv32) << 8) | ((b2 as bv32) << 16) | ((b3 as bv32) << 24)
  }

  lemma Bits16(x: bv16)
    ensures SwapMacro16(x) == Join16((x >> 8) as bv8, (x & 0xFF) as bv8)
    ensures Join16((x & 0xFF) as bv8, (x >> 8) as bv8) == x
  {
  }

  lemma Bits32(x: bv32)
    ensures SwapMacro32(x)
         == Join32((x >> 24) as bv8, ((x >> 16) & 0xFF) as bv8, ((x >> 8) & 0xFF) as bv8, (x & 0xFF) as bv8)
    ensures Join32((x & 0xFF) as bv8, ((x >> 8) & 0xFF) as bv8, ((x >> 16) & 0xFF) as bv8, (x >> 24) as bv8) == x
  {
  }

  /** The mask-and-shift macros reverse the bytes too: all three forms agree at lengths 2 and 4. */
  lemma MacroReverses16(x: bv16)
    ensures SwapMacro16(x) == Word16(Reversed(Bytes16(x)))
    ensures Word16(Bytes16(x)) == x
  {
    hide SwapMacro16, Join16;
    Bits16(x);
    var b := Bytes16(x);
    assert Reversed(b) == [b[1], b[0]];
  }

  lemma MacroReverses32(x: bv32)
    ensures SwapMacro32(x) == Word32(Reversed(Bytes32(x)))
    ensures Word32(Bytes32(x)) == x
  {
    hide SwapMacro32, Join32;
    Bits32(x);
    var b := Bytes32(x);
    assert Reversed(b) == [b[3], b[2], b[1], b[0]];
  }
}
