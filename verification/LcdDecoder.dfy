/** The serial-to-LCD project: an escape byte marks the next byte as a command for the display. */
module LcdDecoder {
  import opened Avr
  import opened Optional
  import opened Ring

  const COMMAND_ESCAPE: byte := 0x1B

  /** What the display is told to do. */
  datatype Op = WriteData(b: byte) | WriteCommand(b: byte)

  /** An unescaped escape byte sets the pending flag; any other byte clears it. */
  predicate PendingAfter(b: byte, pending: bool) {
    b == COMMAND_ESCAPE && !pending
  }

  /** The operation one byte causes, if any. */
  function OpOf(b: byte, pending: bool): seq<Op> {
    if PendingAfter(b, pending) then []
    else if pending && b != COMMAND_ESCAPE then [WriteCommand(b)]
    else [WriteData(b)]
  }

  /** The operations a byte stream stands for. */
  function Decode(bytes: seq<byte>, pending: bool): seq<Op> {
    if bytes == [] then [] else OpOf(bytes[0], pending) + Decode(bytes[1..], PendingAfter(bytes[0], pending))
  }

  /** Whether an escape is still pending at the end of a stream. */
  predicate Pending(bytes: seq<byte>, pending: bool) {
    if bytes == [] then pending else Pending(bytes[1..], PendingAfter(bytes[0], pending))
  }

  function EncodeOne(op: Op): seq<byte> {
    match op
    case WriteData(b) => if b == COMMAND_ESCAPE then [COMMAND_ESCAPE, COMMAND_ESCAPE] else [b]
    case WriteCommand(b) => [COMMAND_ESCAPE, b]
  }

  function Encode(ops: seq<Op>): seq<byte> {
    if ops == [] then [] else EncodeOne(ops[0]) + Encode(ops[1..])
  }

  /** Every operation can be sent except the command that is itself the escape byte. */
  predicate Sendable(ops: seq<Op>) {
    forall i :: 0 <= i < |ops| ==> ops[i] != WriteCommand(COMMAND_ESCAPE)
  }

  /** However a stream is split, the pieces decode to the same operations: the pending flag carries over. */
  lemma {:induction false} DecodeSplits(a: seq<byte>, b: seq<byte>, pending: bool)
    ensures Decode(a + b, pending) == Decode(a, pending) + Decode(b, Pending(a, pending))
    ensures Pending(a + b, pending) == Pending(b, Pending(a, pending))
  {
    if a == [] {
      assert a + b == b;
    } else {
      assert (a + b)[0] == a[0] && (a + b)[1..] == a[1..] + b;
      DecodeSplits(a[1..], b, PendingAfter(a[0], pending));
    }
  }

  /** The escape byte is 0x1B: doubled it is data, and before any other byte it makes that byte a command. */
  lemma EscapeByte(b: byte)
    ensures Decode([0x1B, 0x1B], false) == [WriteData(0x1B)]
    ensures b != 0x1B ==> Decode([0x1B, b], false) == [WriteCommand(b)] && Decode([b], false) == [WriteData(b)]
  {
    assert [0x1B, b][1..] == [b] && [b][1..] == [];
    assert Decode([b], true) == OpOf(b, true) + Decode([], false);
    assert [0x1B, 0x1B][1..] == [0x1B];
    assert Decode([0x1B], true) == OpOf(0x1B, true) + Decode([], false);
  }

  lemma DecodeOne(op: Op)
    requires op != WriteCommand(COMMAND_ESCAPE)
    ensures Decode(EncodeOne(op), false) == [op] && !Pending(EncodeOne(op), false)
  {
    var e := EncodeOne(op);
    if |e| == 2 {
      assert Decode(e[1..], true) == OpOf(e[1], true) + Decode(e[1..][1..], false);
      assert !Pending(e[1..], true);
    }
  }

  /** Decoding inverts the encoding, for every sequence of data bytes and commands other than the escape. */
  lemma {:induction false} DecodeInvertsEncode(ops: seq<Op>)
    requires Sendable(ops)
    ensures Decode(Encode(ops), false) == ops && !Pending(Encode(ops), false)
  {
    if ops != [] {
      DecodeOne(ops[0]);
      DecodeInvertsEncode(ops[1..]);
      DecodeSplits(EncodeOne(ops[0]), Encode(ops[1..]), false);
    }
  }

  function PendingByte(pending: bool): seq<byte> {
    if pending then [COMMAND_ESCAPE] else []
  }

  /** And encoding inverts decoding: every byte stream is the encoding of what it decodes to, with one
      escape left over when one is pending; so no two streams drive the display the same way. */
  lemma {:induction false} EncodeInvertsDecode(bytes: seq<byte>, pending: bool)
    ensures Encode(Decode(bytes, pending)) + PendingByte(Pending(bytes, pending)) == PendingByte(pending) + bytes
  {
    if bytes != [] {
      hide Decode, Pending, Encode;
      var next := PendingAfter(bytes[0], pending);
      EncodeInvertsDecode(bytes[1..], next);
      DecodeFirst(bytes, pending);
      EncodeFirst(bytes[0], pending, Decode(bytes[1..], next));
      Glue(bytes, pending, Encode(Decode(bytes[1..], next)), PendingByte(Pending(bytes[1..], next)));
    }
  }

  /** The bytes that one more byte accounts for: none while it only sets the flag. */
  function Accounted(b: byte, pending: bool): seq<byte> {
    if PendingAfter(b, pending) then [] else PendingByte(pending) + [b]
  }

  lemma EncodeFirst(b: byte, pending: bool, rest: seq<Op>)
    ensures Encode(OpOf(b, pending) + rest) == Accounted(b, pending) + Encode(rest)
  {
    if PendingAfter(b, pending) {
      assert OpOf(b, pending) + rest == rest;
    } else {
      EncodeStep(OpOf(b, pending)[0], rest);
      assert OpOf(b, pending) == [OpOf(b, pending)[0]];
    }
  }

  lemma Glue(bytes: seq<byte>, pending: bool, encoded: seq<byte>, tail: seq<byte>)
    requires bytes != []
    requires encoded + tail == PendingByte(PendingAfter(bytes[0], pending)) + bytes[1..]
    ensures Accounted(bytes[0], pending) + encoded + tail == PendingByte(pending) + bytes
  {
    var a := Accounted(bytes[0], pending);
    assert a + encoded + tail == a + (encoded + tail);
    assert bytes == [bytes[0]] + bytes[1..];
  }

  lemma DecodeNothing(pending: bool)
    ensures Decode([], pending) == [] && Pending([], pending) == pending
  {
  }

  lemma DecodeFirst(bytes: seq<byte>, pending: bool)
    requires bytes != []
    ensures Decode(bytes, pending) == OpOf(bytes[0], pending) + Decode(bytes[1..], PendingAfter(bytes[0], pending))
    ensures Pending(bytes, pending) == Pending(bytes[1..], PendingAfter(bytes[0], pending))
  {
  }

  lemma EncodeStep(op: Op, rest: seq<Op>)
    ensures Encode([op] + rest) == EncodeOne(op) + Encode(rest)
  {
    assert ([op] + rest)[1..] == rest;
  }

  class Display {
    const buffer: RingBuffer
    var escapePending: bool

    ghost predicate Valid()
      reads this, buffer, buffer.storage
    {
      buffer.Valid()
    }

    constructor (buffer: RingBuffer)
      requires buffer.Valid() && buffer.Contents() == []
      ensures Valid() && this.buffer == buffer && !escapePending
    {
      this.buffer := buffer;
      escapePending := false;
    }

    /** One pass of the main loop: takes a byte from the host if there is one and room for it, then
        decodes everything in the buffer. */
    method Pass(received: Option<byte>) returns (ops: seq<Op>)
      requires Valid() && buffer.Contents() == []
      modifies this, buffer, buffer.storage
      ensures Valid() && buffer.Contents() == []
      ensures ops == Decode(Bytes(received), old(escapePending))
      ensures escapePending == Pending(Bytes(received), old(escapePending))
    {
      var full := buffer.IsFull();
      if !full && received.Some? {
        buffer.Insert(received.value);
      }
      ops := Drain();
    }

    /** The inner loop: removes bytes until the buffer is empty. */
    method Drain() returns (ops: seq<Op>)
      requires Valid()
      modifies this, buffer
      ensures Valid() && buffer.Contents() == []
      ensures ops == Decode(old(buffer.Contents()), old(escapePending))
      ensures escapePending == Pending(old(buffer.Contents()), old(escapePending))
    {
      hide Queue, OpOf, Decode, Pending;
      ops := [];
      ghost var all, before := buffer.Contents(), escapePending;
      var count := buffer.GetCount();
      while count > 0
        invariant Valid() && count == |buffer.Contents()|
        invariant Decode(all, before) == ops + Decode(buffer.Contents(), escapePending)
        invariant Pending(all, before) == Pending(buffer.Contents(), escapePending)
        invariant buffer.storage[..] == old(buffer.storage[..])
      {
        ghost var contents, pending := buffer.Contents(), escapePending;
        var b := buffer.Remove();
        assert contents[1..] == buffer.Contents() && contents[0] == b;
        DecodeFirst(contents, pending);
        var op := Act(b);
        assert (ops + op) + Decode(contents[1..], escapePending) == ops + (op + Decode(contents[1..], escapePending));
        ops := ops + op;
        count := buffer.GetCount();
      }
      DecodeNothing(escapePending);
    }

    /** One byte: what the display is told, and the flag for the next byte. */
    method Act(b: byte) returns (op: seq<Op>)
      modifies this`escapePending
      ensures op == OpOf(b, old(escapePending)) && escapePending == PendingAfter(b, old(escapePending))
    {
      op := [];
      if b == COMMAND_ESCAPE {
        if escapePending {
          op := [WriteData(b)];
          escapePending := false;
        } else {
          escapePending := true;
        }
      } else {
        if escapePending {
          op := [WriteCommand(b)];
          escapePending := false;
        } else {
          op := [WriteData(b)];
        }
      }
    }

    /** The main loop over a number of passes, some with a byte and some without. */
    method Serve(arrivals: seq<Option<byte>>) returns (ops: seq<Op>)
      requires Valid() && buffer.Contents() == [] && !escapePending
      modifies this, buffer, buffer.storage
      ensures Valid() && buffer.Contents() == []
      ensures ops == Decode(Arrived(arrivals), false)
      ensures escapePending == Pending(Arrived(arrivals), false)
    {
      ops := [];
      var i := 0;
      while i < |arrivals|
        invariant 0 <= i <= |arrivals|
        invariant Valid() && buffer.Contents() == []
        invariant ops == Decode(Arrived(arrivals[..i]), false)
        invariant escapePending == Pending(Arrived(arrivals[..i]), false)
      {
        var more := Pass(arrivals[i]);
        ops := ops + more;
        ArrivedOneMore(arrivals, i);
        DecodeSplits(Arrived(arrivals[..i]), Bytes(arrivals[i]), false);
        i := i + 1;
      }
      assert arrivals[..i] == arrivals;
    }
  }

  function Bytes(arrival: Option<byte>): seq<byte> {
    if arrival.Some? then [arrival.value] else []
  }

  /** The bytes that arrived over a number of passes. */
  function Arrived(arrivals: seq<Option<byte>>): seq<byte> {
    if arrivals == [] then [] else Bytes(arrivals[0]) + Arrived(arrivals[1..])
  }

  lemma {:induction false} ArrivedAppend(a: seq<Option<byte>>, b: seq<Option<byte>>)
    ensures Arrived(a + b) == Arrived(a) + Arrived(b)
  {
    if a == [] {
      assert a + b == b;
    } else {
      assert (a + b)[0] == a[0] && (a + b)[1..] == a[1..] + b;
      ArrivedAppend(a[1..], b);
      hide Bytes;
      assert Bytes(a[0]) + (Arrived(a[1..]) + Arrived(b)) == Arrived(a) + Arrived(b);
    }
  }

  lemma ArrivedOneMore(arrivals: seq<Option<byte>>, i: nat)
    requires i < |arrivals|
    ensures Arrived(arrivals[..i + 1])
         == Arrived(arrivals[..i]) + Bytes(arrivals[i])
  {
    assert arrivals[..i + 1] == arrivals[..i] + [arrivals[i]];
    var last: seq<Option<byte>> := [arrivals[i]];
    ArrivedAppend(arrivals[..i], last);
    assert last[1..] == [];
  }
}
