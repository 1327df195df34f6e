/** The byte ring buffer: the stores its operations are made of, and the operations one after another. */
module Ring {
  import opened Avr
  import opened Modular

  // ---- The buffer ----

  /** In, Out and Count over a storage array; the pointers are kept as offsets from Start, so End is
      the size. */
  datatype Buffer = Buffer(data: seq<byte>, inPos: nat, outPos: nat, count: int)

  // The individual stores of Insert and Remove

  function StoreByte(r: Buffer, b: byte): Buffer
    requires r.inPos < |r.data|
  {
    r.(data := r.data[r.inPos := b])
  }

  function AdvanceIn(r: Buffer): Buffer { r.(inPos := r.inPos + 1) }
  function WrapIn(r: Buffer): Buffer { if r.inPos == |r.data| then r.(inPos := 0) else r }
  function CountUp(r: Buffer): Buffer { r.(count := r.count + 1) }
  function AdvanceOut(r: Buffer): Buffer { r.(outPos := r.outPos + 1) }
  function WrapOut(r: Buffer): Buffer { if r.outPos == |r.data| then r.(outPos := 0) else r }
  function CountDown(r: Buffer): Buffer { r.(count := r.count - 1) }

  /** RingBuffer_Insert and RingBuffer_Remove run without interruption. */
  function InsertWhole(r: Buffer, b: byte): Buffer
    requires r.inPos < |r.data|
  {
    CountUp(WrapIn(AdvanceIn(StoreByte(r, b))))
  }

  function RemoveWhole(r: Buffer): Buffer {
    CountDown(WrapOut(AdvanceOut(r)))
  }

  /** The buffer as a queue: it holds `written[read..]`, where `written` is everything ever inserted. */
  ghost predicate Queue(r: Buffer, written: seq<byte>, read: nat) {
    && 0 < |r.data|
    && read <= |written| <= read + |r.data|
    && r.count == |written| - read
    && r.inPos == |written| % |r.data| && r.outPos == read % |r.data|
    && Stored(r.data, written, read)
  }

  /** Every byte written but not read is in its slot. */
  ghost predicate Stored(data: seq<byte>, written: seq<byte>, read: nat) {
    0 < |data| && forall k: nat :: read <= k < |written| ==> data[k % |data|] == written[k]
  }

  /** Storing at the next slot leaves every unread byte where it was. */
  lemma StoreKeepsUnread(data: seq<byte>, written: seq<byte>, read: nat, b: byte)
    requires Stored(data, written, read) && read <= |written| < read + |data|
    ensures Stored(data[|written| % |data| := b], written + [b], read)
    ensures Stored(data[|written| % |data| := b], written, read)
  {
    var n := |written|;
    forall k: nat | read <= k < n
      ensures k % |data| != n % |data|
    {
      ModDistinct(k, n, |data|);
    }
  }

  /** The buffer used from one thread at a time. */
  class RingBuffer {
    const storage: array<byte>
    var inPos: nat
    var outPos: nat
    var count: int
    ghost var written: seq<byte>
    ghost var read: nat

    ghost function View(): Buffer
      reads this, storage
    {
      Buffer(storage[..], inPos, outPos, count)
    }

    ghost predicate Valid()
      reads this, storage
    {
      Queue(View(), written, read)
    }

    ghost function Contents(): seq<byte>
      requires Valid()
      reads this, storage
    {
      written[read..]
    }

    constructor (storage: array<byte>)
      requires 0 < storage.Length
      ensures Valid() && Contents() == [] && this.storage == storage
    {
      this.storage := storage;
      inPos, outPos, count := 0, 0, 0;
      written, read := [], 0;
    }

    method GetCount() returns (n: nat)
      requires Valid()
      ensures n == |Contents()| <= storage.Length
    {
      n := count;
    }

    method GetFreeCount() returns (n: nat)
      requires Valid()
      ensures n == storage.Length - |Contents()|
    {
      n := storage.Length - count;
    }

    method IsEmpty() returns (empty: bool)
      requires Valid()
      ensures empty <==> Contents() == []
    {
      empty := count == 0;
    }

    method IsFull() returns (full: bool)
      requires Valid()
      ensures full <==> |Contents()| == storage.Length
    {
      full := count == storage.Length;
    }

    method Insert(b: byte)
      requires Valid() && |Contents()| < storage.Length
      modifies this, storage
      ensures Valid() && Contents() == old(Contents()) + [b]
      ensures View() == InsertWhole(old(View()), b)
    {
      StoreKeepsUnread(storage[..], written, read, b);
      ModSuccessor(|written|, storage.Length);
      storage[inPos] := b;
      inPos := inPos + 1;
      if inPos == storage.Length {
        inPos := 0;
      }
      count := count + 1;
      written := written + [b];
    }

    method Remove() returns (b: byte)
      requires Valid() && Contents() != []
      modifies this
      ensures Valid() && [b] + Contents() == old(Contents()) && storage[..] == old(storage[..])
      ensures View() == RemoveWhole(old(View()))
    {
      ModSuccessor(read, storage.Length);
      b := storage[outPos];
      outPos := outPos + 1;
      if outPos == storage.Length {
        outPos := 0;
      }
      count := count - 1;
      read := read + 1;
    }

    method Peek() returns (b: byte)
      requires Valid() && Contents() != []
      ensures b == Contents()[0]
    {
      b := storage[outPos];
    }
  }
}
