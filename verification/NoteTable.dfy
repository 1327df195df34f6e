/** The MIDI tone generator's table of sounding notes, with its least-recently-used replacement. */
module NoteTable {
  import opened Avr
  import opened Modular

  /** A table entry; pitch zero means unused. */
  datatype Note = Note(age: byte, pitch: byte)

  const MAX_AGE: byte := 255

  function Older(n: Note): Note {
    n.(age := (n.age + 1) % 0x100)
  }

  /** The scan for a slot from entry `i` on; `lru` is the best entry so far. Ages go up as it passes. */
  function Scan(t: seq<Note>, i: nat, lru: nat): (r: (seq<Note>, nat))
    requires i <= |t| && lru < |t|
    ensures |r.0| == |t| && r.1 < |t|
    decreases |t| - i
  {
    if i == |t| then (t, lru)
    else if t[i].pitch == 0 then (t, i)
    else Scan(t[i := Older(t[i])], i + 1, if t[i].age >= t[lru].age then i else lru)
  }

  /** The slot a new note takes. */
  function Slot(t: seq<Note>): (k: nat)
    requires t != []
    ensures k < |t|
  {
    Scan(t, 0, 0).1
  }

  function NoteOn(t: seq<Note>, pitch: byte): (r: seq<Note>)
    requires t != []
    ensures |r| == |t|
  {
    var (aged, k) := Scan(t, 0, 0);
    aged[k := Note(0, pitch)]
  }

  function NoteOff(t: seq<Note>, pitch: byte): (r: seq<Note>)
    ensures |r| == |t|
  {
    seq(|t|, i requires 0 <= i < |t| => if t[i].pitch == pitch then t[i].(pitch := 0) else t[i])
  }

  predicate Sounding(t: seq<Note>) {
    exists i :: 0 <= i < |t| && t[i].pitch != 0
  }

  class Table {
    const notes: array<Note>

    constructor (notes: array<Note>)
      ensures this.notes == notes
    {
      this.notes := notes;
    }

    /** A note-on event for channel 0. */
    method PlayNote(pitch: byte)
      requires 0 < notes.Length <= 255
      modifies notes
      ensures notes[..] == NoteOn(old(notes[..]), pitch)
    {
      var lru := 0;
      var i := 0;
      ghost var whole := Scan(notes[..], 0, 0);
      while i < notes.Length
        invariant 0 <= i <= notes.Length && 0 <= lru < notes.Length
        invariant Scan(notes[..], i, lru) == whole
      {
        if notes[i].pitch == 0 {
          lru := i;
          break;
        } else if notes[i].age >= notes[lru].age {
          lru := i;
        }
        ghost var before := notes[..];
        notes[i] := Note((notes[i].age + 1) % 0x100, notes[i].pitch);
        assert notes[..] == before[i := Older(before[i])];
        i := i + 1;
      }
      assert whole == (notes[..], lru);
      notes[lru] := Note(0, pitch);
    }

    /** A note-off event; the result says whether any note still sounds. */
    method StopNote(pitch: byte) returns (active: bool)
      modifies notes
      ensures notes[..] == NoteOff(old(notes[..]), pitch)
      ensures active <==> Sounding(notes[..])
    {
      active := false;
      var i := 0;
      while i < notes.Length
        invariant 0 <= i <= notes.Length
        invariant forall j :: 0 <= j < i ==> notes[j] == NoteOff(old(notes[..]), pitch)[j]
        invariant forall j :: i <= j < notes.Length ==> notes[j] == old(notes[j])
        invariant active <==> exists j :: 0 <= j < i && notes[j].pitch != 0
      {
        if notes[i].pitch == pitch {
          notes[i] := notes[i].(pitch := 0);
        } else if notes[i].pitch != 0 {
          active := true;
        }
        i := i + 1;
      }
      assert forall j :: 0 <= j < notes.Length ==> notes[..][j] == notes[j];
    }
  }

  // ---- Which slot a full table gives up ----

  predicate Full(t: seq<Note>) {
    forall i :: 0 <= i < |t| ==> t[i].pitch != 0
  }

  /** The entries before `n` one step older. */
  function Aged(t: seq<Note>, n: nat): (r: seq<Note>)
    requires n <= |t|
    ensures |r| == |t|
  {
    seq(|t|, i requires 0 <= i < |t| => if i < n then Older(t[i]) else t[i])
  }

  /** The scan's choice among the first `n` entries of a full table. */
  function Best(t: seq<Note>, n: nat): (k: nat)
    requires 0 < n <= |t|
    ensures k < n
  {
    if n == 1 then 0
    else
      var k := Best(t, n - 1);
      if t[n - 1].age >= Older(t[k]).age then n - 1 else k
  }

  /** Over used entries the scan ages everything it passes and keeps `Best`. */
  lemma {:induction false} ScanPasses(t: seq<Note>, i: nat, end: nat)
    requires 0 < i <= end <= |t|
    requires forall j :: 0 <= j < end ==> t[j].pitch != 0
    ensures Scan(Aged(t, i), i, Best(t, i)) == Scan(Aged(t, end), end, Best(t, end))
    decreases end - i
  {
    if i < end {
      var a := Aged(t, i);
      assert a[i := Older(a[i])] == Aged(t, i + 1);
      assert a[Best(t, i)] == Older(t[Best(t, i)]);
      ScanPasses(t, i + 1, end);
    }
  }

  lemma FirstPass(t: seq<Note>)
    requires t != [] && t[0].pitch != 0
    ensures Scan(t, 0, 0) == Scan(Aged(t, 1), 1, Best(t, 1))
  {
    assert t[0 := Older(t[0])] == Aged(t, 1);
  }

  lemma ScanFull(t: seq<Note>)
    requires t != [] && Full(t)
    ensures Scan(t, 0, 0) == (Aged(t, |t|), Best(t, |t|))
  {
    FirstPass(t);
    ScanPasses(t, 1, |t|);
  }

  /** A free slot is taken as soon as the scan meets it. */
  lemma ScanFree(t: seq<Note>, n: nat)
    requires n < |t| && t[n].pitch == 0
    requires forall j :: 0 <= j < n ==> t[j].pitch != 0
    ensures Scan(t, 0, 0) == (Aged(t, n), n)
  {
    if n == 0 {
      assert Aged(t, 0) == t;
    } else {
      FirstPass(t);
      ScanPasses(t, 1, n);
    }
  }

  predicate Oldest(t: seq<Note>, k: nat)
    requires k < |t|
  {
    forall i :: 0 <= i < |t| ==> t[i].age <= t[k].age
  }

  lemma {:induction false} BestIsFirstOldest(t: seq<Note>, n: nat)
    requires 0 < n <= |t| && forall i :: 0 <= i < n ==> t[i].age != MAX_AGE
    ensures var k := Best(t, n);
            && (forall i :: 0 <= i < n ==> t[i].age <= t[k].age)
            && (forall i :: 0 <= i < k ==> t[i].age < t[k].age)
    decreases n
  {
    if n > 1 {
      BestIsFirstOldest(t, n - 1);
    }
  }

  lemma {:induction false} BestAfterOverflow(t: seq<Note>, n: nat)
    requires 0 < n <= |t|
    ensures t[n - 1].age == MAX_AGE ==> Best(t, n) == n - 1
    ensures t[n - 1].age != MAX_AGE && (exists i :: 0 <= i < n && t[i].age == MAX_AGE) ==> t[Best(t, n)].age != MAX_AGE
    decreases n
  {
    if n > 1 {
      BestAfterOverflow(t, n - 1);
      if t[n - 1].age != MAX_AGE {
        if i :| 0 <= i < n && t[i].age == MAX_AGE {
          assert i < n - 1;
        }
      }
    }
  }

  /** A full table gives up a slot of greatest age exactly when no age is at its limit of 255, or the last
      entry's is: the scan raises ages as it goes, so an earlier 255 wraps to 0 and is passed over. */
  lemma ReplacesOldest(t: seq<Note>)
    requires t != [] && Full(t)
    ensures Oldest(t, Slot(t)) <==> t[|t| - 1].age == MAX_AGE || forall i :: 0 <= i < |t| ==> t[i].age != MAX_AGE
  {
    ScanFull(t);
    BestAfterOverflow(t, |t|);
    if forall i :: 0 <= i < |t| ==> t[i].age != MAX_AGE {
      BestIsFirstOldest(t, |t|);
    } else {
      var i :| 0 <= i < |t| && t[i].age == MAX_AGE;
      assert t[|t| - 1].age != MAX_AGE ==> t[Slot(t)].age < t[i].age;
    }
  }

  // ---- Runs of note-on events ----

  /** The table after the notes, from a table with every entry unused. */
  function Played(t: seq<Note>, notes: seq<byte>): (r: seq<Note>)
    requires t != []
    ensures |r| == |t|
    decreases |notes|
  {
    if notes == [] then t else NoteOn(Played(t, notes[..|notes| - 1]), notes[|notes| - 1])
  }

  /** How many notes ago slot `i` was filled, after `k` notes. */
  function Age(k: nat, i: nat, size: nat): nat
    requires i < k && 0 < size
  {
    (k - 1 - i) % size
  }

  /** The note played `age` notes before the last one. */
  function AgedNote(notes: seq<byte>, age: nat): Note
    requires age < |notes| && age < 0x100
  {
    Note(age, notes[|notes| - 1 - age])
  }

  /** Slot `i` holds the note that filled it, aged by the number of notes since; or nothing yet. */
  predicate Holds(n: Note, i: nat, size: nat, notes: seq<byte>)
    requires 0 < size <= 255
  {
    if i < |notes| then
      var age := Age(|notes|, i, size);
      age < |notes| && age < size && n == AgedNote(notes, age)
    else n.pitch == 0
  }

  /** The table holds the most recent notes. */
  predicate Recent(t: seq<Note>, notes: seq<byte>) {
    0 < |t| <= 255 && forall i :: 0 <= i < |t| ==> Holds(t[i], i, |t|, notes)
  }

  lemma AgeStep(k: nat, i: nat, size: nat)
    requires i < k && 0 < size
    ensures Age(k + 1, i, size) == if Age(k, i, size) + 1 == size then 0 else Age(k, i, size) + 1
    ensures Age(k, i, size) < size && Age(k, i, size) <= k - 1 - i
  {
    ModSuccessor(k - 1 - i, size);
  }

  /** Slot k mod N is the one filled N notes ago, and the only one. */
  lemma OldestSlot(k: nat, i: nat, size: nat)
    requires i < size <= k
    ensures Age(k, i, size) == size - 1 <==> i == k % size
  {
    var r := k % size;
    assert (k - r) % size == 0 by {
      var q := k / size;
      assert k - r == size * q + 0;
      ModOfMultiple(q, 0, size);
    }
    AgeStep(k, i, size);
    if i < r {
      ModDistinct(k - r, k - i, size);
    } else if r < i {
      ModDistinct(k - i, k - r, size);
    }
  }

  /** A slot that is passed over gets one older; the chosen slot holds the new note. */
  lemma HoldsStep(n: Note, i: nat, size: nat, notes: seq<byte>, pitch: byte)
    requires 0 < size <= 255 && i < |notes| && Holds(n, i, size, notes)
    ensures n.age + 1 < size ==> Holds(Older(n), i, size, notes + [pitch])
    ensures n.age + 1 == size ==> Holds(Note(0, pitch), i, size, notes + [pitch])
    ensures n.age == Age(|notes|, i, size) < size && n.pitch in notes
  {
    hide Age;
    AgeStep(|notes|, i, size);
  }

  lemma StartsFree(t: seq<Note>, notes: seq<byte>, pitch: byte)
    requires Recent(t, notes) && |notes| < |t| && 0 !in notes
    ensures Slot(t) == |notes|
    ensures Recent(NoteOn(t, pitch), notes + [pitch])
  {
    hide Holds;
    var k, size := |notes|, |t|;
    forall i | 0 <= i < k
      ensures t[i].pitch != 0 && Holds(Older(t[i]), i, size, notes + [pitch])
    {
      HoldsStep(t[i], i, size, notes, pitch);
      NotOldestYet(k, i, size);
    }
    assert t[k].pitch == 0 by { UnusedSlot(t[k], k, size, notes); }
    ScanFree(t, k);
    forall i | 0 <= i < size
      ensures Holds(NoteOn(t, pitch)[i], i, size, notes + [pitch])
    {
      if i >= k {
        NewOrUnused(t[i], i, size, notes, pitch);
      }
    }
  }

  lemma NotOldestYet(k: nat, i: nat, size: nat)
    requires i < k < size
    ensures Age(k, i, size) + 1 < size
  {
    SmallMod(k - 1 - i, size);
  }

  lemma UnusedSlot(n: Note, i: nat, size: nat, notes: seq<byte>)
    requires 0 < size <= 255 && |notes| <= i && Holds(n, i, size, notes)
    ensures n.pitch == 0
  {
  }

  lemma NewOrUnused(n: Note, i: nat, size: nat, notes: seq<byte>, pitch: byte)
    requires |notes| <= i < size <= 255 && Holds(n, i, size, notes)
    ensures Holds(if i == |notes| then Note(0, pitch) else n, i, size, notes + [pitch])
  {
    SmallMod(0, size);
  }

  lemma ReplacesInTurn(t: seq<Note>, notes: seq<byte>, pitch: byte)
    requires Recent(t, notes) && |t| <= |notes| && 0 !in notes
    ensures Slot(t) == |notes| % |t|
    ensures Recent(NoteOn(t, pitch), notes + [pitch])
  {
    hide Holds, Age, Best;
    var k, size := |notes|, |t|;
    var s := k % size;
    forall i | 0 <= i < size
      ensures t[i].pitch != 0 && t[i].age < size && (t[i].age == size - 1 <==> i == s)
    {
      HoldsStep(t[i], i, size, notes, pitch);
      OldestSlot(k, i, size);
    }
    ScanFull(t);
    BestIsFirstOldest(t, size);
    assert t[s].age == size - 1;
    forall i | 0 <= i < size
      ensures Holds(NoteOn(t, pitch)[i], i, size, notes + [pitch])
    {
      HoldsStep(t[i], i, size, notes, pitch);
    }
  }

  /** In every run of note-on events from an unused table, the k-th note takes slot k mod N, so the oldest
      note is always the one replaced, and the table is the last N notes with ages 0 to N-1. */
  lemma {:induction false} NotesTakeTurns(t: seq<Note>, notes: seq<byte>)
    requires 0 < |t| <= 255 && (forall i :: 0 <= i < |t| ==> t[i].pitch == 0) && 0 !in notes
    ensures Recent(Played(t, notes), notes)
    ensures Slot(Played(t, notes)) == |notes| % |t|
    decreases |notes|
  {
    hide NoteOn, Slot;
    if notes != [] {
      var n := |notes| - 1;
      NotesTakeTurns(t, notes[..n]);
      assert notes[..n] + [notes[n]] == notes;
      TakesTurn(Played(t, notes[..n]), notes[..n], notes[n]);
    }
    TakesTurn(Played(t, notes), notes, 1);
  }

  lemma TakesTurn(t: seq<Note>, notes: seq<byte>, pitch: byte)
    requires Recent(t, notes) && 0 !in notes
    ensures Slot(t) == |notes| % |t|
    ensures Recent(NoteOn(t, pitch), notes + [pitch])
  {
    hide NoteOn, Slot, Recent;
    if |notes| < |t| {
      SmallMod(|notes|, |t|);
      StartsFree(t, notes, pitch);
    } else {
      ReplacesInTurn(t, notes, pitch);
    }
  }

  /** In every such run of at least N notes the ages are a permutation of 0 to N-1. */
  lemma AgesArePermutation(t: seq<Note>, notes: seq<byte>)
    requires 0 < |t| <= 255 && (forall i :: 0 <= i < |t| ==> t[i].pitch == 0) && 0 !in notes && |t| <= |notes|
    ensures var r := Played(t, notes);
            && (forall i :: 0 <= i < |r| ==> r[i].age < |r|)
            && (forall i, j :: 0 <= i < j < |r| ==> r[i].age != r[j].age)
  {
    hide Played;
    NotesTakeTurns(t, notes);
    RecentAges(Played(t, notes), notes);
  }

  lemma RecentAges(t: seq<Note>, notes: seq<byte>)
    requires Recent(t, notes) && |t| <= |notes|
    ensures forall i :: 0 <= i < |t| ==> t[i].age < |t|
    ensures forall i, j :: 0 <= i < j < |t| ==> t[i].age != t[j].age
  {
    forall i, j | 0 <= i < j < |t|
      ensures t[i].age != t[j].age
    {
      ModDistinct(|notes| - 1 - j, |notes| - 1 - i, |t|);
    }
    forall i | 0 <= i < |t|
      ensures t[i].age < |t|
    {
      assert Holds(t[i], i, |t|, notes);
    }
  }

  /** A note-off silences every entry of its pitch, and no other. */
  lemma OffSilences(t: seq<Note>, pitch: byte, i: nat)
    requires pitch != 0 && i < |t|
    ensures var r := NoteOff(t, pitch);
            && r[i].pitch != pitch && r[i].age == t[i].age
            && (t[i].pitch != pitch ==> r[i] == t[i]) && (t[i].pitch == pitch ==> r[i].pitch == 0)
  {
  }

  /** The tone is switched off exactly when the note-off's pitch was the only one sounding. */
  lemma OffEndsTone(t: seq<Note>, pitch: byte)
    ensures !Sounding(NoteOff(t, pitch)) <==> forall i :: 0 <= i < |t| ==> t[i].pitch == 0 || t[i].pitch == pitch
  {
    var r := NoteOff(t, pitch);
    assert forall i :: 0 <= i < |t| ==> (r[i].pitch == 0 <==> t[i].pitch == 0 || t[i].pitch == pitch);
    if !Sounding(r) {
      forall i | 0 <= i < |t| ensures t[i].pitch == 0 || t[i].pitch == pitch {
        assert r[i].pitch == 0;
      }
    }
  }

  // ---- Runs of note-on and note-off events ----

  datatype Event = On(pitch: byte) | Off(pitch: byte)

  function Happen(t: seq<Note>, e: Event): (r: seq<Note>)
    requires t != []
    ensures |r| == |t|
  {
    match e
    case On(pitch) => NoteOn(t, pitch)
    case Off(pitch) => NoteOff(t, pitch)
  }

  function Run(t: seq<Note>, es: seq<Event>): (r: seq<Note>)
    requires t != []
    ensures |r| == |t|
    decreases |es|
  {
    if es == [] then t else Run(Happen(t, es[0]), es[1..])
  }

  lemma {:induction false} RunAppend(t: seq<Note>, x: seq<Event>, y: seq<Event>)
    requires t != []
    ensures Run(t, x + y) == Run(Run(t, x), y)
    decreases |x|
  {
    hide Happen;
    if x == [] {
      assert x + y == y;
    } else {
      assert (x + y)[1..] == x[1..] + y;
      RunAppend(Happen(t, x[0]), x[1..], y);
    }
  }

  function NoteOns(es: seq<Event>): nat {
    if es == [] then 0 else (if es[0].On? then 1 else 0) + NoteOns(es[1..])
  }

  predicate NoOlder(t: seq<Note>, m: nat) {
    forall i :: 0 <= i < |t| ==> t[i].age <= m
  }

  lemma {:induction false} ScanAges(t: seq<Note>, i: nat, lru: nat, m: nat)
    requires i <= |t| && lru < |t| && m < MAX_AGE
    requires forall j :: 0 <= j < |t| ==> t[j].age <= if j < i then m + 1 else m
    ensures NoOlder(Scan(t, i, lru).0, m + 1)
    decreases |t| - i
  {
    if i < |t| && t[i].pitch != 0 {
      ScanAges(t[i := Older(t[i])], i + 1, if t[i].age >= t[lru].age then i else lru, m);
    }
  }

  /** A note-on makes nothing older by more than one step. */
  lemma OnAges(t: seq<Note>, pitch: byte, m: nat)
    requires t != [] && NoOlder(t, m) && m < MAX_AGE
    ensures NoOlder(NoteOn(t, pitch), m + 1)
  {
    hide Scan;
    ScanAges(t, 0, 0, m);
  }

  lemma {:induction false} RunAges(t: seq<Note>, es: seq<Event>, m: nat)
    requires t != [] && NoOlder(t, m) && m + NoteOns(es) <= MAX_AGE
    ensures NoOlder(Run(t, es), m + NoteOns(es))
    decreases |es|
  {
    hide NoteOn;
    if es != [] {
      match es[0]
      case On(pitch) =>
        OnAges(t, pitch, m);
        RunAges(NoteOn(t, pitch), es[1..], m + 1);
      case Off(pitch) =>
        assert NoOlder(NoteOff(t, pitch), m);
        RunAges(NoteOff(t, pitch), es[1..], m);
    }
  }

  /** A table in which no note has sounded yet. */
  predicate Fresh(t: seq<Note>) {
    t != [] && forall i :: 0 <= i < |t| ==> t[i] == Note(0, 0)
  }

  lemma FreshOff(t: seq<Note>, pitch: byte)
    requires Fresh(t)
    ensures NoteOff(t, pitch) == t
  {
  }

  lemma FreshOn(t: seq<Note>, pitch: byte)
    requires Fresh(t)
    ensures NoOlder(NoteOn(t, pitch), 0)
  {
    ScanFree(t, 0);
  }

  /** From a fresh table no age exceeds the number of note-ons less one. */
  lemma {:induction false} RunAgesFromFresh(t: seq<Note>, es: seq<Event>)
    requires Fresh(t) && NoteOns(es) <= MAX_AGE + 1
    ensures NoOlder(Run(t, es), if NoteOns(es) == 0 then 0 else NoteOns(es) - 1)
    decreases |es|
  {
    hide NoteOn, NoteOff;
    if es != [] {
      match es[0]
      case On(pitch) =>
        FreshOn(t, pitch);
        RunAges(NoteOn(t, pitch), es[1..], 0);
      case Off(pitch) =>
        FreshOff(t, pitch);
        RunAgesFromFresh(t, es[1..]);
    }
  }

  /** In every run of note-on and note-off events with at most 255 note-ons, a full table gives up a slot of
      greatest age. */
  lemma OldestFor255(t: seq<Note>, es: seq<Event>)
    requires Fresh(t) && NoteOns(es) <= 255 && Full(Run(t, es))
    ensures Oldest(Run(t, es), Slot(Run(t, es)))
  {
    hide Run, Slot;
    RunAgesFromFresh(t, es);
    ReplacesOldest(Run(t, es));
  }

  /** `k` times the same short note. */
  function Taps(pitch: byte, k: nat): seq<Event> {
    if k == 0 then [] else [On(pitch), Off(pitch)] + Taps(pitch, k - 1)
  }

  lemma {:induction false} TapsCount(pitch: byte, k: nat)
    ensures NoteOns(Taps(pitch, k)) == k
    decreases k
  {
    if k > 0 {
      TapsCount(pitch, k - 1);
      var es := Taps(pitch, k);
      assert es[1..][1..] == Taps(pitch, k - 1);
      assert NoteOns(es[1..]) == NoteOns(es[1..][1..]);
    }
  }

  /** A note held in slot 0 of a table that is otherwise free. */
  predicate Held(t: seq<Note>, a: byte) {
    1 < |t| && a != 0 && t[0].pitch == a && forall i :: 1 <= i < |t| ==> t[i].pitch == 0
  }

  lemma OneTap(t: seq<Note>, a: byte, b: byte)
    requires Held(t, a) && b != 0 && b != a
    ensures NoteOff(NoteOn(t, b), b) == t[0 := Older(t[0])][1 := Note(0, 0)]
  {
    ScanFree(t, 1);
  }

  /** A held note gains one step of age for every short note played beside it, modulo 256. */
  lemma {:induction false} HeldNoteAges(t: seq<Note>, a: byte, b: byte, k: nat)
    requires Held(t, a) && b != 0 && b != a
    ensures Held(Run(t, Taps(b, k)), a) && Run(t, Taps(b, k))[0].age == (t[0].age + k) % 0x100
    ensures forall i :: 2 <= i < |t| ==> Run(t, Taps(b, k))[i] == t[i]
    decreases k
  {
    hide NoteOn, NoteOff;
    if k > 0 {
      OneTap(t, a, b);
      var next := t[0 := Older(t[0])][1 := Note(0, 0)];
      var es := Taps(b, k);
      assert es[1..][1..] == Taps(b, k - 1);
      assert Run(t, es) == Run(NoteOn(t, b), es[1..]);
      assert Run(NoteOn(t, b), es[1..]) == Run(next, Taps(b, k - 1));
      HeldNoteAges(next, a, b, k - 1);
      StepsModulo(t[0].age, k);
    } else {
      assert t[0].age % 0x100 == t[0].age;
    }
  }

  lemma StepsModulo(age: byte, k: nat)
    requires 0 < k
    ensures ((age + 1) % 0x100 + (k - 1)) % 0x100 == (age + k) % 0x100
  {
  }

  const SILENT: seq<Note> := [Note(0, 0), Note(0, 0), Note(0, 0)]

  /** One note held while another is tapped 253 times, and then two more. */
  function LongHold(a: byte, b: byte, c: byte): seq<Event> {
    [On(a)] + Taps(b, 253) + [On(b), On(c)]
  }

  /** With 256 note-ons the promise fails in the source's table of three: the held note's age has reached 255,
      and the next note takes the slot of a younger one. */
  lemma HeldNoteOutlivesYounger(a: byte, b: byte, c: byte)
    requires a != 0 && b != 0 && c != 0 && a != b
    ensures var t := Run(SILENT, LongHold(a, b, c));
            && t == [Note(255, a), Note(1, b), Note(0, c)]
            && Full(t) && Slot(t) == 1 && !Oldest(t, Slot(t))
    ensures NoteOns(LongHold(a, b, c)) == 256
  {
    hide NoteOn, NoteOff, Scan, Run, Taps, NoteOns;
    var es := LongHold(a, b, c);
    var t1: seq<Note> := [Note(0, a), Note(0, 0), Note(0, 0)];
    assert Run(SILENT, [On(a)]) == t1 by { FirstNote(a); }
    RunAppend(SILENT, [On(a)], Taps(b, 253));
    RunAppend(SILENT, [On(a)] + Taps(b, 253), [On(b), On(c)]);
    HeldNoteAges(t1, a, b, 253);
    var t2 := Run(t1, Taps(b, 253));
    FillTable(t2, a, b, c);
    GivesUpYounger(a, b, c);
    CountLongHold(a, b, c);
  }

  lemma CountLongHold(a: byte, b: byte, c: byte)
    ensures NoteOns(LongHold(a, b, c)) == 256
  {
    hide NoteOns, Taps;
    NoteOnsAppend([On(a)] + Taps(b, 253), [On(b), On(c)]);
    NoteOnsAppend([On(a)], Taps(b, 253));
    TapsCount(b, 253);
    FewOns(a, b, c);
  }

  lemma FewOns(a: byte, b: byte, c: byte)
    ensures NoteOns([On(a)]) == 1 && NoteOns([On(b), On(c)]) == 2
  {
    assert [On(a)][1..] == [] && [On(b), On(c)][1..] == [On(c)] && [On(c)][1..] == [];
    assert NoteOns([On(c)]) == 1;
  }

  lemma {:induction false} NoteOnsAppend(x: seq<Event>, y: seq<Event>)
    ensures NoteOns(x + y) == NoteOns(x) + NoteOns(y)
  {
    if x == [] {
      assert x + y == y;
    } else {
      assert (x + y)[1..] == x[1..] + y;
      NoteOnsAppend(x[1..], y);
    }
  }

  lemma FirstNote(a: byte)
    ensures Run(SILENT, [On(a)]) == [Note(0, a), Note(0, 0), Note(0, 0)]
  {
    ScanFree(SILENT, 0);
    assert Aged(SILENT, 0) == SILENT;
    assert [On(a)][1..] == [];
  }

  lemma FillTable(t: seq<Note>, a: byte, b: byte, c: byte)
    requires |t| == 3 && Held(t, a) && t[0].age == 253 && b != 0 && c != 0
    ensures Run(t, [On(b), On(c)]) == [Note(255, a), Note(1, b), Note(0, c)]
  {
    hide Scan;
    ScanFree(t, 1);
    var u := NoteOn(t, b);
    assert u == [Note(254, a), Note(0, b), t[2]];
    ScanFree(u, 2);
    assert NoteOn(u, c) == [Note(255, a), Note(1, b), Note(0, c)];
    assert [On(b), On(c)][1..] == [On(c)] && [On(c)][1..] == [];
    assert Run(u, [On(c)]) == Run(NoteOn(u, c), []);
  }

  lemma GivesUpYounger(a: byte, b: byte, c: byte)
    requires a != 0 && b != 0 && c != 0
    ensures var t: seq<Note> := [Note(255, a), Note(1, b), Note(0, c)];
            Full(t) && Slot(t) == 1 && !Oldest(t, Slot(t))
  {
    var t: seq<Note> := [Note(255, a), Note(1, b), Note(0, c)];
    ScanFull(t);
    assert Best(t, 1) == 0 && Best(t, 2) == 1 && Best(t, 3) == 1;
    assert t[0].age > t[1].age;
  }
}
