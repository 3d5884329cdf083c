/** The v2 line cache (hdl/little64_cores/v2/cache.py): direct-mapped 64-bit lines with one
    prioritised command a cycle. */
module LineCache {
  import opened Words
  import opened Beats

  datatype Slot = Slot(valid: bool, tag: nat, data: Line)

  /** The command inputs of one cycle; a flush beats an invalidate beats an update beats a fill. */
  datatype Commands = Commands(
    flushAll: bool,
    invalidateValid: bool, invalidateAddr: Word,
    storeUpdateValid: bool, storeUpdateAddr: Word, storeUpdateSel: Select, storeUpdateData: Line,
    fillValid: bool, fillAddr: Word, fillData: Line
  )

  /** The line number, which is both the tag and, in its low bits, the index. */
  function LineOf(a: Word): nat { a / 8 }

  function Merge(line: Line, sel: Select, data: Line): Line {
    seq(8, k requires 0 <= k < 8 => if sel[k] then data[k] else line[k])
  }

  function NextSlot(n: nat, index: nat, s: Slot, c: Commands): Slot
    requires n > 0
  {
    if c.flushAll then s.(valid := false)
    else if c.invalidateValid then
      if LineOf(c.invalidateAddr) % n == index && s.valid && s.tag == LineOf(c.invalidateAddr) then s.(valid := false) else s
    else if c.storeUpdateValid then
      if LineOf(c.storeUpdateAddr) % n == index && s.valid && s.tag == LineOf(c.storeUpdateAddr)
      then s.(data := Merge(s.data, c.storeUpdateSel, c.storeUpdateData)) else s
    else if c.fillValid && LineOf(c.fillAddr) % n == index then Slot(true, LineOf(c.fillAddr), c.fillData)
    else s
  }

  datatype Lookup = Miss | Hit(data: Line)

  /** The cache of `entries` slots as a clocked object. */
  class Cache {
    var valid: array<bool>
    var tags: array<nat>
    var lines: array<Line>

    predicate Valid()
      reads this
    {
      valid.Length > 0 && tags.Length == valid.Length && lines.Length == valid.Length
    }

    function Slots(): (s: seq<Slot>)
      reads this, valid, tags, lines
      requires Valid()
      ensures |s| == valid.Length
    {
      seq(valid.Length, i requires 0 <= i < valid.Length reads this, valid, tags, lines requires Valid() => Slot(valid[i], tags[i], lines[i]))
    }

    constructor (entries: nat)
      requires entries > 0
      ensures Valid() && valid.Length == entries && fresh(valid) && fresh(tags) && fresh(lines)
      ensures forall i :: 0 <= i < entries ==> !Slots()[i].valid
    {
      valid := new bool[entries](i => false);
      tags := new nat[entries](i => 0);
      lines := new Line[entries](i => ZEROES);
    }

    method Find(a: Word) returns (r: Lookup)
      requires Valid()
      ensures r == FindIn(Slots(), a)
    {
      var index := LineOf(a) % valid.Length;
      r := if valid[index] && tags[index] == LineOf(a) then Hit(lines[index]) else Miss;
    }

    method Clock(c: Commands)
      requires Valid()
      modifies valid, tags, lines
      ensures Valid() && Slots() == Next(old(Slots()), c)
    {
      var n := valid.Length;
      if c.flushAll {
        forall i | 0 <= i < n {
          valid[i] := false;
        }
      } else if c.invalidateValid {
        var index := LineOf(c.invalidateAddr) % n;
        if valid[index] && tags[index] == LineOf(c.invalidateAddr) {
          valid[index] := false;
        }
      } else if c.storeUpdateValid {
        var index := LineOf(c.storeUpdateAddr) % n;
        if valid[index] && tags[index] == LineOf(c.storeUpdateAddr) {
          lines[index] := Merge(lines[index], c.storeUpdateSel, c.storeUpdateData);
        }
      } else if c.fillValid {
        var index := LineOf(c.fillAddr) % n;
        valid[index], tags[index], lines[index] := true, LineOf(c.fillAddr), c.fillData;
      }
    }
  }

  function Next(slots: seq<Slot>, c: Commands): (r: seq<Slot>)
    ensures |r| == |slots|
  {
    seq(|slots|, i requires 0 <= i < |slots| => NextSlot(|slots|, i, slots[i], c))
  }

  function FindIn(slots: seq<Slot>, a: Word): Lookup
    requires |slots| > 0
  {
    var s := slots[LineOf(a) % |slots|];
    if s.valid && s.tag == LineOf(a) then Hit(s.data) else Miss
  }

  // ---------------------------------------------------------------- coherence

  /** What happens to memory in a cycle, and the commands the port contract asks for. */
  datatype Event =
    | Idle
    | Write(t: Transfer)          // a store of the selected bytes at any alignment
    | Fill(addr: Word)            // a whole line just read from memory
    | Invalidate(addr: Word)

  const NO_COMMAND := Commands(false, false, 0, false, 0, NONE, ZEROES, false, 0, ZEROES)

  function CommandFor(m: Memory, e: Event): Commands {
    match e
    case Idle => NO_COMMAND
    case Write(t) =>
      if SplitNeeded(t) then NO_COMMAND.(flushAll := true)
      else NO_COMMAND.(storeUpdateValid := true, storeUpdateAddr := t.addr, storeUpdateSel := FirstSelect(t), storeUpdateData := FirstData(t))
    case Fill(a) => NO_COMMAND.(fillValid := true, fillAddr := a, fillData := Block(m, Base(a)))
    case Invalidate(a) => NO_COMMAND.(invalidateValid := true, invalidateAddr := a)
  }

  function MemoryAfter(m: Memory, e: Event): Memory { if e.Write? then Stored(e.t, m) else m }

  /** A slot holds memory's current line. */
  predicate SlotOk(s: Slot, m: Memory) {
    s.tag <= WORD_MAX / 8 && s.data == Block(m, s.tag * 8)
  }

  ghost predicate Coherent(slots: seq<Slot>, m: Memory) {
    forall i :: 0 <= i < |slots| && slots[i].valid ==> slots[i].tag % |slots| == i && SlotOk(slots[i], m)
  }

  /** All eight bytes of a line are mapped. */
  ghost predicate LineMapped(m: Memory, line: Word) { forall k: Word :: k < 8 ==> Plus(line, k) in m }

  lemma OtherLineAfterStore(m: Memory, line: Word, a: Word, sel: Select, dat: Line)
    requires line % 8 == 0 && a % 8 == 0 && a != line
    ensures Block(Store(m, a, sel, dat), line) == Block(m, line)
  {
    forall k: Word | k < 8
      ensures Peek(Store(m, a, sel, dat), Plus(line, k)) == Peek(m, Plus(line, k))
    {
      assert Plus(line, k) == line + k;
      assert Minus(line + k, a) >= 8;
    }
  }

  lemma LineAfterStore(m: Memory, line: Word, sel: Select, dat: Line)
    requires line % 8 == 0 && LineMapped(m, line)
    ensures Block(Store(m, line, sel, dat), line) == Merge(Block(m, line), sel, dat)
  {
    forall k: Word | k < 8
      ensures Peek(Store(m, line, sel, dat), Plus(line, k)) == Merge(Block(m, line), sel, dat)[k]
    {
      assert Plus(line, k) == line + k && Minus(line + k, line) == k;
    }
  }

  /** Writes go to memory that is there. */
  ghost predicate Mapped(m: Memory, e: Event) { e.Write? ==> LineMapped(m, Base(e.t.addr)) }

  lemma EventKeepsCoherent(slots: seq<Slot>, m: Memory, e: Event)
    requires |slots| > 0 && Coherent(slots, m) && Mapped(m, e)
    ensures Coherent(Next(slots, CommandFor(m, e)), MemoryAfter(m, e))
  {
    forall i | 0 <= i < |slots| && Next(slots, CommandFor(m, e))[i].valid
      ensures SlotOk(Next(slots, CommandFor(m, e))[i], MemoryAfter(m, e))
    {
      assert slots[i].valid ==> SlotOk(slots[i], m);
      if e.Write? && !SplitNeeded(e.t) {
        WriteKeepsSlot(|slots|, i, slots[i], m, e.t);
      } else {
        OtherKeepsSlot(|slots|, i, slots[i], m, e);
      }
    }
  }

  lemma WriteKeepsSlot(n: nat, index: nat, s: Slot, m: Memory, t: Transfer)
    requires n > 0 && !SplitNeeded(t) && LineMapped(m, Base(t.addr))
    requires s.valid && SlotOk(s, m) && s.tag % n == index
    ensures SlotOk(NextSlot(n, index, s, CommandFor(m, Write(t))), Stored(t, m))
  {
    hide Block, ShiftedSelect, ShiftedData, Store, Merge, LineMapped;
    StoreInOneBeat(t, m);
    if s.tag == LineOf(t.addr) {
      LineAfterStore(m, s.tag * 8, FirstSelect(t), FirstData(t));
    } else {
      OtherLineAfterStore(m, s.tag * 8, FirstAddr(t), FirstSelect(t), FirstData(t));
    }
  }

  lemma OtherKeepsSlot(n: nat, index: nat, s: Slot, m: Memory, e: Event)
    requires n > 0 && (e.Write? ==> SplitNeeded(e.t)) && (s.valid ==> SlotOk(s, m))
    ensures
      var s' := NextSlot(n, index, s, CommandFor(m, e));
      s'.valid ==> SlotOk(s', MemoryAfter(m, e))
  {
    hide Block, ShiftedSelect, ShiftedData, Store, Merge;
  }

  ghost predicate MappedRun(m: Memory, events: seq<Event>)
    decreases |events|
  {
    events == [] || (Mapped(m, events[0]) && MappedRun(MemoryAfter(m, events[0]), events[1..]))
  }

  /** Every hit at every point of the run returns memory's current line. */
  ghost predicate HitsAreCurrent(slots: seq<Slot>, m: Memory, events: seq<Event>)
    requires |slots| > 0
    decreases |events|
  {
    && (forall a: Word :: FindIn(slots, a).Hit? ==> FindIn(slots, a).data == Block(m, Base(a)))
    && (events == [] || HitsAreCurrent(Next(slots, CommandFor(m, events[0])), MemoryAfter(m, events[0]), events[1..]))
  }

  lemma {:induction false} RunHitsAreCurrent(slots: seq<Slot>, m: Memory, events: seq<Event>)
    requires |slots| > 0 && Coherent(slots, m) && MappedRun(m, events)
    ensures HitsAreCurrent(slots, m, events)
    decreases |events|
  {
    hide Block, CommandFor, MemoryAfter, Next, Mapped;
    assert forall a: Word :: a / 8 * 8 == Base(a);
    if events != [] {
      EventKeepsCoherent(slots, m, events[0]);
      RunHitsAreCurrent(Next(slots, CommandFor(m, events[0])), MemoryAfter(m, events[0]), events[1..]);
    }
  }

  // ---------------------------------------------------------------- exactly the lines that hit

  /** The slots after the first k of these commands. */
  function After(slots: seq<Slot>, cs: seq<Commands>, k: nat): (r: seq<Slot>)
    requires k <= |cs|
    ensures |r| == |slots|
  {
    if k == 0 then slots else Next(After(slots, cs, k - 1), cs[k - 1])
  }

  /** The command that the priorities let through fills the line, or drops it from a cache of n slots. */
  predicate Fills(c: Commands, line: nat) {
    !c.flushAll && !c.invalidateValid && !c.storeUpdateValid && c.fillValid && c.fillAddr / 8 == line
  }

  predicate Drops(n: nat, c: Commands, line: nat)
    requires n > 0
  {
    || c.flushAll
    || (c.invalidateValid && c.invalidateAddr / 8 == line)
    || (!c.invalidateValid && !c.storeUpdateValid && c.fillValid && c.fillAddr / 8 != line && c.fillAddr / 8 % n == line % n)
  }

  ghost predicate FilledSince(n: nat, cs: seq<Commands>, k: nat, line: nat)
    requires n > 0 && k <= |cs|
  {
    exists j :: 0 <= j < k && Fills(cs[j], line) && forall i :: j < i < k ==> !Drops(n, cs[i], line)
  }

  lemma HitAfter(slots: seq<Slot>, c: Commands, a: Word)
    requires |slots| > 0
    ensures FindIn(Next(slots, c), a).Hit? <==> Fills(c, a / 8) || (FindIn(slots, a).Hit? && !Drops(|slots|, c, a / 8))
  {
  }

  /** Out of an empty cache an address hits exactly when its line has been filled and since then neither
      flushed, nor invalidated, nor replaced in its slot. */
  lemma {:induction false} HitsExactlyWhenFilled(slots: seq<Slot>, cs: seq<Commands>, k: nat, a: Word)
    requires |slots| > 0 && (forall i :: 0 <= i < |slots| ==> !slots[i].valid) && k <= |cs|
    ensures FindIn(After(slots, cs, k), a).Hit? <==> FilledSince(|slots|, cs, k, a / 8)
    decreases k
  {
    hide Next, FindIn, Fills, Drops;
    if k == 0 {
      assert !FindIn(slots, a).Hit? by {
        EmptyMisses(slots, a);
      }
    } else {
      HitsExactlyWhenFilled(slots, cs, k - 1, a);
      HitAfter(After(slots, cs, k - 1), cs[k - 1], a);
      FilledSinceStep(|slots|, cs, k, a / 8);
    }
  }

  lemma EmptyMisses(slots: seq<Slot>, a: Word)
    requires |slots| > 0 && forall i :: 0 <= i < |slots| ==> !slots[i].valid
    ensures FindIn(slots, a).Miss?
  {
  }

  lemma FilledSinceStep(n: nat, cs: seq<Commands>, k: nat, line: nat)
    requires n > 0 && 0 < k <= |cs|
    ensures FilledSince(n, cs, k, line) <==> Fills(cs[k - 1], line) || (FilledSince(n, cs, k - 1, line) && !Drops(n, cs[k - 1], line))
  {
    if FilledSince(n, cs, k - 1, line) && !Drops(n, cs[k - 1], line) {
      var j :| 0 <= j < k - 1 && Fills(cs[j], line) && forall i :: j < i < k - 1 ==> !Drops(n, cs[i], line);
      assert Fills(cs[j], line) && forall i :: j < i < k ==> !Drops(n, cs[i], line);
    }
  }

  /** A fill is hit with its data; a store update replaces the selected bytes of a line that hits. */
  lemma HitData(slots: seq<Slot>, c: Commands, a: Word)
    requires |slots| > 0 && FindIn(Next(slots, c), a).Hit?
    ensures
      var l := FindIn(Next(slots, c), a).data;
      if Fills(c, a / 8) then l == c.fillData
      else
        && FindIn(slots, a).Hit?
        && forall k :: 0 <= k < 8 ==>
             l[k] == if !c.flushAll && !c.invalidateValid && c.storeUpdateValid && c.storeUpdateAddr / 8 == a / 8 && c.storeUpdateSel[k]
                     then c.storeUpdateData[k] else FindIn(slots, a).data[k]
  {
  }
}
