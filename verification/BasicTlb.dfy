/** The basic core's generation-tagged TLB (hdl/little64_cores/basic/tlb.py) and its use by the
    translate states: observably a plain TLB that every flush empties, and every hit is what a
    fresh walk would return. */
module BasicTlb {
  import opened Words
  import opened Paging
  import opened Control
  import BasicWalker

  // ---------------------------------------------------------------- a plain TLB

  type PageNumber = n: int | 0 <= n < 0x10_0000_0000_0000

  /** What a fill records: page numbers and the leaf's permission bits. */
  datatype Entry = Entry(vpage: PageNumber, ppage: PageNumber, read: bool, write: bool, execute: bool, user: bool)

  /** The entries of a direct-mapped TLB by index. */
  type Plain = map<nat, Entry>

  datatype Fill = NoFill | DoFill(entry: Entry)

  /** One clock of a plain TLB with `size` slots: a flush empties it, else a fill replaces a slot. */
  function PlainClock(size: nat, t: Plain, flush: bool, fill: Fill): Plain
    requires size > 0
  {
    if flush then map[] else if fill.DoFill? then t[fill.entry.vpage % size := fill.entry] else t
  }

  datatype Lookup = Miss | Hit(entry: Entry)

  function PlainLookup(size: nat, t: Plain, vpage: nat): Lookup
    requires size > 0
  {
    if vpage % size in t && t[vpage % size].vpage == vpage then Hit(t[vpage % size]) else Miss
  }

  // ---------------------------------------------------------------- the generation-tagged store

  /** One word of the entry memory. */
  datatype Tagged = Tagged(generation: nat, entry: Entry)

  class GenerationTlb {
    const size: nat
    const generationMax: nat
    var generation: nat
    var valid: array<bool>
    var memory: array<Tagged>

    /** No valid entry carries a generation the counter has yet to reach. */
    ghost predicate Valid()
      reads this, valid, memory
    {
      && size >= 2 && generationMax >= 1
      && valid.Length == memory.Length == size
      && generation <= generationMax
      && (forall i :: 0 <= i < size && valid[i] ==>
            memory[i].generation <= generation && memory[i].entry.vpage % size == i)
    }

    /** The slots whose entry belongs to the current generation. */
    ghost function Contents(): Plain
      reads this, valid, memory
      requires Valid()
    {
      map i | 0 <= i < size && valid[i] && memory[i].generation == generation :: memory[i].entry
    }

    /** Reset clears the valid bits and the generation; the entry memory keeps whatever it holds. */
    constructor (size: nat, generationMax: nat, garbage: Tagged)
      requires size >= 2 && generationMax >= 1
      ensures Valid() && fresh(valid) && fresh(memory)
      ensures this.size == size && this.generationMax == generationMax
      ensures Contents() == map[]
    {
      this.size := size;
      this.generationMax := generationMax;
      this.generation := 0;
      this.valid := new bool[size](i => false);
      this.memory := new Tagged[size](i => garbage);
    }

    /** The lookup port. */
    method Find(vpage: nat) returns (r: Lookup)
      requires Valid()
      ensures r == PlainLookup(size, Contents(), vpage)
    {
      var word := memory[vpage % size];
      if valid[vpage % size] && word.generation == generation && word.entry.vpage == vpage {
        r := Hit(word.entry);
      } else {
        r := Miss;
      }
    }

    /** One clock edge, including the flush that wraps the generation round to zero. */
    method Clock(flush: bool, fill: Fill)
      requires Valid()
      modifies this`generation, valid, memory
      ensures Valid()
      ensures Contents() == PlainClock(size, old(Contents()), flush, fill)
    {
      if flush {
        if generation == generationMax {
          generation := 0;
          forall i | 0 <= i < size {
            valid[i] := false;
          }
        } else {
          generation := generation + 1;
        }
      } else if fill.DoFill? {
        var index := fill.entry.vpage % size;
        memory[index] := Tagged(generation, fill.entry);
        valid[index] := true;
      }
    }
  }

  // ---------------------------------------------------------------- exactly the pages that hit

  /** One clock of the TLB's inputs. */
  datatype Inputs = Inputs(flush: bool, fill: Fill)

  /** The contents after the first k clocks out of reset. */
  function After(size: nat, ins: seq<Inputs>, k: nat): Plain
    requires size > 0 && k <= |ins|
  {
    if k == 0 then map[] else PlainClock(size, After(size, ins, k - 1), ins[k - 1].flush, ins[k - 1].fill)
  }

  predicate Fills(i: Inputs, e: Entry) { !i.flush && i.fill == DoFill(e) }

  predicate Drops(size: nat, i: Inputs, vpage: nat)
    requires size > 0
  {
    i.flush || (i.fill.DoFill? && i.fill.entry.vpage % size == vpage % size)
  }

  ghost predicate FilledSince(size: nat, ins: seq<Inputs>, k: nat, e: Entry)
    requires size > 0 && k <= |ins|
  {
    exists j :: 0 <= j < k && Fills(ins[j], e) && forall i :: j < i < k ==> !Drops(size, ins[i], e.vpage)
  }

  /** A page hits with an entry exactly when that entry was filled for it and since then neither flushed
      nor replaced in its slot. */
  lemma {:induction false} HitsExactlyWhenFilled(size: nat, ins: seq<Inputs>, k: nat, e: Entry)
    requires size > 0 && k <= |ins|
    ensures PlainLookup(size, After(size, ins, k), e.vpage) == Hit(e) <==> FilledSince(size, ins, k, e)
    decreases k
  {
    if k > 0 {
      HitsExactlyWhenFilled(size, ins, k - 1, e);
      if FilledSince(size, ins, k - 1, e) && !Drops(size, ins[k - 1], e.vpage) {
        var j :| 0 <= j < k - 1 && Fills(ins[j], e) && forall i :: j < i < k - 1 ==> !Drops(size, ins[i], e.vpage);
        assert Fills(ins[j], e) && forall i :: j < i < k ==> !Drops(size, ins[i], e.vpage);
      }
    }
  }

  // ---------------------------------------------------------------- translating through the TLB

  predicate Permits(e: Entry, access: Access) {
    match access
    case Read => e.read
    case Write => e.write
    case Execute => e.execute
  }

  /** The tlb_hit_ok signal. */
  predicate HitOk(size: nat, t: Plain, va: Word, access: Access, user: bool)
    requires size > 0
  {
    var l := PlainLookup(size, t, va / 4096);
    l.Hit? && Permits(l.entry, access) && (!user || l.entry.user)
  }

  /** lookup_paddr: (ppage << 12) | offset. */
  function HitAddr(e: Entry, va: Word): Word { e.ppage * 4096 + va % 4096 }

  /** The entry a finished walk fills: its page, the frame found and the leaf's permissions. */
  function FillEntry(va: Word, leaf: Word, physical: Word): Entry {
    Entry(va / 4096, physical / 4096, R(leaf), W(leaf), X(leaf), U(leaf))
  }

  /** The leaf entry and level at which the walk ends, whatever the access. */
  datatype Leaf = NoLeaf | LeafAt(pte: Word, level: nat)

  function FindLeaf(read64: Bus, table: Word, level: nat, va: Word): Leaf
    decreases level
  {
    var pte := read64(PteAddr(table, va, level));
    if !V(pte) then NoLeaf
    else if level > 0 && IsLeaf(pte) then LeafAt(pte, level)
    else if Reserved(pte) then NoLeaf
    else if level == 0 then (if IsLeaf(pte) then LeafAt(pte, 0) else NoLeaf)
    else FindLeaf(read64, Target(pte), level - 1, va)
  }

  /** The walk succeeds exactly when it finds a leaf that permits the access. */
  lemma {:induction false} WalkByLeaf(read64: Bus, table: Word, level: nat, va: Word, access: Access, user: bool)
    ensures
      var leaf := FindLeaf(read64, table, level, va);
      var outcome := BasicWalker.WalkOutcome(read64, table, level, va, access, user);
      if leaf.LeafAt? && Allows(leaf.pte, access) && (!user || U(leaf.pte))
      then outcome == Mapped(PhysicalIn(leaf.pte, va, leaf.level)) && leaf.level <= level
      else outcome.Fault?
    decreases level
  {
    hide V, U, Reserved, Target, Index, PteAddr, PhysicalIn, Aux;
    var pte := read64(PteAddr(table, va, level));
    if V(pte) && level > 0 && !IsLeaf(pte) && !Reserved(pte) {
      WalkByLeaf(read64, Target(pte), level - 1, va, access, user);
    }
  }

  lemma {:induction false} LeafSamePage(read64: Bus, table: Word, level: nat, va: Word, vb: Word)
    requires SamePage(va, vb)
    ensures FindLeaf(read64, table, level, va) == FindLeaf(read64, table, level, vb)
    decreases level
  {
    SamePageFields(va, vb);
    var pte := read64(PteAddr(table, va, level));
    if V(pte) && level > 0 && !IsLeaf(pte) && !Reserved(pte) {
      LeafSamePage(read64, Target(pte), level - 1, va, vb);
    }
  }

  lemma {:induction false} LeafFrame(b1: Bus, b2: Bus, table: Word, level: nat, va: Word)
    requires forall a :: a in WalkReads(b1, table, level, va) ==> b1(a) == b2(a)
    ensures FindLeaf(b1, table, level, va) == FindLeaf(b2, table, level, va)
    decreases level
  {
    hide V, R, W, X, U, Reserved, Target, Index, PteAddr;
    var pte := b1(PteAddr(table, va, level));
    assert PteAddr(table, va, level) in WalkReads(b1, table, level, va);
    if V(pte) && level > 0 && !IsLeaf(pte) && !Reserved(pte) {
      LeafFrame(b1, b2, Target(pte), level - 1, va);
    }
  }

  /** An entry is what a walk for its page finds. */
  predicate EntryOk(read64: Bus, root: Word, e: Entry) {
    && Canonical(e.vpage * 4096)
    && root % PAGE == 0
    && var leaf := FindLeaf(read64, root, 2, e.vpage * 4096);
    && leaf.LeafAt?
    && e == FillEntry(e.vpage * 4096, leaf.pte, PhysicalIn(leaf.pte, e.vpage * 4096, leaf.level))
  }

  /** Any walk that succeeds fills an entry that is right for the whole page and every access. */
  lemma FillIsOk(read64: Bus, root: Word, va: Word, leaf: Leaf)
    requires root % PAGE == 0 && Canonical(va)
    requires leaf == FindLeaf(read64, root, 2, va) && leaf.LeafAt? && leaf.level <= 2
    ensures EntryOk(read64, root, FillEntry(va, leaf.pte, PhysicalIn(leaf.pte, va, leaf.level)))
  {
    var base: Word := va / 4096 * 4096;
    SamePageFields(va, base);
    LeafSamePage(read64, root, 2, va, base);
    SamePagePhysical(leaf.pte, va, base, leaf.level);
  }

  /** A hit that passes the permission checks is what a fresh walk would return. */
  lemma HitIsFresh(read64: Bus, root: Word, size: nat, t: Plain, va: Word, access: Access, user: bool)
    requires size > 0 && HitOk(size, t, va, access, user)
    requires EntryOk(read64, root, t[va / 4096 % size])
    requires access == Execute ==> va % 2 == 0
    ensures
      BasicWalker.Translation(read64, Config(true, root, user), va, access) == Mapped(HitAddr(t[va / 4096 % size], va))
  {
    var e := t[va / 4096 % size];
    var base: Word := va / 4096 * 4096;
    SamePageFields(va, base);
    LeafSamePage(read64, root, 2, va, base);
    WalkByLeaf(read64, root, 2, va, access, user);
    var leaf := FindLeaf(read64, root, 2, va);
    SamePagePhysical(leaf.pte, base, va, leaf.level);
  }

  // ---------------------------------------------------------------- runs of the translation unit

  /** The TLB, the registers it serves and the walk in progress. */
  datatype Mmu = Mmu(size: nat, tlb: Plain, root: Word, control: Word, mem: Bus, walking: bool, walker: BasicWalker.Walker)

  predicate InUserMode(m: Mmu) { UserMode(m.control) }

  datatype Step =
    | Lookup(va: Word, access: Access)      // a translate state that passed its checks
    | WalkClock(answer: BasicWalker.Answer) // a clock of WALK or WALK_PROCESS
    | WriteControl(value: Word)             // IRET, handler entry or SSR to cpu_control
    | WriteRoot(value: Word)                // SSR to the page-table root
    | Memory(memory: Bus)                   // a store by the core

  predicate TranslateChecks(m: Mmu, va: Word, access: Access) {
    (access == Execute ==> va % 2 == 0) && Canonical(va) && m.root % PAGE == 0
  }

  /** What may happen: one thing at a time, reads answered by memory, no store to an entry that
      walks from the current root read. */
  ghost predicate Legal(m: Mmu, step: Step) {
    match step
    case Lookup(va, access) => !m.walking && TranslateChecks(m, va, access)
    case WalkClock(answer) =>
      m.walking && (m.walker.phase == BasicWalker.Phase.Walk && answer.ack ==> answer.data == m.mem(BasicWalker.ReadAddr(m.walker)))
    case WriteControl(_) => !m.walking
    case WriteRoot(_) => !m.walking
    case Memory(memory) => !m.walking && forall va, a :: a in WalkReads(m.mem, m.root, 2, va) ==> memory(a) == m.mem(a)
  }

  function Next(m: Mmu, step: Step): Mmu
    requires m.size > 0
    ensures Next(m, step).size == m.size
  {
    match step
    case Lookup(va, access) =>
      if HitOk(m.size, m.tlb, va, access, InUserMode(m)) then m
      else m.(walking := true, walker := BasicWalker.Begin(m.root, va, access, InUserMode(m)))
    case WalkClock(answer) =>
      var w := BasicWalker.Clock(m.walker, answer.ack, answer.data);
      if w.phase != BasicWalker.Done then m.(walker := w)
      else if w.outcome.Fault? then m.(walking := false)
      else
        var fill := FillEntry(w.virtualAddr, w.pteLatched, w.outcome.physical);
        m.(walking := false, tlb := PlainClock(m.size, m.tlb, false, DoFill(fill)))
    case WriteControl(value) => m.(control := value, tlb := PlainClock(m.size, m.tlb, true, NoFill))
    case WriteRoot(value) => m.(root := value, tlb := PlainClock(m.size, m.tlb, true, NoFill))
    case Memory(memory) => m.(mem := memory)
  }

  datatype Output = Nothing | Translated(va: Word, access: Access, outcome: Outcome)

  /** The translation a step delivers, if it delivers one. */
  function Outputs(m: Mmu, step: Step): Output
    requires m.size > 0
  {
    match step
    case Lookup(va, access) =>
      if HitOk(m.size, m.tlb, va, access, InUserMode(m))
      then Translated(va, access, Mapped(HitAddr(m.tlb[va / 4096 % m.size], va))) else Nothing
    case WalkClock(answer) =>
      var w := BasicWalker.Clock(m.walker, answer.ack, answer.data);
      if w.phase == BasicWalker.Done then Translated(w.virtualAddr, w.access, w.outcome) else Nothing
    case _ => Nothing
  }

  function Fresh(m: Mmu, va: Word, access: Access): Outcome {
    BasicWalker.Translation(m.mem, Config(true, m.root, InUserMode(m)), va, access)
  }

  ghost predicate WalkerOk(m: Mmu) {
    var w := m.walker;
    && w.phase != BasicWalker.Done
    && w.user == InUserMode(m)
    && w.level <= 2
    && TranslateChecks(m, w.virtualAddr, w.access)
    && BasicWalker.Flush(m.mem, w) == BasicWalker.WalkOutcome(m.mem, m.root, 2, w.virtualAddr, w.access, w.user)
    && FindLeaf(m.mem, w.tableAddr, w.level, w.virtualAddr) == FindLeaf(m.mem, m.root, 2, w.virtualAddr)
    && (w.phase == BasicWalker.WalkProcess ==> w.pteLatched == m.mem(BasicWalker.ReadAddr(w)))
  }

  ghost predicate Ok(m: Mmu) {
    && m.size > 0
    && (forall i :: i in m.tlb ==> m.tlb[i].vpage % m.size == i && EntryOk(m.mem, m.root, m.tlb[i]))
    && (m.walking ==> WalkerOk(m))
  }

  /** A walk that finishes with a physical address has latched the leaf. */
  lemma FinishedWalk(m: Mmu, w: BasicWalker.Walker)
    requires m.walking && WalkerOk(m) && m.walker.phase == BasicWalker.WalkProcess
    requires w == BasicWalker.Process(m.walker) && w.phase == BasicWalker.Done && w.outcome.Mapped?
    ensures
      var leaf := FindLeaf(m.mem, m.root, 2, w.virtualAddr);
      && leaf == LeafAt(w.pteLatched, w.level) && w.level <= 2
      && w.outcome == Mapped(PhysicalIn(leaf.pte, w.virtualAddr, leaf.level))
  {
  }

  /** A clock that does not finish the walk keeps its invariant. */
  lemma WalkContinues(m: Mmu, w: BasicWalker.Walker, answer: BasicWalker.Answer)
    requires m.walking && WalkerOk(m) && Legal(m, WalkClock(answer))
    requires w == BasicWalker.Clock(m.walker, answer.ack, answer.data) && w.phase != BasicWalker.Done
    ensures WalkerOk(m.(walker := w))
  {
    hide V, R, W, X, U, Reserved, Target, Index, PteAddr, PhysicalIn, Aux, BasicWalker.WalkOutcome, Canonical;
    BasicWalker.ClockKeepsFlush(m.mem, m.walker, answer.ack, answer.data);
  }

  lemma WalkStepOk(m: Mmu, answer: BasicWalker.Answer)
    requires Ok(m) && Legal(m, WalkClock(answer))
    ensures Ok(Next(m, WalkClock(answer)))
  {
    hide FindLeaf, EntryOk, WalkerOk, BasicWalker.Process, PhysicalIn, FillEntry;
    var w := BasicWalker.Clock(m.walker, answer.ack, answer.data);
    if w.phase != BasicWalker.Done {
      WalkContinues(m, w, answer);
    } else if w.outcome.Mapped? {
      WalkerPhase(m);
      FinishedWalk(m, w);
      FillIsOk(m.mem, m.root, w.virtualAddr, LeafAt(w.pteLatched, w.level));
      FillSlot(w.virtualAddr, w.pteLatched, w.outcome.physical);
    }
  }

  lemma WalkerPhase(m: Mmu)
    requires m.walking && WalkerOk(m)
    ensures m.walker.phase != BasicWalker.Done
    ensures
      var w := BasicWalker.Process(m.walker);
      w.virtualAddr == m.walker.virtualAddr && m.root % PAGE == 0 && Canonical(w.virtualAddr)
  {
    hide Canonical, FindLeaf, BasicWalker.Flush, BasicWalker.WalkOutcome;
  }

  lemma FillSlot(va: Word, leaf: Word, physical: Word)
    ensures FillEntry(va, leaf, physical).vpage == va / 4096
  {
  }

  lemma MemoryStepOk(m: Mmu, memory: Bus)
    requires Ok(m) && Legal(m, Memory(memory))
    ensures Ok(Next(m, Memory(memory)))
  {
    forall va: Word
      ensures FindLeaf(memory, m.root, 2, va) == FindLeaf(m.mem, m.root, 2, va)
    {
      LeafFrame(m.mem, memory, m.root, 2, va);
    }
  }

  /** Every legal step keeps the TLB right. */
  lemma StepOk(m: Mmu, step: Step)
    requires Ok(m) && Legal(m, step)
    ensures Ok(Next(m, step))
  {
    match step
    case WalkClock(answer) => WalkStepOk(m, answer);
    case Memory(memory) => MemoryStepOk(m, memory);
    case _ =>
  }

  /** Whatever the step delivers is the fresh translation. */
  ghost predicate DeliversFresh(m: Mmu, step: Step)
    requires m.size > 0
  {
    match Outputs(m, step)
    case Nothing => true
    case Translated(va, access, outcome) => outcome == Fresh(m, va, access)
  }

  /** Every translation delivered, by a hit or at the end of a walk, is the fresh translation. */
  lemma OutputIsFresh(m: Mmu, step: Step)
    requires Ok(m) && Legal(m, step)
    ensures DeliversFresh(m, step)
  {
    hide FindLeaf, PhysicalIn, Target, PteAddr, Index, Reserved, V, Aux;
    match step
    case Lookup(va, access) =>
      if HitOk(m.size, m.tlb, va, access, InUserMode(m)) {
        HitIsFresh(m.mem, m.root, m.size, m.tlb, va, access, InUserMode(m));
      }
    case WalkClock(answer) =>
      BasicWalker.ClockKeepsFlush(m.mem, m.walker, answer.ack, answer.data);
    case _ =>
  }

  ghost predicate LegalRun(m: Mmu, steps: seq<Step>)
    requires m.size > 0
    decreases |steps|
  {
    steps == [] || (Legal(m, steps[0]) && LegalRun(Next(m, steps[0]), steps[1..]))
  }

  ghost predicate RunDeliversFresh(m: Mmu, steps: seq<Step>)
    requires m.size > 0
    decreases |steps|
  {
    steps == [] || (DeliversFresh(m, steps[0]) && RunDeliversFresh(Next(m, steps[0]), steps[1..]))
  }

  /** Over runs of any length, every delivered translation is fresh. */
  lemma {:induction false} RunIsFresh(m: Mmu, steps: seq<Step>)
    requires Ok(m) && LegalRun(m, steps)
    ensures RunDeliversFresh(m, steps)
    decreases |steps|
  {
    assert m.size > 0;
    hide Next, Legal, Ok, DeliversFresh;
    if steps != [] {
      OutputIsFresh(m, steps[0]);
      StepOk(m, steps[0]);
      RunIsFresh(Next(m, steps[0]), steps[1..]);
    }
  }

  /** A walk that ends with an address leaves its page in the TLB: the next lookup of any address of the page
      hits, with the translation a fresh walk would give, exactly when that walk would give one. */
  lemma WalkedPageHits(m: Mmu, answer: BasicWalker.Answer, vb: Word, access: Access)
    requires Ok(m) && Legal(m, WalkClock(answer))
    requires
      var o := Outputs(m, WalkClock(answer));
      o.Translated? && o.outcome.Mapped? && SamePage(o.va, vb)
    requires access == Execute ==> vb % 2 == 0
    ensures
      var m', fresh_ := Next(m, WalkClock(answer)), Fresh(m, vb, access);
      Outputs(m', Lookup(vb, access)) == if fresh_.Mapped? then Translated(vb, access, fresh_) else Nothing
  {
    hide FindLeaf, PhysicalIn, Reserved, V, Index, PteAddr, Target, Canonical;
    var w := BasicWalker.Clock(m.walker, answer.ack, answer.data);
    var m' := Next(m, WalkClock(answer));
    StepOk(m, WalkClock(answer));
    WalkerPhase(m);
    FinishedWalk(m, w);
    SamePageFields(w.virtualAddr, vb);
    LeafSamePage(m.mem, m.root, 2, w.virtualAddr, vb);
    WalkByLeaf(m.mem, m.root, 2, vb, access, InUserMode(m));
    if HitOk(m'.size, m'.tlb, vb, access, InUserMode(m')) {
      OutputIsFresh(m', Lookup(vb, access));
    }
  }

  /** A TLB is right when it comes out of reset empty. */
  lemma EmptyIsOk(m: Mmu)
    requires m.size > 0 && m.tlb == map[] && !m.walking
    ensures Ok(m)
  {
  }
}
