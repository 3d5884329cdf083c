/** The basic core's page-table walk (hdl/little64_cores/basic/core.py): the checks of the
    translate states and the WALK / WALK_PROCESS pair, one table entry per bus read. */
module BasicWalker {
  import opened Words
  import opened Paging

  datatype Phase = Walk | WalkProcess | Done

  /** The walk_* registers; `outcome` is what the walk hands to its resume state. */
  datatype Walker = Walker(
    phase: Phase,
    virtualAddr: Word,
    tableAddr: Word,
    level: nat,
    access: Access,
    user: bool,
    pteLatched: Word,
    outcome: Outcome
  )

  /** Entering WALK from a translate state. */
  function Begin(root: Word, va: Word, access: Access, user: bool): Walker {
    Walker(Phase.Walk, va, root, 2, access, user, 0, Mapped(0))
  }

  function Finish(w: Walker, outcome: Outcome): Walker { w.(phase := Done, outcome := outcome) }

  /** WALK_PROCESS. */
  function Process(w: Walker): Walker {
    var pte := w.pteLatched;
    var permitted := Allows(pte, w.access) && (!w.user || U(pte));
    if !V(pte) then Finish(w, MakeFault(TRAP_NOT_PRESENT, AUX_NO_VALID_PTE, w.level))
    else if w.level > 0 && IsLeaf(pte) then
      if !permitted then Finish(w, MakeFault(TRAP_PERMISSION, AUX_PERMISSION, w.level))
      else Finish(w, Mapped(PhysicalIn(pte, w.virtualAddr, w.level)))
    else if Reserved(pte) then Finish(w, MakeFault(TRAP_RESERVED, AUX_RESERVED_BIT, w.level))
    else if w.level == 0 then
      if !IsLeaf(pte) then Finish(w, MakeFault(TRAP_RESERVED, AUX_INVALID_NONLEAF, 0))
      else if !permitted then Finish(w, MakeFault(TRAP_PERMISSION, AUX_PERMISSION, 0))
      else Finish(w, Mapped(PhysicalIn(pte, w.virtualAddr, w.level)))
    else w.(tableAddr := Target(pte), level := w.level - 1, phase := Phase.Walk)
  }

  function ReadAddr(w: Walker): Word { PteAddr(w.tableAddr, w.virtualAddr, w.level) }

  /** One clock; `data` is the word read, meaningful when acknowledged. */
  function Clock(w: Walker, ack: bool, data: Word): Walker {
    match w.phase
    case Walk => if ack then w.(pteLatched := data, phase := WalkProcess) else w
    case WalkProcess => Process(w)
    case Done => w
  }

  /** The walk's registers as a clocked object. */
  class Registers {
    var phase: Phase
    var virtualAddr: Word
    var tableAddr: Word
    var level: nat
    var access: Access
    var user: bool
    var pteLatched: Word
    var outcome: Outcome

    function State(): Walker
      reads this
    {
      Walker(phase, virtualAddr, tableAddr, level, access, user, pteLatched, outcome)
    }

    constructor (root: Word, va: Word, access: Access, user: bool)
      ensures State() == Begin(root, va, access, user)
    {
      phase, virtualAddr, tableAddr, level := Phase.Walk, va, root, 2;
      this.access, this.user, pteLatched, outcome := access, user, 0, Mapped(0);
    }

    method Resolve(result: Outcome)
      modifies this`phase, this`outcome
      ensures State() == Finish(old(State()), result)
    {
      phase, outcome := Done, result;
    }

    method ProcessEntry()
      modifies this`phase, this`outcome, this`tableAddr, this`level
      ensures State() == Process(old(State()))
    {
      hide V, U, Reserved, IsLeaf, Allows, PhysicalIn, Target, Aux;
      var pte := pteLatched;
      var permitted := Allows(pte, access) && (!user || U(pte));
      if !V(pte) {
        Resolve(MakeFault(TRAP_NOT_PRESENT, AUX_NO_VALID_PTE, level));
      } else if level > 0 && IsLeaf(pte) {
        Resolve(if permitted then Mapped(PhysicalIn(pte, virtualAddr, level)) else MakeFault(TRAP_PERMISSION, AUX_PERMISSION, level));
      } else if Reserved(pte) {
        Resolve(MakeFault(TRAP_RESERVED, AUX_RESERVED_BIT, level));
      } else if level == 0 {
        if !IsLeaf(pte) {
          Resolve(MakeFault(TRAP_RESERVED, AUX_INVALID_NONLEAF, 0));
        } else if !permitted {
          Resolve(MakeFault(TRAP_PERMISSION, AUX_PERMISSION, 0));
        } else {
          Resolve(Mapped(PhysicalIn(pte, virtualAddr, 0)));
        }
      } else {
        tableAddr, level := Target(pte), level - 1;
        phase := Phase.Walk;
      }
    }

    method ClockEdge(ack: bool, data: Word)
      modifies this`phase, this`outcome, this`tableAddr, this`level, this`pteLatched
      ensures State() == Clock(old(State()), ack, data)
    {
      if phase == Phase.Walk {
        if ack {
          pteLatched := data;
          phase := WalkProcess;
        }
      } else if phase == WalkProcess {
        ProcessEntry();
      }
    }
  }

  // ---------------------------------------------------------------- what the walk computes

  /** The recursive form of the state machine, from a table of the given level. */
  function WalkOutcome(read64: Bus, table: Word, level: nat, va: Word, access: Access, user: bool): Outcome
    decreases level
  {
    var pte := read64(PteAddr(table, va, level));
    var w := Process(Walker(WalkProcess, va, table, level, access, user, pte, Mapped(0)));
    if w.phase == Done then w.outcome else WalkOutcome(read64, w.tableAddr, w.level, va, access, user)
  }

  /** The checks of FETCH_TRANSLATE and MEM_TRANSLATE in their order, then the walk. */
  function Translation(read64: Bus, cfg: Config, va: Word, access: Access): Outcome {
    if access == Execute && va % 2 == 1 then MakeFault(TRAP_EXEC_ALIGN, AUX_NONE, 0)
    else if !cfg.enabled then Mapped(va)
    else if !Canonical(va) then MakeFault(TRAP_CANONICAL, AUX_CANONICAL, 2)
    else if cfg.root % PAGE != 0 then MakeFault(TRAP_RESERVED, AUX_RESERVED_BIT, 2)
    else WalkOutcome(read64, cfg.root, 2, va, access, cfg.user)
  }

  // ---------------------------------------------------------------- the machine over any bus latencies

  datatype Answer = Answer(ack: bool, data: Word)

  function Run(w: Walker, answers: seq<Answer>): Walker {
    if answers == [] then w
    else
      var before := Run(w, answers[..|answers| - 1]);
      Clock(before, answers[|answers| - 1].ack, answers[|answers| - 1].data)
  }

  /** The number of acknowledged table reads in a run. */
  function Reads(w: Walker, answers: seq<Answer>): nat {
    if answers == [] then 0
    else
      Reads(w, answers[..|answers| - 1])
      + (if Run(w, answers[..|answers| - 1]).phase == Phase.Walk && answers[|answers| - 1].ack then 1 else 0)
  }

  /** Every acknowledged read returned the memory word at the walker's address. */
  ghost predicate Answered(read64: Bus, w: Walker, answers: seq<Answer>) {
    forall k :: 0 <= k < |answers| ==>
      var before := Run(w, answers[..k]);
      before.phase == Phase.Walk && answers[k].ack ==> answers[k].data == read64(ReadAddr(before))
  }

  /** What the walk in progress will end with. */
  function Flush(read64: Bus, w: Walker): Outcome {
    match w.phase
    case Walk => WalkOutcome(read64, w.tableAddr, w.level, w.virtualAddr, w.access, w.user)
    case WalkProcess =>
      var next := Process(w);
      if next.phase == Done then next.outcome
      else WalkOutcome(read64, next.tableAddr, next.level, w.virtualAddr, w.access, w.user)
    case Done => w.outcome
  }

  lemma ClockKeepsFlush(read64: Bus, w: Walker, ack: bool, data: Word)
    requires w.phase == Phase.Walk && ack ==> data == read64(ReadAddr(w))
    ensures Flush(read64, Clock(w, ack, data)) == Flush(read64, w)
  {
  }

  /** Over any run the walk in progress keeps its outcome and reads at most three entries. */
  lemma {:induction false} RunComputesWalk(read64: Bus, root: Word, va: Word, access: Access, user: bool, answers: seq<Answer>)
    requires Answered(read64, Begin(root, va, access, user), answers)
    ensures
      var w := Begin(root, va, access, user);
      var end := Run(w, answers);
      && Flush(read64, end) == WalkOutcome(read64, root, 2, va, access, user)
      && end.level <= 2
      && Reads(w, answers) == (2 - end.level) + (if end.phase == Phase.Walk then 0 else 1)
      && Reads(w, answers) <= 3
  {
    hide Process, WalkOutcome;
    var w := Begin(root, va, access, user);
    if answers != [] {
      var init, last := answers[..|answers| - 1], answers[|answers| - 1];
      forall k | 0 <= k < |init|
        ensures init[..k] == answers[..k] && init[k] == answers[k]
      {
      }
      RunComputesWalk(read64, root, va, access, user, init);
      var before := Run(w, init);
      ClockKeepsFlush(read64, before, last.ack, last.data);
      ProcessMoves(before);
    }
  }

  lemma ProcessMoves(w: Walker)
    ensures
      var w' := Process(w);
      (w'.phase == Done && w'.level == w.level) || (w'.phase == Phase.Walk && w.level > 0 && w'.level == w.level - 1)
  {
  }

  // ---------------------------------------------------------------- agreement with the emulator

  /** The walk ends at a valid level-0 entry with no permission bit and no reserved bit. */
  predicate EndsAtBareEntry(read64: Bus, table: Word, level: nat, va: Word)
    decreases level
  {
    var pte := read64(PteAddr(table, va, level));
    && V(pte) && !IsLeaf(pte) && !Reserved(pte)
    && (level == 0 || EndsAtBareEntry(read64, Target(pte), level - 1, va))
  }

  lemma {:induction false} WalksAgree(read64: Bus, table: Word, level: nat, va: Word, access: Access, user: bool)
    ensures
      var hdl, emu := WalkOutcome(read64, table, level, va, access, user), Paging.Walk(read64, table, level, va, access, user);
      if EndsAtBareEntry(read64, table, level, va)
      then hdl == MakeFault(TRAP_RESERVED, AUX_INVALID_NONLEAF, 0) && emu == MakeFault(TRAP_NOT_PRESENT, AUX_NO_VALID_PTE, 0)
      else hdl == emu
    decreases level
  {
    hide V, R, W, X, U, Reserved, Target, Index, PteAddr, PhysicalIn, Aux;
    var pte := read64(PteAddr(table, va, level));
    if V(pte) && level > 0 && !IsLeaf(pte) && !Reserved(pte) {
      WalksAgree(read64, Target(pte), level - 1, va, access, user);
    }
  }

  /** The two inputs classes on which the core and the emulator report different faults. */
  predicate Disagrees(read64: Bus, cfg: Config, va: Word, access: Access) {
    && cfg.enabled
    && (access == Execute ==> va % 2 == 0)
    && (if cfg.root % PAGE != 0 then !Canonical(va)
        else Canonical(va) && EndsAtBareEntry(read64, cfg.root, 2, va))
  }

  /** For every memory, root, address, access and mode the core and the emulator succeed together
      with the same address, and report the same fault exactly outside the two classes. */
  lemma TranslationsAgree(read64: Bus, cfg: Config, va: Word, access: Access)
    ensures
      var hdl, emu := Translation(read64, cfg, va, access), Paging.Translation(read64, cfg, va, access);
      && (hdl.Mapped? <==> emu.Mapped?)
      && (hdl.Mapped? ==> hdl == emu)
      && (hdl == emu <==> !Disagrees(read64, cfg, va, access))
  {
    WalksAgree(read64, cfg.root, 2, va, access, cfg.user);
  }

  /** What each reports there: for a misaligned root and an address between the halves the core the address,
      the emulator the root; for a bare last-level entry the core a reserved entry, the emulator an absent one. */
  lemma DisagreementInNumbers(read64: Bus, cfg: Config, va: Word, access: Access)
    requires Disagrees(read64, cfg, va, access)
    ensures
      var hdl, emu := Translation(read64, cfg, va, access), Paging.Translation(read64, cfg, va, access);
      if cfg.root % 4096 != 0 then hdl == Fault(8, 0x205) && emu == Fault(7, 0x204) else hdl == Fault(7, 2) && emu == Fault(5, 1)
  {
    hide WalkOutcome, Paging.Walk, EndsAtBareEntry, Canonical;
    WalksAgree(read64, cfg.root, 2, va, access, cfg.user);
  }
}
