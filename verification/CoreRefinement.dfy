/** The basic core commits what the emulator computes: with every in-flight memory operation
    flushed to its architectural effect, each clock either leaves the architectural state alone
    or performs exactly one emulator cycle. */
module CoreRefinement {
  import opened Words
  import opened Bits
  import Control
  import opened Instructions
  import opened Beats
  import E = Emulator
  import opened BasicCore

  // ---------------------------------------------------------------- ALU

  lemma ScaledRemainder(a: nat, p: nat, n: nat)
    requires p > 0 && n > 0
    ensures n * p > 0 && (a * p) % (n * p) == (a % n) * p
  {
    var low, high := a % n, a / n;
    assert a == high * n + low;
    assert (high * n + low) * p == high * (n * p) + low * p;
    assert low * p <= (n - 1) * p;
    assert (n - 1) * p == n * p - p;
    DivModUnique(a * p, n * p, high, low * p);
  }

  lemma ScaledCompare(low: nat, p: nat, q: nat)
    requires p > 0
    ensures low * p >= q * p <==> low >= q
    ensures low * p == 0 <==> low == 0
  {
    MultipleIsFar(low - q, p);
    assert (low - q) * p == low * p - q * p;
    MultipleIsFar(low, p);
  }

  lemma LeftShiftFlags(a: Word, k: nat)
    requires 0 < k < 64
    ensures (E.ShiftLeft(a, k) == 0) == LeftZero(a, k)
    ensures (E.ShiftLeft(a, k) >= 0x8000_0000_0000_0000) == LeftSign(a, k)
  {
    var p, q := Pow2(k), Pow2(63 - k);
    assert Pow2(64 - k) == 2 * q;
    Pow2Split(64 - k, k);
    Pow2Split(63 - k, k);
    Pow2Of64();
    ScaledRemainder(a, p, 2 * q);
    var low := a % (2 * q);
    assert E.ShiftLeft(a, k) == low * p;
    TopBit(a, q);
    ScaledCompare(low, p, q);
  }

  lemma TopBit(a: nat, q: nat)
    requires q > 0
    ensures (a % (2 * q) >= q) == (a / q % 2 == 1)
  {
    ModuloSplit(a, q, 2);
    assert q * 2 == 2 * q;
    assert a % (2 * q) == a % q + q * (a / q % 2);
    if a / q % 2 == 1 {
      assert q * (a / q % 2) == q;
    } else {
      assert q * (a / q % 2) == 0;
    }
  }

  lemma HalvedAtLeastOnce(a: Word, k: nat)
    requires k > 0
    ensures ShiftRight(a, k) <= a / 2 < 0x8000_0000_0000_0000
  {
    var p := Pow2(k - 1);
    assert Pow2(k) == 2 * p;
    ModuloSplit(a, 2, p);
    QuotientBound(a / 2, p);
  }

  lemma SignedShiftFlags(a: Word, k: nat)
    requires 0 < k < 64
    ensures E.ShiftRightSigned(a, k) == SignedResult(a, k)
    ensures (E.ShiftRightSigned(a, k) == 0) == SignedZero(a, k)
    ensures (E.ShiftRightSigned(a, k) >= 0x8000_0000_0000_0000) == (a >= 0x8000_0000_0000_0000)
  {
    HalvedAtLeastOnce(a, k);
    HalvedAtLeastOnce(WORD_MAX - a, k);
  }

  lemma LogicalAgrees(op: nat, a: Word, b: Word)
    requires IsAlu(op) && op < 20
    ensures CoreAlu(op, a, b) == E.Alu(op, a, b)
  {
    hide BitOp.Word64;
  }

  lemma LeftShiftAgrees(a: Word, b: Word)
    ensures CoreAlu(SLL, a, b) == E.Alu(SLL, a, b)
  {
    if 0 < b < 64 {
      LeftShiftFlags(a, b);
    }
  }

  lemma RightShiftAgrees(a: Word, b: Word)
    ensures CoreAlu(SRL, a, b) == E.Alu(SRL, a, b)
  {
    if 0 < b < 64 {
      HalvedAtLeastOnce(a, b);
    }
  }

  lemma SignedShiftAgrees(a: Word, b: Word)
    ensures CoreAlu(SRA, a, b) == E.Alu(SRA, a, b)
  {
    if 0 < b < 64 {
      SignedShiftFlags(a, b);
    }
  }

  /** The shift-flag tables and the wide adder give the emulator's results and flags. */
  lemma AluAgrees(op: nat, a: Word, b: Word)
    requires IsAlu(op) || IsImmediateShift(op)
    ensures CoreAlu(op, a, b) == E.Alu(op, a, b)
  {
    if op < 20 {
      LogicalAgrees(op, a, b);
    } else if op == SLL || op == SLLI {
      LeftShiftAgrees(a, b);
    } else if op == SRL || op == SRLI {
      RightShiftAgrees(a, b);
    } else {
      SignedShiftAgrees(a, b);
    }
  }

  // ---------------------------------------------------------------- flushing an in-flight operation

  function ArchOf(c: Core, m: Memory): E.Arch { E.Arch(c.regs, c.flags, c.llAddr, c.llValid, m) }

  function FlushStore(regs: Regs, flags: Flags, llAddr: Word, llValid: bool, op: MemOp, m: Memory): E.Arch {
    E.Arch(RegsAfterStore(regs, op), flags, llAddr, llValid && !OverlapsReservation(llAddr, op),
           Store(m, op.addr, BaseSelect(op.width), Split(op.storeValue)))
  }

  function FlushLoad(regs: Regs, flags: Flags, llAddr: Word, llValid: bool, op: MemOp, m: Memory): E.Arch
    requires op.width <= 8
  {
    var loaded := Load(m, op.addr, op.width);
    var regs' := RegsAfterLoad(regs, op, loaded);
    var llAddr' := if op.setReservation then op.reservationAddr else llAddr;
    var llValid' := op.setReservation || llValid;
    if op.chainStore then FlushStore(regs', flags, llAddr', llValid', ChainedStore(op, loaded), m)
    else E.Arch(regs', flags, llAddr', llValid', m)
  }

  /** The architectural state once the memory operation in progress has completed. */
  function Flush(c: Core, m: Memory): E.Arch
    requires c.op.width <= 8
  {
    if c.op.write then FlushStore(c.regs, c.flags, c.llAddr, c.llValid, c.op, m)
    else FlushLoad(c.regs, c.flags, c.llAddr, c.llValid, c.op, m)
  }

  // ---------------------------------------------------------------- memory phases preserve the flushed state

  predicate MemPhase(c: Core) {
    c.phase in {MemTranslate, MemLoad, MemLoadSplit, MemStore, MemStoreSplit}
  }

  ghost predicate InFlight(c: Core, m: Memory) {
    && MemPhase(c)
    && ValidWidth(c.op.width)
    && c.regs[0] == 0
    && (c.phase == MemLoad || c.phase == MemLoadSplit ==> !c.op.write)
    && (c.phase == MemStore || c.phase == MemStoreSplit ==> c.op.write)
    && (InSecondBeat(c) ==> SplitNeeded(TransferOf(c.op)))
    && (c.phase == MemLoadSplit ==> FirstBeatData(TransferOf(c.op), m, c.splitFirstData))
    && (c.phase == MemStoreSplit ==> FirstBeat(TransferOf(c.op), m) == m)
  }

  /** What one clock of a memory phase must do. */
  ghost predicate KeepsFlushed(s: System, s': System, commits: bool)
    requires s.core.op.width <= 8
  {
    if commits
    then s'.core.phase == FetchTranslate && s'.core.regs[0] == 0 && ArchOf(s'.core, s'.mem) == Flush(s.core, s.mem)
    else InFlight(s'.core, s'.mem) && Flush(s'.core, s'.mem) == Flush(s.core, s.mem)
  }

  lemma MemStoreStep(cfg: Config, s: System, bus: Bus)
    requires InFlight(s.core, s.mem) && s.core.phase == MemStore
    ensures KeepsFlushed(s, Tick(cfg, s, bus), Commits(s.core, bus))
  {
    hide ShiftedSelect, ShiftedData, Shift, Store, Split;
    assert s.core.regs[0 := 0] == s.core.regs;
    var t := TransferOf(s.core.op);
    if bus.dAck && SplitNeeded(t) {
      FirstBeatThenStored(t, s.mem);
    } else if bus.dAck {
      StoreInOneBeat(t, s.mem);
    }
  }

  lemma MemStoreSplitStep(cfg: Config, s: System, bus: Bus)
    requires InFlight(s.core, s.mem) && s.core.phase == MemStoreSplit
    ensures KeepsFlushed(s, Tick(cfg, s, bus), Commits(s.core, bus))
  {
    hide ShiftedSelect, ShiftedData, Shift, Store, Split;
    assert s.core.regs[0 := 0] == s.core.regs;
    StoreInTwoBeats(TransferOf(s.core.op), s.mem);
  }

  lemma MemLoadStep(cfg: Config, s: System, bus: Bus)
    requires InFlight(s.core, s.mem) && s.core.phase == MemLoad && Answers(s, bus)
    ensures KeepsFlushed(s, Tick(cfg, s, bus), Commits(s.core, bus))
  {
    hide Join, MaskToWidth, Block, ShiftedSelect, ShiftedData, SingleRead;
    assert s.core.regs[0 := 0] == s.core.regs;
    var t := TransferOf(s.core.op);
    if bus.dAck && !SplitNeeded(t) {
      LoadInOneBeat(t, s.mem, bus.dData);
      MaskedLoad(t, s.mem, s.core.op.width, SingleRead(t, bus.dData));
    }
  }

  lemma MemLoadSplitStep(cfg: Config, s: System, bus: Bus)
    requires InFlight(s.core, s.mem) && s.core.phase == MemLoadSplit && Answers(s, bus)
    ensures KeepsFlushed(s, Tick(cfg, s, bus), Commits(s.core, bus))
  {
    hide Join, MaskToWidth, Block, ShiftedSelect, ShiftedData, CombinedRead;
    assert s.core.regs[0 := 0] == s.core.regs;
    var t := TransferOf(s.core.op);
    if !s.core.splitFirstCycle && bus.dAck {
      LoadInTwoBeats(t, s.mem, s.core.splitFirstData, bus.dData);
      MaskedLoad(t, s.mem, s.core.op.width, CombinedRead(t, s.core.splitFirstData, bus.dData));
    }
  }

  /** In a memory phase a clock either retires the instruction in its flushed state or keeps that state. */
  lemma MemPhaseStep(cfg: Config, s: System, bus: Bus)
    requires InFlight(s.core, s.mem) && Answers(s, bus)
    ensures KeepsFlushed(s, Tick(cfg, s, bus), Commits(s.core, bus))
  {
    match s.core.phase
    case MemLoad => MemLoadStep(cfg, s, bus);
    case MemLoadSplit => MemLoadSplitStep(cfg, s, bus);
    case MemStore => MemStoreStep(cfg, s, bus);
    case MemStoreSplit => MemStoreSplitStep(cfg, s, bus);
    case MemTranslate => assert s.core.regs[0 := 0] == s.core.regs;
  }

  // ---------------------------------------------------------------- the instructions on which the two agree

  /** The w bytes at a do not run past the top of the address space. */
  predicate Fits(a: Word, w: nat) { a + w <= 0x1_0000_0000_0000_0000 }

  /** The core's wrapping overlap test and the emulator's saturating one decide alike: neither interval
      wraps, or they do not overlap. */
  predicate ReservationAlike(e: E.Arch, a: Word, w: nat)
    requires w > 0
  {
    !e.llValid || (Fits(e.llAddr, 8) && Fits(a, w)) || !E.Overlaps(e.llAddr, a, w)
  }

  /** Storing either value has the same effect: they differ in no byte that is mapped. */
  predicate StoredAlike(m: Memory, a: Word, w: nat, v: Word, v': Word) {
    forall k :: 0 <= k < 8 && k < w && Plus(a, k) in m ==> Split(v)[k] == Split(v')[k]
  }

  /** The immediate of an LDI in its position, the last form sign-extended. */
  function LdiPart(i: Half): Word {
    var imm := Imm8(i) as int;
    if LdiShift(i) == 0 then imm
    else if LdiShift(i) == 1 then imm * 0x100
    else if LdiShift(i) == 2 then imm * 0x1_0000
    else if imm >= 0x80 then imm * 0x100_0000 + 0xFFFF_FFFF_0000_0000
    else imm * 0x100_0000
  }

  function LdiValue(old_: Word, i: Half): Word { if LdiShift(i) == 0 then LdiPart(i) else OR.Word64(old_, LdiPart(i)) }

  /** What register r holds for a GP instruction at pc: the core's R15 is the instruction's own address,
      the emulator's the next one. */
  function CoreOperand(e: E.Arch, r: nat): Word
    requires r < 16
  {
    if r == 15 then e.regs[15] else e.regs[r]
  }

  function EmulatorOperand(e: E.Arch, r: nat): Word
    requires r < 16
  {
    if r == 15 then Plus(e.regs[15], 2) else e.regs[r]
  }

  predicate AluAlike(e: E.Arch, op: nat, rd: nat, rs1: nat)
    requires rd < 16 && rs1 < 16
  {
    var core := E.Alu(op, CoreOperand(e, rd), if IsImmediateShift(op) then rs1 else CoreOperand(e, rs1));
    var emulator := E.Alu(op, EmulatorOperand(e, rd), if IsImmediateShift(op) then rs1 else EmulatorOperand(e, rs1));
    && core.1 == emulator.1
    && (op == TEST || rd == 0 || emulator.0 == if rd == 15 then Plus(e.regs[15], 2) else core.0)
  }

  /** The operands on which core and emulator agree, form by form. `e` is the state before the fetch. */
  predicate Agreeable(e: E.Arch) {
    var i := E.Fetch(e.mem, e.regs[15]);
    var op, gp, rd, rs1 := LsOpcode(i), GpOpcode(i), Rd(i), Rs1(i);
    var pc, next, regs := e.regs[15], Plus(e.regs[15], 2), E.Fetched(e).regs;
    var effective := E.Displace(next, E.Signed(Rel6(i), 64) * 2);
    if Format(i) == 0 then
      && (IsStore(op) ==> ReservationAlike(e, Plus(regs[rs1], Offset2(i) * 2), Width(op)))
      && (op == PUSH ==> rd != 15 && ReservationAlike(e, Minus(regs[rd], 8), 8))
    else if Format(i) == 1 then
      && (IsStore(op) ==> (rd == 15 ==> StoredAlike(e.mem, effective, Width(op), pc, next)) && ReservationAlike(e, effective, Width(op)))
      && (op == PUSH ==> rd != 15 && ReservationAlike(e, Minus(regs[rd], 8), 8))
      && (op == POP ==> rd != 15 && ReservationAlike(e, effective, 8))
    else if Format(i) == 2 then rd == 15 ==> LdiValue(next, i) == next
    else if IsLongJump(i) then true
    else if gp == LLR then rs1 != 15
    else if gp == SCR then
      if rs1 == 15 then e.llValid ==> e.llAddr != pc && e.llAddr != next
      else rd == 15 && e.llValid && e.llAddr == e.regs[rs1] ==> StoredAlike(e.mem, e.llAddr, 8, pc, next)
    else AluAlike(e, gp, rd, rs1)
  }

  /** A step on which the core must agree with the emulator. */
  predicate Legal(e: E.Arch) {
    e.regs[15] % 2 == 0 && E.Modelled(E.Fetch(e.mem, e.regs[15])) && Agreeable(e)
  }

  lemma OverlapAgreesExactlyWhen(llAddr: Word, op: MemOp)
    requires ValidWidth(op.width)
    ensures
      (OverlapsReservation(llAddr, op) <==> E.Overlaps(llAddr, op.virtualAddr, op.width)) <==>
        (Fits(llAddr, 8) && Fits(op.virtualAddr, op.width)) || !E.Overlaps(llAddr, op.virtualAddr, op.width)
  {
  }

  /** Two values stored at one place leave the same memory exactly when no mapped byte tells them apart. */
  lemma StoredAlikeExactlyWhen(m: Memory, a: Word, w: nat, v: Word, v': Word)
    requires ValidWidth(w)
    ensures Store(m, a, WidthSelect(w), Split(v)) == Store(m, a, WidthSelect(w), Split(v')) <==> StoredAlike(m, a, w, v, v')
  {
    hide Split;
    var s, s' := Store(m, a, WidthSelect(w), Split(v)), Store(m, a, WidthSelect(w), Split(v'));
    if StoredAlike(m, a, w, v, v') {
      forall x | x in m
        ensures s[x] == s'[x]
      {
        assert Minus(x, a) < w ==> Plus(a, Minus(x, a)) == x;
      }
      assert s == s';
    } else {
      var k :| 0 <= k < 8 && k < w && Plus(a, k) in m && Split(v)[k] != Split(v')[k];
      assert Minus(Plus(a, k), a) == k;
      assert s[Plus(a, k)] != s'[Plus(a, k)];
    }
  }

  lemma StoreAgrees(m: Memory, a: Word, w: nat, v: Word)
    requires ValidWidth(w)
    ensures Store(m, a, BaseSelect(w), Split(v)) == Store(m, a, WidthSelect(w), Split(v))
  {
  }

  lemma TopBitOfField(v: nat, half: nat)
    requires v < 2 * half
    ensures v / half % 2 == 1 <==> v >= half
  {
    if v >= half {
      DivModUnique(v, half, 1, v - half);
    } else {
      DivModUnique(v, half, 0, v);
    }
  }

  lemma DoubledTwosComplement(base: Word, v: nat, size: nat)
    requires size <= 0x1_0000 && v < size
    ensures PlusDoubled(base, v + (0x1_0000_0000_0000_0000 - size)) == E.Displace(base, (v - size) * 2)
  {
    var x := base + (v - size) * 2;
    assert base + 2 * (v + (0x1_0000_0000_0000_0000 - size)) == x + 2 * 0x1_0000_0000_0000_0000;
  }

  lemma SignExtendAgrees(base: Word, v: nat, size: nat)
    requires 2 <= size <= 0x1_0000 && size % 2 == 0 && v < size
    ensures PlusDoubled(base, SignExtend(v, size)) == E.Displace(base, E.Signed(v, size) * 2)
  {
    TopBitOfField(v, size / 2);
    DoubledTwosComplement(base, v, size);
    assert E.Displace(base, v * 2) == PlusDoubled(base, v);
  }

  /** The core is about to execute the instruction the emulator has just fetched. */
  predicate Decoded(c: Core, m: Memory, e: E.Arch) {
    && c.phase == Execute
    && ArchOf(c, m) == e
    && e.regs[0] == 0
    && c.fetchPc == e.regs[15]
    && c.instruction == E.Fetch(m, e.regs[15])
  }

  predicate CommitsAtExecute(c: Core)
    requires c.phase == Execute
  {
    Commits(c, Bus(false, ZEROES, false, ZEROES))
  }

  /** Executing retires, or starts a memory operation. */
  ghost predicate Formed(c: Core)
    requires c.phase == Execute
  {
    var c' := ExecuteStep(c);
    c'.regs[0] == 0 && if CommitsAtExecute(c) then c'.phase == FetchTranslate else c'.phase == MemTranslate && ValidWidth(c'.op.width)
  }

  lemma LsRegForm(c: Core)
    requires c.phase == Execute && c.regs[0] == 0 && Format(c.instruction) == 0
    ensures Formed(c)
  {
    hide Plus, Minus;
  }

  lemma LsPcRelForm(c: Core)
    requires c.phase == Execute && c.regs[0] == 0 && Format(c.instruction) == 1
    ensures Formed(c)
  {
    hide SignExtend, PlusDoubled, Plus, Minus;
  }

  lemma OtherForm(c: Core)
    requires c.phase == Execute && c.regs[0] == 0 && Format(c.instruction) > 1 && E.Modelled(c.instruction)
    ensures Formed(c)
  {
    hide CoreAlu, SignExtend, PlusDoubled, BitOp.Word64, Plus, Minus;
  }

  lemma ExecuteForm(c: Core, m: Memory)
    requires c.phase == Execute && c.regs[0] == 0 && E.Modelled(c.instruction)
    ensures Formed(c) && (!CommitsAtExecute(c) ==> InFlight(ExecuteStep(c), m))
  {
    hide ExecuteStep, Commits;
    if Format(c.instruction) == 0 {
      LsRegForm(c);
    } else if Format(c.instruction) == 1 {
      LsPcRelForm(c);
    } else {
      OtherForm(c);
    }
  }

  /** Core and emulator part, or do not, on the instruction about to execute. */
  ghost predicate SameOutcome(c: Core, m: Memory, e: E.Arch)
    requires c.phase == Execute
  {
    if CommitsAtExecute(c) then ArchOf(ExecuteStep(c), m) == E.Cycle(e)
    else ExecuteStep(c).op.width <= 8 && Flush(ExecuteStep(c), m) == E.Cycle(e)
  }

  /** OR-ing the sign-extended immediate at once is OR-ing the byte and then the upper half. */
  lemma SignedImmediate(old_: Word, byte: nat)
    requires byte < 0x1_0000_0000
    ensures OR.Word64(OR.Word64(old_, byte), 0xFFFF_FFFF_0000_0000) == OR.Word64(old_, byte + 0xFFFF_FFFF_0000_0000)
  {
    Pow2Of64();
    SmallPowers();
    OrAssociates(64, old_, byte, 0xFFFF_FFFF_0000_0000);
    OrCommutes(64, byte, 0xFFFF_FFFF_0000_0000);
    OrDisjointIsSum(64, 32, 0xFFFF_FFFF, byte);
  }

  lemma {:induction false} OrCommutes(n: nat, x: nat, y: nat)
    ensures OR.Apply(n, x, y) == OR.Apply(n, y, x)
  {
    if n > 0 {
      OrCommutes(n - 1, x / 2, y / 2);
    }
  }

  lemma LdiAgrees(c: Core, m: Memory, e: E.Arch)
    requires Decoded(c, m, e) && Format(c.instruction) == 2
    ensures SameOutcome(c, m, e) <==> Agreeable(e)
  {
    hide BitOp.Word64;
    var rd, next := Rd(c.instruction), Plus(e.regs[15], 2);
    var now, then_ := ArchOf(ExecuteStep(c), m), E.Cycle(e);
    SignedImmediate(if rd == 15 then next else c.regs[rd], Imm8(c.instruction) as int * 0x100_0000);
    assert now.regs[15] == next;
    if rd == 15 {
      assert then_.regs[15] == LdiValue(next, c.instruction);
      assert forall r :: 0 <= r < 15 ==> now.regs[r] == then_.regs[r];
      assert now.regs[15] == then_.regs[15] ==> now.regs == then_.regs;
    } else {
      assert now.regs == then_.regs;
    }
  }

  /** The register files after an ALU operation with the given result. */
  function CoreAluRegs(e: E.Arch, op: nat, rd: nat, result: Word): Regs {
    (if op == TEST then e.regs else WriteReg(e.regs, rd, result))[15 := Plus(e.regs[15], 2)]
  }

  function EmulatorAluRegs(e: E.Arch, op: nat, rd: nat, result: Word): Regs
    requires rd < 16
  {
    var regs := E.Fetched(e).regs;
    (if op == TEST then regs else regs[rd := result])[0 := 0]
  }

  lemma AluRegs(e: E.Arch, op: nat, rd: nat, result: Word, result': Word)
    requires e.regs[0] == 0 && rd < 16
    ensures CoreAluRegs(e, op, rd, result) == EmulatorAluRegs(e, op, rd, result') <==>
      op == TEST || rd == 0 || result' == if rd == 15 then Plus(e.regs[15], 2) else result
  {
    var now, then_ := CoreAluRegs(e, op, rd, result), EmulatorAluRegs(e, op, rd, result');
    assert forall r :: 0 <= r < 16 && r != rd ==> now[r] == then_[r];
    assert now[rd] == then_[rd] ==> now == then_;
  }

  predicate AluDecoded(c: Core, m: Memory, e: E.Arch) {
    && Decoded(c, m, e) && Format(c.instruction) == 3 && !IsLongJump(c.instruction)
    && (IsAlu(GpOpcode(c.instruction)) || IsImmediateShift(GpOpcode(c.instruction)))
  }

  lemma AluInCore(c: Core, m: Memory, e: E.Arch, a: Word, b: Word)
    requires AluDecoded(c, m, e) && a == CoreOperand(e, Rd(c.instruction))
    requires b == if IsImmediateShift(GpOpcode(c.instruction)) then Rs1(c.instruction) else CoreOperand(e, Rs1(c.instruction))
    ensures
      var op, rd := GpOpcode(c.instruction), Rd(c.instruction);
      && CommitsAtExecute(c)
      && ArchOf(ExecuteStep(c), m) == e.(regs := CoreAluRegs(e, op, rd, E.Alu(op, a, b).0), flags := E.Alu(op, a, b).1)
  {
    hide CoreAlu, E.Alu;
    AluAgrees(GpOpcode(c.instruction), a, b);
    assert ExecuteStep(c) == ExecuteAlu(c);
  }

  lemma AluInEmulator(e: E.Arch, i: Half, a: Word, b: Word)
    requires i == E.Fetch(e.mem, e.regs[15]) && Format(i) == 3 && !IsLongJump(i) && e.regs[0] == 0
    requires IsAlu(GpOpcode(i)) || IsImmediateShift(GpOpcode(i))
    requires a == EmulatorOperand(e, Rd(i)) && b == if IsImmediateShift(GpOpcode(i)) then Rs1(i) else EmulatorOperand(e, Rs1(i))
    ensures
      var op, rd := GpOpcode(i), Rd(i);
      E.Cycle(e) == e.(regs := EmulatorAluRegs(e, op, rd, E.Alu(op, a, b).0), flags := E.Alu(op, a, b).1)
  {
    hide E.Alu;
  }

  lemma AluStepAgrees(c: Core, m: Memory, e: E.Arch)
    requires AluDecoded(c, m, e)
    ensures SameOutcome(c, m, e) <==> Agreeable(e)
  {
    hide ExecuteStep, E.Cycle, E.Alu, CoreAluRegs, EmulatorAluRegs, Commits;
    var op, rd, rs1 := GpOpcode(c.instruction), Rd(c.instruction), Rs1(c.instruction);
    var imm := IsImmediateShift(op);
    var a, b := CoreOperand(e, rd), if imm then rs1 else CoreOperand(e, rs1);
    var a', b' := EmulatorOperand(e, rd), if imm then rs1 else EmulatorOperand(e, rs1);
    AluInCore(c, m, e, a, b);
    AluInEmulator(e, c.instruction, a', b');
    AluRegs(e, op, rd, E.Alu(op, a, b).0, E.Alu(op, a', b').0);
  }

  lemma LongJumpAgrees(c: Core, m: Memory, e: E.Arch)
    requires Decoded(c, m, e) && IsLongJump(c.instruction)
    ensures SameOutcome(c, m, e)
  {
    SignExtendAgrees(PostIncrementPc(c), Rel13(c.instruction), 8192);
    assert ArchOf(ExecuteStep(c), m).regs == E.Cycle(e).regs;
  }

  lemma LinkedAgrees(c: Core, m: Memory, e: E.Arch)
    requires Decoded(c, m, e) && Format(c.instruction) == 3 && !IsLongJump(c.instruction)
    requires GpOpcode(c.instruction) == LLR
    ensures SameOutcome(c, m, e) <==> Agreeable(e)
  {
    hide Load;
    var now, then_ := Flush(ExecuteStep(c), m), E.Cycle(e);
    if Rs1(c.instruction) == 15 {
      assert now.llAddr != then_.llAddr;
    } else {
      assert now.regs == then_.regs;
    }
  }

  lemma ConditionalAgrees(c: Core, m: Memory, e: E.Arch)
    requires Decoded(c, m, e) && Format(c.instruction) == 3 && !IsLongJump(c.instruction)
    requires GpOpcode(c.instruction) == SCR
    ensures SameOutcome(c, m, e) <==> Agreeable(e)
  {
    hide Store, Split, StoredAlike;
    var rd, rs1 := Rd(c.instruction), Rs1(c.instruction);
    var c', then_ := ExecuteStep(c), E.Cycle(e);
    if CommitsAtExecute(c) {
      assert c'.regs == (if rs1 == 15 && e.llValid && e.llAddr == Plus(e.regs[15], 2) then c'.regs else then_.regs);
    } else {
      StoreAgrees(m, c'.op.addr, 8, c'.op.storeValue);
      assert Flush(c', m).regs == then_.regs;
      if rs1 != 15 {
        StoredAlikeExactlyWhen(m, e.llAddr, 8, e.regs[15], Plus(e.regs[15], 2));
      }
    }
  }

  /** A store in flight has the emulator's effect, but for the reservation where the tests differ. */
  lemma StoreFlush(c: Core, m: Memory, before: E.Arch)
    requires c.op.write && ValidWidth(c.op.width) && c.op.virtualAddr == c.op.addr
    requires before == E.Arch(RegsAfterStore(c.regs, c.op), c.flags, c.llAddr, c.llValid, m)
    ensures Flush(c, m) == E.Write(before, c.op.addr, c.op.width, c.op.storeValue).(llValid := Flush(c, m).llValid)
    ensures
      Flush(c, m).llValid == E.Write(before, c.op.addr, c.op.width, c.op.storeValue).llValid <==>
        ReservationAlike(before, c.op.addr, c.op.width)
  {
    hide Store, Split;
    StoreAgrees(m, c.op.addr, c.op.width, c.op.storeValue);
    OverlapAgreesExactlyWhen(c.llAddr, c.op);
  }

  lemma LsRegStoreAgrees(c: Core, m: Memory, e: E.Arch)
    requires Decoded(c, m, e) && Format(c.instruction) == 0
    requires IsStore(LsOpcode(c.instruction)) || LsOpcode(c.instruction) == PUSH
    ensures SameOutcome(c, m, e) <==> Agreeable(e)
  {
    hide Store, Split, E.Overlaps, OverlapsReservation;
    var op, rd, rs1 := LsOpcode(c.instruction), Rd(c.instruction), Rs1(c.instruction);
    var e1 := E.Fetched(e);
    var c' := ExecuteStep(c);
    assert c'.op.storeValue == e1.regs[if op == PUSH then rs1 else rd];
    var before := E.Arch(RegsAfterStore(c'.regs, c'.op), c'.flags, c'.llAddr, c'.llValid, m);
    StoreFlush(c', m, before);
    if op == PUSH && rd == 15 {
      assert Flush(c', m).regs[15] != E.Cycle(e).regs[15];
    } else {
      assert before.regs == E.Cycle(e).regs;
    }
  }

  lemma LsRegLoadAgrees(c: Core, m: Memory, e: E.Arch)
    requires Decoded(c, m, e) && Format(c.instruction) == 0
    requires IsLoad(LsOpcode(c.instruction)) || LsOpcode(c.instruction) == POP
    ensures SameOutcome(c, m, e)
  {
    hide Load;
    assert Flush(ExecuteStep(c), m).regs == E.Cycle(e).regs;
  }

  lemma LsRegMoveAgrees(c: Core, m: Memory, e: E.Arch)
    requires Decoded(c, m, e) && Format(c.instruction) == 0
    requires LsOpcode(c.instruction) == MOVE || IsJump(LsOpcode(c.instruction))
    ensures SameOutcome(c, m, e)
  {
    assert ArchOf(ExecuteStep(c), m).regs == E.Cycle(e).regs;
  }

  lemma PcRelEffective(c: Core, m: Memory, e: E.Arch)
    requires Decoded(c, m, e)
    ensures PcEffective(c) == E.Displace(Plus(e.regs[15], 2), E.Signed(Rel6(c.instruction), 64) * 2)
    ensures JumpEffective(c) == E.Displace(Plus(e.regs[15], 2), E.Signed(Rel10(c.instruction), 1024) * 2)
  {
    SignExtendAgrees(PostIncrementPc(c), Rel6(c.instruction), 64);
    SignExtendAgrees(PostIncrementPc(c), Rel10(c.instruction), 1024);
  }

  predicate StoreDecoded(c: Core, m: Memory, e: E.Arch) {
    Decoded(c, m, e) && Format(c.instruction) == 1 && IsStore(LsOpcode(c.instruction))
  }

  /** The state with the PC past the instruction. */
  function Advanced(e: E.Arch): E.Arch { e.(regs := e.regs[15 := Plus(e.regs[15], 2)]) }

  lemma PcStoreInCore(c: Core, m: Memory, e: E.Arch)
    requires StoreDecoded(c, m, e)
    ensures
      var op := ExecuteStep(c).op;
      && !CommitsAtExecute(c) && op.addr == PcEffective(c) && op.width == Width(LsOpcode(c.instruction))
      && op.storeValue == e.regs[Rd(c.instruction)]
      && Flush(ExecuteStep(c), m) == E.Write(Advanced(e), op.addr, op.width, op.storeValue).(llValid := Flush(ExecuteStep(c), m).llValid)
      && (Flush(ExecuteStep(c), m).llValid == E.Write(Advanced(e), op.addr, op.width, op.storeValue).llValid <==>
            ReservationAlike(e, op.addr, op.width))
  {
    hide Store, Split, E.Overlaps, OverlapsReservation, PlusDoubled, SignExtend;
    StoreFlush(ExecuteStep(c), m, Advanced(e));
  }

  lemma PcStoreInEmulator(e: E.Arch, i: Half)
    requires i == E.Fetch(e.mem, e.regs[15]) && e.regs[0] == 0 && Format(i) == 1 && IsStore(LsOpcode(i))
    ensures
      var next := Plus(e.regs[15], 2);
      E.Cycle(e)
      == E.Write(Advanced(e), E.Displace(next, E.Signed(Rel6(i), 64) * 2), Width(LsOpcode(i)), if Rd(i) == 15 then next else e.regs[Rd(i)])
  {
    hide Store, Split, E.Overlaps, E.Displace, E.Signed;
    var r := E.Cycle(e);
    assert E.Fetched(e) == Advanced(e) by {
      assert E.Fetched(e).regs == Advanced(e).regs;
    }
    assert r.regs == Advanced(e).regs;
  }

  lemma LsPcRelStoreAgrees(c: Core, m: Memory, e: E.Arch)
    requires StoreDecoded(c, m, e)
    ensures SameOutcome(c, m, e) <==> Agreeable(e)
  {
    hide ExecuteStep, Flush, E.Cycle, Commits, Store, Split, E.Overlaps, StoredAlike, ReservationAlike, PlusDoubled, SignExtend, E.Displace, E.Signed;
    PcRelEffective(c, m, e);
    PcStoreInCore(c, m, e);
    PcStoreInEmulator(e, c.instruction);
    StoredAlikeExactlyWhen(m, PcEffective(c), Width(LsOpcode(c.instruction)), e.regs[15], Plus(e.regs[15], 2));
  }

  /** The memory-to-memory forms: a load whose value is chained into a store. */
  lemma LsPcRelChainAgrees(c: Core, m: Memory, e: E.Arch)
    requires Decoded(c, m, e) && Format(c.instruction) == 1
    requires LsOpcode(c.instruction) == PUSH || LsOpcode(c.instruction) == POP
    ensures SameOutcome(c, m, e) <==> Agreeable(e)
  {
    hide Load, Store, Split, E.Overlaps, OverlapsReservation, PlusDoubled, SignExtend, E.Displace, E.Signed;
    PcRelEffective(c, m, e);
    var c' := ExecuteStep(c);
    var loaded := Load(m, c'.op.addr, 8);
    var chained := c'.(regs := RegsAfterLoad(c'.regs, c'.op, loaded), op := ChainedStore(c'.op, loaded));
    var before := E.Arch(RegsAfterStore(chained.regs, chained.op), c'.flags, c'.llAddr, c'.llValid, m);
    StoreFlush(chained, m, before);
    assert Flush(c', m) == Flush(chained, m);
    if Rd(c.instruction) == 15 {
      assert Flush(c', m).regs[15] != E.Cycle(e).regs[15];
    } else {
      assert before.regs == E.Cycle(e).regs;
    }
  }

  lemma LsPcRelLoadAgrees(c: Core, m: Memory, e: E.Arch)
    requires Decoded(c, m, e) && Format(c.instruction) == 1 && IsLoad(LsOpcode(c.instruction))
    ensures SameOutcome(c, m, e)
  {
    hide Load, PlusDoubled, SignExtend, E.Displace, E.Signed;
    PcRelEffective(c, m, e);
    assert Flush(ExecuteStep(c), m).regs == E.Cycle(e).regs;
  }

  lemma LsPcRelMoveAgrees(c: Core, m: Memory, e: E.Arch)
    requires Decoded(c, m, e) && Format(c.instruction) == 1
    requires LsOpcode(c.instruction) == MOVE || IsJump(LsOpcode(c.instruction))
    ensures SameOutcome(c, m, e)
  {
    hide PlusDoubled, SignExtend, E.Displace, E.Signed;
    PcRelEffective(c, m, e);
    assert ArchOf(ExecuteStep(c), m).regs == E.Cycle(e).regs;
  }

  /** For every instruction and state the core's result, retired or still in flight, is the emulator's
      next state exactly when the operands are agreeable. */
  lemma AgreesExactlyWhen(c: Core, m: Memory, e: E.Arch)
    requires Decoded(c, m, e) && E.Modelled(c.instruction)
    ensures SameOutcome(c, m, e) <==> Agreeable(e)
  {
    hide SameOutcome, AluAlike, ReservationAlike, StoredAlike, LdiValue;
    var op, gp := LsOpcode(c.instruction), GpOpcode(c.instruction);
    if Format(c.instruction) == 0 {
      if IsStore(op) || op == PUSH {
        LsRegStoreAgrees(c, m, e);
      } else if IsLoad(op) || op == POP {
        LsRegLoadAgrees(c, m, e);
      } else {
        LsRegMoveAgrees(c, m, e);
      }
    } else if Format(c.instruction) == 1 {
      if IsStore(op) {
        LsPcRelStoreAgrees(c, m, e);
      } else if op == PUSH || op == POP {
        LsPcRelChainAgrees(c, m, e);
      } else if IsLoad(op) {
        LsPcRelLoadAgrees(c, m, e);
      } else {
        LsPcRelMoveAgrees(c, m, e);
      }
    } else if Format(c.instruction) == 2 {
      LdiAgrees(c, m, e);
    } else if IsLongJump(c.instruction) {
      LongJumpAgrees(c, m, e);
    } else if gp == LLR {
      LinkedAgrees(c, m, e);
    } else if gp == SCR {
      ConditionalAgrees(c, m, e);
    } else {
      AluStepAgrees(c, m, e);
    }
  }

  /** What executing must establish: retired in the emulator's next state, or in flight towards it. */
  ghost predicate Executed(c: Core, m: Memory, e: E.Arch, commits: bool) {
    if commits then c.phase == FetchTranslate && c.regs[0] == 0 && ArchOf(c, m) == E.Cycle(e)
    else InFlight(c, m) && Flush(c, m) == E.Cycle(e)
  }

  /** Executing an agreeable instruction retires it in the emulator's next state or starts a memory
      operation that flushes to it. */
  lemma ExecuteAgrees(c: Core, m: Memory, e: E.Arch)
    requires Decoded(c, m, e) && Legal(e)
    ensures Executed(ExecuteStep(c), m, e, CommitsAtExecute(c))
  {
    hide ExecuteStep, E.Cycle, Agreeable, Commits, Flush, InFlight;
    AgreesExactlyWhen(c, m, e);
    ExecuteForm(c, m);
  }

  // ---------------------------------------------------------------- every clock, every run

  /** The core, wherever it is inside an instruction, stands for the emulator state e reached by
      the instructions committed so far. */
  ghost predicate Related(s: System, e: E.Arch) {
    match s.core.phase
    case FetchTranslate => s.core.regs[0] == 0 && ArchOf(s.core, s.mem) == e
    case Fetch => s.core.regs[0] == 0 && ArchOf(s.core, s.mem) == e && s.core.fetchPhys == e.regs[15]
    case Execute => Decoded(s.core, s.mem, e)
    case Reset => false
    case Halted => false
    case _ => InFlight(s.core, s.mem) && Flush(s.core, s.mem) == E.Cycle(e)
  }

  lemma FetchAgrees(m: Memory, pc: Word)
    requires pc % 2 == 0
    ensures
      var line := Block(m, Base(pc));
      line[2 * (pc / 2 % 4)] as int + 0x100 * line[2 * (pc / 2 % 4) + 1] as int == E.Fetch(m, pc)
  {
    var k := 2 * (pc / 2 % 4);
    assert Plus(Base(pc), k) == pc && Plus(Base(pc), k + 1) == Plus(pc, 1);
  }

  ghost predicate Refines(s: System, s': System, commits: bool, e: E.Arch) {
    if commits then s'.core.phase == FetchTranslate && Related(s', E.Cycle(e)) else Related(s', e)
  }

  lemma FetchClock(cfg: Config, s: System, bus: Bus, e: E.Arch)
    requires Related(s, e) && e.regs[15] % 2 == 0 && Answers(s, bus)
    requires s.core.phase == FetchTranslate || s.core.phase == Fetch
    ensures Refines(s, Tick(cfg, s, bus), false, e) && !Commits(s.core, bus)
    ensures var c' := Tick(cfg, s, bus).core; if Stalled(s.core, bus) then Rank(c') == Rank(s.core) else Rank(c') < Rank(s.core)
  {
    assert s.core.regs[0 := 0] == s.core.regs;
    FetchAgrees(s.mem, e.regs[15]);
  }

  lemma ExecuteClock(cfg: Config, s: System, bus: Bus, e: E.Arch)
    requires s.core.phase == Execute && Related(s, e) && Legal(e)
    ensures Refines(s, Tick(cfg, s, bus), Commits(s.core, bus), e)
    ensures !Commits(s.core, bus) ==> Rank(Tick(cfg, s, bus).core) < Rank(s.core)
  {
    assert s.core.regs[0 := 0] == s.core.regs;
    assert s.core.(regs := s.core.regs[0 := 0]) == s.core;
    ExecuteAgrees(s.core, s.mem, e);
    var c' := ExecuteStep(s.core);
    assert Tick(cfg, s, bus) == System(c', s.mem);
    if !Commits(s.core, bus) {
      ExecuteForm(s.core, s.mem);
    }
  }

  lemma MemClock(cfg: Config, s: System, bus: Bus, e: E.Arch)
    requires MemPhase(s.core) && Related(s, e) && Answers(s, bus)
    ensures Refines(s, Tick(cfg, s, bus), Commits(s.core, bus), e)
  {
    MemPhaseStep(cfg, s, bus);
  }

  lemma MemProgress(cfg: Config, s: System, bus: Bus)
    requires MemPhase(s.core) && !Commits(s.core, bus)
    requires s.core.phase == MemLoad || s.core.phase == MemLoadSplit ==> !s.core.op.write
    ensures var c' := Tick(cfg, s, bus).core; if Stalled(s.core, bus) then Rank(c') == Rank(s.core) else Rank(c') < Rank(s.core)
  {
    hide Join, MaskToWidth, Block, Number, ShiftedSelect, ShiftedData, RegsAfterLoad, RegsAfterStore;
  }

  /** Each clock either commits one emulator cycle or stutters. */
  lemma ClockRefines(cfg: Config, s: System, bus: Bus, e: E.Arch)
    requires Related(s, e) && Legal(e) && Answers(s, bus)
    ensures Refines(s, Tick(cfg, s, bus), Commits(s.core, bus), e)
  {
    if MemPhase(s.core) {
      MemClock(cfg, s, bus, e);
    } else if s.core.phase == Execute {
      ExecuteClock(cfg, s, bus, e);
    } else {
      FetchClock(cfg, s, bus, e);
    }
  }

  function Run(cfg: Config, s: System, ins: seq<Bus>): System {
    if ins == [] then s else Tick(cfg, Run(cfg, s, ins[..|ins| - 1]), ins[|ins| - 1])
  }

  ghost predicate Answered(cfg: Config, s: System, ins: seq<Bus>) {
    forall k :: 0 <= k < |ins| ==> Answers(Run(cfg, s, ins[..k]), ins[k])
  }

  /** The architectural states in which the core stands right after each of its commits. */
  function CommitTrace(cfg: Config, s: System, ins: seq<Bus>): seq<E.Arch> {
    if ins == [] then []
    else
      var before := Run(cfg, s, ins[..|ins| - 1]);
      CommitTrace(cfg, s, ins[..|ins| - 1])
      + (if Commits(before.core, ins[|ins| - 1])
         then [ArchOf(Tick(cfg, before, ins[|ins| - 1]).core, Tick(cfg, before, ins[|ins| - 1]).mem)]
         else [])
  }

  lemma RelatedAtFetch(s: System, e: E.Arch)
    requires s.core.phase == FetchTranslate && Related(s, e)
    ensures ArchOf(s.core, s.mem) == e
  {
  }

  /** Over any run, with any bus latencies, the core commits exactly the emulator's states, in order. */
  lemma {:induction false} RunRefines(cfg: Config, s: System, ins: seq<Bus>, e: E.Arch)
    requires Related(s, e) && Answered(cfg, s, ins)
    requires forall k :: 0 <= k <= |CommitTrace(cfg, s, ins)| ==> Legal(E.Cycles(e, k))
    ensures
      var trace := CommitTrace(cfg, s, ins);
      && (forall k :: 0 <= k < |trace| ==> trace[k] == E.Cycles(e, k + 1))
      && Related(Run(cfg, s, ins), E.Cycles(e, |trace|))
  {
    hide Tick, Related, Answers, Legal, E.Cycle, Commits, ArchOf;
    if ins != [] {
      var init, bus := ins[..|ins| - 1], ins[|ins| - 1];
      forall k | 0 <= k < |init|
        ensures Answers(Run(cfg, s, init[..k]), init[k])
      {
        assert init[..k] == ins[..k];
      }
      RunRefines(cfg, s, init, e);
      var n := |CommitTrace(cfg, s, init)|;
      var before := Run(cfg, s, init);
      ClockRefines(cfg, before, bus, E.Cycles(e, n));
      if Commits(before.core, bus) {
        RelatedAtFetch(Tick(cfg, before, bus), E.Cycles(e, n + 1));
      }
    }
  }

  /** Out of reset the core stands for the emulator at the reset vector. */
  lemma ResetStarts(cfg: Config, s: System, bus: Bus)
    requires s.core.phase == Reset
    ensures
      var s' := Tick(cfg, s, bus);
      var regs := s.core.regs[0 := 0][1 := cfg.bootR1][13 := cfg.bootR13][15 := cfg.resetVector];
      var e := E.Arch(regs, Flags(false, false, false), 0, false, s.mem);
      Related(s', e)
  {
  }

  // ---------------------------------------------------------------- progress

  /** The clock changes nothing because the addressed bus has not acknowledged. */
  predicate Stalled(c: Core, bus: Bus) {
    (c.phase == Fetch && !bus.iAck) || (DBusCycle(c) && !bus.dAck)
  }

  /** An upper bound on the unstalled clocks before the next commit. */
  function Rank(c: Core): nat {
    var chained := if c.op.chainStore && !c.op.write then 4 else 0;
    match c.phase
    case FetchTranslate => 11
    case Fetch => 10
    case Execute => 9
    case MemTranslate => 4 + chained
    case MemLoad => 3 + chained
    case MemLoadSplit => (if c.splitFirstCycle then 2 else 1) + chained
    case MemStore => 3
    case MemStoreSplit => if c.splitFirstCycle then 2 else 1
    case _ => 0
  }

  lemma ClockProgress(cfg: Config, s: System, bus: Bus, e: E.Arch)
    requires Related(s, e) && Legal(e) && Answers(s, bus)
    requires !Commits(s.core, bus)
    ensures
      var s' := Tick(cfg, s, bus);
      if Stalled(s.core, bus) then Rank(s'.core) == Rank(s.core) else Rank(s'.core) < Rank(s.core)
  {
    if MemPhase(s.core) {
      MemProgress(cfg, s, bus);
    } else if s.core.phase == Execute {
      ExecuteClock(cfg, s, bus, e);
    } else {
      FetchClock(cfg, s, bus, e);
    }
  }

  function Unstalled(cfg: Config, s: System, ins: seq<Bus>): nat {
    if ins == [] then 0
    else
      Unstalled(cfg, s, ins[..|ins| - 1])
      + (if Stalled(Run(cfg, s, ins[..|ins| - 1]).core, ins[|ins| - 1]) then 0 else 1)
  }

  /** A run that commits nothing has at most eleven unstalled clocks: once the bus has acknowledged
      often enough the instruction commits. */
  lemma {:induction false} RunProgress(cfg: Config, s: System, ins: seq<Bus>, e: E.Arch)
    requires Related(s, e) && Legal(e) && Answered(cfg, s, ins)
    requires CommitTrace(cfg, s, ins) == []
    ensures Unstalled(cfg, s, ins) + Rank(Run(cfg, s, ins).core) <= Rank(s.core) <= 11
    ensures Related(Run(cfg, s, ins), e)
  {
    hide Tick, Related, Answers, Legal, E.Cycle, Commits, ArchOf, Stalled;
    assert Rank(s.core) <= 11;
    if ins != [] {
      var init, bus := ins[..|ins| - 1], ins[|ins| - 1];
      forall k | 0 <= k < |init|
        ensures Answers(Run(cfg, s, init[..k]), init[k])
      {
        assert init[..k] == ins[..k];
      }
      RunProgress(cfg, s, init, e);
      ClockRefines(cfg, Run(cfg, s, init), bus, e);
      ClockProgress(cfg, Run(cfg, s, init), bus, e);
    }
  }

  // ---------------------------------------------------------------- where the two part

  /** An immediate loaded into R15 is a jump for the emulator; the core overwrites it with the next PC.
      They agree exactly when the immediate is that address or, merged in by OR, adds no bit to it. */
  lemma LoadImmediateToPc(c: Core, m: Memory, e: E.Arch)
    requires Decoded(c, m, e) && Format(c.instruction) == 2 && Rd(c.instruction) == 15
    ensures
      var next, part := Plus(e.regs[15], 2), LdiPart(c.instruction);
      SameOutcome(c, m, e) <==>
        if LdiShift(c.instruction) == 0 then part == next else forall k :: 0 <= k < 64 && Bit(part, k) ==> Bit(next, k)
  {
    hide SameOutcome;
    LdiAgrees(c, m, e);
    OrAddsNothing(Plus(e.regs[15], 2), LdiPart(c.instruction));
  }

  lemma OrAddsNothing(w: Word, part: Word)
    ensures OR.Word64(w, part) == w <==> forall k :: 0 <= k < 64 && Bit(part, k) ==> Bit(w, k)
  {
    hide Bit, BitOp.Word64;
    var r := OR.Word64(w, part);
    forall k | 0 <= k < 64
      ensures Bit(r, k) <==> Bit(w, k) || Bit(part, k)
    {
      Control.OrBit(w, part, k);
    }
    if forall k :: 0 <= k < 64 && Bit(part, k) ==> Bit(w, k) {
      Pow2Of64();
      SameBits(64, r, w);
    }
  }

  /** Adding R15 reads the advanced PC in the emulator and the instruction's own address in the core. */
  lemma AddOfPc(c: Core, m: Memory, e: E.Arch)
    requires Decoded(c, m, e) && Format(c.instruction) == 3 && !IsLongJump(c.instruction)
    requires GpOpcode(c.instruction) == ADD && Rs1(c.instruction) == 15 && 0 < Rd(c.instruction) < 15
    ensures E.Cycle(e).regs[Rd(c.instruction)] == Plus(ArchOf(ExecuteStep(c), m).regs[Rd(c.instruction)], 2)
  {
    hide E.FlagsOf, FlagValue;
  }

  /** PUSH through R15 moves the emulator's PC down by eight; the core just goes on. */
  lemma PushThroughPc(c: Core, m: Memory, e: E.Arch)
    requires Decoded(c, m, e) && Format(c.instruction) == 0 && LsOpcode(c.instruction) == PUSH && Rd(c.instruction) == 15
    ensures Flush(ExecuteStep(c), m).regs[15] == Plus(e.regs[15], 2)
    ensures E.Cycle(e).regs[15] == Minus(Plus(e.regs[15], 2), 8)
  {
    hide Store;
  }

  /** A PC-relative store of R15 stores the advanced PC in the emulator, the instruction's address in
      the core. */
  lemma StoreOfPc(c: Core, m: Memory, e: E.Arch)
    requires Decoded(c, m, e) && Format(c.instruction) == 1 && IsStore(LsOpcode(c.instruction)) && Rd(c.instruction) == 15
    ensures
      var op := ExecuteStep(c).op;
      && op.storeValue == e.regs[15]
      && E.Cycle(e).mem == Store(m, op.addr, WidthSelect(op.width), Split(Plus(e.regs[15], 2)))
  {
    hide Store, Split, WidthSelect, PlusDoubled, SignExtend, E.Displace, E.Signed;
    PcRelEffective(c, m, e);
  }
}
