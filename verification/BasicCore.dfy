/** The basic core's clocked state machine (hdl/little64_cores/basic/core.py) with paging off and
    interrupts disabled. Each clock computes every register's next value from the current ones;
    within a clock a later assignment to the same register wins. */
module BasicCore {
  import opened Words
  import opened Instructions
  import opened Beats

  datatype Phase =
    | Reset | FetchTranslate | Fetch | Execute | MemTranslate
    | MemLoad | MemLoadSplit | MemStore | MemStoreSplit | Halted

  /** The memory operation in progress (the pending_* registers). */
  datatype MemOp = MemOp(
    addr: Word,
    virtualAddr: Word,
    width: nat,
    rd: nat,
    storeValue: Word,
    nextPc: Word,
    write: bool,
    setReservation: bool,
    reservationAddr: Word,
    postReg: nat,
    postValue: Word,
    postDelta: Word,
    postWrite: bool,
    postUseLoad: bool,
    chainStore: bool,
    chainAddr: Word,
    chainUseLoad: bool,
    chainValue: Word
  )

  datatype Core = Core(
    phase: Phase,
    regs: Regs,
    flags: Flags,
    llAddr: Word,
    llValid: bool,
    lockedUp: bool,
    fetchPc: Word,
    fetchPhys: Word,
    instruction: Half,
    op: MemOp,
    splitFirstData: Line,
    splitFirstCycle: bool
  )

  datatype Config = Config(resetVector: Word, bootR1: Word, bootR13: Word)

  /** What the two buses return in one clock. */
  datatype Bus = Bus(iAck: bool, iData: Line, dAck: bool, dData: Line)

  // ---------------------------------------------------------------- combinational signals

  function PostIncrementPc(c: Core): Word { Plus(c.fetchPc, 2) }

  /** A field of `size` values sign-extended from its top bit to 64 bits. */
  function SignExtend(v: nat, size: nat): Word
    requires 2 <= size <= 0x1_0000 && v < size
  {
    if v / (size / 2) % 2 == 1 then v + (0x1_0000_0000_0000_0000 - size) else v
  }

  /** base + (offset << 1), truncated to 64 bits. */
  function PlusDoubled(base: Word, offset: Word): Word {
    (base + 2 * offset) % 0x1_0000_0000_0000_0000
  }

  function PcEffective(c: Core): Word {
    PlusDoubled(PostIncrementPc(c), SignExtend(Rel6(c.instruction), 64))
  }

  function JumpEffective(c: Core): Word {
    PlusDoubled(PostIncrementPc(c), SignExtend(Rel10(c.instruction), 1024))
  }

  function LongJumpTarget(c: Core): Word {
    PlusDoubled(PostIncrementPc(c), SignExtend(Rel13(c.instruction), 8192))
  }

  function LsRdValue(c: Core): Word { if Rd(c.instruction) == 15 then PostIncrementPc(c) else c.regs[Rd(c.instruction)] }
  function LsRs1Value(c: Core): Word { if Rs1(c.instruction) == 15 then PostIncrementPc(c) else c.regs[Rs1(c.instruction)] }

  /** 0xFF masks for the architected widths; any other width selects nothing. */
  function BaseSelect(width: nat): Select {
    if width == 1 || width == 2 || width == 4 || width == 8 then WidthSelect(width) else NONE
  }

  /** The access in progress as the lane logic sees it. */
  function TransferOf(op: MemOp): Transfer { Transfer(op.addr, BaseSelect(op.width), Split(op.storeValue)) }

  predicate InSecondBeat(c: Core) { c.phase == MemLoadSplit || c.phase == MemStoreSplit }

  function IBusAddr(c: Core): Word { Base(c.fetchPhys) }
  function DBusAddr(c: Core): Word { if InSecondBeat(c) then SecondAddr(TransferOf(c.op)) else FirstAddr(TransferOf(c.op)) }
  function DBusData(c: Core): Line { if c.phase == MemStoreSplit then SecondData(TransferOf(c.op)) else FirstData(TransferOf(c.op)) }
  function DBusSelect(c: Core): Select { if InSecondBeat(c) then SecondSelect(TransferOf(c.op)) else FirstSelect(TransferOf(c.op)) }
  predicate DBusCycle(c: Core) {
    c.phase == MemLoad || c.phase == MemStore || (InSecondBeat(c) && !c.splitFirstCycle)
  }
  predicate DBusWrite(c: Core) { c.phase == MemStore || (c.phase == MemStoreSplit && !c.splitFirstCycle) }

  /** The 64-bit end addresses wrap here. */
  predicate OverlapsReservation(llAddr: Word, op: MemOp) {
    && op.width != 0
    && op.virtualAddr <= Plus(llAddr, 7)
    && llAddr <= (op.virtualAddr + op.width - 1) % 0x1_0000_0000_0000_0000
  }

  // ---------------------------------------------------------------- helpers of the clocked logic

  function WriteReg(regs: Regs, index: nat, v: Word): Regs {
    if 1 <= index < 16 then regs[index := v] else regs
  }

  /** Common effect of finishing an instruction: set the PC and fetch again. */
  function Retire(c: Core, regs: Regs, pc: Word): Core {
    c.(regs := regs[15 := pc], phase := FetchTranslate)
  }

  function LoadOp(c: Core, addr: Word, width: nat, rd: nat): MemOp {
    c.op.(addr := addr, virtualAddr := addr, width := width, rd := rd, nextPc := PostIncrementPc(c),
          write := false, setReservation := false, postWrite := false, postUseLoad := false, postDelta := 0,
          chainStore := false, chainUseLoad := false, chainValue := 0)
  }

  function StoreOp(c: Core, addr: Word, width: nat, value: Word): MemOp {
    c.op.(addr := addr, virtualAddr := addr, width := width, storeValue := value, nextPc := PostIncrementPc(c),
          write := true, setReservation := false, postWrite := false, postUseLoad := false, postDelta := 0,
          chainStore := false, chainUseLoad := false, chainValue := 0)
  }

  function Begin(c: Core, op: MemOp): Core { c.(op := op, phase := MemTranslate) }

  predicate LsCondition(f: Flags, op: nat) {
    if op == JUMP_Z then f.z else if op == JUMP_C then f.c else if op == JUMP_S then f.s
    else if op == JUMP_GT then !f.z && !f.s else if op == JUMP_LT then f.s else false
  }

  // ---------------------------------------------------------------- EXECUTE

  /** `c` already has R0 cleared. */
  function ExecuteLdi(c: Core): Core {
    var rd, imm := Rd(c.instruction), Imm8(c.instruction) as int;
    var old_ := c.regs[rd];
    var value :=
      if LdiShift(c.instruction) == 0 then imm
      else if LdiShift(c.instruction) == 1 then OR.Word64(old_, imm * 0x100)
      else if LdiShift(c.instruction) == 2 then OR.Word64(old_, imm * 0x1_0000)
      else OR.Word64(old_, if imm >= 0x80 then imm * 0x100_0000 + 0xFFFF_FFFF_0000_0000 else imm * 0x100_0000);
    Retire(c, WriteReg(c.regs, rd, value), PostIncrementPc(c))
  }

  function ExecuteLsReg(c: Core): Core {
    var op, rd, rs1 := LsOpcode(c.instruction), Rd(c.instruction), Rs1(c.instruction);
    var lsAddr := Plus(LsRs1Value(c), Offset2(c.instruction) * 2);
    var pushAddr := Minus(LsRdValue(c), 8);
    if IsLoad(op) then Begin(c, LoadOp(c, lsAddr, Width(op), rd))
    else if IsStore(op) then Begin(c, StoreOp(c, lsAddr, Width(op), LsRdValue(c)))
    else if op == PUSH then
      Begin(c.(regs := WriteReg(c.regs, rd, pushAddr)), StoreOp(c, pushAddr, 8, LsRs1Value(c)))
    else if op == POP then
      Begin(c, LoadOp(c, LsRdValue(c), 8, rs1).(
        postReg := rd, postValue := Plus(LsRdValue(c), 8), postDelta := 8, postWrite := true, postUseLoad := rd == rs1))
    else if op == MOVE then
      Retire(c, WriteReg(c.regs, rd, lsAddr), if rd == 15 then lsAddr else PostIncrementPc(c))
    else
      var taken := LsCondition(c.flags, op);
      Retire(c, if taken then WriteReg(c.regs, rd, lsAddr) else c.regs,
             if taken && rd == 15 then lsAddr else PostIncrementPc(c))
  }

  function ExecuteLsPcRel(c: Core): Core {
    var op, rd := LsOpcode(c.instruction), Rd(c.instruction);
    var a := c.regs[rd];
    if IsLoad(op) then Begin(c, LoadOp(c, PcEffective(c), Width(op), rd))
    else if IsStore(op) then Begin(c, StoreOp(c, PcEffective(c), Width(op), a))
    else if op == PUSH then
      Begin(c, LoadOp(c, PcEffective(c), 8, 0).(
        postReg := rd, postValue := Minus(a, 8), postWrite := true,
        chainStore := true, chainAddr := Minus(a, 8), chainUseLoad := true))
    else if op == POP then
      Begin(c, LoadOp(c, a, 8, 0).(
        postReg := rd, postValue := Plus(a, 8), postWrite := true,
        chainStore := true, chainAddr := PcEffective(c), chainUseLoad := true))
    else if op == MOVE then
      Retire(c, WriteReg(c.regs, rd, PcEffective(c)), if rd == 15 then PcEffective(c) else PostIncrementPc(c))
    else
      Retire(c, c.regs, if LsCondition(c.flags, op) then JumpEffective(c) else PostIncrementPc(c))
  }

  /** The 65-entry flag tables of the register shifts, and their 16-entry immediate versions. */
  function LeftCarry(a: Word, k: nat): bool requires k <= 64 { k != 0 && k != 64 && a / Pow2(64 - k) != 0 }
  function LeftZero(a: Word, k: nat): bool requires k <= 64 { if k == 0 then a == 0 else k == 64 || a % Pow2(64 - k) == 0 }
  function LeftSign(a: Word, k: nat): bool
    requires k <= 64
  {
    if k == 0 then a >= 0x8000_0000_0000_0000 else k != 64 && a / Pow2(63 - k) % 2 == 1
  }
  function RightCarry(a: Word, k: nat): bool requires k <= 64 { k != 0 && k != 64 && a / Pow2(k - 1) % 2 != 0 }
  function RightZero(a: Word, k: nat): bool requires k <= 64 { if k == 0 then a == 0 else k == 64 || a / Pow2(k) == 0 }
  function RightSign(a: Word, k: nat): bool requires k <= 64 { k == 0 && a >= 0x8000_0000_0000_0000 }
  function SignedZero(a: Word, k: nat): bool
    requires k <= 64
  {
    var negative := a >= 0x8000_0000_0000_0000;
    if k == 0 then a == 0 else if k == 64 then !negative else !negative && a / Pow2(k) == 0
  }

  /** The low 64 bits of the 128-bit value a << k. */
  function LeftResult(a: Word, k: nat): Word { if k == 64 then 0 else (a * Pow2(k)) % 0x1_0000_0000_0000_0000 }
  function RightResult(a: Word, k: nat): Word {
    if k == 64 then 0 else ShiftRight(a, k)
  }
  function SignedResult(a: Word, k: nat): Word {
    if k == 64 then (if a >= 0x8000_0000_0000_0000 then WORD_MAX else 0)
    else if a < 0x8000_0000_0000_0000 then ShiftRight(a, k)
    else WORD_MAX - ShiftRight(WORD_MAX - a, k)
  }
  function FlagValue(result: Word, carry: bool): Flags { Flags(result == 0, carry, result / 0x8000_0000_0000_0000 == 1) }

  /** Result and flags of an ALU operation on operands a and b (b is the immediate of an
      immediate shift). */
  function CoreAlu(op: nat, a: Word, b: Word): (Word, Flags) {
    var sum: int := a as int + b as int;
    var k := if b >= 64 then 64 else b;
    if op == ADD then (sum % 0x1_0000_0000_0000_0000, FlagValue(sum % 0x1_0000_0000_0000_0000, sum / 0x1_0000_0000_0000_0000 == 1))
    else if op == SUB || op == TEST then (Minus(a, b), FlagValue(Minus(a, b), b > a))
    else if op == GP_AND then (AND.Word64(a, b), FlagValue(AND.Word64(a, b), false))
    else if op == GP_OR then (OR.Word64(a, b), FlagValue(OR.Word64(a, b), false))
    else if op == GP_XOR then (XOR.Word64(a, b), FlagValue(XOR.Word64(a, b), false))
    else if op == SLL || op == SLLI then (LeftResult(a, k), Flags(LeftZero(a, k), LeftCarry(a, k), LeftSign(a, k)))
    else if op == SRL || op == SRLI then (RightResult(a, k), Flags(RightZero(a, k), RightCarry(a, k), RightSign(a, k)))
    else (SignedResult(a, k), Flags(SignedZero(a, k), RightCarry(a, k), a >= 0x8000_0000_0000_0000))
  }

  function ExecuteAlu(c: Core): Core {
    var op, rd, rs1 := GpOpcode(c.instruction), Rd(c.instruction), Rs1(c.instruction);
    var (result, flags) := CoreAlu(op, c.regs[rd], if IsImmediateShift(op) then rs1 else c.regs[rs1]);
    Retire(c, if op == TEST then c.regs else WriteReg(c.regs, rd, result), PostIncrementPc(c)).(flags := flags)
  }

  function ExecuteGp(c: Core): Core {
    var op, rd, b := GpOpcode(c.instruction), Rd(c.instruction), c.regs[Rs1(c.instruction)];
    if op == LLR then Begin(c, LoadOp(c, b, 8, rd).(setReservation := true, reservationAddr := b))
    else if op == SCR then
      if c.llValid && c.llAddr == b then
        Begin(c.(llValid := false, flags := c.flags.(z := true)), StoreOp(c, b, 8, c.regs[rd]))
      else Retire(c, c.regs, PostIncrementPc(c)).(llValid := false, flags := c.flags.(z := false))
    else ExecuteAlu(c)
  }

  function ExecuteStep(c: Core): Core {
    if Format(c.instruction) == 2 then ExecuteLdi(c)
    else if Format(c.instruction) == 0 then ExecuteLsReg(c)
    else if Format(c.instruction) == 1 then ExecuteLsPcRel(c)
    else if IsLongJump(c.instruction) then Retire(c, c.regs, LongJumpTarget(c))
    else ExecuteGp(c)
  }

  // ---------------------------------------------------------------- memory phases

  function ChainedStore(op: MemOp, loaded: Word): MemOp {
    op.(addr := op.chainAddr, virtualAddr := op.chainAddr, width := 8,
        storeValue := if op.chainUseLoad then loaded else op.chainValue,
        write := true, setReservation := false, postWrite := false, postUseLoad := false, postDelta := 0,
        chainStore := false, chainUseLoad := false, chainValue := 0)
  }

  function RegsAfterLoad(regs: Regs, op: MemOp, loaded: Word): Regs {
    var postValue := if op.postUseLoad then Plus(loaded, op.postDelta) else op.postValue;
    var nextPc := if op.postWrite && op.postReg == 15 then postValue else if op.rd == 15 then loaded else op.nextPc;
    var regs1 := WriteReg(regs, op.rd, loaded);
    var regs2 := if op.postWrite then WriteReg(regs1, op.postReg, postValue) else regs1;
    if op.chainStore then regs2 else regs2[15 := nextPc]
  }

  /** The last beat of a load has been acknowledged and `loaded` is its masked value. */
  function LoadDone(c: Core, loaded: Word): Core {
    c.(regs := RegsAfterLoad(c.regs, c.op, loaded),
       llAddr := if c.op.setReservation then c.op.reservationAddr else c.llAddr,
       llValid := c.op.setReservation || c.llValid,
       op := if c.op.chainStore then ChainedStore(c.op, loaded) else c.op,
       phase := if c.op.chainStore then MemTranslate else FetchTranslate)
  }

  function RegsAfterStore(regs: Regs, op: MemOp): Regs {
    if op.postWrite then WriteReg(regs, op.postReg, op.postValue)[15 := if op.postReg == 15 then op.postValue else op.nextPc]
    else regs[15 := op.nextPc]
  }

  /** The last beat of a store has been acknowledged. */
  function StoreDone(c: Core): Core {
    c.(regs := RegsAfterStore(c.regs, c.op),
       llValid := c.llValid && !OverlapsReservation(c.llAddr, c.op),
       phase := FetchTranslate)
  }

  /** The registers after the next clock edge. */
  function Step(cfg: Config, c0: Core, bus: Bus): Core {
    var c := c0.(regs := c0.regs[0 := 0]);
    match c.phase
    case Reset =>
      c.(regs := c.regs[1 := cfg.bootR1][13 := cfg.bootR13][15 := cfg.resetVector],
         flags := Flags(false, false, false), llAddr := 0, llValid := false, lockedUp := false, phase := FetchTranslate)
    case FetchTranslate => c.(fetchPhys := c.regs[15], phase := Fetch)
    case Fetch =>
      if bus.iAck then
        var slot := c.fetchPhys / 2 % 4;
        c.(fetchPc := c.regs[15],
           instruction := bus.iData[2 * slot] as int + 0x100 * bus.iData[2 * slot + 1] as int, phase := Execute)
      else c
    case Execute => ExecuteStep(c)
    case MemTranslate => c.(phase := if c.op.write then MemStore else MemLoad)
    case MemLoad =>
      if !bus.dAck then c
      else if SplitNeeded(TransferOf(c.op)) then c.(splitFirstData := bus.dData, splitFirstCycle := true, phase := MemLoadSplit)
      else LoadDone(c, MaskToWidth(c.op.width, Join(SingleRead(TransferOf(c.op), bus.dData))))
    case MemLoadSplit =>
      if c.splitFirstCycle then c.(splitFirstCycle := false)
      else if !bus.dAck then c
      else LoadDone(c, MaskToWidth(c.op.width, Join(CombinedRead(TransferOf(c.op), c.splitFirstData, bus.dData))))
    case MemStore =>
      if !bus.dAck then c
      else if SplitNeeded(TransferOf(c.op)) then c.(splitFirstCycle := true, phase := MemStoreSplit)
      else StoreDone(c)
    case MemStoreSplit =>
      if c.splitFirstCycle then c.(splitFirstCycle := false)
      else if !bus.dAck then c
      else StoreDone(c)
    case Halted => c
  }

  /** The commit_valid output: the clock edge ending this cycle completes an instruction. */
  predicate Commits(c: Core, bus: Bus) {
    match c.phase
    case Execute =>
      var op, gp := LsOpcode(c.instruction), GpOpcode(c.instruction);
      if Format(c.instruction) == 2 || IsLongJump(c.instruction) then true
      else if Format(c.instruction) == 3 then
        !(gp == LLR || (gp == SCR && c.llValid && c.llAddr == c.regs[Rs1(c.instruction)]))
      else op == MOVE || IsJump(op)
    case MemLoad => bus.dAck && !SplitNeeded(TransferOf(c.op)) && !c.op.chainStore
    case MemLoadSplit => !c.splitFirstCycle && bus.dAck && !c.op.chainStore
    case MemStore => bus.dAck && !SplitNeeded(TransferOf(c.op))
    case MemStoreSplit => !c.splitFirstCycle && bus.dAck
    case _ => false
  }

  // ---------------------------------------------------------------- the core on its memory

  datatype System = System(core: Core, mem: Memory)

  /** A byte-select memory that answers in its own time: an acknowledged read returns the
      selected lanes and anything on the others. */
  predicate Answers(s: System, bus: Bus) {
    && (s.core.phase == Fetch && bus.iAck ==> bus.iData == Block(s.mem, IBusAddr(s.core)))
    && (DBusCycle(s.core) && bus.dAck && !DBusWrite(s.core) ==>
          forall k :: 0 <= k < 8 && DBusSelect(s.core)[k] ==> bus.dData[k] == Block(s.mem, DBusAddr(s.core))[k])
  }

  /** One clock of the core and its memory; an acknowledged write takes effect at the clock edge. */
  function Tick(cfg: Config, s: System, bus: Bus): System {
    System(
      Step(cfg, s.core, bus),
      if DBusCycle(s.core) && DBusWrite(s.core) && bus.dAck
      then Store(s.mem, DBusAddr(s.core), DBusSelect(s.core), DBusData(s.core))
      else s.mem)
  }
}
