/** The basic core as clocked hardware (hdl/little64_cores/basic/core.py): an object holding the
    registers, whose Clock method makes the assignments of one clock edge state by state and is proved
    to be the next-state function of BasicCore. */
module CoreRegisters {
  import opened Words
  import opened Instructions
  import opened Beats
  import opened BasicCore

  class Registers {
    const cfg: Config
    var phase: Phase
    var regs: Regs
    var flags: Flags
    var llAddr: Word
    var llValid: bool
    var lockedUp: bool
    var fetchPc: Word
    var fetchPhys: Word
    var instruction: Half
    var op: MemOp
    var splitFirstData: Line
    var splitFirstCycle: bool

    function State(): Core
      reads this
    {
      Core(phase, regs, flags, llAddr, llValid, lockedUp, fetchPc, fetchPhys, instruction, op, splitFirstData, splitFirstCycle)
    }

    constructor (cfg: Config, c: Core)
      ensures State() == c && this.cfg == cfg
    {
      this.cfg := cfg;
      phase, regs, flags, llAddr, llValid, lockedUp := c.phase, c.regs, c.flags, c.llAddr, c.llValid, c.lockedUp;
      fetchPc, fetchPhys, instruction, op := c.fetchPc, c.fetchPhys, c.instruction, c.op;
      splitFirstData, splitFirstCycle := c.splitFirstData, c.splitFirstCycle;
    }

    /** Register writes go through one port that ignores R0. */
    method SetReg(index: nat, v: Word)
      modifies this`regs
      ensures regs == WriteReg(old(regs), index, v)
    {
      if 1 <= index < 16 {
        regs := regs[index := v];
      }
    }

    method RetireTo(pc: Word)
      modifies this`regs, this`phase
      ensures State() == Retire(old(State()), old(regs), pc)
    {
      regs := regs[15 := pc];
      phase := FetchTranslate;
    }

    method BeginLoad(addr: Word, width: nat, rd: nat)
      modifies this`op, this`phase
      ensures State() == Begin(old(State()), LoadOp(old(State()), addr, width, rd))
    {
      op := op.(addr := addr, virtualAddr := addr, width := width, rd := rd, nextPc := PostIncrementPc(State()));
      op := op.(write := false, setReservation := false, postWrite := false, postUseLoad := false, postDelta := 0);
      op := op.(chainStore := false, chainUseLoad := false, chainValue := 0);
      phase := MemTranslate;
    }

    method BeginStore(addr: Word, width: nat, value: Word)
      modifies this`op, this`phase
      ensures State() == Begin(old(State()), StoreOp(old(State()), addr, width, value))
    {
      op := op.(addr := addr, virtualAddr := addr, width := width, storeValue := value, nextPc := PostIncrementPc(State()));
      op := op.(write := true, setReservation := false, postWrite := false, postUseLoad := false, postDelta := 0);
      op := op.(chainStore := false, chainUseLoad := false, chainValue := 0);
      phase := MemTranslate;
    }

    method ClockLdi()
      modifies this`regs, this`phase
      ensures State() == ExecuteLdi(old(State()))
    {
      hide BitOp.Word64;
      var rd, shift, imm := Rd(instruction), LdiShift(instruction), Imm8(instruction) as int;
      if shift == 0 {
        SetReg(rd, imm);
      } else if shift == 1 {
        SetReg(rd, OR.Word64(regs[rd], imm * 0x100));
      } else if shift == 2 {
        SetReg(rd, OR.Word64(regs[rd], imm * 0x1_0000));
      } else {
        SetReg(rd, OR.Word64(regs[rd], if imm >= 0x80 then imm * 0x100_0000 + 0xFFFF_FFFF_0000_0000 else imm * 0x100_0000));
      }
      RetireTo(Plus(fetchPc, 2));
    }

    method ClockLsReg()
      modifies this`regs, this`phase, this`op
      ensures State() == ExecuteLsReg(old(State()))
    {
      hide LsCondition, LoadOp, StoreOp;
      var ls, rd, rs1 := LsOpcode(instruction), Rd(instruction), Rs1(instruction);
      var next := Plus(fetchPc, 2);
      var rdValue := if rd == 15 then next else regs[rd];
      var rs1Value := if rs1 == 15 then next else regs[rs1];
      var lsAddr := Plus(rs1Value, Offset2(instruction) * 2);
      if IsLoad(ls) {
        BeginLoad(lsAddr, Width(ls), rd);
      } else if IsStore(ls) {
        BeginStore(lsAddr, Width(ls), rdValue);
      } else if ls == PUSH {
        BeginStore(Minus(rdValue, 8), 8, rs1Value);
        SetReg(rd, Minus(rdValue, 8));
      } else if ls == POP {
        BeginLoad(rdValue, 8, rs1);
        op := op.(postReg := rd, postValue := Plus(rdValue, 8), postDelta := 8, postWrite := true, postUseLoad := rd == rs1);
      } else if ls == MOVE {
        SetReg(rd, lsAddr);
        RetireTo(if rd == 15 then lsAddr else next);
      } else if LsCondition(flags, ls) {
        SetReg(rd, lsAddr);
        RetireTo(if rd == 15 then lsAddr else next);
      } else {
        RetireTo(next);
      }
    }

    method ClockLsPcRel()
      modifies this`regs, this`phase, this`op
      ensures State() == ExecuteLsPcRel(old(State()))
    {
      hide LsCondition, PlusDoubled, SignExtend, LoadOp, StoreOp;
      var ls, rd, next := LsOpcode(instruction), Rd(instruction), Plus(fetchPc, 2);
      var effective := PcEffective(State());
      var a := regs[rd];
      if IsLoad(ls) {
        BeginLoad(effective, Width(ls), rd);
      } else if IsStore(ls) {
        BeginStore(effective, Width(ls), a);
      } else if ls == PUSH {
        BeginLoad(effective, 8, 0);
        op := op.(postReg := rd, postValue := Minus(a, 8), postWrite := true);
        op := op.(chainStore := true, chainAddr := Minus(a, 8), chainUseLoad := true);
      } else if ls == POP {
        BeginLoad(a, 8, 0);
        op := op.(postReg := rd, postValue := Plus(a, 8), postWrite := true);
        op := op.(chainStore := true, chainAddr := effective, chainUseLoad := true);
      } else if ls == MOVE {
        SetReg(rd, effective);
        RetireTo(if rd == 15 then effective else next);
      } else {
        RetireTo(if LsCondition(flags, ls) then JumpEffective(State()) else next);
      }
    }

    method ClockGp()
      modifies this`regs, this`phase, this`op, this`flags, this`llValid
      ensures State() == ExecuteGp(old(State()))
    {
      hide CoreAlu, LoadOp, StoreOp;
      var gp, rd, rs1 := GpOpcode(instruction), Rd(instruction), Rs1(instruction);
      var a, b, next := regs[rd], regs[rs1], Plus(fetchPc, 2);
      if gp == LLR {
        BeginLoad(b, 8, rd);
        op := op.(setReservation := true, reservationAddr := b);
      } else if gp == SCR {
        if llValid && llAddr == b {
          BeginStore(b, 8, a);
          llValid, flags := false, flags.(z := true);
        } else {
          RetireTo(next);
          llValid, flags := false, flags.(z := false);
        }
      } else {
        var (result, newFlags) := CoreAlu(gp, a, if IsImmediateShift(gp) then rs1 else b);
        flags := newFlags;
        if gp != TEST {
          SetReg(rd, result);
        }
        RetireTo(next);
      }
    }

    method ClockExecute()
      modifies this`regs, this`phase, this`op, this`flags, this`llValid
      ensures State() == ExecuteStep(old(State()))
    {
      hide ExecuteLdi, ExecuteLsReg, ExecuteLsPcRel, ExecuteGp, PlusDoubled, SignExtend;
      if Format(instruction) == 2 {
        ClockLdi();
      } else if Format(instruction) == 0 {
        ClockLsReg();
      } else if Format(instruction) == 1 {
        ClockLsPcRel();
      } else if IsLongJump(instruction) {
        RetireTo(LongJumpTarget(State()));
      } else {
        ClockGp();
      }
    }

    /** The last acknowledgement of a load: destination, address register, PC and reservation, then the
        chained store if there is one. */
    method FinishLoad(loaded: Word)
      modifies this`regs, this`phase, this`op, this`llAddr, this`llValid
      ensures State() == LoadDone(old(State()), loaded)
    {
      var postValue := if op.postUseLoad then Plus(loaded, op.postDelta) else op.postValue;
      var nextPc := op.nextPc;
      SetReg(op.rd, loaded);
      if op.rd == 15 {
        nextPc := loaded;
      }
      if op.postWrite {
        SetReg(op.postReg, postValue);
        if op.postReg == 15 {
          nextPc := postValue;
        }
      }
      if op.setReservation {
        llAddr, llValid := op.reservationAddr, true;
      }
      if op.chainStore {
        op := ChainedStore(op, loaded);
        phase := MemTranslate;
      } else {
        regs := regs[15 := nextPc];
        phase := FetchTranslate;
      }
    }

    method FinishStore()
      modifies this`regs, this`phase, this`llValid
      ensures State() == StoreDone(old(State()))
    {
      if llValid && OverlapsReservation(llAddr, op) {
        llValid := false;
      }
      if op.postWrite {
        SetReg(op.postReg, op.postValue);
      }
      RetireTo(if op.postWrite && op.postReg == 15 then op.postValue else op.nextPc);
    }

    /** The states of a memory operation. */
    method ClockMemory(bus: Bus)
      requires regs[0 := 0] == regs && phase in {MemTranslate, MemLoad, MemLoadSplit, MemStore, MemStoreSplit}
      modifies this
      ensures State() == Step(cfg, old(State()), bus)
    {
      hide LoadDone, StoreDone, Join, MaskToWidth, SingleRead, CombinedRead, SplitNeeded, TransferOf;
      match phase
      case MemTranslate =>
        phase := if op.write then MemStore else MemLoad;
      case MemLoad =>
        if bus.dAck {
          if SplitNeeded(TransferOf(op)) {
            splitFirstData, splitFirstCycle := bus.dData, true;
            phase := MemLoadSplit;
          } else {
            FinishLoad(MaskToWidth(op.width, Join(SingleRead(TransferOf(op), bus.dData))));
          }
        }
      case MemLoadSplit =>
        if splitFirstCycle {
          splitFirstCycle := false;
        } else if bus.dAck {
          FinishLoad(MaskToWidth(op.width, Join(CombinedRead(TransferOf(op), splitFirstData, bus.dData))));
        }
      case MemStore =>
        if bus.dAck {
          if SplitNeeded(TransferOf(op)) {
            splitFirstCycle := true;
            phase := MemStoreSplit;
          } else {
            FinishStore();
          }
        }
      case MemStoreSplit =>
        if splitFirstCycle {
          splitFirstCycle := false;
        } else if bus.dAck {
          FinishStore();
        }
      case _ =>
    }

    /** Reset, instruction fetch and execution. */
    method ClockInstruction(bus: Bus)
      requires regs[0 := 0] == regs && phase !in {MemTranslate, MemLoad, MemLoadSplit, MemStore, MemStoreSplit}
      modifies this
      ensures State() == Step(cfg, old(State()), bus)
    {
      hide ExecuteStep;
      match phase
      case Reset =>
        regs := regs[1 := cfg.bootR1][13 := cfg.bootR13][15 := cfg.resetVector];
        flags, llAddr, llValid, lockedUp := Flags(false, false, false), 0, false, false;
        phase := FetchTranslate;
      case FetchTranslate =>
        fetchPhys := regs[15];
        phase := Fetch;
      case Fetch =>
        if bus.iAck {
          var slot := fetchPhys / 2 % 4;
          fetchPc := regs[15];
          instruction := bus.iData[2 * slot] as int + 0x100 * bus.iData[2 * slot + 1] as int;
          phase := Execute;
        }
      case Execute =>
        ClockExecute();
      case _ =>
    }

    /** One clock edge: R0 is cleared, then the current state acts. */
    method Clock(bus: Bus)
      modifies this
      ensures State() == Step(cfg, old(State()), bus)
    {
      hide Step;
      ClearFirst(cfg, State(), bus);
      regs := regs[0 := 0];
      assert regs[0 := 0] == regs;
      if phase in {MemTranslate, MemLoad, MemLoadSplit, MemStore, MemStoreSplit} {
        ClockMemory(bus);
      } else {
        ClockInstruction(bus);
      }
    }
  }

  lemma ClearFirst(cfg: Config, c: Core, bus: Bus)
    ensures Step(cfg, c.(regs := c.regs[0 := 0]), bus) == Step(cfg, c, bus)
  {
    hide ExecuteStep, LoadDone, StoreDone, Join, MaskToWidth, SingleRead, CombinedRead, SplitNeeded, TransferOf;
    assert c.regs[0 := 0][0 := 0] == c.regs[0 := 0];
  }
}
