/** The emulator's CPU as the object it is (host/emulator/cpu.cpp): each dispatch method updates
    registers, flags, reservation and memory in the source's order and is proved to compute the
    instruction semantics of Emulator. */
module EmulatorCpu {
  import opened Words
  import opened Instructions
  import opened Beats
  import opened Emulator

  class Cpu {
    const regs: array<Word>
    var flags: Flags
    var llAddr: Word
    var llValid: bool
    var mem: Memory
    var isRunning: bool

    ghost predicate Valid()
      reads this
    {
      regs.Length == 16
    }

    ghost function State(): Arch
      requires Valid()
      reads this, regs
    {
      Arch(regs[..], flags, llAddr, llValid, mem)
    }

    constructor (mem: Memory)
      ensures Valid() && fresh(regs) && isRunning
      ensures State() == Arch(seq(16, _ => 0), Flags(false, false, false), 0, false, mem)
    {
      regs := new Word[16](_ => 0);
      flags, llAddr, llValid, this.mem, isRunning := Flags(false, false, false), 0, false, mem, true;
      new;
      assert regs[..] == seq(16, _ => 0);
    }

    method SetReg(r: nat, v: Word)
      requires Valid() && r < 16
      modifies regs
      ensures State() == old(State()).(regs := old(State()).regs[r := v])
    {
      regs[r] := v;
      assert regs[..] == old(regs[..])[r := v];
    }

    /** A write of any width, then the reservation test. */
    method WriteMemory(a: Word, w: nat, v: Word)
      requires Valid() && ValidWidth(w)
      modifies this`mem, this`llValid
      ensures State() == Write(old(State()), a, w, v)
    {
      mem := Store(mem, a, WidthSelect(w), Split(v));
      if llValid {
        var reservationEnd := if llAddr > WORD_MAX - 7 then WORD_MAX else llAddr + 7;
        var writeEnd := if a > WORD_MAX - (w - 1) then WORD_MAX else a + (w - 1);
        if a <= reservationEnd && llAddr <= writeEnd {
          llValid := false;
        }
      }
    }

    method DispatchLsReg(i: Half)
      requires Valid()
      modifies this`mem, this`llValid, regs
      ensures State() == LsReg(old(State()), i)
    {
      hide Load, Store, Split, WidthSelect, Overlaps, Condition;
      var op, rd, rs1 := LsOpcode(i), Rd(i), Rs1(i);
      var addr := Plus(regs[rs1], Offset2(i) * 2);
      if IsLoad(op) {
        SetReg(rd, Load(mem, addr, Width(op)));
      } else if IsStore(op) {
        WriteMemory(addr, Width(op), regs[rd]);
      } else if op == PUSH {
        var pushed := regs[rs1];
        SetReg(rd, Minus(regs[rd], 8));
        WriteMemory(regs[rd], 8, pushed);
      } else if op == POP {
        var popped := Load(mem, regs[rd], 8);
        SetReg(rs1, popped);
        SetReg(rd, Plus(regs[rd], 8));
      } else if op == MOVE {
        SetReg(rd, addr);
      } else if Condition(flags, op) {
        SetReg(rd, addr);
      }
    }

    method DispatchLsPcRel(i: Half)
      requires Valid()
      modifies this`mem, this`llValid, regs
      ensures State() == LsPcRel(old(State()), i)
    {
      hide Load, Store, Split, WidthSelect, Overlaps, Condition, Displace, Signed;
      var op, rd := LsOpcode(i), Rd(i);
      var effective := Displace(regs[15], Signed(Rel6(i), 64) * 2);
      if IsJump(op) {
        if Condition(flags, op) {
          SetReg(15, Displace(regs[15], Signed(Rel10(i), 1024) * 2));
        }
      } else if IsLoad(op) {
        SetReg(rd, Load(mem, effective, Width(op)));
      } else if IsStore(op) {
        WriteMemory(effective, Width(op), regs[rd]);
      } else if op == PUSH {
        var value := Load(mem, effective, 8);
        SetReg(rd, Minus(regs[rd], 8));
        WriteMemory(regs[rd], 8, value);
      } else if op == POP {
        var value := Load(mem, regs[rd], 8);
        SetReg(rd, Plus(regs[rd], 8));
        WriteMemory(effective, 8, value);
      } else {
        SetReg(rd, effective);
      }
    }

    method DispatchLdi(i: Half)
      requires Valid()
      modifies regs
      ensures State() == Ldi(old(State()), i)
    {
      hide BitOp.Word64;
      var rd, shift, imm := Rd(i), LdiShift(i), Imm8(i) as int;
      if shift == 0 {
        SetReg(rd, imm);
      } else {
        var part := if shift == 1 then imm * 0x100 else if shift == 2 then imm * 0x1_0000 else imm * 0x100_0000;
        SetReg(rd, OR.Word64(regs[rd], part));
        if shift == 3 && imm >= 0x80 {
          SetReg(rd, OR.Word64(regs[rd], 0xFFFF_FFFF_0000_0000));
        }
      }
    }

    method DispatchGp(i: Half)
      requires Valid()
      modifies this`mem, this`llValid, this`llAddr, this`flags, regs
      ensures State() == Gp(old(State()), i)
    {
      hide Load, Store, Split, WidthSelect, Overlaps, Alu;
      var op, rd, rs1 := GpOpcode(i), Rd(i), Rs1(i);
      var a, b := regs[rd], regs[rs1];
      if op == LLR {
        SetReg(rd, Load(mem, b, 8));
        llAddr, llValid := b, true;
      } else if op == SCR {
        if llValid && llAddr == b {
          WriteMemory(b, 8, a);
          llValid, flags := false, flags.(z := true);
        } else {
          llValid, flags := false, flags.(z := false);
        }
      } else {
        var (result, newFlags) := Alu(op, a, if IsImmediateShift(op) then rs1 else b);
        flags := newFlags;
        if op != TEST {
          SetReg(rd, result);
        }
      }
    }

    method DispatchInstruction(i: Half)
      requires Valid()
      modifies this`mem, this`llValid, this`llAddr, this`flags, regs
      ensures State() == Dispatch(old(State()), i)
    {
      hide LsReg, LsPcRel, Ldi, Gp, Displace, Signed;
      if Format(i) == 0 {
        DispatchLsReg(i);
      } else if Format(i) == 1 {
        DispatchLsPcRel(i);
      } else if Format(i) == 2 {
        DispatchLdi(i);
      } else if IsLongJump(i) {
        SetReg(15, Displace(regs[15], Signed(Rel13(i), 8192) * 2));
      } else {
        DispatchGp(i);
      }
    }

    /** One cycle with interrupts disabled. A self-jump stops the CPU, before R0 is cleared again. */
    method RunCycle()
      requires Valid()
      modifies this`mem, this`llValid, this`llAddr, this`flags, this`isRunning, regs
      ensures !old(isRunning) ==> State() == old(State()) && !isRunning
      ensures old(isRunning) ==>
                var e := old(State());
                var dispatched := Dispatch(Fetched(e), Fetch(e.mem, e.regs[15]));
                && isRunning == (dispatched.regs[15] != e.regs[15])
                && State() == (if isRunning then Cycle(e) else dispatched)
    {
      hide Dispatch, Fetch;
      if !isRunning {
        return;
      }
      var pc := regs[15];
      SetReg(0, 0);
      var i := Fetch(mem, pc);
      SetReg(15, Plus(regs[15], 2));
      DispatchInstruction(i);
      if regs[15] == pc {
        isRunning := false;
        return;
      }
      SetReg(0, 0);
    }

    /** Running n cycles is n steps of the instruction semantics, up to the first self-jump. */
    method RunCycles(n: nat)
      requires Valid() && isRunning
      requires forall k :: 0 <= k < n ==> !JumpsToSelf(Cycles(State(), k))
      modifies this`mem, this`llValid, this`llAddr, this`flags, this`isRunning, regs
      ensures State() == Cycles(old(State()), n) && isRunning
    {
      hide Cycle, Dispatch, Fetch;
      ghost var e := State();
      var k := 0;
      while k < n
        invariant 0 <= k <= n && isRunning && State() == Cycles(e, k)
      {
        assert !JumpsToSelf(Cycles(e, k));
        RunCycle();
        k := k + 1;
      }
    }
  }

  /** The next instruction leaves the PC where it was. */
  predicate JumpsToSelf(e: Arch) {
    Dispatch(Fetched(e), Fetch(e.mem, e.regs[15])).regs[15] == e.regs[15]
  }
}
