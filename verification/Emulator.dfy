/** The emulator's instruction semantics (host/emulator/cpu.cpp) with paging off and interrupts
    disabled, over a flat byte memory. */
module Emulator {
  import opened Words
  import opened Instructions
  import opened Beats

  /** The state an instruction can observe or change. */
  datatype Arch = Arch(regs: Regs, flags: Flags, llAddr: Word, llValid: bool, mem: Memory)

  /** A field of `size` values read as two's complement. */
  function Signed(v: nat, size: nat): int {
    if v >= size / 2 then v - size else v
  }

  /** 64-bit addition of a signed displacement. */
  function Displace(a: Word, d: int): Word {
    (a + d) % 0x1_0000_0000_0000_0000
  }

  function Fetch(m: Memory, pc: Word): Half {
    Peek(m, pc) as int + 0x100 * Peek(m, Plus(pc, 1)) as int
  }

  function FlagsOf(result: Word, carry: bool): Flags {
    Flags(result == 0, carry, result >= 0x8000_0000_0000_0000)
  }

  predicate Condition(f: Flags, op: nat) {
    if op == JUMP_Z then f.z
    else if op == JUMP_C then f.c
    else if op == JUMP_S then f.s
    else if op == JUMP_GT then !f.z && !f.s
    else if op == JUMP_LT then f.s
    else false
  }

  /** Whether a write of w bytes at a touches the eight bytes reserved at r; both ends saturate. */
  predicate Overlaps(r: Word, a: Word, w: nat)
    requires w > 0
  {
    var reservationEnd := if r > WORD_MAX - 7 then WORD_MAX else r + 7;
    var writeEnd := if a > WORD_MAX - (w - 1) then WORD_MAX else a + (w - 1);
    a <= reservationEnd && r <= writeEnd
  }

  /** A completed store of the low w bytes of v. */
  function Write(e: Arch, a: Word, w: nat, v: Word): Arch
    requires w > 0
  {
    e.(mem := Store(e.mem, a, WidthSelect(w), Split(v)),
       llValid := e.llValid && !Overlaps(e.llAddr, a, w))
  }

  function LsReg(e: Arch, i: Half): Arch {
    var op, rd, rs1 := LsOpcode(i), Rd(i), Rs1(i);
    var addr := Plus(e.regs[rs1], Offset2(i) * 2);
    if IsLoad(op) then e.(regs := e.regs[rd := Load(e.mem, addr, Width(op))])
    else if IsStore(op) then Write(e, addr, Width(op), e.regs[rd])
    else if op == PUSH then
      var regs := e.regs[rd := Minus(e.regs[rd], 8)];
      Write(e.(regs := regs), regs[rd], 8, e.regs[rs1])
    else if op == POP then
      var regs := e.regs[rs1 := Load(e.mem, e.regs[rd], 8)];
      e.(regs := regs[rd := Plus(regs[rd], 8)])
    else if op == MOVE then e.(regs := e.regs[rd := addr])
    else if Condition(e.flags, op) then e.(regs := e.regs[rd := addr])
    else e
  }

  function LsPcRel(e: Arch, i: Half): Arch {
    var op := LsOpcode(i);
    if IsJump(op) then
      if Condition(e.flags, op) then e.(regs := e.regs[15 := Displace(e.regs[15], Signed(Rel10(i), 1024) * 2)]) else e
    else
      var rd := Rd(i);
      var effective := Displace(e.regs[15], Signed(Rel6(i), 64) * 2);
      if IsLoad(op) then e.(regs := e.regs[rd := Load(e.mem, effective, Width(op))])
      else if IsStore(op) then Write(e, effective, Width(op), e.regs[rd])
      else if op == PUSH then
        var value := Load(e.mem, effective, 8);
        var regs := e.regs[rd := Minus(e.regs[rd], 8)];
        Write(e.(regs := regs), regs[rd], 8, value)
      else if op == POP then
        var value := Load(e.mem, e.regs[rd], 8);
        Write(e.(regs := e.regs[rd := Plus(e.regs[rd], 8)]), effective, 8, value)
      else e.(regs := e.regs[rd := effective])
  }

  function Ldi(e: Arch, i: Half): Arch {
    var rd, shift, imm := Rd(i), LdiShift(i), Imm8(i) as int;
    if shift == 0 then e.(regs := e.regs[rd := imm])
    else
      var merged := OR.Word64(e.regs[rd], if shift == 1 then imm * 0x100 else if shift == 2 then imm * 0x1_0000 else imm * 0x100_0000);
      e.(regs := e.regs[rd := if shift == 3 && imm >= 0x80 then OR.Word64(merged, 0xFFFF_FFFF_0000_0000) else merged])
  }

  /** a shifted left by k < 64, dropping the bits above 63. */
  function ShiftLeft(a: Word, k: nat): Word {
    (a * Pow2(k)) % 0x1_0000_0000_0000_0000
  }

  /** The arithmetic right shift of a two's-complement word. */
  function ShiftRightSigned(a: Word, k: nat): Word {
    if a < 0x8000_0000_0000_0000 then ShiftRight(a, k) else WORD_MAX - ShiftRight(WORD_MAX - a, k)
  }

  /** The result and flags of an ALU operation. */
  function Alu(op: nat, a: Word, b: Word): (Word, Flags) {
    if op == ADD then
      var result := Plus(a, b);
      (result, FlagsOf(result, result < a))
    else if op == SUB || op == TEST then
      var result := Minus(a, b);
      (result, FlagsOf(result, b > a))
    else if op == GP_AND then (AND.Word64(a, b), FlagsOf(AND.Word64(a, b), false))
    else if op == GP_OR then (OR.Word64(a, b), FlagsOf(OR.Word64(a, b), false))
    else if op == GP_XOR then (XOR.Word64(a, b), FlagsOf(XOR.Word64(a, b), false))
    else if b == 0 then (a, FlagsOf(a, false))
    else if op == SLL || op == SLLI then
      if b >= 64 then (0, FlagsOf(0, false))
      else (ShiftLeft(a, b), FlagsOf(ShiftLeft(a, b), ShiftRight(a, 64 - b) != 0))
    else if op == SRL || op == SRLI then
      if b >= 64 then (0, FlagsOf(0, false))
      else (ShiftRight(a, b), FlagsOf(ShiftRight(a, b), ShiftRight(a, b - 1) % 2 == 1))
    else
      if b >= 64 then
        var result: Word := if a >= 0x8000_0000_0000_0000 then WORD_MAX else 0;
        (result, FlagsOf(result, false))
      else (ShiftRightSigned(a, b), FlagsOf(ShiftRightSigned(a, b), ShiftRight(a, b - 1) % 2 == 1))
  }

  /** Everything but the special-register, trap, IRET and STOP opcodes and the undefined ones. */
  predicate Modelled(i: Half) {
    Format(i) == 3 && !IsLongJump(i) ==>
      IsAlu(GpOpcode(i)) || IsImmediateShift(GpOpcode(i)) || GpOpcode(i) == LLR || GpOpcode(i) == SCR
  }

  function Gp(e: Arch, i: Half): Arch {
    var op, rd, rs1 := GpOpcode(i), Rd(i), Rs1(i);
    var a, b := e.regs[rd], e.regs[rs1];
    if op == LLR then
      e.(regs := e.regs[rd := Load(e.mem, b, 8)], llAddr := b, llValid := true)
    else if op == SCR then
      if e.llValid && e.llAddr == b then Write(e, b, 8, a).(llValid := false, flags := e.flags.(z := true))
      else e.(llValid := false, flags := e.flags.(z := false))
    else
      var (result, flags) := Alu(op, a, if IsImmediateShift(op) then rs1 else b);
      e.(regs := if op == TEST then e.regs else e.regs[rd := result], flags := flags)
  }

  function Dispatch(e: Arch, i: Half): Arch {
    if Format(i) == 0 then LsReg(e, i)
    else if Format(i) == 1 then LsPcRel(e, i)
    else if Format(i) == 2 then Ldi(e, i)
    else if IsLongJump(i) then e.(regs := e.regs[15 := Displace(e.regs[15], Signed(Rel13(i), 8192) * 2)])
    else Gp(e, i)
  }

  /** The state in which an instruction is dispatched: R0 is zero and the PC is past the instruction. */
  function Fetched(e: Arch): Arch {
    e.(regs := e.regs[0 := 0][15 := Plus(e.regs[15], 2)])
  }

  /** One instruction. */
  function Cycle(e: Arch): Arch {
    var e' := Dispatch(Fetched(e), Fetch(e.mem, e.regs[15]));
    e'.(regs := e'.regs[0 := 0])
  }

  function Cycles(e: Arch, n: nat): Arch {
    if n == 0 then e else Cycle(Cycles(e, n - 1))
  }
}
