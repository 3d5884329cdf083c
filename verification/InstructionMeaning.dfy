/** What the instructions do, said of the encoded half-word, of single bytes and bits, and of unbounded
    integers, after the architecture's own tables (docs/hardware/instruction-set.md). */
module InstructionMeaning {
  import opened Words
  import opened Bits
  import opened Instructions
  import opened Beats
  import opened Emulator

  const TWO_64: int := 0x1_0000_0000_0000_0000

  // ---------------------------------------------------------------- what is about to run

  /** The half-word i stands at the PC. */
  predicate Next(e: Arch, i: int) {
    Peek(e.mem, e.regs[15]) as int + 0x100 * Peek(e.mem, Plus(e.regs[15], 1)) as int == i
  }

  /** What an instruction reads from register r: R0 is zero and R15 is past the instruction. */
  function Reads(e: Arch, r: nat): Word
    requires r < 16
  {
    if r == 0 then 0 else if r == 15 then Plus(e.regs[15], 2) else e.regs[r]
  }

  /** The registers afterwards: the next PC and zero in R0, unless changed otherwise. */
  ghost predicate Puts(e: Arch, e': Arch, change: map<nat, Word>) {
    forall r :: 0 <= r < 16 ==>
      e'.regs[r] == if r == 0 then 0 else if r in change then change[r] else if r == 15 then Plus(e.regs[15], 2) else e.regs[r]
  }

  /** Everything but registers and flags is as before. */
  predicate SameMemory(e: Arch, e': Arch) { e'.mem == e.mem && e'.llAddr == e.llAddr && e'.llValid == e.llValid }

  lemma Sums(a: Word, d: nat)
    requires d < TWO_64
    ensures Plus(a, d) == (a + d) % TWO_64 && Minus(a, d) == (a - d) % TWO_64
  {
    if a < d {
      DivModUnique(a - d, TWO_64, -1, a - d + TWO_64);
    }
    if a + d >= TWO_64 {
      DivModUnique(a + d, TWO_64, 1, a + d - TWO_64);
    }
  }

  /** The operands as dispatch finds them. */
  lemma Operands(e: Arch, rs1: nat, rd: nat, off: nat)
    requires rs1 < 16 && rd < 16 && off < 4
    ensures Fetched(e).regs[rs1] == Reads(e, rs1) && Fetched(e).regs[rd] == Reads(e, rd)
    ensures Plus(Reads(e, rs1), off * 2) == (Reads(e, rs1) + 2 * off) % TWO_64
    ensures Minus(Reads(e, rd), 8) == (Reads(e, rd) - 8) % TWO_64
    ensures Fetched(e).mem == e.mem && Fetched(e).flags == e.flags && Fetched(e).llAddr == e.llAddr && Fetched(e).llValid == e.llValid
  {
    hide Plus, Minus;
    Sums(Reads(e, rs1), off * 2);
    Sums(Reads(e, rd), 8);
  }

  lemma PutsNothing(e: Arch, e': Arch)
    requires e'.regs == Fetched(e).regs[0 := 0]
    ensures Puts(e, e', map[])
  {
  }

  lemma PutsOne(e: Arch, e': Arch, rd: nat, v: Word)
    requires rd < 16 && e'.regs == Fetched(e).regs[rd := v][0 := 0]
    ensures Puts(e, e', map[rd := v])
  {
  }

  lemma PutsTwo(e: Arch, e': Arch, r1: nat, v1: Word, r2: nat, v2: Word)
    requires r1 < 16 && r2 < 16 && e'.regs == Fetched(e).regs[r1 := v1][r2 := v2][0 := 0]
    ensures Puts(e, e', map[r1 := v1][r2 := v2])
  {
  }

  /** The half-word of a load, store or stack instruction in register form. */
  lemma RegisterForm(e: Arch, op: nat, off: nat, rs1: nat, rd: nat)
    requires op < 16 && off < 4 && rs1 < 16 && rd < 16 && Next(e, op * 0x400 + off * 0x100 + rs1 * 0x10 + rd)
    ensures
      var i := Fetch(e.mem, e.regs[15]);
      var e' := LsReg(Fetched(e), i);
      && LsOpcode(i) == op && Offset2(i) == off && Rs1(i) == rs1 && Rd(i) == rd
      && Cycle(e) == e'.(regs := e'.regs[0 := 0])
  {
    hide LsReg, LsPcRel, Ldi, Gp, Displace;
    var i: Half := op * 0x400 + off * 0x100 + rs1 * 0x10 + rd;
    DivModUnique(i, 16, op * 0x40 + off * 0x10 + rs1, rd);
    DivModUnique(i / 16, 16, op * 4 + off, rs1);
    DivModUnique(i, 0x100, op * 4 + off, rs1 * 16 + rd);
    DivModUnique(i, 0x400, op, off * 0x100 + rs1 * 16 + rd);
    DivModUnique(i, 0x4000, 0, i);
  }

  lemma SignedField(rel: int, size: nat)
    requires size > 0 && size % 2 == 0 && -(size / 2) <= rel < size / 2
    ensures 0 <= rel % size < size && Signed(rel % size, size) == rel
  {
    if rel >= 0 {
      DivModUnique(rel, size, 0, rel);
    } else {
      DivModUnique(rel, size, -1, rel + size);
    }
  }

  /** The same in PC-relative form, with a signed six-bit distance in half-words. */
  lemma PcForm(e: Arch, op: nat, rel: int, rd: nat)
    requires op < 11 && -32 <= rel < 32 && rd < 16 && Next(e, 0x4000 + op * 0x400 + rel % 64 * 0x10 + rd)
    ensures
      var i := Fetch(e.mem, e.regs[15]);
      var e' := LsPcRel(Fetched(e), i);
      && LsOpcode(i) == op && Rd(i) == rd
      && Displace(Fetched(e).regs[15], Signed(Rel6(i), 64) * 2) == (e.regs[15] + 2 + 2 * rel) % TWO_64
      && Cycle(e) == e'.(regs := e'.regs[0 := 0])
  {
    hide LsReg, LsPcRel, Ldi, Gp;
    SignedField(rel, 64);
    var f := rel % 64;
    var i: Half := 0x4000 + op * 0x400 + f * 0x10 + rd;
    DivModUnique(i, 16, 0x400 + op * 0x40 + f, rd);
    DivModUnique(i / 16, 64, 0x10 + op, f);
    DivModUnique(i, 0x400, 0x10 + op, f * 16 + rd);
    DivModUnique(0x10 + op, 16, 1, op);
    DivModUnique(i, 0x4000, 1, op * 0x400 + f * 16 + rd);
    PcRelative(e.regs[15], 2 * rel);
  }

  lemma PcRelative(pc: Word, d: int)
    ensures Displace(Plus(pc, 2), d) == (pc + 2 + d) % TWO_64
  {
    if pc + 2 >= TWO_64 {
      var x := pc + 2 - TWO_64 + d;
      DivModUnique(pc + 2 + d, TWO_64, x / TWO_64 + 1, x % TWO_64);
    }
  }

  lemma GpFields(op: nat, rs1: nat, rd: nat, i: Half)
    requires op < 32 && rs1 < 16 && rd < 16 && i == 0xC000 + op * 0x100 + rs1 * 0x10 + rd
    ensures Format(i) == 3 && !IsLongJump(i) && GpOpcode(i) == op && Rs1(i) == rs1 && Rd(i) == rd
  {
    DivModUnique(i, 16, 0xC00 + op * 0x10 + rs1, rd);
    DivModUnique(i / 16, 16, 0xC0 + op, rs1);
    DivModUnique(i, 0x100, 0xC0 + op, rs1 * 16 + rd);
    DivModUnique(0xC0 + op, 32, 6, op);
    DivModUnique(i, 0x2000, 6, op * 0x100 + rs1 * 0x10 + rd);
    DivModUnique(i, 0x4000, 3, op * 0x100 + rs1 * 0x10 + rd);
  }

  // ---------------------------------------------------------------- loads

  /** The little-endian value of the n bytes at a. */
  function LittleEndian(m: Memory, a: Word, n: nat): int
    decreases n
  {
    if n == 0 then 0 else Peek(m, a) as int + 0x100 * LittleEndian(m, Plus(a, 1), n - 1)
  }

  lemma {:induction false} LoadIsLittleEndian(m: Memory, a: Word, n: nat)
    requires n <= 8
    ensures Load(m, a, n) == LittleEndian(m, a, n)
    decreases n
  {
    NumberIsLittleEndian(m, a, Block(m, a)[..n]);
  }

  lemma {:induction false} NumberIsLittleEndian(m: Memory, a: Word, l: seq<Byte>)
    requires |l| <= 8 && forall k :: 0 <= k < |l| ==> l[k] == Peek(m, Plus(a, k))
    ensures Number(l) == LittleEndian(m, a, |l|)
    decreases |l|
  {
    if l != [] {
      forall k | 0 <= k < |l| - 1
        ensures l[1..][k] == Peek(m, Plus(Plus(a, 1), k))
      {
        assert Plus(Plus(a, 1), k) == Plus(a, k + 1);
      }
      NumberIsLittleEndian(m, Plus(a, 1), l[1..]);
    }
  }

  lemma LittleEndianBytes(m: Memory, a: Word)
    ensures LittleEndian(m, a, 1) == Peek(m, a) as int
    ensures LittleEndian(m, a, 2) == Peek(m, a) as int + 0x100 * Peek(m, Plus(a, 1)) as int
    ensures LittleEndian(m, a, 4) ==
      Peek(m, a) as int + 0x100 * Peek(m, Plus(a, 1)) as int + 0x1_0000 * Peek(m, Plus(a, 2)) as int + 0x100_0000 * Peek(m, Plus(a, 3)) as int
  {
    assert Plus(Plus(a, 1), 1) == Plus(a, 2) && Plus(Plus(a, 2), 1) == Plus(a, 3);
  }

  /** A load from Rs1 plus twice the offset. */
  lemma Loads(e: Arch, op: nat, w: nat, off: nat, rs1: nat, rd: nat)
    requires (op, w) in {(0, 8), (5, 1), (7, 2), (9, 4)} && off < 4 && rs1 < 16 && rd < 16 && Next(e, op * 0x400 + off * 0x100 + rs1 * 0x10 + rd)
    ensures
      var e' := Cycle(e);
      var value := LittleEndian(e.mem, (Reads(e, rs1) + 2 * off) % TWO_64, w);
      0 <= value < TWO_64 && Puts(e, e', map[rd := value]) && SameMemory(e, e') && e'.flags == e.flags
  {
    hide Fetched, Reads, Puts, Plus, Minus, Cycle, Load, LittleEndian;
    RegisterForm(e, op, off, rs1, rd);
    Operands(e, rs1, rd, off);
    var a := (Reads(e, rs1) + 2 * off) % TWO_64;
    LoadIsLittleEndian(e.mem, a, w);
    PutsOne(e, Cycle(e), rd, Load(e.mem, a, w));
  }

  /** A load from the next instruction plus twice the distance. */
  lemma LoadsPcRelative(e: Arch, op: nat, w: nat, rel: int, rd: nat)
    requires (op, w) in {(0, 8), (5, 1), (7, 2), (9, 4)} && -32 <= rel < 32 && rd < 16 && Next(e, 0x4000 + op * 0x400 + rel % 64 * 0x10 + rd)
    ensures
      var e' := Cycle(e);
      var value := LittleEndian(e.mem, (e.regs[15] + 2 + 2 * rel) % TWO_64, w);
      0 <= value < TWO_64 && Puts(e, e', map[rd := value]) && SameMemory(e, e') && e'.flags == e.flags
  {
    hide Fetched, Reads, Puts, Plus, Minus, Cycle, Load, LittleEndian, Displace, Signed;
    PcForm(e, op, rel, rd);
    Operands(e, 0, rd, 0);
    var a := (e.regs[15] + 2 + 2 * rel) % TWO_64;
    LoadIsLittleEndian(e.mem, a, w);
    PutsOne(e, Cycle(e), rd, Load(e.mem, a, w));
  }

  // ---------------------------------------------------------------- stores and stacks

  /** m' is m with the w low bytes of v at a, as far as they are mapped; every other byte is as before. */
  ghost predicate Stores(m: Memory, m': Memory, a: Word, w: nat, v: Word) {
    && m'.Keys == m.Keys
    && forall x :: x in m ==>
         var k := (x - a) % TWO_64;
         m'[x] as int == if k < w then v / Pow2(8 * k) % 0x100 else m[x] as int
  }

  /** The reservation afterwards: dropped when the source's interval test finds an overlap. */
  predicate DropsReservation(e: Arch, e': Arch, a: Word, w: nat)
    requires w > 0
  {
    e'.llAddr == e.llAddr && e'.llValid == (e.llValid && !Overlaps(e.llAddr, a, w))
  }

  lemma StoreIsBytes(m: Memory, a: Word, w: nat, v: Word)
    requires w <= 8
    ensures Stores(m, Store(m, a, WidthSelect(w), Split(v)), a, w, v)
  {
    forall x | x in m
      ensures
        var k := (x - a) % TWO_64;
        LaneByte(m[x], Minus(x, a), WidthSelect(w), Split(v)) as int == if k < w then v / Pow2(8 * k) % 0x100 else m[x] as int
    {
      var k := Minus(x, a);
      if x >= a {
        DivModUnique(x - a, TWO_64, 0, k);
      } else {
        DivModUnique(x - a, TWO_64, -1, k);
      }
      if k < w {
        LaneAt(8, v, k);
      }
    }
  }

  /** A store of Rd to Rs1 plus twice the offset. */
  lemma StoresRegister(e: Arch, op: nat, w: nat, off: nat, rs1: nat, rd: nat)
    requires (op, w) in {(1, 8), (6, 1), (8, 2), (10, 4)} && off < 4 && rs1 < 16 && rd < 16
    requires Next(e, op * 0x400 + off * 0x100 + rs1 * 0x10 + rd)
    ensures
      var e', a := Cycle(e), (Reads(e, rs1) + 2 * off) % TWO_64;
      Puts(e, e', map[]) && e'.flags == e.flags && Stores(e.mem, e'.mem, a, w, Reads(e, rd)) && DropsReservation(e, e', a, w)
  {
    hide Fetched, Reads, Puts, Plus, Minus, Cycle, Store, Split, Stores, Overlaps;
    RegisterForm(e, op, off, rs1, rd);
    Operands(e, rs1, rd, off);
    StoreIsBytes(e.mem, (Reads(e, rs1) + 2 * off) % TWO_64, w, Reads(e, rd));
    PutsNothing(e, Cycle(e));
  }

  lemma StoresPcRelative(e: Arch, op: nat, w: nat, rel: int, rd: nat)
    requires (op, w) in {(1, 8), (6, 1), (8, 2), (10, 4)} && -32 <= rel < 32 && rd < 16
    requires Next(e, 0x4000 + op * 0x400 + rel % 64 * 0x10 + rd)
    ensures
      var e', a := Cycle(e), (e.regs[15] + 2 + 2 * rel) % TWO_64;
      Puts(e, e', map[]) && e'.flags == e.flags && Stores(e.mem, e'.mem, a, w, Reads(e, rd)) && DropsReservation(e, e', a, w)
  {
    hide Fetched, Reads, Puts, Plus, Minus, Cycle, Store, Split, Stores, Overlaps, Displace, Signed;
    PcForm(e, op, rel, rd);
    Operands(e, 0, rd, 0);
    StoreIsBytes(e.mem, (e.regs[15] + 2 + 2 * rel) % TWO_64, w, Reads(e, rd));
    PutsNothing(e, Cycle(e));
  }

  /** PUSH: the stack register goes down by eight and Rs1 is stored there. */
  lemma Pushes(e: Arch, off: nat, rs1: nat, rd: nat)
    requires off < 4 && rs1 < 16 && rd < 16 && Next(e, 0x800 + off * 0x100 + rs1 * 0x10 + rd)
    ensures
      var e', sp := Cycle(e), (Reads(e, rd) - 8) % TWO_64;
      Puts(e, e', map[rd := sp]) && e'.flags == e.flags && Stores(e.mem, e'.mem, sp, 8, Reads(e, rs1)) && DropsReservation(e, e', sp, 8)
  {
    hide Fetched, Reads, Puts, Plus, Minus, Cycle, Store, Split, Stores, Overlaps;
    RegisterForm(e, PUSH, off, rs1, rd);
    Operands(e, rs1, rd, off);
    var sp := (Reads(e, rd) - 8) % TWO_64;
    StoreIsBytes(e.mem, sp, 8, Reads(e, rs1));
    PutsOne(e, Cycle(e), rd, sp);
  }

  /** POP: Rs1 is loaded from the stack register, which then goes up by eight. */
  lemma Pops(e: Arch, off: nat, rs1: nat, rd: nat)
    requires off < 4 && rs1 < 16 && rd < 16 && Next(e, 0xC00 + off * 0x100 + rs1 * 0x10 + rd)
    ensures
      var e', value := Cycle(e), LittleEndian(e.mem, Reads(e, rd), 8);
      && 0 <= value < TWO_64 && SameMemory(e, e') && e'.flags == e.flags
      && Puts(e, e', map[rs1 := value][rd := ((if rs1 == rd then value else Reads(e, rd)) + 8) % TWO_64])
  {
    hide Fetched, Reads, Puts, Plus, Minus, Cycle, Load, LittleEndian;
    RegisterForm(e, POP, off, rs1, rd);
    Operands(e, rs1, rd, off);
    var value := Load(e.mem, Reads(e, rd), 8);
    var base := if rs1 == rd then value else Reads(e, rd);
    LoadIsLittleEndian(e.mem, Reads(e, rd), 8);
    Sums(base, 8);
    PutsTwo(e, Cycle(e), rs1, value, rd, (base + 8) % TWO_64);
  }

  /** The memory-to-memory forms: from the PC-relative address to the stack, and back. */
  lemma PushesFromMemory(e: Arch, rel: int, rd: nat)
    requires -32 <= rel < 32 && rd < 16 && Next(e, 0x4800 + rel % 64 * 0x10 + rd)
    ensures
      var e', sp, value := Cycle(e), (Reads(e, rd) - 8) % TWO_64, LittleEndian(e.mem, (e.regs[15] + 2 + 2 * rel) % TWO_64, 8);
      && 0 <= value < TWO_64
      && Puts(e, e', map[rd := sp]) && e'.flags == e.flags && Stores(e.mem, e'.mem, sp, 8, value) && DropsReservation(e, e', sp, 8)
  {
    hide Fetched, Reads, Puts, Plus, Minus, Cycle, Store, Split, Stores, Overlaps, Load, LittleEndian, Displace, Signed;
    PcForm(e, PUSH, rel, rd);
    Operands(e, 0, rd, 0);
    var a, sp := (e.regs[15] + 2 + 2 * rel) % TWO_64, (Reads(e, rd) - 8) % TWO_64;
    LoadIsLittleEndian(e.mem, a, 8);
    StoreIsBytes(e.mem, sp, 8, Load(e.mem, a, 8));
    PutsOne(e, Cycle(e), rd, sp);
  }

  lemma PopsToMemory(e: Arch, rel: int, rd: nat)
    requires -32 <= rel < 32 && rd < 16 && Next(e, 0x4C00 + rel % 64 * 0x10 + rd)
    ensures
      var e', a, value := Cycle(e), (e.regs[15] + 2 + 2 * rel) % TWO_64, LittleEndian(e.mem, Reads(e, rd), 8);
      && 0 <= value < TWO_64
      && Puts(e, e', map[rd := (Reads(e, rd) + 8) % TWO_64]) && e'.flags == e.flags
      && Stores(e.mem, e'.mem, a, 8, value) && DropsReservation(e, e', a, 8)
  {
    hide Fetched, Reads, Puts, Plus, Minus, Cycle, Store, Split, Stores, Overlaps, Load, LittleEndian, Displace, Signed;
    PcForm(e, POP, rel, rd);
    Operands(e, 0, rd, 0);
    Sums(Reads(e, rd), 8);
    LoadIsLittleEndian(e.mem, Reads(e, rd), 8);
    StoreIsBytes(e.mem, (e.regs[15] + 2 + 2 * rel) % TWO_64, 8, Load(e.mem, Reads(e, rd), 8));
    PutsOne(e, Cycle(e), rd, (Reads(e, rd) + 8) % TWO_64);
  }

  // ---------------------------------------------------------------- addresses and jumps

  lemma Moves(e: Arch, off: nat, rs1: nat, rd: nat)
    requires off < 4 && rs1 < 16 && rd < 16 && Next(e, 0x1000 + off * 0x100 + rs1 * 0x10 + rd)
    ensures Puts(e, Cycle(e), map[rd := (Reads(e, rs1) + 2 * off) % TWO_64])
    ensures SameMemory(e, Cycle(e)) && Cycle(e).flags == e.flags
  {
    hide Fetched, Reads, Puts, Plus, Minus, Cycle, Load;
    RegisterForm(e, MOVE, off, rs1, rd);
    Operands(e, rs1, rd, off);
    PutsOne(e, Cycle(e), rd, (Reads(e, rs1) + 2 * off) % TWO_64);
  }

  lemma MovesPcRelative(e: Arch, rel: int, rd: nat)
    requires -32 <= rel < 32 && rd < 16 && Next(e, 0x5000 + rel % 64 * 0x10 + rd)
    ensures Puts(e, Cycle(e), map[rd := (e.regs[15] + 2 + 2 * rel) % TWO_64])
    ensures SameMemory(e, Cycle(e)) && Cycle(e).flags == e.flags
  {
    hide Fetched, Reads, Puts, Plus, Minus, Cycle, Displace, Signed;
    PcForm(e, MOVE, rel, rd);
    Operands(e, 0, rd, 0);
    PutsOne(e, Cycle(e), rd, (e.regs[15] + 2 + 2 * rel) % TWO_64);
  }

  /** The conditions of JUMP.Z, .C, .S, .GT and .LT. */
  predicate Taken(f: Flags, op: nat) {
    (op == 11 && f.z) || (op == 12 && f.c) || (op == 13 && f.s) || (op == 14 && !f.z && !f.s) || (op == 15 && f.s)
  }

  /** A conditional jump in register form writes its target to Rd. */
  lemma JumpsToRegister(e: Arch, op: nat, off: nat, rs1: nat, rd: nat)
    requires 11 <= op < 16 && off < 4 && rs1 < 16 && rd < 16 && Next(e, op * 0x400 + off * 0x100 + rs1 * 0x10 + rd)
    ensures Puts(e, Cycle(e), if Taken(e.flags, op) then map[rd := (Reads(e, rs1) + 2 * off) % TWO_64] else map[])
    ensures SameMemory(e, Cycle(e)) && Cycle(e).flags == e.flags
  {
    hide Fetched, Reads, Puts, Plus, Minus, Cycle, Load;
    RegisterForm(e, op, off, rs1, rd);
    Operands(e, rs1, rd, off);
    if Taken(e.flags, op) {
      PutsOne(e, Cycle(e), rd, (Reads(e, rs1) + 2 * off) % TWO_64);
    } else {
      PutsNothing(e, Cycle(e));
    }
  }

  /** In PC-relative form it is a jump by a signed ten-bit distance. */
  lemma JumpsPcRelative(e: Arch, op: nat, rel: int)
    requires 11 <= op < 16 && -512 <= rel < 512 && Next(e, 0x4000 + op * 0x400 + rel % 1024)
    ensures Puts(e, Cycle(e), if Taken(e.flags, op) then map[15 := (e.regs[15] + 2 + 2 * rel) % TWO_64] else map[])
    ensures SameMemory(e, Cycle(e)) && Cycle(e).flags == e.flags
  {
    hide Plus, Load, Store, LsReg, Ldi, Gp, Format, LsOpcode, Rel10, Signed, Displace;
    JumpForm(op, rel);
    PcRelative(e.regs[15], 2 * rel);
  }

  lemma JumpForm(op: nat, rel: int)
    requires 11 <= op < 16 && -512 <= rel < 512
    ensures
      var i := 0x4000 + op * 0x400 + rel % 1024;
      Format(i) == 1 && LsOpcode(i) == op && Signed(Rel10(i), 1024) == rel
  {
    SignedField(rel, 1024);
    var i: Half := 0x4000 + op * 0x400 + rel % 1024;
    DivModUnique(i, 0x400, 0x10 + op, rel % 1024);
    DivModUnique(0x10 + op, 16, 1, op);
    DivModUnique(i, 0x4000, 1, op * 0x400 + rel % 1024);
  }

  lemma JumpsFar(e: Arch, rel: int)
    requires -4096 <= rel < 4096 && Next(e, 0xE000 + rel % 8192)
    ensures Puts(e, Cycle(e), map[15 := (e.regs[15] + 2 + 2 * rel) % TWO_64])
    ensures SameMemory(e, Cycle(e)) && Cycle(e).flags == e.flags
  {
    SignedField(rel, 8192);
    var i: Half := 0xE000 + rel % 8192;
    DivModUnique(i, 0x2000, 7, rel % 8192);
    DivModUnique(i, 0x4000, 3, 0x2000 + rel % 8192);
    PcRelative(e.regs[15], 2 * rel);
  }

  // ---------------------------------------------------------------- constants

  lemma LdiForm(e: Arch, shift: nat, imm: nat, rd: nat)
    requires shift < 4 && imm < 0x100 && rd < 16 && Next(e, 0x8000 + shift * 0x1000 + imm * 0x10 + rd)
    ensures
      var i := Fetch(e.mem, e.regs[15]);
      var e' := Ldi(Fetched(e), i);
      && LdiShift(i) == shift && Imm8(i) as int == imm && Rd(i) == rd
      && Cycle(e) == e'.(regs := e'.regs[0 := 0])
  {
    hide LsReg, LsPcRel, Ldi, Gp, Displace;
    var i: Half := 0x8000 + shift * 0x1000 + imm * 0x10 + rd;
    DivModUnique(i, 16, 0x800 + shift * 0x100 + imm, rd);
    DivModUnique(i / 16, 0x100, 8 + shift, imm);
    DivModUnique(i, 0x1000, 8 + shift, imm * 16 + rd);
    DivModUnique(8 + shift, 4, 2, shift);
    DivModUnique(i, 0x4000, 2, shift * 0x1000 + imm * 16 + rd);
  }

  /** LDI without a shift replaces the register. */
  lemma LoadsImmediate(e: Arch, imm: nat, rd: nat)
    requires imm < 0x100 && rd < 16 && Next(e, 0x8000 + imm * 0x10 + rd)
    ensures Puts(e, Cycle(e), map[rd := imm]) && SameMemory(e, Cycle(e)) && Cycle(e).flags == e.flags
  {
    hide Fetched, Puts, Cycle, BitOp.Word64;
    LdiForm(e, 0, imm, rd);
    Operands(e, 0, rd, 0);
    PutsOne(e, Cycle(e), rd, imm);
  }

  /** The number an LDI with a shift merges in: the byte in its place, sign-extended from bit 31. */
  function Part(shift: nat, imm: nat): Word
    requires 0 < shift < 4 && imm < 0x100
  {
    if shift == 1 then 0x100 * imm else if shift == 2 then 0x1_0000 * imm
    else if imm < 0x80 then 0x100_0000 * imm else 0x100_0000 * imm + 0xFFFF_FFFF_0000_0000
  }

  /** With a shift it merges its bits in. */
  lemma MergesImmediate(e: Arch, shift: nat, imm: nat, rd: nat) returns (r: Word)
    requires 0 < shift < 4 && imm < 0x100 && rd < 16 && Next(e, 0x8000 + shift * 0x1000 + imm * 0x10 + rd)
    ensures forall k :: 0 <= k < 64 ==> (Bit(r, k) <==> Bit(Reads(e, rd), k) || Bit(Part(shift, imm), k))
    ensures r == OR.Word64(Reads(e, rd), Part(shift, imm))
    ensures Puts(e, Cycle(e), map[rd := r]) && SameMemory(e, Cycle(e)) && Cycle(e).flags == e.flags
  {
    hide Fetched, Puts, Cycle, Reads, Bit, BitOp.Word64;
    LdiForm(e, shift, imm, rd);
    Operands(e, 0, rd, 0);
    r := OR.Word64(Reads(e, rd), Part(shift, imm));
    MergedAtOnce(Reads(e, rd), imm);
    forall k | 0 <= k < 64
      ensures Bit(r, k) <==> Bit(Reads(e, rd), k) || Bit(Part(shift, imm), k)
    {
      OrBits(Reads(e, rd), Part(shift, imm), k);
    }
    PutsOne(e, Cycle(e), rd, r);
  }

  lemma OrBits(x: Word, y: Word, k: nat)
    requires k < 64
    ensures Bit(OR.Word64(x, y), k) <==> Bit(x, k) || Bit(y, k)
  {
    BitOfResult(OR, 64, x, y, k);
  }

  /** OR-ing the byte and then the upper half is OR-ing both at once. */
  lemma MergedAtOnce(old_: Word, imm: nat)
    requires imm < 0x100
    ensures OR.Word64(OR.Word64(old_, 0x100_0000 * imm), 0xFFFF_FFFF_0000_0000) == OR.Word64(old_, 0x100_0000 * imm + 0xFFFF_FFFF_0000_0000)
  {
    hide Bit, BitOp.Apply, Pow2;
    var part: Word := 0x100_0000 * imm;
    Pow2Of64();
    SmallPowers();
    var x, y := OR.Word64(OR.Word64(old_, part), 0xFFFF_FFFF_0000_0000), OR.Word64(old_, part + 0xFFFF_FFFF_0000_0000);
    forall k | 0 <= k < 64
      ensures Bit(x, k) <==> Bit(y, k)
    {
      OrBits(old_, part, k);
      OrBits(OR.Word64(old_, part), 0xFFFF_FFFF_0000_0000, k);
      OrBits(old_, part + 0xFFFF_FFFF_0000_0000, k);
      BitOfParts(0xFFFF_FFFF, part, 32, k);
      BitOfParts(0xFFFF_FFFF, 0, 32, k);
      NoHighBits(k);
      if k >= 32 {
        NoBitsAbove(32, part, k);
      }
    }
    SameBits(64, x, y);
  }

  // ---------------------------------------------------------------- arithmetic and logic

  predicate FlagsFor(f: Flags, result: int, carry: bool) {
    (f.z <==> result == 0) && (f.s <==> result >= 0x8000_0000_0000_0000) && (f.c <==> carry)
  }

  lemma GpForm(e: Arch, op: nat, rs1: nat, rd: nat)
    requires op < 32 && rs1 < 16 && rd < 16 && Next(e, 0xC000 + op * 0x100 + rs1 * 0x10 + rd)
    ensures
      var i := Fetch(e.mem, e.regs[15]);
      var e' := Gp(Fetched(e), i);
      GpOpcode(i) == op && Rs1(i) == rs1 && Rd(i) == rd && Cycle(e) == e'.(regs := e'.regs[0 := 0])
  {
    hide LsReg, LsPcRel, Ldi, Gp, Displace;
    GpFields(op, rs1, rd, 0xC000 + op * 0x100 + rs1 * 0x10 + rd);
  }

  /** An ALU operation writes its result, but for TEST, and its flags. */
  lemma AluWrites(e: Arch, op: nat, rs1: nat, rd: nat)
    requires IsAlu(op) || IsImmediateShift(op)
    requires rs1 < 16 && rd < 16 && Next(e, 0xC000 + op * 0x100 + rs1 * 0x10 + rd)
    ensures
      var e', b := Cycle(e), if op in {23, 24, 25} then rs1 else Reads(e, rs1);
      var (r, f) := Alu(op, Reads(e, rd), b);
      Puts(e, e', if op == 2 then map[] else map[rd := r]) && e'.flags == f && SameMemory(e, e')
  {
    hide Fetched, Puts, Cycle, Reads, Alu;
    GpForm(e, op, rs1, rd);
    Operands(e, rs1, rd, 0);
    var (r, _) := Alu(op, Reads(e, rd), if op in {23, 24, 25} then rs1 else Reads(e, rs1));
    if op == 2 {
      PutsNothing(e, Cycle(e));
    } else {
      PutsOne(e, Cycle(e), rd, r);
    }
  }

  /** ADD, SUB and TEST, opcodes 0, 1 and 2: sums and differences mod 2^64, carry and borrow. */
  lemma Calculates(e: Arch, op: nat, rs1: nat, rd: nat)
    requires op in {0, 1, 2} && rs1 < 16 && rd < 16 && Next(e, 0xC000 + op * 0x100 + rs1 * 0x10 + rd)
    ensures
      var e', a, b := Cycle(e), Reads(e, rd), Reads(e, rs1);
      var r := (if op == 0 then a + b else a - b) % TWO_64;
      && Puts(e, e', if op == 2 then map[] else map[rd := r]) && SameMemory(e, e')
      && FlagsFor(e'.flags, r, if op == 0 then a + b >= TWO_64 else a < b)
  {
    hide Puts, Cycle, Reads;
    AluWrites(e, op, rs1, rd);
    Sums(Reads(e, rd), Reads(e, rs1));
  }

  /** AND, OR and XOR, opcodes 16, 17 and 18, bit by bit; no carry. */
  lemma Combines(e: Arch, op: nat, rs1: nat, rd: nat) returns (r: Word)
    requires op in {16, 17, 18} && rs1 < 16 && rd < 16 && Next(e, 0xC000 + op * 0x100 + rs1 * 0x10 + rd)
    ensures forall k :: 0 <= k < 64 ==>
      var x, y := Bit(Reads(e, rd), k), Bit(Reads(e, rs1), k);
      Bit(r, k) <==> if op == 16 then x && y else if op == 17 then x || y else x != y
    ensures Puts(e, Cycle(e), map[rd := r]) && SameMemory(e, Cycle(e)) && FlagsFor(Cycle(e).flags, r, false)
  {
    hide Puts, Cycle, Reads, Bit, BitOp.Word64;
    AluWrites(e, op, rs1, rd);
    var a, b := Reads(e, rd), Reads(e, rs1);
    r := Alu(op, a, b).0;
    forall k | 0 <= k < 64
      ensures Bit(r, k) <==> if op == 16 then Bit(a, k) && Bit(b, k) else if op == 17 then Bit(a, k) || Bit(b, k) else Bit(a, k) != Bit(b, k)
    {
      WordBit(if op == 16 then AND else if op == 17 then OR else XOR, a, b, k);
    }
  }

  lemma WordBit(op: BitOp, a: Word, b: Word, k: nat)
    requires k < 64
    ensures Bit(op.Word64(a, b), k) <==>
      match op case AND => Bit(a, k) && Bit(b, k) case OR => Bit(a, k) || Bit(b, k) case XOR => Bit(a, k) != Bit(b, k)
  {
    BitOfResult(op, 64, a, b, k);
  }

  /** The three as numbers. */
  lemma {:induction false} BitwiseSums(n: nat, x: nat, y: nat)
    requires x < Pow2(n) && y < Pow2(n)
    ensures AND.Apply(n, x, y) + OR.Apply(n, x, y) == x + y
    ensures XOR.Apply(n, x, y) == OR.Apply(n, x, y) - AND.Apply(n, x, y)
  {
    if n > 0 {
      BitwiseSums(n - 1, x / 2, y / 2);
    }
  }

  /** SLL and SLLI, opcodes 20 and 23: the product by 2^n mod 2^64, zero from 64 on; the carry says that a
      bit was lost by a shift below 64. */
  lemma ShiftsLeft(e: Arch, op: nat, rs1: nat, rd: nat)
    requires op in {20, 23} && rs1 < 16 && rd < 16 && Next(e, 0xC000 + op * 0x100 + rs1 * 0x10 + rd)
    ensures
      var e', a, n := Cycle(e), Reads(e, rd), if op == 23 then rs1 else Reads(e, rs1);
      var r := if n >= 64 then 0 else (a * Pow2(n)) % TWO_64;
      Puts(e, e', map[rd := r]) && SameMemory(e, e') && FlagsFor(e'.flags, r, n < 64 && a * Pow2(n) >= TWO_64)
  {
    hide Puts, Cycle, Reads;
    AluWrites(e, op, rs1, rd);
    var a, n := Reads(e, rd), if op == 23 then rs1 else Reads(e, rs1);
    if n == 0 {
      DivModUnique(a, TWO_64, 0, a);
    } else if n < 64 {
      LostBits(a, n);
    }
  }

  lemma LostBits(a: Word, n: nat)
    requires 0 < n < 64
    ensures ShiftRight(a, 64 - n) != 0 <==> a * Pow2(n) >= TWO_64
  {
    hide Pow2;
    Pow2Split(n, 64 - n);
    Pow2Of64();
    LostQuotient(a, Pow2(n), Pow2(64 - n));
  }

  lemma LostQuotient(a: nat, p: nat, q: nat)
    requires p >= 1 && q >= 1
    ensures a / q != 0 <==> a * p >= p * q
  {
    if a < q {
      DivModUnique(a, q, 0, a);
      ScaledAtMost(a, q - 1, p);
      assert (q - 1) * p == p * q - p;
    } else {
      QuotientPositive(a, q);
      ScaledAtMost(q, a, p);
      assert q * p == p * q;
    }
  }

  lemma QuotientPositive(a: nat, q: nat)
    requires a >= q >= 1
    ensures a / q != 0
  {
    assert a == a / q * q + a % q;
  }

  lemma ScaledAtMost(x: nat, y: nat, p: nat)
    requires x <= y
    ensures x * p <= y * p
  {
  }

  /** SRL and SRLI, opcodes 21 and 24: the quotient by 2^n; the carry is the last bit shifted out. */
  lemma ShiftsRight(e: Arch, op: nat, rs1: nat, rd: nat)
    requires op in {21, 24} && rs1 < 16 && rd < 16 && Next(e, 0xC000 + op * 0x100 + rs1 * 0x10 + rd)
    ensures
      var e', a, n := Cycle(e), Reads(e, rd), if op == 24 then rs1 else Reads(e, rs1);
      var r := if n >= 64 then 0 else a / Pow2(n);
      0 <= r < TWO_64 && Puts(e, e', map[rd := r]) && SameMemory(e, e') && FlagsFor(e'.flags, r, 0 < n < 64 && Bit(a, n - 1))
  {
    hide Puts, Cycle, Reads;
    AluWrites(e, op, rs1, rd);
    var a, n := Reads(e, rd), if op == 24 then rs1 else Reads(e, rs1);
    if n < 64 {
      QuotientBound(a, Pow2(n));
    }
  }

  /** SRA and SRAI, opcodes 22 and 25: the signed quotient by 2^n, rounded down. */
  lemma ShiftsRightSigned(e: Arch, op: nat, rs1: nat, rd: nat)
    requires op in {22, 25} && rs1 < 16 && rd < 16 && Next(e, 0xC000 + op * 0x100 + rs1 * 0x10 + rd)
    ensures
      var e', a, n := Cycle(e), Reads(e, rd), if op == 25 then rs1 else Reads(e, rs1);
      var signed := if a < 0x8000_0000_0000_0000 then a else a - TWO_64;
      var r := (if n >= 64 then (if signed < 0 then -1 else 0) else signed / Pow2(n)) % TWO_64;
      Puts(e, e', map[rd := r]) && SameMemory(e, e') && FlagsFor(e'.flags, r, 0 < n < 64 && Bit(a, n - 1))
  {
    hide Puts, Cycle, Reads;
    AluWrites(e, op, rs1, rd);
    var a, n := Reads(e, rd), if op == 25 then rs1 else Reads(e, rs1);
    if n < 64 {
      SignedQuotient(a, n);
    } else {
      DivModUnique(-1, TWO_64, -1, WORD_MAX);
    }
  }

  lemma SignedQuotient(a: Word, n: nat)
    ensures
      var signed := if a < 0x8000_0000_0000_0000 then a else a - TWO_64;
      ShiftRightSigned(a, n) == (signed / Pow2(n)) % TWO_64
  {
    var p := Pow2(n);
    if a < 0x8000_0000_0000_0000 {
      QuotientBound(a, p);
      DivModUnique(a / p, TWO_64, 0, a / p);
    } else {
      var b := WORD_MAX - a;
      QuotientBound(b, p);
      DivModUnique(a - TWO_64, p, -1 - b / p, p - 1 - b % p);
      DivModUnique(-1 - b / p, TWO_64, -1, WORD_MAX - b / p);
    }
  }

  // ---------------------------------------------------------------- load-linked and store-conditional

  /** LLR, opcode 3, loads eight bytes and reserves their address. */
  lemma LinksAndLoads(e: Arch, rs1: nat, rd: nat)
    requires rs1 < 16 && rd < 16 && Next(e, 0xC300 + rs1 * 0x10 + rd)
    ensures
      var e', value := Cycle(e), LittleEndian(e.mem, Reads(e, rs1), 8);
      && 0 <= value < TWO_64 && Puts(e, e', map[rd := value])
      && e'.mem == e.mem && e'.flags == e.flags && e'.llValid && e'.llAddr == Reads(e, rs1)
  {
    hide Fetched, Puts, Cycle, Reads, Load, LittleEndian;
    GpForm(e, LLR, rs1, rd);
    Operands(e, rs1, rd, 0);
    LoadIsLittleEndian(e.mem, Reads(e, rs1), 8);
    PutsOne(e, Cycle(e), rd, Load(e.mem, Reads(e, rs1), 8));
  }

  /** SCR, opcode 4, stores eight bytes exactly when their address is reserved, says so in Z alone, and
      leaves no reservation. */
  lemma StoresConditionally(e: Arch, rs1: nat, rd: nat)
    requires rs1 < 16 && rd < 16 && Next(e, 0xC400 + rs1 * 0x10 + rd)
    ensures
      var e', a := Cycle(e), Reads(e, rs1);
      && Puts(e, e', map[]) && !e'.llValid && e'.llAddr == e.llAddr && e'.flags == e.flags.(z := e.llValid && e.llAddr == a)
      && if e.llValid && e.llAddr == a then Stores(e.mem, e'.mem, a, 8, Reads(e, rd)) else e'.mem == e.mem
  {
    hide Fetched, Puts, Cycle, Reads, Store, Split, Stores, Overlaps;
    GpForm(e, SCR, rs1, rd);
    Operands(e, rs1, rd, 0);
    StoreIsBytes(e.mem, Reads(e, rs1), 8, Reads(e, rd));
    PutsNothing(e, Cycle(e));
  }

  // ---------------------------------------------------------------- short programs

  function SignedValue(w: Word): int { if w < 0x8000_0000_0000_0000 then w else w - TWO_64 }

  /** What a conditional jump after comparing a with b decides. */
  predicate Compared(op: nat, a: Word, b: Word) {
    if op == 11 then a == b
    else if op == 12 then a < b
    else if op == 14 then (a - b) % TWO_64 < 0x8000_0000_0000_0000 && a != b
    else (a - b) % TWO_64 >= 0x8000_0000_0000_0000
  }

  /** TEST Rs1, Rd and a jump: the branch is taken exactly on the relation of the two registers. */
  lemma TestThenJump(e: Arch, rs1: nat, rd: nat, op: nat, rel: int)
    requires rs1 < 16 && rd < 16 && 11 <= op < 16 && -512 <= rel < 512
    requires Next(e, 0xC200 + rs1 * 0x10 + rd) && Next(Cycle(e), 0x4000 + op * 0x400 + rel % 1024)
    ensures
      var pc := Cycle(Cycle(e)).regs[15];
      pc == (e.regs[15] + 4 + (if Compared(op, Reads(e, rd), Reads(e, rs1)) then 2 * rel else 0)) % TWO_64
  {
    hide Cycle, Next, Reads;
    Calculates(e, TEST, rs1, rd);
    var e1 := Cycle(e);
    JumpsPcRelative(e1, op, rel);
    Sums(e.regs[15], 2);
    assert e1.regs[15] == (e.regs[15] + 2) % TWO_64;
    Sums(e1.regs[15], 2);
    TwoSteps(e.regs[15], 2 * rel);
    TwoSteps(e.regs[15], 0);
    EqualDifference(Reads(e, rd), Reads(e, rs1));
  }

  lemma TwoSteps(pc: Word, d: int)
    ensures ((pc + 2) % TWO_64 + 2 + d) % TWO_64 == (pc + 4 + d) % TWO_64
  {
    var q, r := (pc + 2) / TWO_64, (pc + 2) % TWO_64;
    DivModUnique(pc + 4 + d, TWO_64, q + (r + 2 + d) / TWO_64, (r + 2 + d) % TWO_64);
  }

  lemma EqualDifference(a: Word, b: Word)
    ensures (a - b) % TWO_64 == 0 <==> a == b
  {
    Sums(a, b);
  }

  /** JUMP.LT is the signed comparison exactly when the difference does not overflow. */
  lemma LessThanIsSignedExactlyWhen(a: Word, b: Word)
    ensures (Compared(15, a, b) <==> SignedValue(a) < SignedValue(b)) <==>
      -0x8000_0000_0000_0000 <= SignedValue(a) - SignedValue(b) < 0x8000_0000_0000_0000
  {
    Sums(a, b);
  }

  /** Four LDIs, from the low byte up, make any 32-bit constant, sign-extended. */
  lemma ConstantInFour(e: Arch, b0: nat, b1: nat, b2: nat, b3: nat, rd: nat)
    requires b0 < 0x100 && b1 < 0x100 && b2 < 0x100 && b3 < 0x100 && 0 < rd < 15
    requires Next(e, 0x8000 + b0 * 0x10 + rd) && Next(Cycle(e), 0x9000 + b1 * 0x10 + rd)
    requires Next(Cycle(Cycle(e)), 0xA000 + b2 * 0x10 + rd) && Next(Cycle(Cycle(Cycle(e))), 0xB000 + b3 * 0x10 + rd)
    ensures
      var low := b0 + 0x100 * b1 + 0x1_0000 * b2 + 0x100_0000 * b3;
      Cycle(Cycle(Cycle(Cycle(e)))).regs[rd] == (if b3 < 0x80 then low else low - 0x1_0000_0000) % TWO_64
  {
    hide Cycle, Next, Bit, BitOp.Word64, Pow2;
    var e1 := Cycle(e);
    var e2 := Cycle(e1);
    var e3 := Cycle(e2);
    LoadsImmediate(e, b0, rd);
    var r1 := MergesImmediate(e1, 1, b1, rd);
    var r2 := MergesImmediate(e2, 2, b2, rd);
    var r3 := MergesImmediate(e3, 3, b3, rd);
    MergeAbove(b0, b1, 8);
    MergeAbove(b0 + 0x100 * b1, b2, 16);
    var high := if b3 < 0x80 then b3 else b3 + 0xFF_FFFF_FF00;
    MergeAbove(b0 + 0x100 * b1 + 0x1_0000 * b2, high, 24);
    if b3 >= 0x80 {
      DivModUnique(b0 + 0x100 * b1 + 0x1_0000 * b2 + 0x100_0000 * b3 - 0x1_0000_0000, TWO_64, -1,
                   b0 + 0x100 * b1 + 0x1_0000 * b2 + 0x100_0000 * high);
    }
  }

  lemma MergeAbove(low: nat, high: nat, n: nat)
    requires n in {8, 16, 24}
    requires var p := if n == 8 then 0x100 else if n == 16 then 0x1_0000 else 0x100_0000; low < p && p * high < TWO_64
    ensures
      var p := if n == 8 then 0x100 else if n == 16 then 0x1_0000 else 0x100_0000;
      OR.Word64(low, p * high) == low + p * high
  {
    hide BitOp.Apply, Pow2;
    SmallPowers();
    Pow2Split(8, 16);
    Pow2Of64();
    OrDisjointIsSum(64, n, high, low);
    OrSwaps(64, low, high * Pow2(n));
  }

  lemma {:induction false} OrSwaps(n: nat, x: nat, y: nat)
    ensures OR.Apply(n, x, y) == OR.Apply(n, y, x)
  {
    if n > 0 {
      OrSwaps(n - 1, x / 2, y / 2);
    }
  }

  /** What was pushed comes back, and the stack register with it. */
  lemma PushThenPop(e: Arch, off: nat, rs: nat, off': nat, rt: nat, sp: nat)
    requires off < 4 && off' < 4 && rs < 16 && 0 < rt < 15 && 0 < sp < 15 && rt != sp
    requires Next(e, 0x800 + off * 0x100 + rs * 0x10 + sp) && Next(Cycle(e), 0xC00 + off' * 0x100 + rt * 0x10 + sp)
    requires forall k :: 0 <= k < 8 ==> Plus(Minus(Reads(e, sp), 8), k) in e.mem
    ensures
      var e' := Cycle(Cycle(e));
      e'.regs[rt] == Reads(e, rs) && e'.regs[sp] == Reads(e, sp)
  {
    hide Cycle, Next, Stores, LittleEndian;
    var e1, s := Cycle(e), (Reads(e, sp) - 8) % TWO_64;
    Sums(Reads(e, sp), 8);
    Pushes(e, off, rs, sp);
    Pops(e1, off', rt, sp);
    assert Reads(e1, sp) == s;
    StoredReadsBack(e.mem, e1.mem, s, Reads(e, rs));
    Sums(s, 8);
  }

  lemma StoredReadsBack(m: Memory, m': Memory, a: Word, v: Word)
    requires Stores(m, m', a, 8, v) && forall k :: 0 <= k < 8 ==> Plus(a, k) in m
    ensures LittleEndian(m', a, 8) == v
  {
    hide Load, LittleEndian, Pow2;
    forall k | 0 <= k < 8
      ensures Block(m', a)[k] == Split(v)[k]
    {
      var x := Plus(a, k);
      assert x in m;
      if x >= a {
        DivModUnique(x - a, TWO_64, 0, k);
      } else {
        DivModUnique(x - a, TWO_64, -1, k);
      }
      LaneAt(8, v, k);
    }
    assert Block(m', a) == Split(v);
    LoadIsLittleEndian(m', a, 8);
    FullLoad(m', a);
    JoinSplit(v);
  }

  lemma FullLoad(m: Memory, a: Word)
    ensures Load(m, a, 8) == Join(Block(m, a))
  {
    assert Block(m, a)[..8] == Block(m, a);
  }

  /** The half-words given a meaning: all but the GP opcodes for special registers, traps, IRET and STOP
      and the undefined ones. */
  lemma ModelledHalfwords(i: Half)
    ensures
      var op := i / 0x100 % 32;
      Modelled(i) <==> i < 0xC000 || i >= 0xE000 || op <= 4 || 16 <= op <= 18 || 20 <= op <= 25
  {
  }
}
