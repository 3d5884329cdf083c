/** Fields of the 16-bit instruction word and the two opcode spaces. */
module Instructions {
  import opened Words

  function Format(i: Half): nat { i / 0x4000 }
  function Rd(i: Half): (r: nat) ensures r < 16 { i % 16 }
  function Rs1(i: Half): (r: nat) ensures r < 16 { i / 0x10 % 16 }
  function Offset2(i: Half): nat { i / 0x100 % 4 }
  function LsOpcode(i: Half): (r: nat) ensures r < 16 { i / 0x400 % 16 }
  function GpOpcode(i: Half): (r: nat) ensures r < 32 { i / 0x100 % 32 }
  function LdiShift(i: Half): (r: nat) ensures r < 4 { i / 0x1000 % 4 }
  function Imm8(i: Half): Byte { i / 0x10 % 0x100 }
  predicate IsLongJump(i: Half) { i / 0x2000 == 7 }

  /** The raw (unsigned) offset fields. */
  function Rel6(i: Half): (r: nat) ensures r < 64 { i / 0x10 % 64 }
  function Rel10(i: Half): (r: nat) ensures r < 1024 { i % 1024 }
  function Rel13(i: Half): (r: nat) ensures r < 8192 { i % 8192 }

  const LOAD := 0
  const STORE := 1
  const PUSH := 2
  const POP := 3
  const MOVE := 4
  const BYTE_LOAD := 5
  const BYTE_STORE := 6
  const SHORT_LOAD := 7
  const SHORT_STORE := 8
  const WORD_LOAD := 9
  const WORD_STORE := 10
  const JUMP_Z := 11
  const JUMP_C := 12
  const JUMP_S := 13
  const JUMP_GT := 14
  const JUMP_LT := 15

  const ADD := 0
  const SUB := 1
  const TEST := 2
  const LLR := 3
  const SCR := 4
  const GP_AND := 16
  const GP_OR := 17
  const GP_XOR := 18
  const SLL := 20
  const SRL := 21
  const SRA := 22
  const SLLI := 23
  const SRLI := 24
  const SRAI := 25

  predicate IsLoad(op: nat) { op == LOAD || op == BYTE_LOAD || op == SHORT_LOAD || op == WORD_LOAD }
  predicate IsStore(op: nat) { op == STORE || op == BYTE_STORE || op == SHORT_STORE || op == WORD_STORE }
  predicate IsJump(op: nat) { 11 <= op < 16 }

  /** The number of bytes a load or store moves. */
  function Width(op: nat): (w: nat)
    ensures w == 1 || w == 2 || w == 4 || w == 8
  {
    if op == BYTE_LOAD || op == BYTE_STORE then 1
    else if op == SHORT_LOAD || op == SHORT_STORE then 2
    else if op == WORD_LOAD || op == WORD_STORE then 4
    else 8
  }

  predicate IsAlu(op: nat) { op == ADD || op == SUB || op == TEST || 16 <= op <= 18 || 20 <= op <= 22 }
  predicate IsImmediateShift(op: nat) { 23 <= op <= 25 }

  /** The register file; register 15 is the program counter and register 0 reads as zero. */
  type Regs = s: seq<Word> | |s| == 16
    witness [0, 0, 0, 0, 0, 0, 0, 0, 0, 0, 0, 0, 0, 0, 0, 0]
}
