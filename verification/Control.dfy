/** The fields of cpu_control (host/emulator/cpu.hpp): interrupt enable in bit 0, in-interrupt in
    bit 1, the current vector in bits 8..2, paging in bit 16 and user mode in bit 17. */
module Control {
  import opened Words
  import opened Bits

  predicate InterruptEnabled(control: Word) { control % 2 == 1 }
  predicate InInterrupt(control: Word) { control / 2 % 2 == 1 }
  function CurrentVector(control: Word): (v: nat)
    ensures v < 128
  {
    control / 4 % 128
  }
  predicate PagingEnabled(control: Word) { control / 0x1_0000 % 2 == 1 }
  predicate UserMode(control: Word) { control / 0x2_0000 % 2 == 1 }

  /** cpu_control on handler entry: interrupts off, in-interrupt on, the vector in bits 8..2, user
      mode off, everything else kept. */
  function HandlerControl(control: Word, vector: nat): Word
    requires vector < 128
  {
    var entered := control / 512 * 512 + 2 + 4 * vector;
    if UserMode(control) then entered - 0x2_0000 else entered
  }

  lemma ControlFields(top: nat, user: nat, paging: nat, low: nat)
    requires user < 2 && paging < 2 && low < 0x1_0000
    ensures
      var c := top * 0x4_0000 + user * 0x2_0000 + paging * 0x1_0000 + low;
      c / 0x2_0000 % 2 == user && c / 0x1_0000 % 2 == paging
  {
    var c := top * 0x4_0000 + user * 0x2_0000 + paging * 0x1_0000 + low;
    DivModUnique(c, 0x1_0000, top * 4 + user * 2 + paging, low);
    DivModUnique(top * 4 + user * 2 + paging, 2, top * 2 + user, paging);
    DivModUnique(c, 0x2_0000, top * 2 + user, paging * 0x1_0000 + low);
    DivModUnique(top * 2 + user, 2, top, user);
  }

  /** HandlerControl field by field. */
  lemma HandlerControlForm(control: Word, vector: nat)
    requires vector < 128
    ensures
      var top, paging, low := control / 0x4_0000, control / 0x1_0000 % 2, control % 0x1_0000;
      && HandlerControl(control, vector) == top * 0x4_0000 + paging * 0x1_0000 + (low / 512 * 512 + 2 + 4 * vector)
      && low / 512 * 512 + 2 + 4 * vector < 0x1_0000
  {
    var top, user, paging, low := control / 0x4_0000, control / 0x2_0000 % 2, control / 0x1_0000 % 2, control % 0x1_0000;
    ModuloSplit(control, 0x1_0000, 2);
    ModuloSplit(control, 0x2_0000, 2);
    assert control == top * 0x4_0000 + user * 0x2_0000 + paging * 0x1_0000 + low;
    DivModUnique(control, 512, top * 0x200 + user * 0x100 + paging * 0x80 + low / 512, low % 512);
  }

  /** Handler entry leaves the mode bits as said and puts the vector in its field. */
  lemma HandlerControlBits(control: Word, vector: nat)
    requires vector < 128
    ensures !UserMode(HandlerControl(control, vector))
    ensures PagingEnabled(HandlerControl(control, vector)) == PagingEnabled(control)
    ensures !InterruptEnabled(HandlerControl(control, vector)) && InInterrupt(HandlerControl(control, vector))
    ensures CurrentVector(HandlerControl(control, vector)) == vector
  {
    hide HandlerControl;
    HandlerControlForm(control, vector);
    var top, paging, low := control / 0x4_0000, control / 0x1_0000 % 2, control % 0x1_0000;
    ControlFields(top, 0, paging, low / 512 * 512 + 2 + 4 * vector);
    InterruptFields(top * 0x200 + paging * 0x80 + low / 512, vector);
  }

  lemma InterruptFields(high: nat, vector: nat)
    requires vector < 128
    ensures
      var c := high * 512 + 2 + 4 * vector;
      c % 2 == 0 && c / 2 % 2 == 1 && c / 4 % 128 == vector
  {
    var c := high * 512 + 2 + 4 * vector;
    DivModUnique(c, 2, high * 256 + 1 + 2 * vector, 0);
    DivModUnique(high * 256 + 1 + 2 * vector, 2, high * 128 + vector, 1);
    DivModUnique(c, 4, high * 128 + vector, 2);
    DivModUnique(high * 128 + vector, 128, high, vector);
  }

  // ---------------------------------------------------------------- the two expressions for it

  const INT_ENABLE: Word := 1
  const IN_INTERRUPT: Word := 2
  const CUR_INT_MASK: Word := 0x1FC
  const USER_MODE: Word := 0x2_0000
  const ENTRY_CLEAR_MASK: Word := 0x2_01FF

  /** The basic core: clear the entry mask, then set in-interrupt and the vector field. */
  function CoreEntry(control: Word, vector: nat): Word
    requires vector < 128
  {
    OR.Word64(OR.Word64(AND.Word64(control, WORD_MAX - ENTRY_CLEAR_MASK), IN_INTERRUPT), vector * 4)
  }

  /** The emulator's setters, in the order delivery calls them. */
  function WithoutUserMode(control: Word): Word { AND.Word64(control, WORD_MAX - USER_MODE) }
  function WithInInterrupt(control: Word): Word { OR.Word64(control, IN_INTERRUPT) }
  function WithoutInterrupts(control: Word): Word { AND.Word64(control, WORD_MAX - INT_ENABLE) }
  function WithVector(control: Word, vector: nat): Word
    requires vector < 128
  {
    OR.Word64(AND.Word64(control, WORD_MAX - CUR_INT_MASK), vector * 4)
  }

  function EmulatorEntry(control: Word, vector: nat): Word
    requires vector < 128
  {
    WithVector(WithoutInterrupts(WithInInterrupt(WithoutUserMode(control))), vector)
  }

  lemma AndBit(x: Word, y: Word, k: nat)
    requires k < 64
    ensures Bit(AND.Word64(x, y), k) <==> Bit(x, k) && Bit(y, k)
  {
    BitOfResult(AND, 64, x, y, k);
  }

  lemma OrBit(x: Word, y: Word, k: nat)
    requires k < 64
    ensures Bit(OR.Word64(x, y), k) <==> Bit(x, k) || Bit(y, k)
  {
    BitOfResult(OR, 64, x, y, k);
  }

  lemma AndNotBit(x: Word, mask: Word, k: nat)
    requires k < 64
    ensures Bit(AND.Word64(x, WORD_MAX - mask), k) <==> Bit(x, k) && !Bit(mask, k)
  {
    AndBit(x, WORD_MAX - mask, k);
    Pow2Of64();
    ComplementBit(64, mask, k);
  }

  lemma MaskPowers()
    ensures Pow2(1) == 2 && Pow2(2) == 4 && Pow2(7) == 128 && Pow2(9) == 512 && Pow2(16) == 0x1_0000
    ensures Pow2(17) == 0x2_0000 && Pow2(18) == 0x4_0000
  {
    SmallPowers();
  }

  lemma OneBitOnly(k: nat)
    ensures Bit(1, k) <==> k == 0
  {
    BitOfPower(0, k);
  }

  /** The bits of the constants and of the vector field. */
  lemma FieldBits(vector: nat, k: nat)
    requires vector < 128
    ensures Bit(INT_ENABLE, k) <==> k == 0
    ensures Bit(IN_INTERRUPT, k) <==> k == 1
    ensures Bit(USER_MODE, k) <==> k == 17
    ensures Bit(CUR_INT_MASK, k) <==> 2 <= k < 9
    ensures Bit(ENTRY_CLEAR_MASK, k) <==> k < 9 || k == 17
    ensures Bit(vector * 4, k) ==> 2 <= k < 9
    ensures Bit(2 + 4 * vector, k) <==> k == 1 || Bit(vector * 4, k)
  {
    hide Bit, Pow2;
    MaskPowers();
    OneBitOnly(k);
    BitOfPower(1, k);
    BitOfPower(17, k);
    FieldOfOnes(7, 2, k);
    NineOnes(k);
    BitOfParts(1, 511, 17, k);
    if k >= 17 {
      OneBitOnly(k - 17);
    }
    VectorBits(vector, k);
  }

  lemma NineOnes(k: nat)
    ensures Bit(511, k) <==> k < 9
  {
    MaskPowers();
    if k < 9 {
      OnesBelow(9, k);
    } else {
      NoBitsAbove(9, 511, k);
    }
  }

  /** n ones above j zeroes. */
  lemma FieldOfOnes(n: nat, j: nat, k: nat)
    ensures (Pow2(n) - 1) * Pow2(j) + 0 >= 0
    ensures Bit((Pow2(n) - 1) * Pow2(j) + 0, k) <==> j <= k < j + n
  {
    BitOfParts(Pow2(n) - 1, 0, j, k);
    if k < j {
      NoHighBits(k);
    } else if k - j < n {
      OnesBelow(n, k - j);
    } else {
      NoBitsAbove(n, Pow2(n) - 1, k - j);
    }
  }

  lemma VectorBits(vector: nat, k: nat)
    requires vector < 128
    ensures Bit(vector * 4, k) ==> 2 <= k < 9
    ensures Bit(2 + 4 * vector, k) <==> k == 1 || Bit(vector * 4, k)
  {
    hide Bit, Pow2;
    MaskPowers();
    BitOfParts(vector, 0, 2, k);
    BitOfParts(vector, 2, 2, k);
    NoHighBits(k);
    BitOfPower(1, k);
    if k >= 9 {
      NoBitsAbove(7, vector, k - 2);
    }
  }

  /** What each expression puts in bit k. */
  predicate EntryBit(control: Word, vector: nat, k: nat) {
    k == 1 || Bit(vector * 4, k) || (Bit(control, k) && k >= 9 && k != 17)
  }

  lemma CoreEntryBit(control: Word, vector: nat, k: nat)
    requires vector < 128 && k < 64
    ensures Bit(CoreEntry(control, vector), k) <==> EntryBit(control, vector, k)
  {
    hide Bit, BitOp.Word64;
    FieldBits(vector, k);
    var kept := AND.Word64(control, WORD_MAX - ENTRY_CLEAR_MASK);
    AndNotBit(control, ENTRY_CLEAR_MASK, k);
    OrBit(kept, IN_INTERRUPT, k);
    OrBit(OR.Word64(kept, IN_INTERRUPT), vector * 4, k);
  }

  lemma EmulatorEntryBit(control: Word, vector: nat, k: nat)
    requires vector < 128 && k < 64
    ensures Bit(EmulatorEntry(control, vector), k) <==> EntryBit(control, vector, k)
  {
    hide Bit, BitOp.Word64;
    FieldBits(vector, k);
    var c1 := WithoutUserMode(control);
    var c2 := WithInInterrupt(c1);
    var c3 := WithoutInterrupts(c2);
    AndNotBit(control, USER_MODE, k);
    OrBit(c1, IN_INTERRUPT, k);
    AndNotBit(c2, INT_ENABLE, k);
    AndNotBit(c3, CUR_INT_MASK, k);
    OrBit(AND.Word64(c3, WORD_MAX - CUR_INT_MASK), vector * 4, k);
  }

  lemma HandlerControlBit(control: Word, vector: nat, k: nat)
    requires vector < 128
    ensures Bit(HandlerControl(control, vector), k) <==> EntryBit(control, vector, k)
  {
    hide Bit, Pow2, HandlerControl;
    MaskPowers();
    HandlerControlForm(control, vector);
    var top, user, paging, low := control / 0x4_0000, control / 0x2_0000 % 2, control / 0x1_0000 % 2, control % 0x1_0000;
    FieldBits(vector, k);
    ControlParts(control);
    FourParts(top, user, paging, low, k);
    FourParts(top, 0, paging, low / 512 * 512 + (2 + 4 * vector), k);
    BitOfParts(low / 512, low % 512, 9, k);
    BitOfParts(low / 512, 2 + 4 * vector, 9, k);
    if k >= 17 {
      NoHighBits(k - 17);
    }
  }

  lemma ControlParts(control: Word)
    ensures
      var top, user, paging, low := control / 0x4_0000, control / 0x2_0000 % 2, control / 0x1_0000 % 2, control % 0x1_0000;
      control == top * 0x4_0000 + user * 0x2_0000 + paging * 0x1_0000 + low
  {
    ModuloSplit(control, 0x1_0000, 2);
    ModuloSplit(control, 0x2_0000, 2);
  }

  /** The bits of a control value by its parts. */
  lemma FourParts(top: nat, user: nat, paging: nat, low: nat, k: nat)
    requires user < 2 && paging < 2 && low < 0x1_0000
    ensures
      Bit(top * 0x4_0000 + user * 0x2_0000 + paging * 0x1_0000 + low, k) <==>
        if k < 16 then Bit(low, k) else if k == 16 then Bit(paging, 0) else if k == 17 then Bit(user, 0) else Bit(top, k - 18)
  {
    hide Bit, Pow2;
    MaskPowers();
    BitOfParts(paging, low, 16, k);
    BitOfParts(user, paging * 0x1_0000 + low, 17, k);
    BitOfParts(top, user * 0x2_0000 + paging * 0x1_0000 + low, 18, k);
  }

  /** Both expressions give the same cpu_control, the one HandlerControl describes by its fields. */
  lemma EntriesAgree(control: Word, vector: nat)
    requires vector < 128
    ensures CoreEntry(control, vector) == EmulatorEntry(control, vector) == HandlerControl(control, vector)
  {
    hide Bit, CoreEntry, EmulatorEntry, HandlerControl, EntryBit;
    var c, e, h := CoreEntry(control, vector), EmulatorEntry(control, vector), HandlerControl(control, vector);
    Pow2Of64();
    forall k | 0 <= k < 64
      ensures (Bit(c, k) <==> Bit(h, k)) && (Bit(e, k) <==> Bit(h, k))
    {
      CoreEntryBit(control, vector, k);
      EmulatorEntryBit(control, vector, k);
      HandlerControlBit(control, vector, k);
    }
    SameBits(64, c, h);
    SameBits(64, e, h);
  }
}
