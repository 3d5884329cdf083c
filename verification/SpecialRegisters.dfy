/** The basic core's special-register file (hdl/little64_cores/basic/special_registers.py): writes by
    the core and by software, the cpu_control mask, the latch for IRQ lines and the TLB flush. */
module SpecialRegisters {
  import opened Words
  import opened Bits
  import opened Control

  const CPU_CONTROL := 0
  const PAGE_TABLE_ROOT := 11
  const BOOT_INFO_FRAME := 12
  const HYPERCALL_CAPS := 15
  const INTERRUPT_STATES := 19
  const INTERRUPT_STATES_HIGH := 20
  const INTERRUPT_EPC := 21
  const INTERRUPT_EFLAGS := 22
  const INTERRUPT_CPU_CONTROL := 23
  const TRAP_CAUSE := 24
  const TRAP_AUX := 28
  const THREAD_POINTER := 0x8000

  datatype Config = Config(mmu: bool, platform: bool)

  /** The trap registers by selector, and the registers that are only stored: boot information,
      hypercall capabilities, table base, masks and the low pending bank. */
  datatype State = State(
    control: Word,
    root: Word,
    savedControl: Word,
    epc: Word,
    eflags: Word,
    statesHigh: Word,
    threadPointer: Word,
    trap: map<nat, Word>,
    stored: map<nat, Word>
  )

  /** The core's own writes in a clock. */
  datatype CoreWrites = CoreWrites(
    control: Option<Word>, savedControl: Option<Word>, epc: Option<Word>, eflags: Option<Word>, trap: Option<map<nat, Word>>)

  const NO_CORE_WRITES := CoreWrites(None, None, None, None, None)

  datatype Input = Input(core: CoreWrites, irqSet: Word, user: bool, strobe: bool, selector: nat, data: Word)

  predicate IsTrap(selector: nat) { TRAP_CAUSE <= selector <= TRAP_AUX }
  predicate IsStored(selector: nat) { BOOT_INFO_FRAME <= selector <= INTERRUPT_STATES }
  predicate IsPlatform(selector: nat) { BOOT_INFO_FRAME <= selector <= HYPERCALL_CAPS }

  /** CPU_CONTROL_WRITABLE_MASK: bits 8..0, 16 and 17. */
  function Masked(w: Word): Word { w % 512 + w / 0x1_0000 % 4 * 0x1_0000 }

  predicate WriteFaults(i: Input) { i.user && i.strobe && i.selector != THREAD_POINTER }
  predicate Writes(i: Input) { i.strobe && !WriteFaults(i) }
  predicate WritesTo(i: Input, selector: nat) { Writes(i) && i.selector == selector }

  function Chosen(core: Option<Word>, software: bool, data: Word, was: Word): Word {
    if core.Some? then core.value else if software then data else was
  }

  /** The registers after a clock edge. */
  function Step(cfg: Config, s: State, i: Input): State {
    State(
      if i.core.control.Some? then Masked(i.core.control.value) else if WritesTo(i, CPU_CONTROL) then Masked(i.data) else s.control,
      if cfg.mmu && WritesTo(i, PAGE_TABLE_ROOT) then i.data else s.root,
      if i.core.savedControl.Some? then Masked(i.core.savedControl.value)
      else if WritesTo(i, INTERRUPT_CPU_CONTROL) then Masked(i.data) else s.savedControl,
      if WritesTo(i, INTERRUPT_EPC) then i.data else if i.core.epc.Some? then i.core.epc.value else s.epc,
      Chosen(i.core.eflags, WritesTo(i, INTERRUPT_EFLAGS), i.data, s.eflags),
      if WritesTo(i, INTERRUPT_STATES_HIGH) then OR.Word64(i.data, i.irqSet)
      else if !Writes(i) && i.irqSet != 0 then OR.Word64(s.statesHigh, i.irqSet) else s.statesHigh,
      if WritesTo(i, THREAD_POINTER) then i.data else s.threadPointer,
      if i.core.trap.Some? then i.core.trap.value
      else if Writes(i) && IsTrap(i.selector) then s.trap[i.selector := i.data] else s.trap,
      if Writes(i) && IsStored(i.selector) && (IsPlatform(i.selector) ==> cfg.platform) then s.stored[i.selector := i.data] else s.stored)
  }

  /** The tlb_flush output of the clock. */
  predicate Flushes(cfg: Config, i: Input) {
    i.core.control.Some? || WritesTo(i, CPU_CONTROL) || (cfg.mmu && WritesTo(i, PAGE_TABLE_ROOT))
  }

  /** The read multiplexer. */
  function Read(cfg: Config, s: State, selector: nat): Word {
    if selector == CPU_CONTROL then Masked(s.control)
    else if selector == PAGE_TABLE_ROOT then (if cfg.mmu then s.root else 0)
    else if selector == INTERRUPT_STATES_HIGH then s.statesHigh
    else if selector == INTERRUPT_EPC then s.epc
    else if selector == INTERRUPT_EFLAGS then s.eflags
    else if selector == INTERRUPT_CPU_CONTROL then Masked(s.savedControl)
    else if selector == THREAD_POINTER then s.threadPointer
    else if IsTrap(selector) then (if selector in s.trap then s.trap[selector] else 0)
    else if IsStored(selector) && (IsPlatform(selector) ==> cfg.platform) && selector in s.stored then s.stored[selector]
    else 0
  }

  /** The file as a clocked object, assigning in the source's order; later assignments win. */
  class File {
    const cfg: Config
    var control: Word
    var root: Word
    var savedControl: Word
    var epc: Word
    var eflags: Word
    var statesHigh: Word
    var threadPointer: Word
    var trap: map<nat, Word>
    var stored: map<nat, Word>

    function Registers(): State
      reads this
    {
      State(control, root, savedControl, epc, eflags, statesHigh, threadPointer, trap, stored)
    }

    constructor (cfg: Config)
      ensures this.cfg == cfg && Registers() == State(0, 0, 0, 0, 0, 0, 0, map[], map[])
    {
      this.cfg := cfg;
      control, root, savedControl, epc, eflags, statesHigh, threadPointer := 0, 0, 0, 0, 0, 0, 0;
      trap, stored := map[], map[];
    }

    /** The core's writes. */
    method CoreWrite(w: CoreWrites) returns (flush: bool)
      modifies this`control, this`savedControl, this`epc, this`eflags, this`trap
      ensures control == if w.control.Some? then Masked(w.control.value) else old(control)
      ensures savedControl == if w.savedControl.Some? then Masked(w.savedControl.value) else old(savedControl)
      ensures epc == Chosen(w.epc, false, 0, old(epc)) && eflags == Chosen(w.eflags, false, 0, old(eflags))
      ensures trap == if w.trap.Some? then w.trap.value else old(trap)
      ensures flush == w.control.Some?
    {
      flush := false;
      if w.trap.Some? {
        trap := w.trap.value;
      }
      if w.control.Some? {
        control, flush := Masked(w.control.value), true;
      }
      if w.savedControl.Some? {
        savedControl := Masked(w.savedControl.value);
      }
      if w.epc.Some? {
        epc := w.epc.value;
      }
      if w.eflags.Some? {
        eflags := w.eflags.value;
      }
    }

    /** A software write to one of the registers the core writes too. */
    method WriteShared(i: Input) returns (flush: bool)
      requires i.selector == CPU_CONTROL || i.selector == INTERRUPT_CPU_CONTROL || i.selector == INTERRUPT_EPC
               || i.selector == INTERRUPT_EFLAGS || IsTrap(i.selector)
      modifies this`control, this`savedControl, this`epc, this`eflags, this`trap
      ensures control == if i.selector == CPU_CONTROL && i.core.control.None? then Masked(i.data) else old(control)
      ensures savedControl == if i.selector == INTERRUPT_CPU_CONTROL && i.core.savedControl.None? then Masked(i.data) else old(savedControl)
      ensures epc == if i.selector == INTERRUPT_EPC then i.data else old(epc)
      ensures eflags == if i.selector == INTERRUPT_EFLAGS && i.core.eflags.None? then i.data else old(eflags)
      ensures trap == if IsTrap(i.selector) && i.core.trap.None? then old(trap)[i.selector := i.data] else old(trap)
      ensures flush == (i.selector == CPU_CONTROL && i.core.control.None?)
    {
      flush := false;
      if i.selector == CPU_CONTROL {
        if i.core.control.None? {
          control, flush := Masked(i.data), true;
        }
      } else if i.selector == INTERRUPT_EPC {
        epc := i.data;
      } else if i.selector == INTERRUPT_EFLAGS {
        if i.core.eflags.None? {
          eflags := i.data;
        }
      } else if i.selector == INTERRUPT_CPU_CONTROL {
        if i.core.savedControl.None? {
          savedControl := Masked(i.data);
        }
      } else if i.core.trap.None? {
        trap := trap[i.selector := i.data];
      }
    }

    method Clock(i: Input) returns (flush: bool)
      modifies this
      ensures Registers() == Step(cfg, old(Registers()), i) && flush == Flushes(cfg, i)
    {
      hide BitOp.Word64, Masked;
      flush := CoreWrite(i.core);
      var writes := i.strobe && !(i.user && i.selector != THREAD_POINTER);
      if writes {
        if i.selector == PAGE_TABLE_ROOT {
          if cfg.mmu {
            root, flush := i.data, true;
          }
        } else if IsStored(i.selector) {
          if !IsPlatform(i.selector) || cfg.platform {
            stored := stored[i.selector := i.data];
          }
        } else if i.selector == INTERRUPT_STATES_HIGH {
          statesHigh := OR.Word64(i.data, i.irqSet);
        } else if i.selector == THREAD_POINTER {
          threadPointer := i.data;
        } else if i.selector == CPU_CONTROL || INTERRUPT_EPC <= i.selector <= TRAP_AUX {
          var shared := WriteShared(i);
          flush := flush || shared;
        }
      } else if i.irqSet != 0 {
        statesHigh := OR.Word64(statesHigh, i.irqSet);
      }
    }
  }

  // ---------------------------------------------------------------- what the core relies on

  function Run(cfg: Config, s: State, ins: seq<Input>): State {
    if ins == [] then s else Step(cfg, Run(cfg, s, ins[..|ins| - 1]), ins[|ins| - 1])
  }

  /** Over any run in which no clock flushes the TLB, cpu_control and the page-table root stay put. */
  lemma {:induction false} UnchangedBetweenFlushes(cfg: Config, s: State, ins: seq<Input>)
    requires forall k :: 0 <= k < |ins| ==> !Flushes(cfg, ins[k])
    ensures Run(cfg, s, ins).control == s.control && Run(cfg, s, ins).root == s.root
  {
    hide BitOp.Word64, Masked;
    if ins != [] {
      UnchangedBetweenFlushes(cfg, s, ins[..|ins| - 1]);
    }
  }

  lemma MaskedTwice(w: Word)
    ensures Masked(Masked(w)) == Masked(w)
  {
    var low, high := w % 512, w / 0x1_0000 % 4;
    DivModUnique(high * 0x1_0000 + low, 0x1_0000, high, low);
    DivModUnique(high * 128 * 512 + low, 512, high * 128, low);
  }

  /** Both control registers only ever hold writable bits. */
  predicate WithinMask(s: State) { Masked(s.control) == s.control && Masked(s.savedControl) == s.savedControl }

  lemma {:induction false} ControlStaysWithinMask(cfg: Config, s: State, ins: seq<Input>)
    requires WithinMask(s)
    ensures WithinMask(Run(cfg, s, ins))
  {
    hide BitOp.Word64, Masked;
    if ins != [] {
      var i := ins[|ins| - 1];
      ControlStaysWithinMask(cfg, s, ins[..|ins| - 1]);
      MaskedTwice(i.data);
      if i.core.control.Some? {
        MaskedTwice(i.core.control.value);
      }
      if i.core.savedControl.Some? {
        MaskedTwice(i.core.savedControl.value);
      }
    }
  }

  /** The mask loses none of the fields the core and the emulator look at. */
  lemma MaskKeepsFields(w: Word)
    ensures InterruptEnabled(Masked(w)) == InterruptEnabled(w) && InInterrupt(Masked(w)) == InInterrupt(w)
    ensures CurrentVector(Masked(w)) == CurrentVector(w)
    ensures PagingEnabled(Masked(w)) == PagingEnabled(w) && UserMode(Masked(w)) == UserMode(w)
  {
    var low, high := w % 512, w / 0x1_0000 % 4;
    var m := Masked(w);
    DivModUnique(m, 512, high * 128, low);
    DivModUnique(m, 0x1_0000, high, low);
    LowFields(w);
    LowFields(m);
    HighFields(w);
    HighFields(m);
  }

  lemma LowFields(w: Word)
    ensures
      var low := w % 512;
      w % 2 == low % 2 && w / 2 % 2 == low / 2 % 2 && w / 4 % 128 == low / 4 % 128
  {
    var low := w % 512;
    ModuloSplit(w, 2, 256);
    ModuloSplit(w / 2, 2, 128);
    ModuloSplit(w, 4, 128);
    DivModUnique(low, 2, w / 2 % 256, w % 2);
    DivModUnique(low / 2, 2, w / 2 / 2 % 128, w / 2 % 2);
    DivModUnique(low, 4, w / 4 % 128, w % 4);
  }

  lemma HighFields(w: Word)
    ensures
      var high := w / 0x1_0000 % 4;
      w / 0x1_0000 % 2 == high % 2 && w / 0x2_0000 % 2 == high / 2
  {
    ModuloSplit(w, 0x1_0000, 2);
    ModuloSplit(w / 0x1_0000, 2, 2);
  }

  /** At the file's port, what software writes it reads back: masked in the control registers, joined with
      the latch input of that clock in the pending bank. */
  lemma WriteReadsBack(cfg: Config, s: State, i: Input)
    requires Writes(i) && i.core == NO_CORE_WRITES
    requires i.selector == PAGE_TABLE_ROOT ==> cfg.mmu
    requires IsPlatform(i.selector) ==> cfg.platform
    requires i.selector == CPU_CONTROL || PAGE_TABLE_ROOT <= i.selector <= TRAP_AUX || i.selector == THREAD_POINTER
    ensures
      Read(cfg, Step(cfg, s, i), i.selector)
      == if i.selector == CPU_CONTROL || i.selector == INTERRUPT_CPU_CONTROL then Masked(i.data)
         else if i.selector == INTERRUPT_STATES_HIGH then OR.Word64(i.data, i.irqSet)
         else i.data
  {
    hide BitOp.Word64, Masked;
    MaskedTwice(i.data);
  }

  /** A user-mode write that faults has no effect; only the thread pointer is the user's. */
  lemma UserWritesOnlyThreadPointer(cfg: Config, s: State, i: Input)
    requires i.user && i.core == NO_CORE_WRITES && i.irqSet == 0
    ensures !Flushes(cfg, i)
    ensures Step(cfg, s, i) == s.(threadPointer := if i.strobe && i.selector == THREAD_POINTER then i.data else s.threadPointer)
  {
    hide BitOp.Word64;
  }

  // ---------------------------------------------------------------- the registers by number

  lemma PowersOfFields()
    ensures Pow2(2) == 4 && Pow2(9) == 512 && Pow2(16) == 0x1_0000
  {
    SmallPowers();
    assert Pow2(9) == 2 * Pow2(8);
  }

  /** Only bits 0 to 8, 16 and 17 of a control register can be set. */
  lemma MaskedBits(w: Word, k: nat)
    requires k < 64
    ensures Bit(Masked(w), k) <==> Bit(w, k) && (k <= 8 || k == 16 || k == 17)
  {
    hide Bit, Pow2;
    var low, high := w % 512, w / 0x1_0000 % 4;
    PowersOfFields();
    BitOfParts(w / 512, low, 9, k);
    BitOfParts(w / 0x1_0000, w % 0x1_0000, 16, k);
    BitOfParts(high, low, 16, k);
    if k >= 16 {
      BitOfParts(w / 0x1_0000 / 4, high, 2, k - 16);
      if k >= 18 {
        NoBitsAbove(2, high, k - 16);
      }
    } else if k >= 9 {
      NoBitsAbove(9, low, k);
    }
  }

  /** What the core writes it reads back by number: 0 and 23 keep the writable bits, 22 the flags, 21 the
      PC unless software writes it in that clock, and 24 to 28 the trap. */
  lemma CoreWritesReadBack(cfg: Config, s: State, i: Input)
    ensures
      var s' := Step(cfg, s, i);
      && (i.core.control.Some? ==> forall k :: 0 <= k < 64 ==> Bit(Read(cfg, s', 0), k) == (Bit(i.core.control.value, k) && (k <= 8 || k == 16 || k == 17)))
      && (i.core.savedControl.Some? ==>
            forall k :: 0 <= k < 64 ==> Bit(Read(cfg, s', 23), k) == (Bit(i.core.savedControl.value, k) && (k <= 8 || k == 16 || k == 17)))
      && (i.core.epc.Some? && !(i.strobe && !i.user && i.selector == 21) ==> Read(cfg, s', 21) == i.core.epc.value)
      && (i.core.eflags.Some? ==> Read(cfg, s', 22) == i.core.eflags.value)
      && (i.core.trap.Some? ==> forall n :: 24 <= n <= 28 ==> Read(cfg, s', n) == if n in i.core.trap.value then i.core.trap.value[n] else 0)
  {
    hide BitOp.Word64, Masked, Bit;
    if i.core.control.Some? {
      MaskedTwice(i.core.control.value);
      forall k: nat | k < 64 {
        MaskedBits(i.core.control.value, k);
      }
    }
    if i.core.savedControl.Some? {
      MaskedTwice(i.core.savedControl.value);
      forall k: nat | k < 64 {
        MaskedBits(i.core.savedControl.value, k);
      }
    }
  }

  /** The selectors of a configuration: 0, the page-table root 11, the platform's 12 to 15, 16 to 28 and the
      thread pointer 0x8000. */
  predicate Known(cfg: Config, n: nat) {
    n == 0 || (n == 11 && cfg.mmu) || (12 <= n <= 15 && cfg.platform) || 16 <= n <= 28 || n == 0x8000
  }

  /** A write is read back at its own selector and at no other; a write elsewhere does nothing, and anything
      else reads as zero, as does everything out of reset. */
  lemma SelectorsInNumbers(cfg: Config, s: State, i: Input, n: nat)
    requires i.strobe && !i.user && i.core == NO_CORE_WRITES && i.irqSet == 0
    ensures Known(cfg, n) && n != 0 && n != 23 ==> Read(cfg, Step(cfg, s, i), n) == if i.selector == n then i.data else Read(cfg, s, n)
    ensures !Known(cfg, n) ==> Read(cfg, s, n) == 0
    ensures !Known(cfg, i.selector) ==> Step(cfg, s, i) == s
    ensures Step(cfg, s, i).root == (if i.selector == 11 && cfg.mmu then i.data else s.root)
    ensures Step(cfg, s, i).statesHigh == (if i.selector == 20 then i.data else s.statesHigh)
    ensures Step(cfg, s, i).threadPointer == (if i.selector == 0x8000 then i.data else s.threadPointer)
    ensures Read(cfg, State(0, 0, 0, 0, 0, 0, 0, map[], map[]), n) == 0
  {
    hide BitOp.Word64;
    OrNothing(i.data);
  }

  lemma OrNothing(w: Word)
    ensures OR.Word64(w, 0) == w
  {
    hide BitOp.Apply;
    Pow2Of64();
    OrZero(64, w);
  }

  // ---------------------------------------------------------------- the core around the file

  /** The core's drive of the latch port: the IRQ lines, or nothing while an SSR addresses the pending
      bank, whether or not that SSR may write it. */
  function PortSet(lines: Word, ssr: bool, selector: nat): Word {
    if lines != 0 && !(ssr && selector == INTERRUPT_STATES_HIGH) then lines else 0
  }

  /** The file's inputs in a clock of the core with the given IRQ lines, in which an SSR executes or not. */
  function Drive(core: CoreWrites, lines: Word, user: bool, ssr: bool, selector: nat, data: Word): Input {
    Input(core, PortSet(lines, ssr, selector), user, ssr, selector, data)
  }

  /** Bit k of the pending bank after such a clock. */
  lemma PendingBitAfter(cfg: Config, s: State, core: CoreWrites, lines: Word, user: bool, ssr: bool, selector: nat, data: Word, k: nat)
    requires k < 64
    ensures
      Bit(Step(cfg, s, Drive(core, lines, user, ssr, selector, data)).statesHigh, k) <==>
        if !ssr || (user && selector != THREAD_POINTER && selector != INTERRUPT_STATES_HIGH) then Bit(s.statesHigh, k) || Bit(lines, k)
        else if !user && selector == INTERRUPT_STATES_HIGH then Bit(data, k)
        else Bit(s.statesHigh, k)
  {
    hide Bit, BitOp.Word64, Masked;
    NoHighBits(k);
    OrBit(s.statesHigh, lines, k);
    OrBit(data, 0, k);
  }

  /** An IRQ line that is up and not yet pending is latched exactly when no SSR executes, or a faulting
      one to another register than the pending bank, or one that writes its bit itself. The lines of any
      other clock with an SSR are lost, also when the SSR only faults on the pending bank. */
  lemma LineIsLatchedExactlyWhen(cfg: Config, s: State, core: CoreWrites, lines: Word, user: bool, ssr: bool, selector: nat, data: Word, k: nat)
    requires k < 64 && Bit(lines, k) && !Bit(s.statesHigh, k)
    ensures
      Bit(Step(cfg, s, Drive(core, lines, user, ssr, selector, data)).statesHigh, k) <==>
        || !ssr
        || (user && selector != THREAD_POINTER && selector != INTERRUPT_STATES_HIGH)
        || (!user && selector == INTERRUPT_STATES_HIGH && Bit(data, k))
  {
    hide Bit, Step;
    PendingBitAfter(cfg, s, core, lines, user, ssr, selector, data, k);
  }

  /** In the core what an SSR writes to the pending bank is what it reads back, whatever the lines. */
  lemma PendingBankReadsBack(cfg: Config, s: State, lines: Word, data: Word)
    ensures
      var i := Drive(NO_CORE_WRITES, lines, false, true, INTERRUPT_STATES_HIGH, data);
      Read(cfg, Step(cfg, s, i), INTERRUPT_STATES_HIGH) == data
  {
    Pow2Of64();
    OrZero(64, data);
  }

  /** The cpu_control value the core puts in place on entering a handler, masked by the file, is the one
      the emulator's setters arrive at. */
  lemma HandlerEntryAgrees(control: Word, vector: nat)
    requires Masked(control) == control && vector < 128
    ensures Masked(CoreEntry(control, vector)) == EmulatorEntry(control, vector)
  {
    hide HandlerControl, CoreEntry, EmulatorEntry;
    EntriesAgree(control, vector);
    HandlerControlForm(control, vector);
    var paging, h := control / 0x1_0000 % 2, HandlerControl(control, vector);
    MaskedRange(control);
    var low := 2 + 4 * vector;
    DivModUnique(h, 0x1_0000, paging, low);
    DivModUnique(h, 512, paging * 128, low);
  }

  lemma MaskedRange(control: Word)
    requires Masked(control) == control
    ensures control / 0x4_0000 == 0 && control % 0x1_0000 / 512 == 0
  {
    var low, high := control % 512, control / 0x1_0000 % 4;
    DivModUnique(control, 0x1_0000, high, low);
  }
}
