/** The LiteX data bridge (hdl/little64_cores/litex_cpu.py): IDLE / BEAT0 / BEAT1 with registered
    responses, in front of a word-addressed byte-select slave. */
module DataBridge {
  import opened Words
  import opened Beats

  datatype Phase = Idle | Beat0 | Beat1

  datatype State = State(
    phase: Phase,
    adr: Word,
    datW: Line,
    sel: Select,
    we: bool,
    firstReadData: Line,
    responseValid: bool,
    responseError: bool,
    responseData: Line
  )

  /** The CPU side: cyc & stb with its address, data and select. */
  datatype Cpu = Cpu(strobe: bool, adr: Word, datW: Line, sel: Select, we: bool)
  datatype Slave = Slave(ack: bool, err: bool, data: Line)

  function TransferOf(s: State): Transfer { Transfer(s.adr, s.sel, s.datW) }

  predicate CpuAck(s: State) { s.responseValid && !s.responseError }
  predicate CpuErr(s: State) { s.responseValid && s.responseError }

  /** The word address presented to the slave; the second beat's does not wrap. */
  function WordAddr(s: State): nat { if s.phase == Beat1 then s.adr / 8 + 1 else s.adr / 8 }
  function SlaveSelect(s: State): Select { if s.phase == Beat1 then SecondSelect(TransferOf(s)) else FirstSelect(TransferOf(s)) }
  function SlaveData(s: State): Line { if s.phase == Beat1 then SecondData(TransferOf(s)) else FirstData(TransferOf(s)) }

  function Step(s: State, cpu: Cpu, slave: Slave): State {
    if s.responseValid then s.(responseValid := false)
    else
      match s.phase
      case Idle =>
        if cpu.strobe then s.(adr := cpu.adr, datW := cpu.datW, sel := cpu.sel, we := cpu.we, phase := Beat0) else s
      case Beat0 =>
        if slave.err then s.(responseValid := true, responseError := true, responseData := ZEROES, phase := Idle)
        else if !slave.ack then s
        else if SplitNeeded(TransferOf(s)) then s.(firstReadData := slave.data, phase := Beat1)
        else s.(responseValid := true, responseError := false, responseData := SingleRead(TransferOf(s), slave.data), phase := Idle)
      case Beat1 =>
        if slave.err then s.(responseValid := true, responseError := true, responseData := ZEROES, phase := Idle)
        else if !slave.ack then s
        else s.(responseValid := true, responseError := false,
                responseData := CombinedRead(TransferOf(s), s.firstReadData, slave.data), phase := Idle)
  }

  /** The bridge as a clocked object. */
  class Bridge {
    var phase: Phase
    var adr: Word
    var datW: Line
    var sel: Select
    var we: bool
    var firstReadData: Line
    var responseValid: bool
    var responseError: bool
    var responseData: Line

    function Registers(): State
      reads this
    {
      State(phase, adr, datW, sel, we, firstReadData, responseValid, responseError, responseData)
    }

    constructor ()
      ensures Registers() == State(Idle, 0, ZEROES, NONE, false, ZEROES, false, false, ZEROES)
    {
      phase, adr, datW, sel, we := Idle, 0, ZEROES, NONE, false;
      firstReadData, responseValid, responseError, responseData := ZEROES, false, false, ZEROES;
    }

    method Clock(cpu: Cpu, slave: Slave)
      modifies this
      ensures Registers() == Step(old(Registers()), cpu, slave)
    {
      hide ShiftedSelect, ShiftedData, SingleRead, CombinedRead;
      var t := TransferOf(Registers());
      if responseValid {
        responseValid := false;
      } else if phase == Idle {
        if cpu.strobe {
          adr, datW, sel, we := cpu.adr, cpu.datW, cpu.sel, cpu.we;
          phase := Beat0;
        }
      } else if slave.err {
        responseValid, responseError, responseData := true, true, ZEROES;
        phase := Idle;
      } else if slave.ack {
        if phase == Beat0 && SplitNeeded(t) {
          firstReadData := slave.data;
          phase := Beat1;
        } else {
          responseValid, responseError := true, false;
          responseData := if phase == Beat0 then SingleRead(t, slave.data) else CombinedRead(t, firstReadData, slave.data);
          phase := Idle;
        }
      }
    }
  }

  // ---------------------------------------------------------------- the bridge on a byte-select memory

  datatype System = System(bridge: State, mem: Memory)

  predicate Driving(s: State) { !s.responseValid && s.phase != Idle }

  /** The memory answers error-free reads with the selected bytes of the addressed word. Word
      addresses past the top of the address space hold no memory. */
  ghost predicate Answers(sys: System, slave: Slave) {
    var s := sys.bridge;
    Driving(s) && slave.ack && !slave.err && !s.we && WordAddr(s) * 8 <= WORD_MAX ==>
      forall k :: 0 <= k < 8 && SlaveSelect(s)[k] ==> slave.data[k] == Block(sys.mem, WordAddr(s) * 8)[k]
  }

  function Tick(sys: System, cpu: Cpu, slave: Slave): System {
    var s := sys.bridge;
    System(
      Step(s, cpu, slave),
      if Driving(s) && s.we && slave.ack && !slave.err && WordAddr(s) * 8 <= WORD_MAX
      then Store(sys.mem, WordAddr(s) * 8, SlaveSelect(s), SlaveData(s))
      else sys.mem)
  }

  /** The access does not run past the top of the address space. */
  predicate InSpace(t: Transfer) { SplitNeeded(t) ==> Base(t.addr) + 8 <= WORD_MAX }

  /** From acceptance to response: `m0` is the memory when the access was accepted. */
  ghost predicate InProgress(sys: System, m0: Memory) {
    var s := sys.bridge;
    var t := TransferOf(s);
    && Driving(s) && InSpace(t)
    && (s.phase == Beat0 ==> sys.mem == m0)
    && (s.phase == Beat1 ==>
          && SplitNeeded(t)
          && (if s.we then sys.mem == FirstBeat(t, m0) else sys.mem == m0 && FirstBeatData(t, m0, s.firstReadData)))
  }

  /** An error-free response to the access t accepted on memory m0 is exactly right. */
  ghost predicate Served(sys: System, t: Transfer, we: bool, m0: Memory) {
    CpuAck(sys.bridge) ==>
      if we then sys.mem == Stored(t, m0)
      else sys.mem == m0 && SelectedBytes(t, m0, sys.bridge.responseData)
  }

  /** Each clock of an accepted access keeps its progress or ends in a right response, for any
      select pattern and any alignment. */
  lemma ClockServes(sys: System, cpu: Cpu, slave: Slave, m0: Memory)
    requires InProgress(sys, m0) && Answers(sys, slave)
    ensures
      var s, sys' := sys.bridge, Tick(sys, cpu, slave);
      if sys'.bridge.responseValid then Served(sys', TransferOf(s), s.we, m0) && sys'.bridge.phase == Idle
      else InProgress(sys', m0) && TransferOf(sys'.bridge) == TransferOf(s) && sys'.bridge.we == s.we
  {
    hide ShiftedSelect, ShiftedData, Store, Block, SingleRead, CombinedRead;
    var s := sys.bridge;
    var t := TransferOf(s);
    assert s.adr / 8 * 8 == FirstAddr(t);
    assert InSpace(t) && SplitNeeded(t) ==> (s.adr / 8 + 1) * 8 == SecondAddr(t);
    if slave.ack && !slave.err {
      if s.phase == Beat0 {
        if !SplitNeeded(t) {
          StoreInOneBeat(t, m0);
          if !s.we {
            LoadInOneBeat(t, m0, slave.data);
          }
        }
      } else {
        StoreInTwoBeats(t, m0);
        if !s.we {
          LoadInTwoBeats(t, m0, s.firstReadData, slave.data);
        }
      }
    }
  }

  /** A strobe seen while idle is accepted and starts such an access. */
  lemma AcceptStarts(sys: System, cpu: Cpu, slave: Slave)
    requires sys.bridge.phase == Idle && !sys.bridge.responseValid && cpu.strobe
    requires InSpace(Transfer(cpu.adr, cpu.sel, cpu.datW))
    ensures InProgress(Tick(sys, cpu, slave), sys.mem)
    ensures TransferOf(Tick(sys, cpu, slave).bridge) == Transfer(cpu.adr, cpu.sel, cpu.datW)
  {
  }
}
