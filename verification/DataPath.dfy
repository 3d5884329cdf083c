/** The v2 load/store unit driving the LiteX data bridge on a byte-select memory: what every
    request gets back, and the one way the watchdog can break it. */
module DataPath {
  import opened Words
  import opened Beats
  import L = Lsu
  import B = DataBridge

  datatype System = System(lsu: L.State, bridge: B.State, mem: Memory)
  datatype Input = Input(req: L.Request, slave: B.Slave)

  function FromBridge(b: B.State): L.BusIn { L.BusIn(B.CpuAck(b), B.CpuErr(b), b.responseData) }

  function ToBridge(l: L.State): B.Cpu {
    var o := L.Outputs(l);
    B.Cpu(o.cyc, o.adr, o.dat, o.sel, o.we)
  }

  /** One clock of both units and the memory. */
  function Tick(limit: nat, s: System, i: Input): System {
    var below := B.Tick(B.System(s.bridge, s.mem), ToBridge(s.lsu), i.slave);
    System(L.Step(limit, s.lsu, i.req, FromBridge(s.bridge)), below.bridge, below.mem)
  }

  function Response(limit: nat, s: System): L.Response { L.Responds(limit, s.lsu, FromBridge(s.bridge)) }

  ghost predicate Answers(s: System, i: Input) { B.Answers(B.System(s.bridge, s.mem), i.slave) }

  /** The access a request asks for. */
  function Asked(req: L.Request): Transfer
    requires req.Request?
  {
    Transfer(req.addr, L.BaseSelect(req.width), Split(req.value))
  }

  /** The watchdog leaves time for an error-free answer behind an abandoned transfer: never with a limit
      of one, and with a limit of two only to a request of a single beat. */
  predicate MayAnswer(limit: nat, t: Transfer) { limit != 1 && (limit == 2 ==> !SplitNeeded(t)) }

  /** A request is taken while the bridge is still busy with a transfer the unit gave up on. */
  predicate OverlapsAbandoned(s: System, i: Input) {
    && s.lsu.phase == L.Idle && i.req.Request?
    && B.Driving(s.bridge) && !i.slave.ack && !i.slave.err
  }

  /** The bridge is performing the aligned beat t: the same bytes written, or at least its bytes read. */
  ghost predicate Performs(b: B.State, t: Transfer, write: bool) {
    && b.adr == t.addr && b.we == write
    && forall k :: 0 <= k < 8 ==>
         if write then b.sel[k] == t.sel[k] && (t.sel[k] ==> b.datW[k] == t.dat[k]) else t.sel[k] ==> b.sel[k]
  }

  /** What the bridge is still busy with happens to be the new request's own first beat. */
  ghost predicate Retries(s: System, i: Input)
    requires i.req.Request?
  {
    var t := Asked(i.req);
    Performs(s.bridge, Transfer(FirstAddr(t), FirstSelect(t), FirstData(t)), i.req.write)
  }

  // ---------------------------------------------------------------- the invariant

  /** The request being served and the memory when it was accepted; or a request, taken behind an
      abandoned transfer, that the watchdog limit dooms to an error. */
  datatype Pending = Quiet | Serving(m0: Memory) | Doomed(limit: nat)

  /** The memory once the unit's earlier beat, if any, is done. */
  function MemBeforeBeat(l: L.State, m0: Memory): Memory {
    if l.phase == L.Second && l.write then FirstBeat(L.TransferOf(l), m0) else m0
  }

  /** The beat the unit is driving now; it is always aligned. */
  function Beat(l: L.State): Transfer {
    var o := L.Outputs(l);
    Transfer(o.adr, o.sel, o.dat)
  }

  function MemAfterBeat(l: L.State, m0: Memory): Memory {
    if l.write then Stored(Beat(l), MemBeforeBeat(l, m0)) else MemBeforeBeat(l, m0)
  }

  ghost predicate LsuOk(l: L.State, m0: Memory) {
    && l.phase != L.Idle && ValidWidth(l.width)
    && (l.phase == L.Second ==> SplitNeeded(L.TransferOf(l)))
    && (l.phase == L.Second && !l.write ==> FirstBeatData(L.TransferOf(l), m0, l.firstData))
  }

  /** Where the bridge can be while the unit waits: not yet started, in the beat, or answering it. */
  ghost predicate Waiting(s: System, m0: Memory) {
    var l, b := s.lsu, s.bridge;
    if b.phase == B.Beat0 then
      !b.responseValid && Performs(b, Beat(l), l.write) && s.mem == MemBeforeBeat(l, m0)
    else if b.responseValid && l.beatStarted then
      B.CpuAck(b) ==>
        s.mem == MemAfterBeat(l, m0) && (!l.write ==> SelectedBytes(Beat(l), m0, b.responseData))
    else s.mem == MemBeforeBeat(l, m0)
  }

  /** The watchdog will fire before an error-free answer can come. */
  predicate DoomedOk(limit: nat, s: System) {
    var l, b := s.lsu, s.bridge;
    && l.phase != L.Idle && ValidWidth(l.width)
    && (if limit == 1 then
          l.phase == L.First && (if l.beatStarted then l.counter == 1 || (l.counter == 0 && !b.responseValid) else l.counter == 0)
        else
          && limit == 2 && SplitNeeded(L.TransferOf(l))
          && (l.phase == L.Second ==>
                if !l.beatStarted then l.counter == 0 && b.phase == B.Idle && !b.responseValid
                else l.counter == 2 || (l.counter == 1 && b.phase == B.Beat0)))
  }

  ghost predicate Inv(s: System, p: Pending) {
    && s.bridge.phase != B.Beat1
    && (s.bridge.phase == B.Beat0 ==> s.bridge.adr % 8 == 0 && !s.bridge.responseValid)
    && match p
       case Quiet => s.lsu.phase == L.Idle
       case Serving(m0) => LsuOk(s.lsu, m0) && Waiting(s, m0)
       case Doomed(limit) => DoomedOk(limit, s)
  }

  ghost function Next(limit: nat, s: System, i: Input, p: Pending): Pending {
    if p.Quiet? then
      if !i.req.Request? then Quiet
      else if OverlapsAbandoned(s, i) && !Retries(s, i) then Doomed(limit)
      else Serving(Tick(limit, s, i).mem)
    else if Response(limit, s) != L.NoResponse then Quiet
    else p
  }

  /** What the response to a request served since m0 must be: an error, or the addressed bytes
      written and nothing else, or the addressed bytes read and nothing changed. */
  ghost predicate Right(s: System, m0: Memory, r: L.Response)
    requires ValidWidth(s.lsu.width)
  {
    r.Response? && !r.error ==>
      if s.lsu.write then s.mem == Store(m0, s.lsu.addr, WidthSelect(s.lsu.width), Split(s.lsu.storeValue))
      else s.mem == m0 && r.value == Load(m0, s.lsu.addr, s.lsu.width)
  }

  lemma BeatIsAligned(l: L.State)
    ensures Beat(l).addr % 8 == 0 && !SplitNeeded(Beat(l))
    ensures FirstAddr(Beat(l)) == Beat(l).addr && FirstSelect(Beat(l)) == Beat(l).sel && FirstData(Beat(l)) == Beat(l).dat
  {
    hide ShiftedSelect, ShiftedData, Split, L.BaseSelect;
    AlignedNeverSplits(Beat(l));
  }

  /** An aligned transfer in BEAT0 is served in that beat: no second beat. */
  lemma BridgeBeat(s: System, i: Input)
    requires s.bridge.phase == B.Beat0 && !s.bridge.responseValid && s.bridge.adr % 8 == 0
    requires Answers(s, i)
    ensures
      var t := B.TransferOf(s.bridge);
      var below := B.Tick(B.System(s.bridge, s.mem), ToBridge(s.lsu), i.slave);
      if i.slave.ack || i.slave.err
      then below.bridge.responseValid && below.bridge.phase == B.Idle && B.Served(below, t, s.bridge.we, s.mem)
      else below == B.System(s.bridge, s.mem)
  {
    hide ShiftedSelect, ShiftedData, Store, Block, SingleRead, CombinedRead;
    AlignedNeverSplits(B.TransferOf(s.bridge));
    B.ClockServes(B.System(s.bridge, s.mem), ToBridge(s.lsu), i.slave, s.mem);
  }

  lemma PerformedWrite(b: B.State, t: Transfer, m: Memory)
    requires Performs(b, t, true)
    ensures Stored(B.TransferOf(b), m) == Stored(t, m)
  {
    forall x, old_: Byte
      ensures LaneByte(old_, Minus(x, t.addr), b.sel, b.datW) == LaneByte(old_, Minus(x, t.addr), t.sel, t.dat)
    {
    }
  }

  lemma PerformedRead(b: B.State, t: Transfer, m: Memory, dat: Line)
    requires Performs(b, t, false) && SelectedBytes(B.TransferOf(b), m, dat)
    ensures SelectedBytes(t, m, dat)
  {
  }

  /** One clock while a request is being served: still served, or answered and answered right. */
  ghost predicate ServesOn(limit: nat, s: System, i: Input, m0: Memory)
    requires ValidWidth(s.lsu.width)
  {
    && (if Response(limit, s) == L.NoResponse then Inv(Tick(limit, s, i), Serving(m0)) else Inv(Tick(limit, s, i), Quiet))
    && Right(s, m0, Response(limit, s))
  }

  lemma InBeat(limit: nat, s: System, i: Input, m0: Memory)
    requires Inv(s, Serving(m0)) && Answers(s, i) && s.bridge.phase == B.Beat0
    ensures ServesOn(limit, s, i, m0)
  {
    hide ShiftedSelect, ShiftedData, Stored, FirstBeat, SecondBeat, Block, SingleRead, CombinedRead, Split, Join, MaskToWidth, Load, WidthSelect, L.BaseSelect;
    BridgeBeat(s, i);
    var data := Tick(limit, s, i).bridge.responseData;
    if s.lsu.write {
      PerformedWrite(s.bridge, Beat(s.lsu), s.mem);
    } else if SelectedBytes(B.TransferOf(s.bridge), s.mem, data) {
      PerformedRead(s.bridge, Beat(s.lsu), s.mem, data);
    }
  }

  lemma NotStarted(limit: nat, s: System, i: Input, m0: Memory)
    requires Inv(s, Serving(m0)) && s.bridge.phase == B.Idle && !(s.bridge.responseValid && s.lsu.beatStarted)
    ensures ServesOn(limit, s, i, m0)
  {
    hide ShiftedSelect, ShiftedData, Store, Block, SingleRead, CombinedRead, Split, Join, MaskToWidth, Load, WidthSelect, L.BaseSelect;
    BeatIsAligned(s.lsu);
  }

  /** The value answered to a completed request. */
  lemma CompletedRight(l: L.State, mem: Memory, m0: Memory, data: Line)
    requires LsuOk(l, m0) && mem == MemAfterBeat(l, m0) && (!l.write ==> SelectedBytes(Beat(l), m0, data))
    requires l.phase == L.Second || !SplitNeeded(L.TransferOf(l))
    ensures l.write ==> mem == Stored(L.TransferOf(l), m0)
    ensures !l.write ==> mem == m0
    ensures !l.write ==>
      MaskToWidth(l.width, Join(if l.phase == L.First then SingleRead(L.TransferOf(l), data) else CombinedRead(L.TransferOf(l), l.firstData, data)))
      == Load(m0, l.addr, l.width)
  {
    hide ShiftedSelect, ShiftedData, Store, Block, SingleRead, CombinedRead, Split, Join, MaskToWidth, Load, WidthSelect;
    var t := L.TransferOf(l);
    if l.phase == L.First {
      StoreInOneBeat(t, m0);
      if !l.write {
        LoadInOneBeat(t, m0, data);
        MaskedLoad(t, m0, l.width, SingleRead(t, data));
      }
    } else {
      StoreInTwoBeats(t, m0);
      if !l.write {
        LoadInTwoBeats(t, m0, l.firstData, data);
        MaskedLoad(t, m0, l.width, CombinedRead(t, l.firstData, data));
      }
    }
  }

  lemma Answering(limit: nat, s: System, i: Input, m0: Memory)
    requires Inv(s, Serving(m0)) && s.bridge.phase == B.Idle && s.bridge.responseValid && s.lsu.beatStarted
    ensures ServesOn(limit, s, i, m0)
  {
    hide ShiftedSelect, ShiftedData, Store, Block, SingleRead, CombinedRead, Split, Join, MaskToWidth, Load, WidthSelect;
    var l := s.lsu;
    if B.CpuAck(s.bridge) && (l.phase == L.Second || !SplitNeeded(L.TransferOf(l))) {
      CompletedRight(l, s.mem, m0, s.bridge.responseData);
    }
  }

  lemma Accepting(limit: nat, s: System, i: Input)
    requires Inv(s, Quiet) && Answers(s, i) && (i.req.Request? && OverlapsAbandoned(s, i) ==> Retries(s, i))
    requires i.req.Request? ==> ValidWidth(i.req.width)
    ensures Inv(Tick(limit, s, i), Next(limit, s, i, Quiet))
  {
    hide ShiftedSelect, ShiftedData, Store, Block, SingleRead, CombinedRead, Split, Join, MaskToWidth, Load, WidthSelect, L.BaseSelect;
    if s.bridge.phase == B.Beat0 {
      BridgeBeat(s, i);
    }
  }

  lemma AcceptingBehind(limit: nat, s: System, i: Input)
    requires Inv(s, Quiet) && Answers(s, i) && OverlapsAbandoned(s, i) && !Retries(s, i)
    requires ValidWidth(i.req.width) && !MayAnswer(limit, Asked(i.req))
    ensures Inv(Tick(limit, s, i), Doomed(limit))
  {
    hide ShiftedSelect, ShiftedData, Store, Block, SingleRead, CombinedRead, Split, Join, MaskToWidth, Load, WidthSelect, L.BaseSelect;
    BridgeBeat(s, i);
  }

  lemma DoomedClock(limit: nat, s: System, i: Input)
    requires Inv(s, Doomed(limit)) && Answers(s, i)
    ensures if Response(limit, s) == L.NoResponse then Inv(Tick(limit, s, i), Doomed(limit)) else Inv(Tick(limit, s, i), Quiet)
    ensures Response(limit, s).Response? ==> Response(limit, s).error
  {
    hide ShiftedSelect, ShiftedData, Store, Block, SingleRead, CombinedRead, Split, Join, MaskToWidth, Load, WidthSelect, L.BaseSelect;
    BeatIsAligned(s.lsu);
    if s.bridge.phase == B.Beat0 {
      BridgeBeat(s, i);
    }
  }

  /** The width of a request is an architected one, and a request behind an abandoned transfer either
      leaves the watchdog no time for an error-free answer or repeats that transfer. */
  ghost predicate Proper(limit: nat, s: System, i: Input) {
    i.req.Request? ==>
      && ValidWidth(i.req.width)
      && (OverlapsAbandoned(s, i) ==> !MayAnswer(limit, Asked(i.req)) || Retries(s, i))
  }

  /** One clock keeps the invariant, and any response is right. */
  lemma ClockIsRight(limit: nat, s: System, i: Input, p: Pending)
    requires Inv(s, p) && Answers(s, i) && Proper(limit, s, i) && (p.Doomed? ==> p.limit == limit)
    ensures Inv(Tick(limit, s, i), Next(limit, s, i, p))
    ensures p.Serving? ==> Right(s, p.m0, Response(limit, s))
    ensures p.Doomed? && Response(limit, s).Response? ==> Response(limit, s).error
    ensures p.Quiet? ==> Response(limit, s) == L.NoResponse
  {
    hide Tick, Waiting, LsuOk, DoomedOk, Right, Response, Performs;
    match p
    case Quiet =>
      if OverlapsAbandoned(s, i) && !Retries(s, i) {
        AcceptingBehind(limit, s, i);
      } else {
        Accepting(limit, s, i);
      }
      IdleIsSilent(limit, s);
    case Doomed(_) =>
      DoomedClock(limit, s, i);
    case Serving(m0) =>
      if s.bridge.phase == B.Beat0 {
        InBeat(limit, s, i, m0);
      } else if s.bridge.responseValid && s.lsu.beatStarted {
        Answering(limit, s, i, m0);
      } else {
        NotStarted(limit, s, i, m0);
      }
  }

  lemma IdleIsSilent(limit: nat, s: System)
    requires s.lsu.phase == L.Idle
    ensures Response(limit, s) == L.NoResponse
  {
  }

  // ---------------------------------------------------------------- every run

  ghost predicate ProperRun(limit: nat, s: System, ins: seq<Input>)
    decreases |ins|
  {
    ins == [] || (Answers(s, ins[0]) && Proper(limit, s, ins[0]) && ProperRun(limit, Tick(limit, s, ins[0]), ins[1..]))
  }

  /** Every response of the run answers the one request pending, and is right. */
  ghost predicate RunRight(limit: nat, s: System, p: Pending, ins: seq<Input>)
    decreases |ins|
  {
    ins == [] ||
    (&& (Response(limit, s) != L.NoResponse ==>
           && ValidWidth(s.lsu.width)
           && ((p.Serving? && Right(s, p.m0, Response(limit, s))) || (p.Doomed? && Response(limit, s).error)))
     && (!p.Quiet? <==> s.lsu.phase != L.Idle)
     && RunRight(limit, Tick(limit, s, ins[0]), Next(limit, s, ins[0], p), ins[1..]))
  }

  lemma ServingIsActive(s: System, p: Pending)
    requires Inv(s, p)
    ensures !p.Quiet? <==> s.lsu.phase != L.Idle
    ensures !p.Quiet? ==> ValidWidth(s.lsu.width)
  {
  }

  /** Over any run, with any slave latency and errors and any watchdog limit, as long as each request
      taken behind an abandoned transfer leaves the watchdog no time (with a limit of one always, with
      two if it takes two beats) or repeats that transfer. Overlap.OverlapIsSafeExactlyWhen shows that
      no other request behind an abandoned transfer is safe. */
  lemma {:induction false} RunIsRight(limit: nat, s: System, p: Pending, ins: seq<Input>)
    requires Inv(s, p) && ProperRun(limit, s, ins) && (p.Doomed? ==> p.limit == limit)
    ensures RunRight(limit, s, p, ins)
    decreases |ins|
  {
    hide Tick, Inv, Answers, Right, Proper, Response, OverlapsAbandoned;
    if ins != [] {
      ClockIsRight(limit, s, ins[0], p);
      ServingIsActive(s, p);
      RunIsRight(limit, Tick(limit, s, ins[0]), Next(limit, s, ins[0], p), ins[1..]);
    }
  }

  /** Both units come out of reset idle. */
  lemma ResetIsQuiet(s: System)
    requires s.lsu.phase == L.Idle && s.bridge.phase == B.Idle
    ensures Inv(s, Quiet)
  {
  }

  /** Without a watchdog nothing is ever abandoned: while the unit is idle the bridge drives nothing. */
  lemma NoWatchdogNoAbandon(s: System, i: Input, p: Pending)
    requires Inv(s, p) && Answers(s, i) && (s.lsu.phase == L.Idle ==> !B.Driving(s.bridge))
    ensures Tick(0, s, i).lsu.phase == L.Idle ==> !B.Driving(Tick(0, s, i).bridge)
    ensures !OverlapsAbandoned(s, i)
  {
    hide ShiftedSelect, ShiftedData, Store, Block, SingleRead, CombinedRead, Split, Join, MaskToWidth, Load, WidthSelect, L.BaseSelect;
    if s.bridge.phase == B.Beat0 {
      BridgeBeat(s, i);
    }
  }

  /** Once a request has started behind an abandoned transfer that the slave then completes with dat,
      the unit takes dat for its own first beat, which never reaches memory: a one-beat request is
      answered without error, a two-beat one goes on to its second beat. */
  lemma AbandonedAnswersNext(limit: nat, s: System, i: Input)
    requires s.lsu.phase == L.First && (limit > 0 ==> s.lsu.counter + 1 < limit)
    requires s.bridge.phase == B.Beat0 && !s.bridge.responseValid && s.bridge.adr % 8 == 0
    requires i.slave.ack && !i.slave.err && Answers(s, i)
    ensures
      var s', t := Tick(limit, s, i), L.TransferOf(s.lsu);
      && s'.mem == (if s.bridge.we then Stored(B.TransferOf(s.bridge), s.mem) else s.mem)
      && s'.bridge.phase == B.Idle && B.CpuAck(s'.bridge) && s'.bridge.responseData == i.slave.data
      && s'.lsu == s.lsu.(beatStarted := true, counter := if limit > 0 then s.lsu.counter + 1 else 0)
      && Response(limit, s') ==
           (if SplitNeeded(t) then L.NoResponse
            else L.Response(false, MaskToWidth(s.lsu.width, Join(SingleRead(t, i.slave.data)))))
  {
    hide ShiftedSelect, ShiftedData, Store, Block, SingleRead, CombinedRead, Split, Join, MaskToWidth, Load, WidthSelect, L.BaseSelect;
    BridgeBeat(s, i);
    AlignedNeverSplits(B.TransferOf(s.bridge));
    AlignedRead(B.TransferOf(s.bridge), i.slave.data);
  }

  const IDLE_SLAVE: B.Slave := B.Slave(false, false, ZEROES)
  const NO_INPUT: Input := Input(L.NoRequest, IDLE_SLAVE)
  function LoadAt(a: Word): Input { Input(L.Request(a, 8, false, 0), IDLE_SLAVE) }

  /** The bridge is busy with an eight-byte read of address 0 and the unit is idle. */
  predicate Abandoned(s: System, m: Memory) {
    && s.lsu.phase == L.Idle && s.lsu.counter == 0
    && s.bridge.phase == B.Beat0 && !s.bridge.responseValid
    && s.bridge.adr == 0 && s.bridge.sel == WidthSelect(8) && !s.bridge.we
    && s.mem == m
  }

  /** A slave that stays silent for four clocks makes the unit give up a load of address 0. */
  lemma {:induction false} SilentSlaveAbandons(m: Memory, s0: System)
    requires s0.lsu.phase == L.Idle && s0.lsu.counter == 0 && s0.bridge.phase == B.Idle && !s0.bridge.responseValid && s0.mem == m
    ensures
      var s3 := Tick(2, Tick(2, Tick(2, s0, LoadAt(0)), NO_INPUT), NO_INPUT);
      && Response(2, s3) == L.Response(true, 0)
      && Abandoned(Tick(2, s3, NO_INPUT), m)
  {
    hide ShiftedSelect, ShiftedData, Store, SingleRead, CombinedRead, Split, Join, MaskToWidth, Load, WidthSelect, L.BaseSelect;
    var s1 := Tick(2, s0, LoadAt(0));
    BeatIsAligned(s1.lsu);
    FullWidth(s1.lsu);
    var s2 := Tick(2, s1, NO_INPUT);
    assert s2.bridge.phase == B.Beat0 && s2.lsu.beatStarted && s2.lsu.counter == 1 && s2.mem == m;
  }

  /** The late answer, arriving once the next load has started, is taken for that load's. */
  lemma {:induction false} LateAnswerIsTaken(m: Memory, s4: System)
    requires Abandoned(s4, m)
    ensures
      var s5 := Tick(2, s4, LoadAt(8));
      var late := Input(L.NoRequest, B.Slave(true, false, Block(m, 0)));
      var s6 := Tick(2, s5, late);
      && Answers(s5, late)
      && s6.lsu.addr == 8
      && Response(2, s6) == L.Response(false, Load(m, 0, 8))
  {
    hide ShiftedSelect, ShiftedData, Store, SingleRead, CombinedRead, Split, Join, MaskToWidth, Load, WidthSelect, L.BaseSelect;
    var s5 := Tick(2, s4, LoadAt(8));
    NextLoadStarts(m, s4);
    AnswerReachesUnit(m, s5, B.TransferOf(s5.bridge));
  }

  lemma NextLoadStarts(m: Memory, s4: System)
    requires Abandoned(s4, m)
    ensures
      var s5 := Tick(2, s4, LoadAt(8));
      && s5.lsu == s4.lsu.(phase := L.First, addr := 8, width := 8, write := false, storeValue := 0, beatStarted := false)
      && s5.bridge == s4.bridge && s5.mem == m
  {
    hide ShiftedSelect, ShiftedData, Store, SingleRead, CombinedRead, Split, Join, MaskToWidth, Load, WidthSelect, L.BaseSelect;
  }

  lemma AnswerReachesUnit(m: Memory, s5: System, t: Transfer)
    requires s5.lsu.phase == L.First && s5.lsu.addr == 8 && s5.lsu.width == 8 && !s5.lsu.beatStarted && s5.lsu.counter == 0
    requires s5.bridge.phase == B.Beat0 && !s5.bridge.responseValid && s5.bridge.adr == 0 && s5.bridge.sel == WidthSelect(8)
    requires !s5.bridge.we && s5.mem == m && t == B.TransferOf(s5.bridge)
    ensures
      var late := Input(L.NoRequest, B.Slave(true, false, Block(m, 0)));
      var s6 := Tick(2, s5, late);
      && Answers(s5, late)
      && s6.lsu.addr == 8
      && Response(2, s6) == L.Response(false, Load(m, 0, 8))
  {
    hide ShiftedSelect, ShiftedData, Store, SingleRead, CombinedRead, Split, Join, MaskToWidth, Load, WidthSelect, L.BaseSelect, Block;
    FullWidth(s5.lsu);
    AlignedNeverSplits(t);
    AlignedRead(t, Block(m, 0));
    AlignedRead(L.TransferOf(s5.lsu), Block(m, 0));
    var s6 := Tick(2, s5, Input(L.NoRequest, B.Slave(true, false, Block(m, 0))));
    assert s6.bridge.responseValid && !s6.bridge.responseError && s6.bridge.responseData == Block(m, 0);
    assert s6.lsu == s5.lsu.(beatStarted := true, counter := 1);
    LoadInOneBeat(t, m, Block(m, 0));
    MaskedLoad(t, m, 8, Block(m, 0));
  }

  /** It happens out of reset: with a limit of two, a load of address 0 that the slave answers late
      makes the following load of address 8 return the bytes at 0, with no error. */
  lemma StaleLoadIsReachable(m: Memory, s0: System)
    requires s0.lsu.phase == L.Idle && s0.lsu.counter == 0 && s0.bridge.phase == B.Idle && !s0.bridge.responseValid && s0.mem == m
    ensures
      var s3 := Tick(2, Tick(2, Tick(2, s0, LoadAt(0)), NO_INPUT), NO_INPUT);
      var s5 := Tick(2, Tick(2, s3, NO_INPUT), LoadAt(8));
      var late := Input(L.NoRequest, B.Slave(true, false, Block(m, 0)));
      && Answers(s5, late)
      && Tick(2, s5, late).lsu.addr == 8
      && Response(2, Tick(2, s5, late)) == L.Response(false, Load(m, 0, 8))
  {
    hide Tick, Abandoned, Response, Load;
    SilentSlaveAbandons(m, s0);
    LateAnswerIsTaken(m, Tick(2, Tick(2, Tick(2, Tick(2, s0, LoadAt(0)), NO_INPUT), NO_INPUT), NO_INPUT));
  }

  lemma FullWidth(l: L.State)
    requires l.width == 8 && l.addr % 8 == 0
    ensures !SplitNeeded(L.TransferOf(l)) && L.TransferOf(l).sel == WidthSelect(8)
    ensures FirstAddr(L.TransferOf(l)) == l.addr && FirstSelect(L.TransferOf(l)) == L.TransferOf(l).sel
  {
    AlignedNeverSplits(L.TransferOf(l));
  }

  lemma AlignedRead(t: Transfer, dat: Line)
    requires t.addr % 8 == 0
    ensures SingleRead(t, dat) == dat
  {
  }
}
