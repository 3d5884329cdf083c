/** A request taken behind a transfer the load/store unit gave up on: exactly when it can be answered
    wrongly. */
module Overlap {
  import opened Words
  import opened Beats
  import opened DataPath
  import L = Lsu
  import B = DataBridge

  // ---------------------------------------------------------------- runs without further requests

  /** The slave answers as a memory, and nothing more is requested. */
  ghost predicate Quietly(limit: nat, s: System, ins: seq<Input>)
    decreases |ins|
  {
    ins == [] || (Answers(s, ins[0]) && ins[0].req.NoRequest? && Quietly(limit, Tick(limit, s, ins[0]), ins[1..]))
  }

  function After(limit: nat, s: System, ins: seq<Input>): System
    decreases |ins|
  {
    if ins == [] then s else After(limit, Tick(limit, s, ins[0]), ins[1..])
  }

  lemma OneMore(limit: nat, s: System, i: Input, ins: seq<Input>)
    ensures After(limit, s, [i] + ins) == After(limit, Tick(limit, s, i), ins)
    ensures Quietly(limit, s, [i] + ins) <==> Answers(s, i) && i.req.NoRequest? && Quietly(limit, Tick(limit, s, i), ins)
  {
    hide Tick, Answers;
    assert ([i] + ins)[1..] == ins;
  }

  /** After the request i, taken in s, and the further clocks ins, it is answered without an error
      and yet its bytes are not what the answer says. */
  ghost predicate Fails(limit: nat, s: System, i: Input, ins: seq<Input>) {
    var s1 := Tick(limit, s, i);
    var e := After(limit, s1, ins);
    Quietly(limit, s1, ins) && ValidWidth(e.lsu.width) && !Right(e, s.mem, Response(limit, e))
  }

  // ---------------------------------------------------------------- when it cannot fail

  lemma {:induction false} QuietRunIsRight(limit: nat, s: System, p: Pending, ins: seq<Input>, m0: Memory)
    requires Inv(s, p) && Quietly(limit, s, ins) && (p.Doomed? ==> p.limit == limit) && (p.Serving? ==> p.m0 == m0)
    ensures
      var e := After(limit, s, ins);
      ValidWidth(e.lsu.width) ==> Right(e, m0, Response(limit, e))
    decreases |ins|
  {
    hide Tick, Inv, Response;
    if ins == [] {
      ClockIsRight(limit, s, NO_INPUT, p);
    } else {
      ClockIsRight(limit, s, ins[0], p);
      QuietRunIsRight(limit, Tick(limit, s, ins[0]), Next(limit, s, ins[0], p), ins[1..], m0);
    }
  }

  // ---------------------------------------------------------------- when it can

  /** What the slave may answer the abandoned transfer with. */
  ghost predicate MayComplete(s: System, dat: Line) {
    !s.bridge.we ==> SelectedBytes(B.TransferOf(s.bridge), s.mem, dat)
  }

  function OldDone(s: System): Memory {
    if s.bridge.we then Stored(B.TransferOf(s.bridge), s.mem) else s.mem
  }

  function Late(dat: Line): Input { Input(L.NoRequest, B.Slave(true, false, dat)) }

  /** The state in which the unit has taken dat for its first beat. */
  ghost predicate FirstTaken(limit: nat, e: System, s: System, i: Input, dat: Line)
    requires i.req.Request?
  {
    && e.lsu.phase == L.First && e.lsu.beatStarted && e.lsu.counter == (if limit > 0 then 1 else 0)
    && e.lsu.addr == i.req.addr && e.lsu.width == i.req.width && e.lsu.write == i.req.write && e.lsu.storeValue == i.req.value
    && e.bridge.phase == B.Idle && B.CpuAck(e.bridge) && e.bridge.responseData == dat
    && e.mem == OldDone(s)
  }

  lemma TakesLateAnswer(limit: nat, s: System, i: Input, dat: Line)
    requires Inv(s, Quiet) && OverlapsAbandoned(s, i) && ValidWidth(i.req.width) && limit != 1 && MayComplete(s, dat)
    ensures
      var s1 := Tick(limit, s, i);
      Answers(s1, Late(dat)) && FirstTaken(limit, Tick(limit, s1, Late(dat)), s, i, dat)
  {
    hide ShiftedSelect, ShiftedData, Store, Block, SingleRead, CombinedRead, Split, Join, MaskToWidth, Load, WidthSelect, L.BaseSelect;
    var s1 := Tick(limit, s, i);
    assert s1.bridge == s.bridge && s1.mem == s.mem && s1.lsu.counter == 0;
    AlignedNeverSplits(B.TransferOf(s.bridge));
    assert B.WordAddr(s.bridge) * 8 == s.bridge.adr;
    AbandonedAnswersNext(limit, s1, Late(dat));
  }

  /** The memory and the read data of a request whose first beat was answered with dat unseen by memory. */
  function MissedMemory(t: Transfer, write: bool, m: Memory): Memory { if write then SecondBeat(t, m) else m }
  function MissedData(t: Transfer, m: Memory, dat: Line): Line {
    if SplitNeeded(t) then CombinedRead(t, dat, Block(m, SecondAddr(t))) else SingleRead(t, dat)
  }

  /** The second beat goes to memory as usual. */
  lemma SecondBeatFollows(limit: nat, e: System, s: System, i: Input, dat: Line)
    requires i.req.Request? && FirstTaken(limit, e, s, i, dat) && SplitNeeded(Asked(i.req)) && limit != 1 && limit != 2
    ensures
      var s4 := Tick(limit, Tick(limit, e, NO_INPUT), NO_INPUT);
      && Answers(e, NO_INPUT) && Answers(Tick(limit, e, NO_INPUT), NO_INPUT)
      && s4.lsu == e.lsu.(phase := L.Second, firstData := dat, counter := if limit > 0 then 1 else 0)
      && s4.bridge.phase == B.Beat0 && !s4.bridge.responseValid && s4.mem == e.mem
      && B.TransferOf(s4.bridge) == Beat(s4.lsu) && s4.bridge.we == s4.lsu.write
  {
    hide ShiftedSelect, ShiftedData, Store, Block, SingleRead, CombinedRead, Split, Join, MaskToWidth, Load, WidthSelect, L.BaseSelect;
  }

  lemma SecondBeatAnswered(limit: nat, s4: System, t: Transfer)
    requires t == L.TransferOf(s4.lsu) && SplitNeeded(t)
    requires s4.lsu.phase == L.Second && s4.lsu.beatStarted && (limit > 0 ==> s4.lsu.counter == 1 && limit > 2)
    requires s4.bridge.phase == B.Beat0 && !s4.bridge.responseValid
    requires B.TransferOf(s4.bridge) == Beat(s4.lsu) && s4.bridge.we == s4.lsu.write
    ensures
      var last := Late(Block(s4.mem, SecondAddr(t)));
      var e := Tick(limit, s4, last);
      && Answers(s4, last)
      && e.lsu.addr == s4.lsu.addr && e.lsu.width == s4.lsu.width && e.lsu.write == s4.lsu.write && e.lsu.storeValue == s4.lsu.storeValue
      && e.mem == MissedMemory(t, s4.lsu.write, s4.mem)
      && Response(limit, e) ==
           L.Response(false, MaskToWidth(s4.lsu.width, Join(CombinedRead(t, s4.lsu.firstData, Block(s4.mem, SecondAddr(t))))))
  {
    hide ShiftedSelect, ShiftedData, Store, Block, SingleRead, CombinedRead, Split, Join, MaskToWidth, Load, WidthSelect, L.BaseSelect;
    var last := Late(Block(s4.mem, SecondAddr(t)));
    BeatIsAligned(s4.lsu);
    AlignedRead(B.TransferOf(s4.bridge), last.slave.data);
    assert B.WordAddr(s4.bridge) * 8 == s4.bridge.adr;
    assert Answers(s4, last);
    BridgeBeat(s4, last);
  }

  /** The late answer and, for a two-beat request, the clocks of its second beat. */
  function Script(t: Transfer, m: Memory, dat: Line): seq<Input> {
    if SplitNeeded(t) then [Late(dat)] + ([NO_INPUT] + ([NO_INPUT] + ([Late(Block(m, SecondAddr(t)))] + [])))
    else [Late(dat)] + []
  }

  /** The request is answered without an error and with the data and memory it would have if its first
      beat had been answered with dat and had not reached memory. */
  lemma AnsweredWithoutFirstBeat(limit: nat, s: System, i: Input, dat: Line)
    requires Inv(s, Quiet) && OverlapsAbandoned(s, i) && ValidWidth(i.req.width) && MayAnswer(limit, Asked(i.req))
    requires MayComplete(s, dat)
    ensures
      var s1, t := Tick(limit, s, i), Asked(i.req);
      var ins := Script(t, OldDone(s), dat);
      var e := After(limit, s1, ins);
      && Quietly(limit, s1, ins)
      && e.lsu.addr == i.req.addr && e.lsu.width == i.req.width && e.lsu.write == i.req.write && e.lsu.storeValue == i.req.value
      && e.mem == MissedMemory(t, i.req.write, OldDone(s))
      && Response(limit, e) == L.Response(false, MaskToWidth(i.req.width, Join(MissedData(t, OldDone(s), dat))))
  {
    var s1, t := Tick(limit, s, i), Asked(i.req);
    var m := OldDone(s);
    var e2 := Tick(limit, s1, Late(dat));
    TakesLateAnswer(limit, s, i, dat);
    hide Tick, Answers, ShiftedSelect, ShiftedData, Store, Block, SingleRead, CombinedRead, Split, Join, MaskToWidth, Load, WidthSelect, L.BaseSelect;
    assert L.TransferOf(e2.lsu) == t;
    if SplitNeeded(t) {
      SecondBeatFollows(limit, e2, s, i, dat);
      var s3 := Tick(limit, e2, NO_INPUT);
      var s4 := Tick(limit, s3, NO_INPUT);
      var last := Late(Block(m, SecondAddr(t)));
      SecondBeatAnswered(limit, s4, t);
      OneMore(limit, s1, Late(dat), [NO_INPUT] + ([NO_INPUT] + ([last] + [])));
      OneMore(limit, e2, NO_INPUT, [NO_INPUT] + ([last] + []));
      OneMore(limit, s3, NO_INPUT, [last] + []);
      OneMore(limit, s4, last, []);
    } else {
      StoreNone(m, SecondAddr(t), SecondSelect(t), SecondData(t));
      OneMore(limit, s1, Late(dat), []);
    }
  }

  // ---------------------------------------------------------------- and then some memory shows it

  function FirstBeatOf(t: Transfer): Transfer { Transfer(FirstAddr(t), FirstSelect(t), FirstData(t)) }

  lemma BaseIsAligned(a: Word)
    ensures Base(a) % 8 == 0
  {
  }

  /** A byte of an aligned block lies in no other aligned block. */
  lemma OtherBlock(a: Word, b: Word, k: nat)
    requires a % 8 == 0 && b % 8 == 0 && a != b && k < 8
    ensures Minus(Plus(a, k), b) >= 8
  {
  }

  lemma FirstLane(t: Transfer)
    requires t.sel[0]
    ensures FirstSelect(t)[Offset(t.addr)]
  {
    var off := Offset(t.addr);
    assert Shift(NONE, t.sel, off)[off] == t.sel[off - off];
  }

  /** Two writes to a memory of one byte that the second one leaves alone. */
  lemma OneByteStore(x: Word, v: Byte, a: Word, sel: Select, dat: Line, a': Word, sel': Select, dat': Line)
    requires Minus(x, a') >= 8
    ensures Store(Store(map[x := v], a, sel, dat), a', sel', dat') == map[x := LaneByte(v, Minus(x, a), sel, dat)]
  {
  }

  /** Unless the abandoned transfer writes the first beat, one byte of memory tells them apart. */
  lemma WriteMissed(b: B.State, t: Transfer) returns (m: Memory)
    requires b.adr % 8 == 0 && t.sel[0] && !Performs(b, FirstBeatOf(t), true)
    ensures SecondBeat(t, if b.we then Stored(B.TransferOf(b), m) else m) != Stored(t, m)
  {
    hide Store, ShiftedSelect, ShiftedData, FirstSelect, FirstData, SecondSelect, SecondData;
    var k := Offset(t.addr);
    FirstLane(t);
    if b.we && b.adr == FirstAddr(t) {
      k :| 0 <= k < 8 && !(b.sel[k] == FirstSelect(t)[k] && (FirstSelect(t)[k] ==> b.datW[k] == FirstData(t)[k]));
    }
    var x := Plus(FirstAddr(t), k);
    var other: Byte := if FirstData(t)[k] != 0 && b.datW[k] != 0 then 0 else if FirstData(t)[k] != 1 && b.datW[k] != 1 then 1 else 2;
    m := map[x := other];
    StoreInTwoBeats(t, m);
    OtherBlock(FirstAddr(t), SecondAddr(t), k);
    if b.adr != FirstAddr(t) {
      OtherBlock(FirstAddr(t), b.adr, k);
    }
    OneByteStore(x, other, FirstAddr(t), FirstSelect(t), FirstData(t), SecondAddr(t), SecondSelect(t), SecondData(t));
    OneByteStore(x, other, b.adr, b.sel, b.datW, SecondAddr(t), SecondSelect(t), SecondData(t));
    OneByteStore(x, other, SecondAddr(t), NONE, ZEROES, SecondAddr(t), SecondSelect(t), SecondData(t));
    StoreNone(m, SecondAddr(t), NONE, ZEROES);
    var was, new_ := if b.we then LaneByte(other, Minus(x, b.adr), b.sel, b.datW) else other, LaneByte(other, k, FirstSelect(t), FirstData(t));
    assert Minus(x, FirstAddr(t)) == k && was != new_;
    assert map[x := was][x] != map[x := new_][x];
  }

  const UNMAPPED: Line := [0xFF, 0xFF, 0xFF, 0xFF, 0xFF, 0xFF, 0xFF, 0xFF]

  lemma NothingMapped(a: Word)
    ensures Block(map[], a) == UNMAPPED
  {
  }

  lemma OneByteMapped(a: Word, k: nat, b: Word)
    requires a % 8 == 0 && b % 8 == 0 && a != b && k < 8
    ensures Block(map[Plus(a, k) := 0], a)[k] == 0 && Block(map[Plus(a, k) := 0], b) == UNMAPPED
  {
    forall j | 0 <= j < 8
      ensures Block(map[Plus(a, k) := 0], b)[j] == 0xFF
    {
      OtherBlock(b, a, j);
    }
  }

  /** The abandoned transfer may be answered so that lane k is not the byte at a. */
  ghost predicate MayMiss(b: B.State, a: Word, k: nat, m: Memory, dat: Line)
    requires k < 8
  {
    && (if b.we then Stored(B.TransferOf(b), m) == m else SelectedBytes(B.TransferOf(b), m, dat))
    && dat[k] != Block(m, a)[k]
  }

  lemma MissBehindWrite(b: B.State, a: Word, k: nat)
    requires b.we && k < 8
    ensures MayMiss(b, a, k, map[], ZEROES)
  {
    NothingMapped(a);
    assert UNMAPPED[k] == 0xFF && ZEROES[k] == 0;
  }

  lemma MissBehindOther(b: B.State, a: Word, k: nat)
    requires !b.we && b.adr != a && b.adr % 8 == 0 && a % 8 == 0 && k < 8
    ensures MayMiss(b, a, k, map[Plus(a, k) := 0], UNMAPPED)
  {
    OneByteMapped(a, k, b.adr);
    assert UNMAPPED[k] == 0xFF;
  }

  lemma MissUnselected(b: B.State, a: Word, k: nat)
    requires !b.we && k < 8 && !b.sel[k]
    ensures MayMiss(b, a, k, map[], UNMAPPED[k := 0])
  {
    NothingMapped(a);
    NothingMapped(b.adr);
    assert UNMAPPED[k] == 0xFF;
  }

  lemma LaneNotRead(b: B.State, t: Transfer) returns (k: nat)
    requires !b.we && b.adr == FirstAddr(t) && !Performs(b, FirstBeatOf(t), false)
    ensures k < 8 && FirstSelect(t)[k] && !b.sel[k]
  {
    hide FirstSelect, FirstAddr, FirstData;
    k :| 0 <= k < 8 && FirstSelect(t)[k] && !b.sel[k];
  }

  /** Unless the abandoned transfer reads the first beat, it may be answered with other bytes. */
  lemma ReadMissed(b: B.State, t: Transfer) returns (m: Memory, dat: Line, k: nat)
    requires b.adr % 8 == 0 && t.sel[0] && !Performs(b, FirstBeatOf(t), false)
    ensures k < 8 && FirstSelect(t)[k] && MayMiss(b, FirstAddr(t), k, m, dat)
  {
    hide FirstSelect, Performs, MayMiss, Base, Plus;
    k := Offset(t.addr);
    FirstLane(t);
    BaseIsAligned(t.addr);
    if b.we {
      m, dat := map[], ZEROES;
      MissBehindWrite(b, FirstAddr(t), k);
    } else if b.adr != FirstAddr(t) {
      m, dat := map[Plus(FirstAddr(t), k) := 0], UNMAPPED;
      MissBehindOther(b, FirstAddr(t), k);
    } else {
      k := LaneNotRead(b, t);
      m, dat := map[], UNMAPPED[k := 0];
      MissUnselected(b, FirstAddr(t), k);
    }
  }

  lemma LaneOfFirstBeat(t: Transfer, k: nat)
    requires k < 8 && FirstSelect(t)[k]
    ensures Offset(t.addr) <= k && t.sel[k - Offset(t.addr)]
  {
    assert Shift(NONE, t.sel, Offset(t.addr))[k];
  }

  lemma BlockByte(m: Memory, a: Word, k: nat)
    requires Offset(a) <= k < 8
    ensures Block(m, a)[k - Offset(a)] == Block(m, Base(a))[k]
  {
  }

  /** The wrong lane shows in the value. */
  lemma MissedDataDiffers(t: Transfer, m: Memory, dat: Line, w: nat, k: nat)
    requires ValidWidth(w) && t.sel == WidthSelect(w)
    requires k < 8 && FirstSelect(t)[k] && dat[k] != Block(m, FirstAddr(t))[k]
    ensures MaskToWidth(w, Join(MissedData(t, m, dat))) != Load(m, t.addr, w)
  {
    hide Join, MaskToWidth, Load, SplitNeeded, Block, ShiftedSelect, SecondAddr;
    var off := Offset(t.addr);
    LaneOfFirstBeat(t, k);
    assert MissedData(t, m, dat)[k - off] == dat[k];
    BlockByte(m, t.addr, k);
    MaskedLoadDiffers(t, m, w, MissedData(t, m, dat), k - off);
  }

  /** A request behind an abandoned transfer that leaves the watchdog time, and is not a repetition of
      that transfer, is answered wrongly on some memory with some slave timing. */
  lemma OverlapBreaks(limit: nat, s: System, i: Input) returns (m: Memory, ins: seq<Input>)
    requires Inv(s, Quiet) && OverlapsAbandoned(s, i) && ValidWidth(i.req.width)
    requires MayAnswer(limit, Asked(i.req)) && !Retries(s, i)
    ensures Fails(limit, s.(mem := m), i, ins)
  {
    hide Tick, Answers, Store, ShiftedSelect, ShiftedData, Block, SingleRead, CombinedRead, Split, Join, MaskToWidth, Load;
    var t := Asked(i.req);
    var dat := ZEROES;
    var k := 0;
    assert t.sel[0] && t.sel == WidthSelect(i.req.width);
    if i.req.write {
      m := WriteMissed(s.bridge, t);
      dat := Block(m, s.bridge.adr);
    } else {
      m, dat, k := ReadMissed(s.bridge, t);
    }
    var sm := s.(mem := m);
    ins := Script(t, OldDone(sm), dat);
    AnsweredWithoutFirstBeat(limit, sm, i, dat);
    if !i.req.write {
      MissedDataDiffers(t, m, dat, i.req.width, k);
    }
  }

  /** Exactly when a request taken behind an abandoned transfer is safe, whatever memory holds and
      however the slave answers: when the watchdog dooms it, or when it repeats that transfer. */
  lemma OverlapIsSafeExactlyWhen(limit: nat, s: System, i: Input)
    requires Inv(s, Quiet) && OverlapsAbandoned(s, i) && ValidWidth(i.req.width)
    ensures (forall m: Memory, ins :: !Fails(limit, s.(mem := m), i, ins)) <==> !MayAnswer(limit, Asked(i.req)) || Retries(s, i)
  {
    hide Tick, Inv, Next, Fails, MayAnswer, Performs;
    if MayAnswer(limit, Asked(i.req)) && !Retries(s, i) {
      var m, ins := OverlapBreaks(limit, s, i);
      assert Fails(limit, s.(mem := m), i, ins);
    } else {
      forall m: Memory, ins
        ensures !Fails(limit, s.(mem := m), i, ins)
      {
        NeverFails(limit, s.(mem := m), i, ins) by {
          InvOfAnyMemory(s, m);
        }
      }
    }
  }

  lemma InvOfAnyMemory(s: System, m: Memory)
    requires Inv(s, Quiet)
    ensures Inv(s.(mem := m), Quiet)
  {
  }

  lemma NeverFails(limit: nat, s: System, i: Input, ins: seq<Input>)
    requires Inv(s, Quiet) && OverlapsAbandoned(s, i) && ValidWidth(i.req.width)
    requires !MayAnswer(limit, Asked(i.req)) || Retries(s, i)
    ensures !Fails(limit, s, i, ins)
  {
    hide Inv, Performs, MayAnswer;
    var s1 := Tick(limit, s, i);
    ClockIsRight(limit, s, i, Quiet);
    if Quietly(limit, s1, ins) {
      QuietRunIsRight(limit, s1, Next(limit, s, i, Quiet), ins, s.mem);
    }
  }
}
