/** A byte-select access at any alignment carried over a 64-bit bus as one or two aligned beats:
    the lane shifting shared by the basic core, the v2 load/store unit and the LiteX data bridge. */
module Beats {
  import opened Words

  /** An access to the selected ones of the eight bytes at addr. */
  datatype Transfer = Transfer(addr: Word, sel: Select, dat: Line)

  function ShiftedSelect(t: Transfer): (r: seq<bool>)
    ensures |r| == 16
  {
    Shift(NONE, t.sel, Offset(t.addr))
  }

  function ShiftedData(t: Transfer): (r: seq<Byte>)
    ensures |r| == 16
  {
    Shift(ZEROES, t.dat, Offset(t.addr))
  }

  function FirstSelect(t: Transfer): Select { ShiftedSelect(t)[..8] }
  function SecondSelect(t: Transfer): Select { ShiftedSelect(t)[8..] }
  function FirstData(t: Transfer): Line { ShiftedData(t)[..8] }
  function SecondData(t: Transfer): Line { ShiftedData(t)[8..] }
  function FirstAddr(t: Transfer): Word { Base(t.addr) }
  function SecondAddr(t: Transfer): Word { Plus(Base(t.addr), 8) }
  predicate SplitNeeded(t: Transfer) { SecondSelect(t) != NONE }

  /** The read data moved down by the byte offset, from one beat or from two. */
  function SingleRead(t: Transfer, dat: Line): Line { dat[Offset(t.addr)..] + ZEROES[..Offset(t.addr)] }
  function CombinedRead(t: Transfer, first: Line, dat: Line): Line { first[Offset(t.addr)..] + dat[..Offset(t.addr)] }

  /** What the access does to memory when it is a write. */
  function Stored(t: Transfer, m: Memory): Memory { Store(m, t.addr, t.sel, t.dat) }

  function FirstBeat(t: Transfer, m: Memory): Memory { Store(m, FirstAddr(t), FirstSelect(t), FirstData(t)) }
  function SecondBeat(t: Transfer, m: Memory): Memory { Store(m, SecondAddr(t), SecondSelect(t), SecondData(t)) }

  ghost predicate FirstBeatData(t: Transfer, m: Memory, dat: Line) {
    forall k :: 0 <= k < 8 && FirstSelect(t)[k] ==> dat[k] == Block(m, FirstAddr(t))[k]
  }

  ghost predicate SecondBeatData(t: Transfer, m: Memory, dat: Line) {
    forall k :: 0 <= k < 8 && SecondSelect(t)[k] ==> dat[k] == Block(m, SecondAddr(t))[k]
  }

  /** The selected lanes of l are the selected bytes at addr. */
  ghost predicate SelectedBytes(t: Transfer, m: Memory, l: Line) {
    forall k :: 0 <= k < 8 && t.sel[k] ==> l[k] == Block(m, t.addr)[k]
  }

  lemma StoreInTwoBeats(t: Transfer, m: Memory)
    ensures SecondBeat(t, FirstBeat(t, m)) == Stored(t, m)
  {
    TwoBeatStore(m, t.addr, t.sel, t.dat);
  }

  lemma StoreInOneBeat(t: Transfer, m: Memory)
    requires !SplitNeeded(t)
    ensures FirstBeat(t, m) == Stored(t, m)
  {
    TwoBeatStore(m, t.addr, t.sel, t.dat);
    StoreNone(FirstBeat(t, m), SecondAddr(t), SecondSelect(t), SecondData(t));
  }

  /** Once the first beat is in memory the whole access still gives the same result. */
  lemma FirstBeatThenStored(t: Transfer, m: Memory)
    ensures Stored(t, FirstBeat(t, m)) == Stored(t, m)
    ensures FirstBeat(t, FirstBeat(t, m)) == FirstBeat(t, m)
  {
    FirstBeatAbsorbed(m, t.addr, t.sel, t.dat);
    StoreTwice(m, FirstAddr(t), FirstSelect(t), FirstData(t));
  }

  lemma LoadInOneBeat(t: Transfer, m: Memory, dat: Line)
    requires !SplitNeeded(t) && FirstBeatData(t, m, dat)
    ensures SelectedBytes(t, m, SingleRead(t, dat))
  {
    hide Block;
    TwoBeatLoad(m, t.addr);
    var off := Offset(t.addr);
    var both := Block(m, FirstAddr(t)) + Block(m, SecondAddr(t));
    forall j | 8 <= j < 16
      ensures !ShiftedSelect(t)[j]
    {
      assert ShiftedSelect(t)[j] == SecondSelect(t)[j - 8] == NONE[j - 8];
    }
    forall k | 0 <= k < 8 && t.sel[k]
      ensures SingleRead(t, dat)[k] == Block(m, t.addr)[k]
    {
      assert ShiftedSelect(t)[off + k];
      assert both[off..off + 8][k] == both[off + k];
      assert FirstSelect(t)[off + k];
    }
  }

  lemma LoadInTwoBeats(t: Transfer, m: Memory, first: Line, dat: Line)
    requires FirstBeatData(t, m, first) && SecondBeatData(t, m, dat)
    ensures SelectedBytes(t, m, CombinedRead(t, first, dat))
  {
    hide Block;
    TwoBeatLoad(m, t.addr);
    var off := Offset(t.addr);
    var both := Block(m, FirstAddr(t)) + Block(m, SecondAddr(t));
    forall k | 0 <= k < 8 && t.sel[k]
      ensures CombinedRead(t, first, dat)[k] == Block(m, t.addr)[k]
    {
      assert ShiftedSelect(t)[off + k];
      assert both[off..off + 8][k] == both[off + k];
      if off + k < 8 {
        assert FirstSelect(t)[off + k];
      } else {
        assert SecondSelect(t)[off + k - 8];
      }
    }
  }

  /** An aligned access never needs a second beat. */
  lemma AlignedNeverSplits(t: Transfer)
    requires t.addr % 8 == 0
    ensures !SplitNeeded(t) && FirstSelect(t) == t.sel && FirstData(t) == t.dat && FirstAddr(t) == t.addr
  {
  }

  // ---------------------------------------------------------------- little-endian values

  function WidthSelect(w: nat): Select {
    seq(8, i => i < w)
  }

  /** The low w bytes at a, zero-extended. */
  function Load(m: Memory, a: Word, w: nat): Word
    requires w <= 8
  {
    NumberBound(Block(m, a)[..w]);
    Pow2Of64();
    Pow2Monotone(8 * w, 64);
    Number(Block(m, a)[..w])
  }

  lemma {:induction false} Pow2Monotone(m: nat, n: nat)
    requires m <= n
    ensures Pow2(m) <= Pow2(n)
  {
    Pow2Split(m, n - m);
    assert Pow2(m) * Pow2(n - m) >= Pow2(m) * 1;
  }

  /** Masking a word to w bytes keeps its low w lanes. */
  lemma {:induction false} MaskIsPrefix(l: seq<Byte>, w: nat)
    requires w <= |l|
    ensures Number(l) % Pow2(8 * w) == Number(l[..w])
  {
    if w > 0 {
      MaskIsPrefix(l[1..], w - 1);
      assert l[..w][1..] == l[1..][..w - 1];
      Pow2Split(8, 8 * (w - 1));
      SmallPowers();
      ModuloSplit(Number(l), 0x100, Pow2(8 * (w - 1)));
      assert Number(l) / 0x100 == Number(l[1..]);
    }
  }

  function MaskToWidth(w: nat, v: Word): Word {
    if w == 1 then v % 0x100 else if w == 2 then v % 0x1_0000 else if w == 4 then v % 0x1_0000_0000 else v
  }

  predicate ValidWidth(w: nat) { w == 1 || w == 2 || w == 4 || w == 8 }

  lemma MaskIsModulo(w: nat, v: Word)
    requires ValidWidth(w)
    ensures MaskToWidth(w, v) == v % Pow2(8 * w)
  {
    SmallPowers();
    Pow2Of64();
  }

  /** Masking the selected lanes of a load gives the value at the unaligned address. */
  lemma MaskedLoad(t: Transfer, m: Memory, w: nat, l: Line)
    requires ValidWidth(w) && t.sel == WidthSelect(w) && SelectedBytes(t, m, l)
    ensures MaskToWidth(w, Join(l)) == Load(m, t.addr, w)
  {
    MaskIsPrefix(l, w);
    assert forall k :: 0 <= k < w ==> t.sel[k] && l[k] == Block(m, t.addr)[k];
    assert l[..w] == Block(m, t.addr)[..w];
    MaskIsModulo(w, Join(l));
  }

  /** A wrong lane among those kept makes a wrong value. */
  lemma MaskedLoadDiffers(t: Transfer, m: Memory, w: nat, l: Line, k: nat)
    requires ValidWidth(w) && k < w && l[k] != Block(m, t.addr)[k]
    ensures MaskToWidth(w, Join(l)) != Load(m, t.addr, w)
  {
    MaskIsPrefix(l, w);
    MaskIsModulo(w, Join(l));
    LanesNumber(l[..w]);
    LanesNumber(Block(m, t.addr)[..w]);
    assert l[..w][k] != Block(m, t.addr)[..w][k];
  }
}
