/** The emulator's memory bus (host/emulator/memory_bus.cpp, host/emulator/memory_region.cpp) over RAM
    and ROM regions: a one-entry lookup cache, and wide accesses that take a region's own wide access
    when they can and fall back to halves when they cannot. */
module MemoryBus {
  import opened Words
  import opened Beats

  datatype Access = Read | Write | Execute

  /** A RAM or ROM region; it ends below the top of the address space. */
  class Region {
    const base: Word
    const size: nat
    const rom: bool
    const name: string
    var data: seq<Byte>

    constructor (base: Word, data: seq<Byte>, rom: bool, name: string)
      ensures this.base == base && this.size == |data| && this.data == data && this.rom == rom && this.name == name
    {
      this.base, this.size, this.data, this.rom, this.name := base, |data|, data, rom, name;
    }

    predicate Fits() { base + size <= WORD_MAX }

    function End(): Word
      requires Fits()
    {
      base + size
    }

    predicate Has(a: Word)
      requires Fits()
    {
      base <= a < End()
    }

    /** The source's test, in its order, with no sum that can wrap. */
    predicate Allows(a: Word, w: nat, access: Access)
      requires Fits()
    {
      && w != 0 && a >= base && w - 1 <= WORD_MAX - a && a + w - 1 < End()
      && !(rom && access == Access.Write)
    }

    /** The region's own wide read: w bytes copied little-endian. */
    method ReadWide(a: Word, w: nat) returns (v: nat)
      requires Fits() && |data| == size && a >= base && a + w <= End()
      ensures v == Number(data[a - base..a - base + w])
    {
      v := 0;
      var k := w;
      while k > 0
        invariant 0 <= k <= w && v == Number(data[a - base + k..a - base + w])
      {
        k := k - 1;
        assert data[a - base + k..a - base + w][1..] == data[a - base + k + 1..a - base + w];
        v := data[a - base + k] as int + 0x100 * v;
      }
    }

    /** The region's own wide write: a copy into RAM, nothing in ROM. */
    method WriteWide(a: Word, w: nat, v: nat)
      requires Fits() && |data| == size && a >= base && a + w <= End()
      modifies this`data
      ensures |data| == size
      ensures forall x :: 0 <= x < size ==>
                data[x] == if !rom && a - base <= x < a - base + w then Lanes(w, v)[x - (a - base)] else old(data)[x]
    {
      if !rom {
        data := data[..a - base] + Lanes(w, v) + data[a - base + w..];
      }
    }
  }

  /** Linear search. */
  function Scan(regions: seq<Region>, a: Word): (r: Region?)
    requires forall r :: r in regions ==> r.Fits()
    ensures r != null ==> r in regions && r.Has(a)
    ensures r == null ==> forall q :: q in regions ==> !q.Has(a)
  {
    if regions == [] then null
    else if regions[0].Has(a) then regions[0]
    else Scan(regions[1..], a)
  }

  /** The source's overlap test. */
  predicate Overlap(r: Region, q: Region)
    requires r.Fits() && q.Fits()
  {
    r.base < q.End() && r.End() > q.base
  }

  /** An address lies in a region. */
  predicate In(r: Region, a: int) { r.base <= a < r.base + r.size }

  /** Two regions share an address, or an empty one starts strictly inside the other. */
  ghost predicate Collide(r: Region, q: Region) {
    || (exists a :: In(r, a) && In(q, a))
    || (r.size == 0 && q.base < r.base < q.base + q.size)
    || (q.size == 0 && r.base < q.base < r.base + r.size)
  }

  /** The source's test finds just that; in particular regions that touch end to start pass it. */
  lemma OverlapIsCollision(r: Region, q: Region)
    requires r.Fits() && q.Fits()
    ensures Overlap(r, q) <==> Collide(r, q)
  {
    if Overlap(r, q) && r.size > 0 && q.size > 0 {
      var a := if r.base < q.base then q.base else r.base;
      assert In(r, a) && In(q, a);
    }
  }

  ghost predicate NoCollision(regions: seq<Region>, r: Region) { forall q :: q in regions ==> !Collide(r, q) }

  lemma NoOverlapIsNoCollision(regions: seq<Region>, r: Region)
    requires r.Fits() && forall q :: q in regions ==> q.Fits()
    ensures NoCollision(regions, r) <==> forall q :: q in regions ==> !Overlap(r, q)
  {
    hide Overlap, Collide;
    forall q | q in regions {
      OverlapIsCollision(r, q);
    }
  }

  class Bus {
    var regions: seq<Region>
    var cachedRegion: Region?
    var cachedBase: Word
    var cachedEnd: Word

    /** Regions fit the address space and do not overlap. */
    ghost predicate Disjoint()
      reads this`regions, regions`data
    {
      && (forall r :: r in regions ==> r.Fits() && |r.data| == r.size)
      && forall i, j :: 0 <= i < j < |regions| ==> !Overlap(regions[i], regions[j]) && regions[i] != regions[j]
    }

    ghost predicate Valid()
      reads this, regions`data
    {
      && Disjoint()
      && (if cachedRegion == null then cachedBase >= cachedEnd
          else cachedRegion in regions && cachedBase == cachedRegion.base && cachedEnd == cachedRegion.End())
    }

    constructor ()
      ensures Valid() && regions == []
    {
      regions, cachedRegion, cachedBase, cachedEnd := [], null, 0, 0;
    }

    /** Adds a region, or refuses one that shares an address with another. */
    method AddRegion(region: Region) returns (added: bool)
      requires Valid() && region.Fits() && |region.data| == region.size && region !in regions
      modifies this
      ensures Valid()
      ensures added <==> NoCollision(old(regions), region)
      ensures regions == if added then old(regions) + [region] else old(regions)
    {
      NoOverlapIsNoCollision(regions, region);
      var i := 0;
      while i < |regions|
        invariant 0 <= i <= |regions| && forall k :: 0 <= k < i ==> !Overlap(region, regions[k])
      {
        if Overlap(region, regions[i]) {
          return false;
        }
        i := i + 1;
      }
      regions := regions + [region];
      cachedRegion, cachedBase, cachedEnd := null, 0, 0;
      return true;
    }

    /** Removes the first region of that name, if any. */
    method RemoveRegion(name: string)
      requires Valid()
      modifies this
      ensures Valid()
      ensures (forall r :: r in old(regions) ==> r.name != name) ==> regions == old(regions)
      ensures forall i :: 0 <= i < |old(regions)| && old(regions)[i].name == name && (forall k :: 0 <= k < i ==> old(regions)[k].name != name) ==>
                regions == old(regions)[..i] + old(regions)[i + 1..]
    {
      var i := 0;
      while i < |regions| && regions[i].name != name
        invariant 0 <= i <= |regions| && forall k :: 0 <= k < i ==> regions[k].name != name
      {
        i := i + 1;
      }
      if i < |regions| {
        regions := regions[..i] + regions[i + 1..];
        cachedRegion, cachedBase, cachedEnd := null, 0, 0;
      }
    }

    method ClearRegions()
      modifies this
      ensures Valid() && regions == []
    {
      regions, cachedRegion, cachedBase, cachedEnd := [], null, 0, 0;
    }

    /** Lookup through the cache finds what a linear search finds. */
    method FindRegion(a: Word) returns (r: Region?)
      requires Valid()
      modifies this`cachedRegion, this`cachedBase, this`cachedEnd
      ensures Valid()
      ensures r == Scan(regions, a)
    {
      if cachedBase <= a < cachedEnd {
        OnlyOneHas(regions, a, cachedRegion);
        return cachedRegion;
      }
      var i := 0;
      while i < |regions|
        invariant 0 <= i <= |regions| && Scan(regions, a) == Scan(regions[i..], a)
      {
        if regions[i].Has(a) {
          cachedRegion, cachedBase, cachedEnd := regions[i], regions[i].base, regions[i].End();
          return regions[i];
        }
        assert regions[i..][1..] == regions[i + 1..];
        i := i + 1;
      }
      return null;
    }

    // -------------------------------------------------------------- accesses

    /** The byte stored at a; unmapped addresses read as 0xFF. */
    ghost function Cell(a: Word): Byte
      requires Disjoint()
      reads this`regions, regions`data
    {
      var r := Scan(regions, a);
      if r == null then 0xFF else r.data[a - r.base]
    }

    /** In a region the byte of its data there, writable unless the region is ROM; elsewhere 0xFF. */
    lemma CellOfRegion(a: Word)
      requires Disjoint()
      ensures forall r :: r in regions && In(r, a) ==> Cell(a) == r.data[a - r.base] && (Writable(a) <==> !r.rom)
      ensures (forall r :: r in regions ==> !In(r, a)) ==> Cell(a) == 0xFF && !Writable(a)
    {
      forall r | r in regions && In(r, a)
        ensures Cell(a) == r.data[a - r.base] && (Writable(a) <==> !r.rom)
      {
        OnlyOneHas(regions, a, r);
      }
    }

    ghost predicate Writable(a: Word)
      requires Disjoint()
      reads this`regions, regions`data
    {
      var r := Scan(regions, a);
      r != null && !r.rom
    }

    /** The w bytes from a on, the address wrapping mod 2^64. */
    ghost function Cells(a: Word, w: nat): (l: seq<Byte>)
      requires Disjoint() && w <= 8
      reads this`regions, regions`data
      ensures |l| == w
      decreases w
    {
      if w == 0 then [] else [Cell(a)] + Cells(Plus(a, 1), w - 1)
    }

    /** The region that can serve the whole access, if one can. */
    method ResolveAccessRange(a: Word, w: nat, access: Access) returns (r: Region?)
      requires Valid()
      modifies this`cachedRegion, this`cachedBase, this`cachedEnd
      ensures Valid()
      ensures r == Resolved(a, w, access)
    {
      if w == 0 || w - 1 > WORD_MAX - a {
        return null;
      }
      r := FindRegion(a);
      if r != null && !r.Allows(a, w, access) {
        r := null;
      }
    }

    ghost function Resolved(a: Word, w: nat, access: Access): (r: Region?)
      requires Disjoint()
      reads this`regions, regions`data
      ensures r != null ==> r in regions
    {
      var r := Scan(regions, a);
      if w == 0 || w - 1 > WORD_MAX - a || r == null || !r.Allows(a, w, access) then null else r
    }

    /** Reads of any width give the little-endian value of the bytes, however they lie over regions. */
    method ReadBytes(a: Word, w: nat, access: Access) returns (v: nat)
      requires Valid() && ValidWidth(w) && access != Access.Write
      modifies this`cachedRegion, this`cachedBase, this`cachedEnd
      ensures Valid()
      ensures v == Number(Cells(a, w))
      decreases w
    {
      hide Cells, Number, Pow2, Scan;
      var r := ResolveAccessRange(a, w, access);
      if r != null {
        v := r.ReadWide(a, w);
        RegionHoldsCells(r, a, w);
      } else if w == 1 {
        ByteUnmapped(a, access);
        v := 0xFF;
      } else {
        var half := w / 2;
        var low := ReadBytes(a, half, access);
        var high := ReadBytes(Plus(a, half), half, access);
        CellsSplit(a, half, half);
        NumberAppend(Cells(a, half), Cells(Plus(a, half), half));
        v := low + Pow2(8 * half) * high;
      }
    }

    /** Writes of any width put the value's bytes, least significant first, wherever the addressed
        bytes are RAM, and change nothing else. */
    method WriteBytes(a: Word, w: nat, v: nat)
      requires Valid() && ValidWidth(w) && v < Pow2(8 * w)
      modifies this`cachedRegion, this`cachedBase, this`cachedEnd, regions`data
      ensures Valid() && regions == old(regions)
      ensures forall x: Word :: Cell(x) == Written(old(Cell(x)), Writable(x), Minus(x, a), Lanes(w, v))
      decreases w
    {
      hide Number, Pow2, Scan, Cell, Written, LowPart, HighPart;
      var r := ResolveAccessRange(a, w, Access.Write);
      if r != null {
        RegionWrite(r, a, w, v);
      } else if w == 1 {
        NoByteWritten(a, v);
      } else {
        var half := w / 2;
        HalvesFit(v, half);
        WriteBytes(a, half, LowPart(v, half));
        WriteBytes(Plus(a, half), half, HighPart(v, half));
        forall x: Word
          ensures Cell(x) == Written(old(Cell(x)), Writable(x), Minus(x, a), Lanes(w, v))
        {
          WrittenInHalves(old(Cell(x)), Writable(x), x, a, half, v);
        }
      }
    }

    method RegionWrite(r: Region, a: Word, w: nat, v: nat)
      requires Valid() && w <= 8 && r in regions && !r.rom && a >= r.base && a + w <= r.End()
      modifies r`data
      ensures Valid() && regions == old(regions)
      ensures forall x: Word :: Cell(x) == Written(old(Cell(x)), Writable(x), Minus(x, a), Lanes(w, v))
    {
      r.WriteWide(a, w, v);
      forall x: Word
        ensures Cell(x) == Written(old(Cell(x)), Writable(x), Minus(x, a), Lanes(w, v))
      {
        if r.Has(x) {
          OnlyOneHas(regions, x, r);
        }
      }
    }

    lemma NoByteWritten(a: Word, v: nat)
      requires Disjoint() && Resolved(a, 1, Access.Write) == null
      ensures forall x: Word :: Cell(x) == Written(Cell(x), Writable(x), Minus(x, a), Lanes(1, v))
    {
    }

    /** The bus over RAM alone is the flat memory m. */
    ghost predicate IsFlat(m: Memory)
      requires Disjoint()
      reads this`regions, regions`data
    {
      forall x: Word :: Cell(x) == Peek(m, x) && (Writable(x) <==> x in m)
    }

    /** What a read returns is then the flat memory's load. */
    lemma {:induction false} FlatRead(m: Memory, a: Word, w: nat)
      requires Disjoint() && IsFlat(m) && w <= 8
      ensures Number(Cells(a, w)) == Load(m, a, w)
    {
      hide Number, IsFlat, Load;
      CellsAreBlock(m, a, w);
      LoadIsPrefix(m, a, w);
    }

    lemma {:induction false} CellsAreBlock(m: Memory, a: Word, w: nat)
      requires Disjoint() && IsFlat(m) && w <= 8
      ensures Cells(a, w) == Block(m, a)[..w]
      decreases w
    {
      hide Cell, Peek;
      if w > 0 {
        CellsAreBlock(m, a, w - 1);
        CellsSplit(a, w - 1, 1);
        assert Cells(Plus(a, w - 1), 1) == [Cell(Plus(a, w - 1))];
        assert Cell(Plus(a, w - 1)) == Peek(m, Plus(a, w - 1));
        assert Block(m, a)[w - 1] == Peek(m, Plus(a, w - 1));
        assert Block(m, a)[..w] == Block(m, a)[..w - 1] + [Block(m, a)[w - 1]];
      }
    }

    lemma SliceFromFirst(data: seq<Byte>, at: nat, w: nat)
      requires w > 0 && at + w <= |data|
      ensures data[at..at + w] == [data[at]] + data[at + 1..at + w]
    {
    }

    lemma {:induction false} RegionHoldsCells(r: Region, a: Word, w: nat)
      requires Disjoint() && w <= 8 && r in regions && r.base <= a && a + w <= r.End()
      ensures r.data[a - r.base..a - r.base + w] == Cells(a, w)
      decreases w
    {
      if w > 0 {
        OnlyOneHas(regions, a, r);
        RegionHoldsCells(r, Plus(a, 1), w - 1);
        SliceFromFirst(r.data, a - r.base, w);
        assert Plus(a, 1) - r.base == a - r.base + 1 || w == 1;
        assert Cells(a, w) == [Cell(a)] + Cells(Plus(a, 1), w - 1);
      }
    }

    lemma ByteUnmapped(a: Word, access: Access)
      requires Disjoint() && access != Access.Write && Resolved(a, 1, access) == null
      ensures Number(Cells(a, 1)) == 0xFF
    {
      assert Cells(a, 1) == [0xFF];
      assert Number([0xFF]) == 0xFF + 0x100 * Number([]);
    }

    lemma {:induction false} CellsSplit(a: Word, m: nat, n: nat)
      requires Disjoint() && m + n <= 8
      ensures Cells(a, m + n) == Cells(a, m) + Cells(Plus(a, m), n)
      decreases m
    {
      hide Cell;
      if m > 0 {
        CellsSplit(Plus(a, 1), m - 1, n);
        assert Plus(Plus(a, 1), m - 1) == Plus(a, m);
      }
    }
  }

  /** A byte after a write of these bytes, k being its distance above the written address. */
  function Written(was: Byte, writable: bool, k: nat, bytes: seq<Byte>): Byte {
    if writable && k < |bytes| then bytes[k] else was
  }

  /** The low n bytes of a value, and the rest. */
  function LowPart(v: nat, n: nat): nat { v % Pow2(8 * n) }

  function HighPart(v: nat, n: nat): nat {
    QuotientBound(v, Pow2(8 * n));
    v / Pow2(8 * n)
  }

  lemma QuotientFits(v: nat, p: nat, q: nat)
    requires p > 0 && v < p * q
    ensures v / p < q && 0 <= v % p < p
  {
    var d := v / p;
    assert v == d * p + v % p;
    assert (d - q) * p == d * p - q * p;
    MultipleIsFar(d - q, p);
  }

  lemma HalvesFit(v: nat, half: nat)
    requires v < Pow2(8 * (2 * half))
    ensures LowPart(v, half) < Pow2(8 * half) && HighPart(v, half) < Pow2(8 * half)
  {
    hide Pow2;
    var p := Pow2(8 * half);
    Pow2Split(8 * half, 8 * half);
    assert 8 * (2 * half) == 8 * half + 8 * half;
    QuotientFits(v, p, p);
  }

  lemma {:induction false} LanesSplit(m: nat, n: nat, v: nat)
    ensures Lanes(m + n, v) == Lanes(m, LowPart(v, m)) + Lanes(n, HighPart(v, m))
  {
    if m > 0 {
      var q := Pow2(8 * (m - 1));
      Pow2Split(8, 8 * (m - 1));
      SmallPowers();
      LanesSplit(m - 1, n, v / 0x100);
      ModuloSplit(v, 0x100, q);
      LowLanes(v, q);
    }
  }

  lemma LowLanes(v: nat, q: nat)
    requires q > 0
    ensures 0x100 * q > 0 && v % (0x100 * q) % 0x100 == v % 0x100 && v % (0x100 * q) / 0x100 == v / 0x100 % q
  {
    ModuloSplit(v, 0x100, q);
    DivModUnique(v % (0x100 * q), 0x100, v / 0x100 % q, v % 0x100);
  }

  lemma WrittenInHalves(was: Byte, writable: bool, x: Word, a: Word, half: nat, v: nat)
    requires 1 <= half <= 4
    ensures
      var first := Written(was, writable, Minus(x, a), Lanes(half, LowPart(v, half)));
      Written(first, writable, Minus(x, Plus(a, half)), Lanes(half, HighPart(v, half))) == Written(was, writable, Minus(x, a), Lanes(2 * half, v))
  {
    hide Lanes, LowPart, HighPart;
    LanesSplit(half, half, v);
  }

  lemma LoadIsPrefix(m: Memory, a: Word, w: nat)
    requires w <= 8
    ensures Load(m, a, w) == Number(Block(m, a)[..w])
  {
  }

  /** A byte after a bus write of the low w bytes of v is the byte after the flat memory's store. */
  lemma FlatWrite(m: Memory, a: Word, w: nat, v: Word, x: Word)
    requires ValidWidth(w)
    ensures Written(Peek(m, x), x in m, Minus(x, a), Lanes(w, LowPart(v, w))) == Peek(Store(m, a, WidthSelect(w), Split(v)), x)
    ensures x in Store(m, a, WidthSelect(w), Split(v)) <==> x in m
  {
    hide LowPart;
    LanesSplit(w, 8 - w, v);
  }

  lemma {:induction false} NumberAppend(l: seq<Byte>, h: seq<Byte>)
    ensures Number(l + h) == Number(l) + Pow2(8 * |l|) * Number(h)
  {
    if l == [] {
      assert l + h == h;
    } else {
      NumberAppend(l[1..], h);
      assert (l + h)[1..] == l[1..] + h;
      Pow2Split(8, 8 * (|l| - 1));
      SmallPowers();
      TimesByte(Number(l[1..]), Pow2(8 * (|l| - 1)), Number(h));
    }
  }

  lemma TimesByte(n: nat, p: nat, h: nat)
    ensures 0x100 * (n + p * h) == 0x100 * n + (0x100 * p) * h
  {
  }

  lemma {:induction false} OnlyOneHas(regions: seq<Region>, a: Word, r: Region)
    requires forall q :: q in regions ==> q.Fits()
    requires forall i, j :: 0 <= i < j < |regions| ==> !Overlap(regions[i], regions[j])
    requires r in regions && r.Has(a)
    ensures Scan(regions, a) == r
  {
    var i :| 0 <= i < |regions| && regions[i] == r;
    var q := Scan(regions, a);
    var j :| 0 <= j < |regions| && regions[j] == q;
    assert Overlap(r, q) && Overlap(q, r);
    assert i == j;
  }
}
