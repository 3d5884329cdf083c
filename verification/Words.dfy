/** 64-bit machine words as integers with explicit wrap-around, the byte lanes of a 64-bit bus,
    and a byte-addressed memory in which unmapped bytes read as 0xFF and ignore writes. */
module Words {

  type Word = w: int | 0 <= w < 0x1_0000_0000_0000_0000
  type Byte = b: int | 0 <= b < 0x100
  type Half = h: int | 0 <= h < 0x1_0000

  datatype Option<T> = None | Some(value: T)

  const WORD_MAX: Word := 0xFFFF_FFFF_FFFF_FFFF

  // ---------------------------------------------------------------- modular arithmetic

  /** 64-bit addition. */
  function Plus(a: Word, b: Word): Word {
    if a + b < 0x1_0000_0000_0000_0000 then a + b else a + b - 0x1_0000_0000_0000_0000
  }

  /** 64-bit subtraction. */
  function Minus(a: Word, b: Word): Word {
    if a >= b then a - b else a - b + 0x1_0000_0000_0000_0000
  }

  // ---------------------------------------------------------------- powers of two and bitwise operations

  function Pow2(n: nat): (p: nat)
    ensures p >= 1
  {
    if n == 0 then 1 else 2 * Pow2(n - 1)
  }

  lemma {:induction false} Pow2Split(m: nat, n: nat)
    ensures Pow2(m + n) == Pow2(m) * Pow2(n)
  {
    if m > 0 {
      Pow2Split(m - 1, n);
      assert 2 * (Pow2(m - 1) * Pow2(n)) == (2 * Pow2(m - 1)) * Pow2(n);
    }
  }

  lemma SmallPowers()
    ensures Pow2(4) == 16 && Pow2(8) == 0x100 && Pow2(16) == 0x1_0000 && Pow2(32) == 0x1_0000_0000
  {
    assert Pow2(2) == 4;
    Pow2Split(2, 2);
    Pow2Split(4, 4);
    Pow2Split(8, 8);
    Pow2Split(16, 16);
  }

  lemma Pow2Of64()
    ensures Pow2(64) == 0x1_0000_0000_0000_0000
    ensures Pow2(63) == 0x8000_0000_0000_0000
  {
    SmallPowers();
    Pow2Split(32, 32);
    Pow2Split(1, 63);
  }

  lemma ProductNonNegative(x: nat, y: nat)
    ensures x * y >= 0
  {
  }

  lemma QuotientBound(a: nat, p: nat)
    requires p >= 1
    ensures 0 <= a / p <= a
  {
    var q := a / p;
    ProductNonNegative(q, p - 1);
    assert q * p == q * (p - 1) + q;
  }

  /** Logical right shift. */
  function ShiftRight(a: Word, k: nat): Word {
    QuotientBound(a, Pow2(k));
    a / Pow2(k)
  }

  datatype BitOp = AND | OR | XOR {
    /** The operation on one pair of bits. */
    function Bit(x: bool, y: bool): bool {
      match this
      case AND => x && y
      case OR => x || y
      case XOR => x != y
    }

    /** The operation on the low n bits of two numbers. */
    function Apply(n: nat, x: nat, y: nat): (r: nat)
      ensures r < Pow2(n)
    {
      if n == 0 then 0
      else 2 * Apply(n - 1, x / 2, y / 2) + (if Bit(x % 2 == 1, y % 2 == 1) then 1 else 0)
    }

    function Word64(x: Word, y: Word): Word {
      Pow2Of64();
      Apply(64, x, y)
    }
  }

  lemma {:induction false} OrAssociates(n: nat, x: nat, y: nat, z: nat)
    ensures OR.Apply(n, OR.Apply(n, x, y), z) == OR.Apply(n, x, OR.Apply(n, y, z))
  {
    if n > 0 {
      OrAssociates(n - 1, x / 2, y / 2, z / 2);
    }
  }

  lemma {:induction false} OrZero(n: nat, x: nat)
    requires x < Pow2(n)
    ensures OR.Apply(n, x, 0) == x
  {
    if n > 0 {
      OrZero(n - 1, x / 2);
    }
  }

  lemma HalfOfParts(high: nat, low: nat, p: nat)
    requires low < 2 * p
    ensures high * (2 * p) + low >= 0 && (high * (2 * p) + low) / 2 == high * p + low / 2 && (high * (2 * p) + low) % 2 == low % 2
  {
    ProductNonNegative(high, p);
    assert high * (2 * p) == 2 * (high * p);
    var h := high * p;
    DivModUnique(2 * h + low, 2, h + low / 2, low % 2);
  }

  lemma OrUnfold(n: nat, x: nat, y: nat)
    requires n > 0
    ensures OR.Apply(n, x, y) == 2 * OR.Apply(n - 1, x / 2, y / 2) + (if x % 2 == 1 || y % 2 == 1 then 1 else 0)
  {
  }

  lemma OrStep(n: nat, half: nat, y: nat)
    requires n > 0
    ensures OR.Apply(n, 2 * half, y) == 2 * OR.Apply(n - 1, half, y / 2) + y % 2
  {
    hide BitOp.Apply;
    OrUnfold(n, 2 * half, y);
    assert 2 * half / 2 == half;
  }

  /** OR of a multiple of 2^k and a number below 2^k is their sum. */
  lemma {:induction false} OrDisjointIsSum(n: nat, k: nat, q: nat, y: nat)
    requires k <= n && q * Pow2(k) < Pow2(n) && y < Pow2(k)
    ensures q * Pow2(k) >= 0 && OR.Apply(n, q * Pow2(k), y) == q * Pow2(k) + y
  {
    hide BitOp.Apply;
    ProductNonNegative(q, Pow2(k));
    if k > 0 {
      var half := q * Pow2(k - 1);
      ProductNonNegative(q, Pow2(k - 1));
      DoubleProduct(q, Pow2(k - 1));
      OrDisjointIsSum(n - 1, k - 1, q, y / 2);
      OrStep(n, half, y);
    } else {
      OrZero(n, q * Pow2(0));
    }
  }

  lemma DoubleProduct(q: nat, p: nat)
    ensures q * (2 * p) == 2 * (q * p)
  {
  }

  lemma MultipleModulo(q: nat, p: nat)
    requires p > 0
    ensures (q * p) % p == 0 && (q * p) / p == q
  {
    DivModUnique(q * p, p, q, 0);
  }

  lemma MultipleIsFar(q: int, d: int)
    requires d > 0
    ensures q >= 1 ==> q * d >= d
    ensures q <= -1 ==> q * d <= -d
  {
  }

  lemma DivModUnique(n: int, d: int, q: int, r: int)
    requires d > 0 && 0 <= r < d && n == q * d + r
    ensures n / d == q && n % d == r
  {
    var q', r' := n / d, n % d;
    assert (q - q') * d == r' - r;
    MultipleIsFar(q - q', d);
  }

  lemma ModuloSplit(n: nat, a: nat, b: nat)
    requires a > 0 && b > 0
    ensures a * b > 0 && n % (a * b) == n % a + a * (n / a % b) && n / (a * b) == n / a / b
  {
    var q := n / a / b;
    var r := n % a + a * (n / a % b);
    assert n / a == q * b + n / a % b;
    assert n == (q * b + n / a % b) * a + n % a;
    assert (q * b) * a == q * (a * b);
    assert a * (n / a % b) <= a * (b - 1);
    assert a * (b - 1) == a * b - a;
    DivModUnique(n, a * b, q, r);
  }

  /** The carry, zero and sign bits of the flags register. */
  datatype Flags = Flags(z: bool, c: bool, s: bool)

  // ---------------------------------------------------------------- byte lanes

  type Line = s: seq<Byte> | |s| == 8 witness [0, 0, 0, 0, 0, 0, 0, 0]
  type Select = s: seq<bool> | |s| == 8 witness [false, false, false, false, false, false, false, false]

  const ZEROES: Line := [0, 0, 0, 0, 0, 0, 0, 0]
  const NONE: Select := [false, false, false, false, false, false, false, false]
  const ALL: Select := [true, true, true, true, true, true, true, true]

  /** The low n byte lanes of a number, least significant first. */
  function Lanes(n: nat, w: nat): (l: seq<Byte>)
    ensures |l| == n
  {
    if n == 0 then [] else [w % 0x100] + Lanes(n - 1, w / 0x100)
  }

  /** The number held by byte lanes, least significant first. */
  function Number(l: seq<Byte>): nat {
    if l == [] then 0 else l[0] as int + 0x100 * Number(l[1..])
  }

  lemma {:induction false} NumberBound(l: seq<Byte>)
    ensures Number(l) < Pow2(8 * |l|)
  {
    if l != [] {
      NumberBound(l[1..]);
      Pow2Split(8, 8 * (|l| - 1));
      SmallPowers();
    }
  }

  lemma {:induction false} LanesNumber(l: seq<Byte>)
    ensures Lanes(|l|, Number(l)) == l
  {
    if l != [] {
      LanesNumber(l[1..]);
    }
  }

  lemma {:induction false} NumberLanes(n: nat, w: nat)
    ensures Number(Lanes(n, w)) == w % Pow2(8 * n)
  {
    if n > 0 {
      NumberLanes(n - 1, w / 0x100);
      Pow2Split(8, 8 * (n - 1));
      SmallPowers();
      ModuloSplit(w, 0x100, Pow2(8 * (n - 1)));
    }
  }

  lemma {:induction false} LaneAt(n: nat, w: nat, j: nat)
    requires j < n
    ensures Lanes(n, w)[j] == w / Pow2(8 * j) % 0x100
  {
    if j > 0 {
      LaneAt(n - 1, w / 0x100, j - 1);
      Pow2Split(8, 8 * (j - 1));
      SmallPowers();
      ModuloSplit(w, 0x100, Pow2(8 * (j - 1)));
    }
  }

  /** The eight byte lanes of a word. */
  function Split(w: Word): Line {
    Lanes(8, w)
  }

  function Join(l: Line): Word {
    NumberBound(l);
    Pow2Of64();
    Number(l)
  }

  lemma JoinSplit(w: Word)
    ensures Join(Split(w)) == w
  {
    hide Pow2, Number, Lanes;
    NumberLanes(8, w);
    Pow2Of64();
  }

  // ---------------------------------------------------------------- memory

  type Memory = map<Word, Byte>

  function Peek(m: Memory, a: Word): Byte {
    if a in m then m[a] else 0xFF
  }

  /** The eight bytes at a, at any alignment, with the address wrapping mod 2^64. */
  function Block(m: Memory, a: Word): (l: Line)
    ensures forall i :: 0 <= i < 8 ==> l[i] == Peek(m, Plus(a, i))
  {
    seq(8, i requires 0 <= i < 8 => Peek(m, Plus(a, i)))
  }

  function LaneByte(old_: Byte, k: nat, sel: Select, dat: Line): Byte {
    if k < 8 && sel[k] then dat[k] else old_
  }

  /** Writes the selected lanes of dat to the eight bytes at a, at any alignment. */
  function Store(m: Memory, a: Word, sel: Select, dat: Line): Memory {
    map x | x in m :: LaneByte(m[x], Minus(x, a), sel, dat)
  }

  // ---------------------------------------------------------------- unaligned accesses as two aligned beats

  function Offset(a: Word): (k: nat)
    ensures k < 8
  {
    a % 8
  }

  function Base(a: Word): Word {
    a - a % 8
  }

  /** A lane vector moved up by off lanes inside a double-width vector. */
  function Shift<T>(fill: seq<T>, s: seq<T>, off: nat): (r: seq<T>)
    requires |fill| == |s| == 8 && off < 8
    ensures |r| == 16
    ensures forall p :: off <= p < off + 8 ==> r[p] == s[p - off]
    ensures forall p :: 0 <= p < off ==> r[p] == fill[p]
    ensures forall p :: off + 8 <= p < 16 ==> r[p] == fill[p - 8]
  {
    fill[..off] + s + fill[off..]
  }

  lemma BeatOfLane(x: Word, a: Word)
    ensures
      var off := Offset(a);
      var k, i, j := Minus(x, a), Minus(x, Base(a)), Minus(x, Plus(Base(a), 8));
      && (k < 8 && off + k < 8 ==> i == off + k && j >= 8)
      && (k < 8 && off + k >= 8 ==> j == off + k - 8 && i >= 8)
      && (k >= 8 ==> (i < 8 ==> i < off) && (j < 8 ==> j >= off))
  {
  }

  lemma TwoBeatByte(old_: Byte, x: Word, a: Word, sel: Select, dat: Line)
    ensures
      var s, d := Shift(NONE, sel, Offset(a)), Shift(ZEROES, dat, Offset(a));
      var first := LaneByte(old_, Minus(x, Base(a)), s[..8], d[..8]);
      && LaneByte(first, Minus(x, Plus(Base(a), 8)), s[8..], d[8..]) == LaneByte(old_, Minus(x, a), sel, dat)
      && LaneByte(first, Minus(x, a), sel, dat) == LaneByte(old_, Minus(x, a), sel, dat)
  {
    BeatOfLane(x, a);
    BeatBytes(old_, Offset(a), Minus(x, a), Minus(x, Base(a)), Minus(x, Plus(Base(a), 8)), sel, dat);
  }

  lemma BeatBytes(old_: Byte, off: nat, k: nat, i: nat, j: nat, sel: Select, dat: Line)
    requires off < 8
    requires k < 8 && off + k < 8 ==> i == off + k && j >= 8
    requires k < 8 && off + k >= 8 ==> j == off + k - 8 && i >= 8
    requires k >= 8 ==> (i < 8 ==> i < off) && (j < 8 ==> j >= off)
    ensures
      var s, d := Shift(NONE, sel, off), Shift(ZEROES, dat, off);
      var first := LaneByte(old_, i, s[..8], d[..8]);
      && LaneByte(first, j, s[8..], d[8..]) == LaneByte(old_, k, sel, dat)
      && LaneByte(first, k, sel, dat) == LaneByte(old_, k, sel, dat)
  {
    var s := Shift(NONE, sel, off);
    assert forall p :: 0 <= p < off || off + 8 <= p < 16 ==> !s[p];
  }

  /** Two aligned byte-select writes of the shifted lanes are one unaligned write. */
  lemma TwoBeatStore(m: Memory, a: Word, sel: Select, dat: Line)
    ensures
      var s, d := Shift(NONE, sel, Offset(a)), Shift(ZEROES, dat, Offset(a));
      Store(Store(m, Base(a), s[..8], d[..8]), Plus(Base(a), 8), s[8..], d[8..]) == Store(m, a, sel, dat)
  {
    forall x | x in m {
      TwoBeatByte(m[x], x, a, sel, dat);
    }
  }

  /** The whole unaligned write absorbs its own first beat. */
  lemma FirstBeatAbsorbed(m: Memory, a: Word, sel: Select, dat: Line)
    ensures
      var s, d := Shift(NONE, sel, Offset(a)), Shift(ZEROES, dat, Offset(a));
      Store(Store(m, Base(a), s[..8], d[..8]), a, sel, dat) == Store(m, a, sel, dat)
  {
    forall x | x in m {
      TwoBeatByte(m[x], x, a, sel, dat);
    }
  }

  lemma StoreTwice(m: Memory, a: Word, sel: Select, dat: Line)
    ensures Store(Store(m, a, sel, dat), a, sel, dat) == Store(m, a, sel, dat)
  {
  }

  /** A write that selects nothing changes nothing. */
  lemma StoreNone(m: Memory, a: Word, sel: Select, dat: Line)
    requires sel == NONE
    ensures Store(m, a, sel, dat) == m
  {
  }

  /** The two aligned blocks around a contain the unaligned block at a. */
  lemma TwoBeatLoad(m: Memory, a: Word)
    ensures (Block(m, Base(a)) + Block(m, Plus(Base(a), 8)))[Offset(a)..Offset(a) + 8] == Block(m, a)
  {
  }
}
