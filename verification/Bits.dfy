/** The single bits of a number, and what the bitwise operations do to them. */
module Bits {
  import opened Words

  predicate Bit(w: nat, k: nat) { w / Pow2(k) % 2 == 1 }

  lemma BitShift(w: nat, k: nat)
    requires k > 0
    ensures Bit(w, k) == Bit(w / 2, k - 1)
  {
    ModuloSplit(w, 2, Pow2(k - 1));
  }

  lemma BitZero(w: nat)
    ensures Bit(w, 0) == (w % 2 == 1)
  {
  }

  lemma {:induction false} BitOfResult(op: BitOp, n: nat, x: nat, y: nat, k: nat)
    requires k < n
    ensures Bit(op.Apply(n, x, y), k) <==> op.Bit(Bit(x, k), Bit(y, k))
  {
    hide Bit;
    var r := op.Apply(n, x, y);
    assert r % 2 == 1 <==> op.Bit(x % 2 == 1, y % 2 == 1);
    assert r / 2 == op.Apply(n - 1, x / 2, y / 2);
    if k == 0 {
      BitZero(r);
      BitZero(x);
      BitZero(y);
    } else {
      BitShift(r, k);
      BitShift(x, k);
      BitShift(y, k);
      BitOfResult(op, n - 1, x / 2, y / 2, k - 1);
    }
  }

  lemma {:induction false} BitOfPower(j: nat, k: nat)
    ensures Bit(Pow2(j), k) <==> j == k
    decreases k
  {
    if k == 0 {
      BitZero(Pow2(j));
    } else {
      BitShift(Pow2(j), k);
      if j > 0 {
        BitOfPower(j - 1, k - 1);
      } else {
        NoHighBits(k - 1);
      }
    }
  }

  lemma NoHighBits(k: nat)
    ensures !Bit(0, k)
  {
  }

  /** Count of trailing zeros. */
  function TrailingZeros(w: nat): nat
    requires w > 0
  {
    if w % 2 == 1 then 0 else 1 + TrailingZeros(w / 2)
  }

  lemma {:induction false} LowestBit(w: nat)
    requires w > 0
    ensures Bit(w, TrailingZeros(w))
    ensures forall k :: 0 <= k < TrailingZeros(w) ==> !Bit(w, k)
  {
    BitZero(w);
    if w % 2 == 0 {
      LowestBit(w / 2);
      BitShift(w, TrailingZeros(w));
      forall k | 0 < k < TrailingZeros(w)
        ensures !Bit(w, k)
      {
        BitShift(w, k);
      }
    }
  }

  lemma {:induction false} NoBitsIsZero(n: nat, w: nat)
    requires w < Pow2(n) && forall k :: 0 <= k < n ==> !Bit(w, k)
    ensures w == 0
  {
    if n > 0 {
      BitZero(w);
      assert !Bit(w, 0);
      forall k | 0 <= k < n - 1
        ensures !Bit(w / 2, k)
      {
        BitShift(w, k + 1);
        assert !Bit(w, k + 1);
      }
      NoBitsIsZero(n - 1, w / 2);
    }
  }

  lemma {:induction false} AndZero(n: nat, x: nat)
    ensures AND.Apply(n, x, 0) == 0
  {
    if n > 0 {
      AndZero(n - 1, x / 2);
    }
  }

  /** Subtracting from all ones flips every bit. */
  lemma {:induction false} ComplementBit(n: nat, w: nat, k: nat)
    requires w < Pow2(n) && k < n
    ensures Bit(Pow2(n) - 1 - w, k) <==> !Bit(w, k)
  {
    var c := Pow2(n) - 1 - w;
    DivModUnique(c, 2, Pow2(n - 1) - 1 - w / 2, 1 - w % 2);
    if k == 0 {
      BitZero(c);
      BitZero(w);
    } else {
      BitShift(c, k);
      BitShift(w, k);
      ComplementBit(n - 1, w / 2, k - 1);
    }
  }

  lemma OnesBelow(n: nat, k: nat)
    requires k < n
    ensures Bit(Pow2(n) - 1, k)
  {
    ComplementBit(n, 0, k);
    NoHighBits(k);
  }

  /** A number made of a high part and a low part of j bits. */
  lemma {:induction false} BitOfParts(high: nat, low: nat, j: nat, k: nat)
    requires low < Pow2(j)
    ensures high * Pow2(j) + low >= 0
    ensures Bit(high * Pow2(j) + low, k) <==> if k < j then Bit(low, k) else Bit(high, k - j)
  {
    hide Bit;
    ProductNonNegative(high, Pow2(j));
    var w := high * Pow2(j) + low;
    if j > 0 {
      HalfOfParts(high, low, Pow2(j - 1));
      if k == 0 {
        BitZero(w);
        BitZero(low);
      } else {
        BitShift(w, k);
        BitShift(low, k);
        BitOfParts(high, low / 2, j - 1, k - 1);
      }
    }
  }

  /** Numbers with the same bits are the same. */
  lemma {:induction false} SameBits(n: nat, x: nat, y: nat)
    requires x < Pow2(n) && y < Pow2(n) && forall k :: 0 <= k < n ==> (Bit(x, k) <==> Bit(y, k))
    ensures x == y
  {
    if n > 0 {
      BitZero(x);
      BitZero(y);
      assert Bit(x, 0) <==> Bit(y, 0);
      forall k | 0 <= k < n - 1
        ensures Bit(x / 2, k) <==> Bit(y / 2, k)
      {
        BitShift(x, k + 1);
        BitShift(y, k + 1);
        assert Bit(x, k + 1) <==> Bit(y, k + 1);
      }
      SameBits(n - 1, x / 2, y / 2);
    }
  }

  lemma {:induction false} NoBitsAbove(n: nat, w: nat, k: nat)
    requires w < Pow2(n) && k >= n
    ensures !Bit(w, k)
    decreases n
  {
    if n > 0 {
      BitShift(w, k);
      NoBitsAbove(n - 1, w / 2, k - 1);
    } else {
      NoHighBits(k);
    }
  }
}
