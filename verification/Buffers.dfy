/** Byte buffers of fixed size written in place, and what a write leaves alone. */
module Buffers {
  import opened Words

  function Splice(s: seq<Byte>, offset: nat, data: seq<Byte>): (r: seq<Byte>)
    requires offset + |data| <= |s|
    ensures |r| == |s|
  {
    s[..offset] + data + s[offset + |data|..]
  }

  lemma SpliceKeeps(s: seq<Byte>, offset: nat, data: seq<Byte>, a: nat, b: nat)
    requires offset + |data| <= |s| && a <= b <= |s| && (b <= offset || offset + |data| <= a)
    ensures Splice(s, offset, data)[a..b] == s[a..b]
  {
  }

  lemma SpliceHolds(s: seq<Byte>, offset: nat, data: seq<Byte>)
    requires offset + |data| <= |s|
    ensures Splice(s, offset, data)[offset..offset + |data|] == data
  {
  }

  lemma SpliceTwice(s: seq<Byte>, offset: nat, data: seq<Byte>, more: seq<Byte>)
    requires offset + |data| + |more| <= |s|
    ensures Splice(Splice(s, offset, data), offset + |data|, more) == Splice(s, offset, data + more)
  {
  }

  /** A zero-filled buffer of fixed size, written in place. */
  class Buffer {
    const bytes: array<Byte>

    constructor (size: nat)
      ensures fresh(bytes) && bytes.Length == size && forall k :: 0 <= k < size ==> bytes[k] == 0
    {
      bytes := new Byte[size](_ => 0);
    }

    method Put(offset: nat, data: seq<Byte>)
      requires offset + |data| <= bytes.Length
      modifies bytes
      ensures bytes[..] == Splice(old(bytes[..]), offset, data)
    {
      forall k | 0 <= k < |data| {
        bytes[offset + k] := data[k];
      }
    }

    /** A write seen through the parts of the buffer: this part is data, parts beside it are as before. */
    method PutField(offset: nat, data: seq<Byte>)
      requires offset + |data| <= bytes.Length
      modifies bytes
      ensures Part(bytes[..], offset, offset + |data|) == data
      ensures SameOutside(old(bytes[..]), bytes[..], offset, offset + |data|)
    {
      Put(offset, data);
      OnlySpliced(old(bytes[..]), offset, data);
    }
  }

  function Part(s: seq<Byte>, a: int, b: int): seq<Byte>
    requires 0 <= a <= b <= |s|
  {
    s[a..b]
  }

  /** Every part that does not meet from..to is the same. */
  ghost predicate SameOutside(s: seq<Byte>, s': seq<Byte>, from: int, to: int) {
    && |s| == |s'|
    && forall a, b :: 0 <= a <= b <= |s| && (b <= from || to <= a) ==> Part(s', a, b) == Part(s, a, b)
  }

  lemma PartKept(s: seq<Byte>, s': seq<Byte>, from: int, to: int, a: int, b: int)
    requires SameOutside(s, s', from, to) && 0 <= a <= b <= |s| && (b <= from || to <= a)
    ensures Part(s', a, b) == Part(s, a, b)
  {
  }

  lemma OnlySpliced(s: seq<Byte>, offset: nat, data: seq<Byte>)
    requires offset + |data| <= |s|
    ensures SameOutside(s, Splice(s, offset, data), offset, offset + |data|)
  {
    forall a, b | 0 <= a <= b <= |s| && (b <= offset || offset + |data| <= a)
      ensures Part(Splice(s, offset, data), a, b) == Part(s, a, b)
    {
      SpliceKeeps(s, offset, data, a, b);
    }
  }

  lemma LittleEndian(n: nat, v: nat)
    ensures n == 4 && v < 0x1_0000_0000 ==> Number(Lanes(n, v)) == v
    ensures n == 2 && v < 0x1_0000 ==> Number(Lanes(n, v)) == v
  {
    hide Pow2, Number, Lanes;
    NumberLanes(n, v);
    SmallPowers();
  }

  lemma LittleEndianWord(v: Word)
    ensures Number(Lanes(8, v)) == v
  {
    hide Pow2, Number, Lanes;
    NumberLanes(8, v);
    Pow2Of64();
  }
}
