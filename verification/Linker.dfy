/** The built-in linker (host/linker/linker.cpp): a layout pass fixes where every section goes, then an
    emission pass appends the sections and patches their relocations. */
module Linker {
  import opened Words
  import opened Instructions
  import opened Beats
  import E = Emulator

  const R_ABS64 := 1
  const R_ABS32 := 2
  const R_PCREL6 := 3
  const R_PCREL10 := 4
  const R_PCREL13 := 5

  datatype Reloc = Reloc(offset: nat, sym: nat, kind: nat, addend: int)

  /** The section a symbol's index names; rodata symbols carry their section's place in the blob. */
  datatype Home = Text | Rodata(at: nat) | Data | Bss | Undefined | Unsupported

  datatype Symbol = Symbol(name: string, home: Home, value: Word)

  /** An object file as parsed. Symbol indices start at 1; syms[0] stands for the null entry. */
  datatype Object = Object(
    text: seq<Byte>, rodata: seq<Byte>, data: seq<Byte>, bssSize: nat,
    textRelocs: seq<Reloc>, rodataRelocs: seq<Reloc>, dataRelocs: seq<Reloc>,
    syms: seq<Symbol>
  )

  function Wrap(n: int): Word { n % 0x1_0000_0000_0000_0000 }

  // ---------------------------------------------------------------- layout

  datatype Layout = Layout(text: nat, rodata: nat, data: nat, bss: nat, end: nat)

  function Align(n: nat): (r: nat)
    ensures r % 2 == 0 && n <= r <= n + 1
  {
    n + n % 2
  }

  function LayoutAt(o: Object, start: nat): Layout {
    var text := Align(start);
    var rodata := Align(text + |o.text|);
    var data := Align(rodata + |o.rodata|);
    var bss := Align(data + |o.data|);
    Layout(text, rodata, data, bss, bss + o.bssSize)
  }

  function Layouts(objs: seq<Object>): (ls: seq<Layout>)
    ensures |ls| == |objs|
  {
    if objs == [] then []
    else
      var before := Layouts(objs[..|objs| - 1]);
      before + [LayoutAt(objs[|objs| - 1], End(before))]
  }

  function End(ls: seq<Layout>): nat {
    if ls == [] then 0 else ls[|ls| - 1].end
  }

  lemma {:induction false} LayoutsPrefix(objs: seq<Object>, n: nat)
    requires n <= |objs|
    ensures Layouts(objs)[..n] == Layouts(objs[..n])
    decreases |objs|
  {
    if n < |objs| {
      LayoutsPrefix(objs[..|objs| - 1], n);
      assert objs[..|objs| - 1][..n] == objs[..n];
      assert Layouts(objs)[..n] == Layouts(objs[..|objs| - 1])[..n];
    } else {
      assert objs[..n] == objs;
    }
  }

  lemma LayoutsNext(objs: seq<Object>, n: nat)
    requires n < |objs|
    ensures Layouts(objs)[n] == LayoutAt(objs[n], End(Layouts(objs)[..n]))
  {
    LayoutsPrefix(objs, n + 1);
    LayoutsPrefix(objs, n);
    assert objs[..n + 1][..n] == objs[..n];
    assert Layouts(objs)[n] == Layouts(objs)[..n + 1][n];
  }

  /** Sections of different objects never meet, later objects lie higher, and every base is even. */
  lemma {:induction false} LayoutsAreDisjoint(objs: seq<Object>, i: nat, j: nat)
    requires i < j < |objs|
    ensures
      var a, b := Layouts(objs)[i], Layouts(objs)[j];
      && a.text + |objs[i].text| <= a.rodata && a.rodata + |objs[i].rodata| <= a.data
      && a.data + |objs[i].data| <= a.bss && a.bss + objs[i].bssSize <= a.end <= b.text
      && a.text % 2 == 0 && a.rodata % 2 == 0 && a.data % 2 == 0 && a.bss % 2 == 0
    decreases j
  {
    LayoutsNext(objs, i);
    LayoutsNext(objs, j);
    if i + 1 < j {
      LayoutsAreDisjoint(objs, i, j - 1);
      LayoutsNext(objs, j - 1);
    }
  }

  method Even(address: nat) returns (next: nat)
    ensures next == Align(address)
  {
    next := address;
    if next % 2 != 0 {
      next := next + 1;
    }
  }

  /** The layout pass. */
  method ComputeLayouts(objs: seq<Object>) returns (layouts: seq<Layout>)
    ensures layouts == Layouts(objs)
  {
    hide Align;
    layouts := [];
    var next := 0;
    for n := 0 to |objs|
      invariant layouts == Layouts(objs[..n]) && next == End(layouts)
    {
      var o := objs[n];
      var text := Even(next);
      next := text + |o.text|;
      var rodata := Even(next);
      next := rodata + |o.rodata|;
      var data := Even(next);
      next := data + |o.data|;
      var bss := Even(next);
      next := bss + o.bssSize;
      layouts := layouts + [Layout(text, rodata, data, bss, next)];
      assert objs[..n + 1][..n] == objs[..n];
    }
    assert objs[..|objs|] == objs;
  }

  // ---------------------------------------------------------------- symbols

  predicate Defines(s: Symbol) { s.name != "" && !s.home.Undefined? && !s.home.Unsupported? }

  function Address(s: Symbol, lay: Layout): Word {
    match s.home
    case Text => Wrap(lay.text + s.value)
    case Rodata(at) => Wrap(lay.rodata + at + s.value)
    case Data => Wrap(lay.data + s.value)
    case _ => Wrap(lay.bss + s.value)
  }

  predicate DefinesAt(objs: seq<Object>, i: int, k: int) {
    0 <= i < |objs| && 1 <= k < |objs[i].syms| && Defines(objs[i].syms[k])
  }

  /** No name is defined twice. */
  ghost predicate UniqueNames(objs: seq<Object>) {
    forall i, k, i', k' ::
      DefinesAt(objs, i, k) && DefinesAt(objs, i', k') && objs[i].syms[k].name == objs[i'].syms[k'].name ==> i == i' && k == k'
  }

  /** Symbol k of object i lies before symbol m of object n. */
  predicate Before(i: int, k: int, n: int, m: int) { i < n || (i == n && k < m) }

  /** The last definition of its name before symbol m of object n. */
  ghost predicate LastDefinition(objs: seq<Object>, i: int, k: int, n: int, m: int) {
    && DefinesAt(objs, i, k) && Before(i, k, n, m)
    && forall i', k' :: DefinesAt(objs, i', k') && Before(i', k', n, m) && objs[i'].syms[k'].name == objs[i].syms[k].name ==>
         !Before(i, k, i', k')
  }

  /** The table when the scan stands at symbol m of object n: exactly the names defined so far, each
      at the address of its last definition. */
  ghost predicate TableUpTo(t: map<string, Word>, objs: seq<Object>, ls: seq<Layout>, n: int, m: int)
    requires |ls| == |objs|
  {
    && (forall i, k :: DefinesAt(objs, i, k) && Before(i, k, n, m) ==> objs[i].syms[k].name in t)
    && forall name :: name in t ==>
         exists i, k :: LastDefinition(objs, i, k, n, m) && objs[i].syms[k].name == name && t[name] == Address(objs[i].syms[k], ls[i])
  }

  ghost predicate IsTable(t: map<string, Word>, objs: seq<Object>, ls: seq<Layout>)
    requires |ls| == |objs|
  {
    TableUpTo(t, objs, ls, |objs|, 0)
  }

  /** With unique names every symbol resolves to its own definition. */
  lemma ResolvesToDefinition(t: map<string, Word>, objs: seq<Object>, ls: seq<Layout>, i: int, k: int)
    requires |ls| == |objs| && IsTable(t, objs, ls) && UniqueNames(objs) && DefinesAt(objs, i, k)
    ensures objs[i].syms[k].name in t && t[objs[i].syms[k].name] == Address(objs[i].syms[k], ls[i])
  {
    assert Before(i, k, |objs|, 0);
  }

  lemma TableStep(t: map<string, Word>, objs: seq<Object>, ls: seq<Layout>, n: int, m: int)
    requires |ls| == |objs| && 0 <= n < |objs| && 1 <= m < |objs[n].syms| && TableUpTo(t, objs, ls, n, m)
    ensures
      var s := objs[n].syms[m];
      TableUpTo(if Defines(s) then t[s.name := Address(s, ls[n])] else t, objs, ls, n, m + 1)
  {
    var s := objs[n].syms[m];
    var t' := if Defines(s) then t[s.name := Address(s, ls[n])] else t;
    forall i, k | DefinesAt(objs, i, k) && Before(i, k, n, m + 1)
      ensures objs[i].syms[k].name in t'
    {
      assert Before(i, k, n, m) || (i == n && k == m);
    }
    forall name | name in t'
      ensures exists i, k :: LastDefinition(objs, i, k, n, m + 1) && objs[i].syms[k].name == name && t'[name] == Address(objs[i].syms[k], ls[i])
    {
      if Defines(s) && name == s.name {
        assert LastDefinition(objs, n, m, n, m + 1);
      } else {
        var i, k :| LastDefinition(objs, i, k, n, m) && objs[i].syms[k].name == name && t[name] == Address(objs[i].syms[k], ls[i]);
        assert LastDefinition(objs, i, k, n, m + 1) by {
          LastDefinitionMoves(objs, i, k, n, m, n, m + 1);
        }
      }
    }
  }

  /** Moving the scan over symbols that do not define the name. */
  lemma LastDefinitionMoves(objs: seq<Object>, i: int, k: int, n: int, m: int, n': int, m': int)
    requires LastDefinition(objs, i, k, n, m)
    requires !Before(n', m', n, m)
    requires forall i', k' :: DefinesAt(objs, i', k') && Before(i', k', n', m') && !Before(i', k', n, m) ==>
               objs[i'].syms[k'].name != objs[i].syms[k].name
    ensures LastDefinition(objs, i, k, n', m')
  {
  }

  lemma TableNextObject(t: map<string, Word>, objs: seq<Object>, ls: seq<Layout>, n: int, m: int)
    requires |ls| == |objs| && 0 <= n < |objs| && |objs[n].syms| <= m && TableUpTo(t, objs, ls, n, m)
    ensures TableUpTo(t, objs, ls, n + 1, 0)
  {
    TableMoves(t, objs, ls, n, m, n + 1, 0);
  }

  /** Moving the scan over no definitions at all. */
  lemma TableMoves(t: map<string, Word>, objs: seq<Object>, ls: seq<Layout>, n: int, m: int, n': int, m': int)
    requires |ls| == |objs| && TableUpTo(t, objs, ls, n, m) && !Before(n', m', n, m)
    requires forall i, k :: DefinesAt(objs, i, k) && Before(i, k, n', m') ==> Before(i, k, n, m)
    ensures TableUpTo(t, objs, ls, n', m')
  {
    forall name | name in t
      ensures exists i, k :: LastDefinition(objs, i, k, n', m') && objs[i].syms[k].name == name && t[name] == Address(objs[i].syms[k], ls[i])
    {
      var i, k :| LastDefinition(objs, i, k, n, m) && objs[i].syms[k].name == name && t[name] == Address(objs[i].syms[k], ls[i]);
      LastDefinitionMoves(objs, i, k, n, m, n', m');
    }
  }

  /** The symbol pass. */
  method BuildSymbolTable(objs: seq<Object>, ls: seq<Layout>) returns (t: map<string, Word>)
    requires |ls| == |objs|
    ensures IsTable(t, objs, ls)
  {
    hide TableUpTo;
    t := map[];
    EmptyTable(objs, ls);
    var n := 0;
    while n < |objs|
      invariant 0 <= n <= |objs| && TableUpTo(t, objs, ls, n, 0)
    {
      var m := 1;
      TableMoves(t, objs, ls, n, 0, n, 1);
      while m < |objs[n].syms|
        invariant 1 <= m && TableUpTo(t, objs, ls, n, m)
      {
        var s := objs[n].syms[m];
        TableStep(t, objs, ls, n, m);
        if Defines(s) {
          t := t[s.name := Address(s, ls[n])];
        }
        m := m + 1;
      }
      TableNextObject(t, objs, ls, n, m);
      n := n + 1;
    }
  }

  lemma EmptyTable(objs: seq<Object>, ls: seq<Layout>)
    requires |ls| == |objs|
    ensures TableUpTo(map[], objs, ls, 0, 0)
  {
  }

  // ---------------------------------------------------------------- relocations

  /** Why a link fails; the source returns the first failure it meets. */
  datatype Outcome =
    | Linked | UnknownKind | OutOfSection | InvalidSymbol | UndefinedSymbol | PatchOutOfRange
    | WrongInstruction | Unaligned | OutOfReach | StateMismatch

  /** The bytes a relocation patches; 0 for a kind the linker does not know. */
  function FieldSize(kind: nat): nat {
    if kind == R_ABS64 then 8
    else if kind == R_ABS32 then 4
    else if kind == R_PCREL6 || kind == R_PCREL10 || kind == R_PCREL13 then 2
    else 0
  }

  predicate InField(r: Reloc, x: int) { r.offset <= x < r.offset + FieldSize(r.kind) }

  predicate Apart(r: Reloc, r': Reloc) {
    r.offset + FieldSize(r.kind) <= r'.offset || r'.offset + FieldSize(r'.kind) <= r.offset
  }

  ghost predicate DisjointFields(rs: seq<Reloc>) {
    forall i, j :: 0 <= i < j < |rs| ==> Apart(rs[i], rs[j])
  }

  function HalfAt(p: seq<Byte>, x: nat): Half
    requires x + 2 <= |p|
  {
    p[x] as int + 0x100 * p[x + 1] as int
  }

  /** The signed arithmetic of the PC-relative kinds: symbol plus addend. */
  function Target(sym: Word, addend: int): int { E.Signed(sym, 0x1_0000_0000_0000_0000) + addend }

  function Reach(target: int, patch: nat, bound: int): Outcome {
    var diff := target - (patch + 2);
    if diff % 2 != 0 then Unaligned
    else if -bound <= diff / 2 < bound then Linked
    else OutOfReach
  }

  function FieldCheck(kind: nat, instr: Half, target: int, patch: nat): Outcome {
    if kind == R_PCREL6 then Reach(target, patch, 32)
    else if kind == R_PCREL10 then
      if Format(instr) == 1 && LsOpcode(instr) >= 11 then Reach(target, patch, 512) else WrongInstruction
    else
      if IsLongJump(instr) then Reach(target, patch, 4096) else WrongInstruction
  }

  predicate Resolves(r: Reloc, syms: seq<Symbol>, t: map<string, Word>) {
    1 <= r.sym < |syms| && syms[r.sym].name in t
  }

  /** Whether a relocation of a section placed at base is acceptable, and if not why. */
  function Check(p: seq<Byte>, base: nat, r: Reloc, syms: seq<Symbol>, t: map<string, Word>): Outcome {
    if FieldSize(r.kind) == 0 then UnknownKind
    else if r.offset + FieldSize(r.kind) > |p| then OutOfSection
    else if !(1 <= r.sym < |syms|) then InvalidSymbol
    else if syms[r.sym].name !in t then UndefinedSymbol
    else if FieldSize(r.kind) != 2 then Linked
    else FieldCheck(r.kind, HalfAt(p, r.offset), Target(t[syms[r.sym].name], r.addend), base + r.offset)
  }

  /** What a patched field means: an absolute field holds the address; a PC-relative instruction keeps
      everything but its offset, and the CPU, adding the decoded offset to the advanced PC, gets the
      address. */
  predicate FieldHolds(now: seq<Byte>, was: seq<Byte>, base: nat, r: Reloc, address: Word)
    requires r.offset + FieldSize(r.kind) <= |now| == |was|
  {
    if r.kind == R_ABS64 then Number(now[r.offset..r.offset + 8]) == address
    else if r.kind == R_ABS32 then Number(now[r.offset..r.offset + 4]) == address % 0x1_0000_0000
    else if FieldSize(r.kind) == 2 then
      var i, i0, pc := HalfAt(now, r.offset), HalfAt(was, r.offset), Wrap(base + r.offset + 2);
      if r.kind == R_PCREL6 then
        i / 0x400 == i0 / 0x400 && i % 16 == i0 % 16 && E.Displace(pc, E.Signed(Rel6(i), 64) * 2) == address
      else if r.kind == R_PCREL10 then
        i / 0x400 == i0 / 0x400 && Format(i) == 1 && IsJump(LsOpcode(i)) && E.Displace(pc, E.Signed(Rel10(i), 1024) * 2) == address
      else
        IsLongJump(i) && IsLongJump(i0) && E.Displace(pc, E.Signed(Rel13(i), 8192) * 2) == address
    else false
  }

  lemma FieldHoldsFrame(now: seq<Byte>, was: seq<Byte>, now': seq<Byte>, was': seq<Byte>, base: nat, r: Reloc, address: Word)
    requires r.offset + FieldSize(r.kind) <= |now| == |was| == |now'| == |was'|
    requires forall x :: InField(r, x) ==> now[x] == now'[x] && was[x] == was'[x]
    requires FieldHolds(now, was, base, r, address)
    ensures FieldHolds(now', was', base, r, address)
  {
    var a, n := r.offset, FieldSize(r.kind);
    assert now[a..a + n] == now'[a..a + n];
    if n == 2 {
      assert InField(r, a) && InField(r, a + 1);
    }
  }

  lemma WrapsAlike(p: int, d: int, sym: Word, addend: int)
    requires p + d == Target(sym, addend)
    ensures E.Displace(Wrap(p), d) == Wrap(sym + addend)
  {
    SameResidue(Wrap(p) + d, p + d);
    SameResidue(p + d, sym + addend);
  }

  lemma SameResidue(a: int, b: int)
    requires a - b == 0 || (a - b) % 0x1_0000_0000_0000_0000 == 0
    ensures Wrap(a) == Wrap(b)
  {
  }

  /** The offset fields decode to the value encoded, and the rest of the instruction is kept. */
  lemma Field6(instr: Half, rel: int)
    requires -32 <= rel < 32
    ensures
      var i := With6(instr, rel);
      i / 0x400 == instr / 0x400 && i % 16 == instr % 16 && E.Signed(Rel6(i), 64) == rel
  {
    var high, field, low := instr / 0x400, rel % 64, instr % 16;
    var i := With6(instr, rel);
    SignedField(rel, 64);
    DivModUnique(i, 0x400, high, field * 16 + low);
    DivModUnique(i, 16, high * 64 + field, low);
    DivModUnique(high * 64 + field, 64, high, field);
  }

  /** A displacement in range is the two's-complement value of its field. */
  lemma SignedField(rel: int, size: nat)
    requires size > 0 && size % 2 == 0 && -(size / 2) <= rel < size / 2
    ensures E.Signed(rel % size, size) == rel
  {
    if rel >= 0 {
      DivModUnique(rel, size, 0, rel);
    } else {
      DivModUnique(rel, size, -1, rel + size);
    }
  }

  lemma Field10(instr: Half, rel: int)
    requires -512 <= rel < 512
    ensures
      var i := With10(instr, rel);
      i / 0x400 == instr / 0x400 && E.Signed(Rel10(i), 1024) == rel
  {
    SignedField(rel, 1024);
    DivModUnique(With10(instr, rel), 0x400, instr / 0x400, rel % 1024);
  }

  lemma Field13(instr: Half, rel: int)
    requires -4096 <= rel < 4096
    ensures
      var i := With13(instr, rel);
      i / 0x2000 == instr / 0x2000 && E.Signed(Rel13(i), 8192) == rel
  {
    SignedField(rel, 8192);
    DivModUnique(With13(instr, rel), 0x2000, instr / 0x2000, rel % 8192);
  }

  /** The instruction with its offset bits masked out and the new offset put in. */
  function With6(instr: Half, rel: int): Half { instr / 0x400 * 0x400 + rel % 64 * 16 + instr % 16 }
  function With10(instr: Half, rel: int): Half { instr / 0x400 * 0x400 + rel % 1024 }
  function With13(instr: Half, rel: int): Half { instr / 0x2000 * 0x2000 + rel % 8192 }

  function Instruction(kind: nat, instr: Half, rel: int): Half {
    if kind == R_PCREL6 then With6(instr, rel) else if kind == R_PCREL10 then With10(instr, rel) else With13(instr, rel)
  }

  // ---------------------------------------------------------------- emission

  /** The address a relocation resolves to, for both absolute and PC-relative kinds. */
  function Resolved(r: Reloc, syms: seq<Symbol>, t: map<string, Word>): Word
    requires Resolves(r, syms, t)
  {
    Wrap(t[syms[r.sym].name] + r.addend)
  }

  /** Any value that fits a half-word field and its patched instruction mean the same thing. */
  lemma PatchedField(now: seq<Byte>, was: seq<Byte>, base: nat, r: Reloc, sym: Word)
    requires FieldSize(r.kind) == 2 && r.offset + 2 <= |now| == |was|
    requires FieldCheck(r.kind, HalfAt(was, r.offset), Target(sym, r.addend), base + r.offset) == Linked
    requires
      var i0 := HalfAt(was, r.offset);
      var rel := (Target(sym, r.addend) - (base + r.offset + 2)) / 2;
      HalfAt(now, r.offset) == Instruction(r.kind, i0, rel)
    ensures FieldHolds(now, was, base, r, Wrap(sym + r.addend))
  {
    hide With6, With10, With13, Rel6, Rel10, Rel13, E.Signed, E.Displace, HalfAt;
    var i0 := HalfAt(was, r.offset);
    var pc := base + r.offset + 2;
    var rel := (Target(sym, r.addend) - pc) / 2;
    assert Reach(Target(sym, r.addend), base + r.offset, if r.kind == R_PCREL6 then 32 else if r.kind == R_PCREL10 then 512 else 4096) == Linked;
    WrapsAlike(pc, rel * 2, sym, r.addend);
    if r.kind == R_PCREL6 {
      Field6(i0, rel);
    } else if r.kind == R_PCREL10 {
      Field10(i0, rel);
    } else {
      Field13(i0, rel);
    }
  }

  /** The linked text being built. */
  class Image {
    var bytes: seq<Byte>

    constructor ()
      ensures bytes == []
    {
      bytes := [];
    }

    method PadTo(size: nat)
      modifies this
      ensures |bytes| == (if |old(bytes)| < size then size else |old(bytes)|)
      ensures old(bytes) <= bytes
      ensures forall k :: |old(bytes)| <= k < |bytes| ==> bytes[k] == 0
    {
      while |bytes| < size
        invariant |bytes| <= (if |old(bytes)| < size then size else |old(bytes)|)
        invariant old(bytes) <= bytes
        invariant forall k :: |old(bytes)| <= k < |bytes| ==> bytes[k] == 0
        decreases size - |bytes|
      {
        bytes := bytes + [0];
      }
    }

    method Halves() returns (words: seq<Half>)
      requires |bytes| % 2 == 0
      ensures BytesOf(words) == bytes
    {
      words := [];
      var i := 0;
      while i < |bytes| / 2
        invariant 0 <= i <= |bytes| / 2 && |words| == i
        invariant forall k :: 0 <= k < i ==> words[k] == HalfAt(bytes, 2 * k)
      {
        words := words + [HalfAt(bytes, 2 * i)];
        i := i + 1;
      }
      forall x | 0 <= x < |bytes|
        ensures BytesOf(words)[x] == bytes[x]
      {
        assert words[x / 2] == HalfAt(bytes, 2 * (x / 2));
      }
    }

    /** Writes the low n bytes of value, least significant first. */
    method WriteLittle(patch: nat, n: nat, value: Word)
      requires patch + n <= |bytes|
      modifies this
      ensures bytes == old(bytes)[..patch] + Lanes(n, value) + old(bytes)[patch + n..]
    {
      var j := 0;
      while j < n
        invariant 0 <= j <= n && |bytes| == |old(bytes)|
        invariant bytes == old(bytes)[..patch] + Lanes(n, value)[..j] + old(bytes)[patch + j..]
      {
        LaneAt(n, value, j);
        QuotientBound(value, Pow2(8 * j));
        bytes := bytes[patch + j := value / Pow2(8 * j) % 0x100];
        j := j + 1;
      }
    }

    method WriteHalf(patch: nat, h: Half)
      requires patch + 2 <= |bytes|
      modifies this
      ensures |bytes| == |old(bytes)| && HalfAt(bytes, patch) == h
      ensures forall x :: 0 <= x < |bytes| && !(patch <= x < patch + 2) ==> bytes[x] == old(bytes)[x]
    {
      bytes := bytes[patch := h % 0x100][patch + 1 := h / 0x100];
    }

    /** The PC-relative kinds: checks the instruction, then puts the offset into it. */
    method PatchRelative(kind: nat, patch: nat, target: int) returns (o: Outcome)
      requires FieldSize(kind) == 2 && patch + 2 <= |bytes|
      modifies this
      ensures |bytes| == |old(bytes)| && (o != Linked ==> bytes == old(bytes))
      ensures forall x :: 0 <= x < |bytes| && !(patch <= x < patch + 2) ==> bytes[x] == old(bytes)[x]
      ensures o == FieldCheck(kind, HalfAt(old(bytes), patch), target, patch)
      ensures o == Linked ==> HalfAt(bytes, patch) == Instruction(kind, HalfAt(old(bytes), patch), (target - (patch + 2)) / 2)
    {
      hide With6, With10, With13, HalfAt;
      var instr := HalfAt(bytes, patch);
      if kind == R_PCREL10 && !(Format(instr) == 1 && LsOpcode(instr) >= 11) {
        return WrongInstruction;
      }
      if kind == R_PCREL13 && !IsLongJump(instr) {
        return WrongInstruction;
      }
      var diff := target - (patch + 2);
      if diff % 2 != 0 {
        return Unaligned;
      }
      var rel := diff / 2;
      var bound := if kind == R_PCREL6 then 32 else if kind == R_PCREL10 then 512 else 4096;
      if rel < -bound || rel >= bound {
        return OutOfReach;
      }
      WriteHalf(patch, Instruction(kind, instr, rel));
      return Linked;
    }

    /** Patches one relocation of the section at base, or reports why it cannot. */
    method ApplyReloc(base: nat, length: nat, r: Reloc, syms: seq<Symbol>, t: map<string, Word>) returns (o: Outcome)
      modifies this
      ensures |bytes| == |old(bytes)| && (o != Linked ==> bytes == old(bytes))
      ensures forall x :: 0 <= x < |bytes| && !InField(r, x - base) ==> bytes[x] == old(bytes)[x]
      ensures base + length <= |bytes| ==> o == Check(old(bytes)[base..base + length], base, r, syms, t)
      ensures base + length <= |bytes| && o == Linked ==>
                && Resolves(r, syms, t) && r.offset + FieldSize(r.kind) <= length
                && FieldHolds(bytes[base..base + length], old(bytes)[base..base + length], base, r, Resolved(r, syms, t))
    {
      hide Instruction, FieldCheck;
      var needed := FieldSize(r.kind);
      if needed == 0 {
        return UnknownKind;
      }
      if r.offset + needed > length {
        return OutOfSection;
      }
      if r.sym == 0 || r.sym >= |syms| {
        return InvalidSymbol;
      }
      if syms[r.sym].name !in t {
        return UndefinedSymbol;
      }
      var sym, patch := t[syms[r.sym].name], base + r.offset;
      if patch + needed > |bytes| {
        return PatchOutOfRange;
      }
      if needed != 2 {
        WriteLittle(patch, needed, Wrap(sym + r.addend));
        if base + length <= |bytes| {
          AbsoluteField(bytes, base, length, r, Wrap(sym + r.addend));
        }
        return Linked;
      }
      o := PatchRelative(r.kind, patch, Target(sym, r.addend));
      if base + length <= |bytes| && o == Linked {
        PatchedField(bytes[base..base + length], old(bytes)[base..base + length], base, r, sym);
      }
    }

    /** Appends a section and applies its relocations in order, stopping at the first failure. */
    method AppendSection(section: seq<Byte>, relocs: seq<Reloc>, syms: seq<Symbol>, t: map<string, Word>) returns (o: Outcome)
      modifies this
      ensures old(bytes) <= bytes && |bytes| == |old(bytes)| + |section|
      ensures o == Linked ==> SectionDone(bytes[|old(bytes)|..], section, |old(bytes)|, relocs, syms, t)
      ensures DisjointFields(relocs) ==> (o == Linked <==> SectionAcceptable(section, |old(bytes)|, relocs, syms, t))
      ensures o != StateMismatch && o != PatchOutOfRange
    {
      hide SectionDone, FieldHolds, InField, Resolves, Resolved, DisjointFields;
      var base := |bytes|;
      bytes := bytes + section;
      assert SectionDone(bytes[base..], section, base, relocs[..0], syms, t) by {
        NothingPatched(section, base, syms, t);
        assert bytes[base..] == section;
      }
      var k := 0;
      while k < |relocs|
        invariant 0 <= k <= |relocs| && old(bytes) <= bytes && |bytes| == base + |section|
        invariant SectionDone(bytes[base..], section, base, relocs[..k], syms, t)
        invariant DisjointFields(relocs) ==> forall j :: 0 <= j < k ==> Check(section, base, relocs[j], syms, t) == Linked
      {
        ghost var before := bytes;
        assert before[base..base + |section|] == before[base..];
        if DisjointFields(relocs) {
          FieldUntouched(before[base..], section, base, relocs, k, syms, t);
        }
        o := ApplyReloc(base, |section|, relocs[k], syms, t);
        if o != Linked {
          return o;
        }
        assert bytes[base..base + |section|] == bytes[base..];
        OutsideField(before, bytes, base, relocs[k]);
        SectionStep(before[base..], bytes[base..], section, base, relocs, k, syms, t);
        k := k + 1;
      }
      assert relocs[..k] == relocs;
      o := Linked;
    }

    /** The source pads to an even size before it compares with the layout. */
    method EmitText(o: Object, base: nat, t: map<string, Word>) returns (r: Outcome)
      modifies this
      ensures old(bytes) <= bytes
      ensures r == StateMismatch <==> Align(|old(bytes)|) > base
      ensures r == PatchOutOfRange ==> false
      ensures Align(|old(bytes)|) <= base ==>
                && |bytes| == base + |o.text|
                && Zero(bytes, |old(bytes)|, base)
                && (r == Linked ==> SectionDone(bytes[base..base + |o.text|], o.text, base, o.textRelocs, o.syms, t))
                && (DisjointFields(o.textRelocs) ==> (r == Linked <==> SectionAcceptable(o.text, base, o.textRelocs, o.syms, t)))
    {
      hide SectionDone, SectionAcceptable, DisjointFields;
      PadTo(Align(|bytes|));
      if |bytes| > base {
        return StateMismatch;
      }
      PadTo(base);
      r := AppendSection(o.text, o.textRelocs, o.syms, t);
      assert bytes[base..base + |o.text|] == bytes[base..];
    }

    method EmitRodata(o: Object, base: nat, t: map<string, Word>) returns (r: Outcome)
      requires Align(|bytes|) <= base
      modifies this
      ensures old(bytes) <= bytes
      ensures |bytes| == if o.rodata == [] then |old(bytes)| else base + |o.rodata|
      ensures o.rodata != [] ==> Zero(bytes, |old(bytes)|, base)
      ensures o.rodata != [] && r == Linked ==>
                SectionDone(bytes[base..base + |o.rodata|], o.rodata, base, o.rodataRelocs, o.syms, t)
      ensures DisjointFields(o.rodataRelocs) ==> (r == Linked <==> SectionAcceptable(o.rodata, base, RodataRelocs(o), o.syms, t))
      ensures r != StateMismatch && r != PatchOutOfRange
    {
      hide SectionDone, DisjointFields, Check;
      if o.rodata == [] {
        return Linked;
      }
      PadTo(Align(|bytes|));
      PadTo(base);
      r := AppendSection(o.rodata, o.rodataRelocs, o.syms, t);
      assert bytes[base..base + |o.rodata|] == bytes[base..];
    }

    /** .data, then .bss as zeroes. */
    method EmitData(o: Object, base: nat, bss: nat, t: map<string, Word>) returns (r: Outcome)
      requires |bytes| <= base && base + |o.data| <= bss
      modifies this
      ensures old(bytes) <= bytes
      ensures r == Linked ==>
                && |bytes| == bss + o.bssSize
                && Zero(bytes, |old(bytes)|, base)
                && SectionDone(bytes[base..base + |o.data|], o.data, base, o.dataRelocs, o.syms, t)
                && Zero(bytes, base + |o.data|, bss + o.bssSize)
      ensures DisjointFields(o.dataRelocs) ==> (r == Linked <==> SectionAcceptable(o.data, base, o.dataRelocs, o.syms, t))
      ensures r != StateMismatch && r != PatchOutOfRange
    {
      hide SectionDone, SectionAcceptable, DisjointFields;
      PadTo(base);
      r := AppendSection(o.data, o.dataRelocs, o.syms, t);
      if r != Linked {
        return r;
      }
      ghost var done := bytes;
      assert done[base..base + |o.data|] == done[base..];
      PadTo(bss);
      bytes := bytes + seq(o.bssSize, _ => 0);
      PrefixSlice(done, bytes, base, base + |o.data|);
    }

    /** One object: .text, .rodata when there is any, .data and zeroed .bss. */
    method EmitObject(o: Object, lay: Layout, t: map<string, Word>) returns (r: Outcome)
      requires lay == LayoutAt(o, |bytes|)
      modifies this
      ensures old(bytes) <= bytes
      ensures r == Linked ==> |bytes| == lay.end && ObjectDone(bytes, o, |old(bytes)|, t)
      ensures DisjointObject(o) ==> (r == Linked <==> ObjectAcceptable(o, lay, t))
      ensures r != StateMismatch && r != PatchOutOfRange
    {
      hide SectionDone, SectionAcceptable, DisjointFields, Zero, ObjectDone;
      r := EmitText(o, lay.text, t);
      if r != Linked {
        return r;
      }
      ghost var one := bytes;
      r := EmitRodata(o, lay.rodata, t);
      if r != Linked {
        return r;
      }
      ghost var two := bytes;
      r := EmitData(o, lay.data, lay.bss, t);
      if r != Linked {
        return r;
      }
      ObjectAssembled(one, two, bytes, o, |old(bytes)|, t);
    }
  }

  predicate Zero(image: seq<Byte>, from: nat, to: nat)
    requires to <= |image|
  {
    forall k :: from <= k < to ==> image[k] == 0
  }

  /** Without .rodata bytes the source does not look at the .rodata relocations. */
  function RodataRelocs(o: Object): seq<Reloc> { if o.rodata == [] then [] else o.rodataRelocs }

  /** An object laid out from start: its three sections in place and zeroes everywhere between and after. */
  ghost predicate ObjectDone(image: seq<Byte>, o: Object, start: nat, t: map<string, Word>)
    requires LayoutAt(o, start).end <= |image|
  {
    var lay := LayoutAt(o, start);
    && Zero(image, start, lay.text)
    && SectionDone(image[lay.text..lay.text + |o.text|], o.text, lay.text, o.textRelocs, o.syms, t)
    && Zero(image, lay.text + |o.text|, lay.rodata)
    && SectionDone(image[lay.rodata..lay.rodata + |o.rodata|], o.rodata, lay.rodata, RodataRelocs(o), o.syms, t)
    && Zero(image, lay.rodata + |o.rodata|, lay.data)
    && SectionDone(image[lay.data..lay.data + |o.data|], o.data, lay.data, o.dataRelocs, o.syms, t)
    && Zero(image, lay.data + |o.data|, lay.end)
  }

  ghost predicate DisjointObject(o: Object) {
    DisjointFields(o.textRelocs) && DisjointFields(o.rodataRelocs) && DisjointFields(o.dataRelocs)
  }

  predicate ObjectAcceptable(o: Object, lay: Layout, t: map<string, Word>) {
    && SectionAcceptable(o.text, lay.text, o.textRelocs, o.syms, t)
    && SectionAcceptable(o.rodata, lay.rodata, RodataRelocs(o), o.syms, t)
    && SectionAcceptable(o.data, lay.data, o.dataRelocs, o.syms, t)
  }

  lemma NothingPatched(section: seq<Byte>, base: nat, syms: seq<Symbol>, t: map<string, Word>)
    ensures SectionDone(section, section, base, [], syms, t)
  {
  }

  lemma OutsideField(before: seq<Byte>, after: seq<Byte>, base: nat, r: Reloc)
    requires base <= |before| == |after|
    requires forall x :: 0 <= x < |after| && !InField(r, x - base) ==> after[x] == before[x]
    ensures after[..base] == before[..base]
    ensures forall x :: 0 <= x < |before| - base && !InField(r, x) ==> after[base..][x] == before[base..][x]
  {
    forall x | 0 <= x < |before| - base && !InField(r, x)
      ensures after[base..][x] == before[base..][x]
    {
      assert !InField(r, base + x - base);
    }
  }

  lemma SliceOfSlice(s: seq<Byte>, base: nat, length: nat, x: nat, n: nat)
    requires base + length <= |s| && x + n <= length
    ensures s[base..base + length][x..x + n] == s[base + x..base + x + n]
  {
    var inner := s[base..base + length];
    var left, right := inner[x..x + n], s[base + x..base + x + n];
    forall k | 0 <= k < |left|
      ensures left[k] == right[k]
    {
      assert inner[x + k] == s[base + x + k];
    }
  }

  lemma AbsoluteField(bytes: seq<Byte>, base: nat, length: nat, r: Reloc, value: Word)
    requires r.kind == R_ABS64 || r.kind == R_ABS32
    requires base + length <= |bytes| && r.offset + FieldSize(r.kind) <= length
    requires bytes[base + r.offset..base + r.offset + FieldSize(r.kind)] == Lanes(FieldSize(r.kind), value)
    ensures FieldHolds(bytes[base..base + length], bytes[base..base + length], base, r, value)
  {
    hide Lanes, Number;
    SliceOfSlice(bytes, base, length, r.offset, FieldSize(r.kind));
    LittleNumber(FieldSize(r.kind), value);
  }

  lemma LittleNumber(n: nat, value: Word)
    ensures n == 8 ==> Number(Lanes(n, value)) == value
    ensures n == 4 ==> Number(Lanes(n, value)) == value % 0x1_0000_0000
  {
    hide Pow2, Number, Lanes;
    NumberLanes(n, value);
    SmallPowers();
    Pow2Of64();
  }

  // ---------------------------------------------------------------- sections

  /** Relocation r of a section emitted at base has taken effect. */
  predicate RelocHolds(now: seq<Byte>, was: seq<Byte>, base: nat, r: Reloc, syms: seq<Symbol>, t: map<string, Word>)
    requires |now| == |was|
  {
    && Resolves(r, syms, t) && r.offset + FieldSize(r.kind) <= |was|
    && FieldHolds(now, was, base, r, Resolved(r, syms, t))
  }

  /** A section emitted at base: its own bytes outside the relocation fields, and every field patched
      when the fields are disjoint. */
  ghost predicate SectionDone(now: seq<Byte>, was: seq<Byte>, base: nat, relocs: seq<Reloc>, syms: seq<Symbol>, t: map<string, Word>) {
    && |now| == |was|
    && (forall x :: 0 <= x < |was| && (forall j :: 0 <= j < |relocs| ==> !InField(relocs[j], x)) ==> now[x] == was[x])
    && (DisjointFields(relocs) ==> forall j :: 0 <= j < |relocs| ==> RelocHolds(now, was, base, relocs[j], syms, t))
  }

  /** Every relocation of the section is acceptable where it stands. */
  predicate SectionAcceptable(was: seq<Byte>, base: nat, relocs: seq<Reloc>, syms: seq<Symbol>, t: map<string, Word>) {
    forall j :: 0 <= j < |relocs| ==> Check(was, base, relocs[j], syms, t) == Linked
  }

  /** Before relocation k is applied its field still holds the section's own bytes. */
  lemma FieldUntouched(now: seq<Byte>, was: seq<Byte>, base: nat, relocs: seq<Reloc>, k: nat, syms: seq<Symbol>, t: map<string, Word>)
    requires k < |relocs| && DisjointFields(relocs) && SectionDone(now, was, base, relocs[..k], syms, t)
    ensures forall x :: 0 <= x < |was| && InField(relocs[k], x) ==> now[x] == was[x]
    ensures Check(now, base, relocs[k], syms, t) == Check(was, base, relocs[k], syms, t)
  {
    var r := relocs[k];
    forall x | 0 <= x < |was| && InField(r, x)
      ensures now[x] == was[x]
    {
      forall j | 0 <= j < k
        ensures !InField(relocs[..k][j], x)
      {
        assert Apart(relocs[j], r);
      }
    }
    if FieldSize(r.kind) == 2 && r.offset + 2 <= |was| {
      assert InField(r, r.offset) && InField(r, r.offset + 1);
    }
  }

  lemma SectionStep(now: seq<Byte>, now': seq<Byte>, was: seq<Byte>, base: nat, relocs: seq<Reloc>, k: nat, syms: seq<Symbol>, t: map<string, Word>)
    requires k < |relocs| && SectionDone(now, was, base, relocs[..k], syms, t) && |now'| == |now|
    requires forall x :: 0 <= x < |now| && !InField(relocs[k], x) ==> now'[x] == now[x]
    requires RelocHolds(now', now, base, relocs[k], syms, t)
    ensures SectionDone(now', was, base, relocs[..k + 1], syms, t)
  {
    hide FieldHolds;
    var r, done, done' := relocs[k], relocs[..k], relocs[..k + 1];
    forall x | 0 <= x < |was| && (forall j :: 0 <= j < |done'| ==> !InField(done'[j], x))
      ensures now'[x] == was[x]
    {
      assert done'[k] == r;
      forall j | 0 <= j < k
        ensures !InField(done[j], x)
      {
        assert done[j] == done'[j];
      }
    }
    if DisjointFields(done') {
      DisjointPrefix(done', k);
      assert done'[..k] == done;
      FieldUntouched(now, was, base, done', k, syms, t);
      FieldHoldsFrame(now', now, now', was, base, r, Resolved(r, syms, t));
      forall j | 0 <= j < k
        ensures RelocHolds(now', was, base, done'[j], syms, t)
      {
        assert done'[j] == done[j] && Apart(done'[j], done'[k]);
        assert RelocHolds(now, was, base, done[j], syms, t);
        FieldHoldsFrame(now, was, now', was, base, done[j], Resolved(done[j], syms, t));
      }
    }
  }

  lemma DisjointPrefix(relocs: seq<Reloc>, k: nat)
    requires k <= |relocs| && DisjointFields(relocs)
    ensures DisjointFields(relocs[..k])
  {
  }

  lemma PrefixSlice(s: seq<Byte>, s': seq<Byte>, a: nat, b: nat)
    requires s <= s' && a <= b <= |s|
    ensures s[a..b] == s'[a..b]
  {
  }

  lemma ZeroKept(s: seq<Byte>, s': seq<Byte>, a: nat, b: nat)
    requires s <= s' && b <= |s| && Zero(s, a, b)
    ensures Zero(s', a, b)
  {
  }

  lemma ObjectAssembled(one: seq<Byte>, two: seq<Byte>, image: seq<Byte>, o: Object, start: nat, t: map<string, Word>)
    requires one <= two <= image
    requires
      var lay := LayoutAt(o, start);
      && |one| == lay.text + |o.text| && |image| == lay.end
      && |two| == (if o.rodata == [] then |one| else lay.rodata + |o.rodata|)
      && Zero(one, start, lay.text) && SectionDone(one[lay.text..lay.text + |o.text|], o.text, lay.text, o.textRelocs, o.syms, t)
      && (o.rodata != [] ==>
            && Zero(two, |one|, lay.rodata)
            && SectionDone(two[lay.rodata..lay.rodata + |o.rodata|], o.rodata, lay.rodata, o.rodataRelocs, o.syms, t))
      && Zero(image, |two|, lay.data)
      && SectionDone(image[lay.data..lay.data + |o.data|], o.data, lay.data, o.dataRelocs, o.syms, t)
      && Zero(image, lay.data + |o.data|, lay.end)
    ensures ObjectDone(image, o, start, t)
  {
    hide SectionDone;
    var lay := LayoutAt(o, start);
    PrefixSlice(one, image, lay.text, lay.text + |o.text|);
    ZeroKept(one, image, start, lay.text);
    if o.rodata == [] {
      NothingPatched([], lay.rodata, o.syms, t);
      assert image[lay.rodata..lay.rodata] == [];
    } else {
      PrefixSlice(two, image, lay.rodata, lay.rodata + |o.rodata|);
      ZeroKept(two, image, |one|, lay.rodata);
    }
  }

  /** Later objects do not disturb earlier ones. */
  lemma ObjectKept(image: seq<Byte>, image': seq<Byte>, o: Object, start: nat, t: map<string, Word>)
    requires image <= image' && LayoutAt(o, start).end <= |image| && ObjectDone(image, o, start, t)
    ensures ObjectDone(image', o, start, t)
  {
    hide SectionDone, Zero, Align;
    var lay := LayoutAt(o, start);
    PrefixSlice(image, image', lay.text, lay.text + |o.text|);
    PrefixSlice(image, image', lay.rodata, lay.rodata + |o.rodata|);
    PrefixSlice(image, image', lay.data, lay.data + |o.data|);
    ZeroKept(image, image', start, lay.text);
    ZeroKept(image, image', lay.text + |o.text|, lay.rodata);
    ZeroKept(image, image', lay.rodata + |o.rodata|, lay.data);
    ZeroKept(image, image', lay.data + |o.data|, lay.end);
  }

  // ---------------------------------------------------------------- the whole link

  ghost predicate DisjointObjects(objs: seq<Object>) {
    forall i :: 0 <= i < |objs| ==> DisjointObject(objs[i])
  }

  ghost predicate Acceptable(objs: seq<Object>, t: map<string, Word>) {
    forall i :: 0 <= i < |objs| ==> ObjectAcceptable(objs[i], Layouts(objs)[i], t)
  }

  function Start(objs: seq<Object>, i: nat): nat
    requires i <= |objs|
  {
    End(Layouts(objs)[..i])
  }

  lemma {:induction false} EndsGrow(objs: seq<Object>, i: nat, n: nat)
    requires i < n <= |objs|
    ensures LayoutAt(objs[i], Start(objs, i)) == Layouts(objs)[i]
    ensures Layouts(objs)[i].end <= Start(objs, n)
    decreases n
  {
    LayoutsNext(objs, i);
    assert Layouts(objs)[..n][n - 1] == Layouts(objs)[n - 1];
    if i + 1 < n {
      EndsGrow(objs, i, n - 1);
      LayoutsNext(objs, n - 1);
    }
  }

  /** The first n objects stand where the layout puts them. */
  ghost predicate ImageUpTo(image: seq<Byte>, objs: seq<Object>, n: nat, t: map<string, Word>)
    requires n <= |objs|
  {
    forall i :: 0 <= i < n ==>
      LayoutAt(objs[i], Start(objs, i)).end <= |image| && ObjectDone(image, objs[i], Start(objs, i), t)
  }

  ghost predicate IsImage(image: seq<Byte>, objs: seq<Object>, t: map<string, Word>) {
    && |image| == Align(End(Layouts(objs)))
    && ImageUpTo(image, objs, |objs|, t)
    && Zero(image, End(Layouts(objs)), |image|)
  }

  lemma ImageKept(image: seq<Byte>, image': seq<Byte>, objs: seq<Object>, n: nat, t: map<string, Word>)
    requires n <= |objs| && image <= image' && ImageUpTo(image, objs, n, t)
    ensures ImageUpTo(image', objs, n, t)
  {
    hide ObjectDone, LayoutAt;
    forall i | 0 <= i < n
      ensures LayoutAt(objs[i], Start(objs, i)).end <= |image'| && ObjectDone(image', objs[i], Start(objs, i), t)
    {
      ObjectKept(image, image', objs[i], Start(objs, i), t);
    }
  }

  /** One more object stands where the layout puts it. */
  lemma ImageNext(image: seq<Byte>, image': seq<Byte>, objs: seq<Object>, n: nat, t: map<string, Word>)
    requires n < |objs| && image <= image' && ImageUpTo(image, objs, n, t)
    requires LayoutAt(objs[n], Start(objs, n)).end <= |image'| && ObjectDone(image', objs[n], Start(objs, n), t)
    ensures ImageUpTo(image', objs, n + 1, t)
  {
    hide ObjectDone, LayoutAt, Start;
    ImageKept(image, image', objs, n, t);
  }

  lemma StartNext(objs: seq<Object>, n: nat)
    requires n < |objs|
    ensures LayoutAt(objs[n], Start(objs, n)) == Layouts(objs)[n] && Start(objs, n + 1) == Layouts(objs)[n].end
  {
    hide LayoutAt, Layouts;
    LayoutsNext(objs, n);
    assert Layouts(objs)[..n + 1][n] == Layouts(objs)[n];
  }

  /** The linked half-words as bytes. */
  function BytesOf(words: seq<Half>): (b: seq<Byte>)
    ensures |b| == 2 * |words|
  {
    seq(2 * |words|, x requires 0 <= x < 2 * |words| => if x % 2 == 0 then words[x / 2] % 0x100 else words[x / 2] / 0x100)
  }

  lemma StartOfAll(objs: seq<Object>)
    ensures Start(objs, |objs|) == End(Layouts(objs))
  {
    assert Layouts(objs)[..|objs|] == Layouts(objs);
  }

  lemma NothingLinked(objs: seq<Object>, t: map<string, Word>)
    ensures ImageUpTo([], objs, 0, t) && Start(objs, 0) == 0
  {
  }

  /** The link: layout, symbols, emission. It never stops because the two passes disagree or a patch
      falls outside the image; with disjoint fields it succeeds exactly when every relocation is
      acceptable; and what it returns is the image the layout describes. */
  method Link(objs: seq<Object>) returns (o: Outcome, words: seq<Half>, symbols: map<string, Word>)
    ensures IsTable(symbols, objs, Layouts(objs))
    ensures o != StateMismatch && o != PatchOutOfRange
    ensures o == Linked ==> IsImage(BytesOf(words), objs, symbols)
    ensures DisjointObjects(objs) ==> (o == Linked <==> Acceptable(objs, symbols))
  {
    hide IsTable, ObjectDone, LayoutAt, DisjointObject, ObjectAcceptable, Align, ImageUpTo, Layouts, Start, BytesOf;
    words := [];
    var layouts := ComputeLayouts(objs);
    symbols := BuildSymbolTable(objs, layouts);
    var image := new Image();
    NothingLinked(objs, symbols);
    var n := 0;
    while n < |objs|
      invariant 0 <= n <= |objs| && fresh(image)
      invariant |image.bytes| == Start(objs, n) && ImageUpTo(image.bytes, objs, n, symbols)
      invariant DisjointObjects(objs) ==> forall i :: 0 <= i < n ==> ObjectAcceptable(objs[i], layouts[i], symbols)
    {
      ghost var before := image.bytes;
      StartNext(objs, n);
      o := image.EmitObject(objs[n], layouts[n], symbols);
      if o != Linked {
        return;
      }
      ImageNext(before, image.bytes, objs, n, symbols);
      n := n + 1;
    }
    StartOfAll(objs);
    ghost var emitted := image.bytes;
    image.PadTo(Align(|image.bytes|));
    ImageKept(emitted, image.bytes, objs, n, symbols);
    words := image.Halves();
    o := Linked;
  }

  // ---------------------------------------------------------------- what the CPU makes of it

  /** The image stands in memory at address 0. */
  ghost predicate Loaded(m: Memory, image: seq<Byte>) {
    |image| <= 0x1_0000_0000_0000_0000 && forall x :: 0 <= x < |image| ==> Peek(m, x) == image[x]
  }

  lemma SliceHalf(image: seq<Byte>, base: nat, length: nat, x: nat)
    requires base + length <= |image| && x + 2 <= length
    ensures HalfAt(image[base..base + length], x) == HalfAt(image, base + x)
  {
  }

  lemma TextInPlace(objs: seq<Object>, symbols: map<string, Word>, image: seq<Byte>, i: nat)
    requires IsImage(image, objs, symbols) && i < |objs|
    ensures
      var o, base := objs[i], Layouts(objs)[i].text;
      base + |o.text| <= |image| && SectionDone(image[base..base + |o.text|], o.text, base, o.textRelocs, o.syms, symbols)
  {
    hide SectionDone, Zero, Align, LayoutAt;
    EndsGrow(objs, i, |objs|);
    assert ObjectDone(image, objs[i], Start(objs, i), symbols);
    TextWithin(objs[i], Start(objs, i));
  }

  lemma TextWithin(o: Object, start: nat)
    ensures LayoutAt(o, start).text + |o.text| <= LayoutAt(o, start).end
  {
  }

  /** A text relocation of a linked image, as the CPU sees the instruction at its address. */
  lemma FetchLoaded(m: Memory, image: seq<Byte>, x: nat)
    requires Loaded(m, image) && x + 2 <= |image|
    ensures E.Fetch(m, x) == HalfAt(image, x)
  {
  }

  lemma FieldOfSection(now: seq<Byte>, was: seq<Byte>, base: nat, relocs: seq<Reloc>, syms: seq<Symbol>, t: map<string, Word>, j: nat)
    requires SectionDone(now, was, base, relocs, syms, t) && DisjointFields(relocs) && j < |relocs|
    ensures RelocHolds(now, was, base, relocs[j], syms, t)
  {
    hide RelocHolds, DisjointFields;
  }

  lemma LinkedField(objs: seq<Object>, symbols: map<string, Word>, image: seq<Byte>, i: nat, j: nat, m: Memory)
    requires IsImage(image, objs, symbols) && DisjointObjects(objs) && Loaded(m, image)
    requires i < |objs| && j < |objs[i].textRelocs|
    ensures
      var o, r, base := objs[i], objs[i].textRelocs[j], Layouts(objs)[i].text;
      && base + |o.text| <= |image| && r.offset + FieldSize(r.kind) <= |o.text| && Resolves(r, o.syms, symbols)
      && FieldHolds(image[base..base + |o.text|], o.text, base, r, Resolved(r, o.syms, symbols))
      && (FieldSize(r.kind) == 2 ==> E.Fetch(m, base + r.offset) == HalfAt(image[base..base + |o.text|], r.offset))
  {
    hide FieldHolds, IsImage, SectionDone, Layouts, E.Fetch, HalfAt;
    var o, r, base := objs[i], objs[i].textRelocs[j], Layouts(objs)[i].text;
    TextInPlace(objs, symbols, image, i);
    assert DisjointObject(o);
    FieldOfSection(image[base..base + |o.text|], o.text, base, o.textRelocs, o.syms, symbols, j);
    if FieldSize(r.kind) == 2 {
      SliceHalf(image, base, |o.text|, r.offset);
      FetchLoaded(m, image, base + r.offset);
    }
  }

  lemma RunsLongJump(e: E.Arch, now: Half, address: Word)
    requires E.Fetch(e.mem, e.regs[15]) == now && IsLongJump(now)
    requires E.Displace(Plus(e.regs[15], 2), E.Signed(Rel13(now), 8192) * 2) == address
    ensures E.Cycle(e).regs[15] == address
  {
    hide E.Fetch, E.Displace, E.Signed, E.Gp, E.Ldi, E.LsReg, E.LsPcRel;
  }

  lemma RunsConditionalJump(e: E.Arch, now: Half, address: Word)
    requires E.Fetch(e.mem, e.regs[15]) == now && Format(now) == 1 && IsJump(LsOpcode(now))
    requires E.Displace(Plus(e.regs[15], 2), E.Signed(Rel10(now), 1024) * 2) == address
    ensures E.Cycle(e).regs[15] == if E.Condition(e.flags, LsOpcode(now)) then address else Plus(e.regs[15], 2)
  {
    hide E.Fetch, E.Displace, E.Signed, E.Gp, E.Ldi, E.LsReg;
  }

  lemma RunsAccess(e: E.Arch, now: Half, address: Word)
    requires E.Fetch(e.mem, e.regs[15]) == now && Format(now) == 1 && !IsJump(LsOpcode(now))
    requires E.Displace(Plus(e.regs[15], 2), E.Signed(Rel6(now), 64) * 2) == address
    ensures Uses(e, LsOpcode(now), Rd(now), address)
  {
    hide E.Fetch, E.Displace, E.Signed, E.Gp, E.Ldi, E.LsReg, Load, Store, Split;
  }

  /** The next instruction, a PC-relative move, load or store of register rd, uses this address. */
  predicate Uses(e: E.Arch, op: nat, rd: nat, address: Word)
    requires rd < 16
  {
    var e' := E.Cycle(e);
    && (op == MOVE && rd != 0 ==> e'.regs[rd] == address)
    && (IsLoad(op) && rd != 0 ==> e'.regs[rd] == Load(e.mem, address, Width(op)))
    && (IsStore(op) ==> e'.mem == Store(e.mem, address, WidthSelect(Width(op)), Split(E.Fetched(e).regs[rd])))
  }

  /** What running the instruction patched by r must do, was being the instruction before the link. */
  predicate Reaches(e: E.Arch, kind: nat, was: Half, address: Word) {
    && (kind == R_PCREL13 ==> E.Cycle(e).regs[15] == address)
    && (kind == R_PCREL10 && E.Condition(e.flags, LsOpcode(was)) ==> E.Cycle(e).regs[15] == address)
    && (kind == R_PCREL6 && Format(was) == 1 && !IsJump(LsOpcode(was)) ==> Uses(e, LsOpcode(was), Rd(was), address))
  }

  /** Running a patched PC-relative instruction at the address it was linked to: jumps land on symbol
      plus addend, and address, load and store instructions use it as their address. */
  lemma LinkedInstructionReachesSymbol(objs: seq<Object>, symbols: map<string, Word>, image: seq<Byte>, i: nat, j: nat, e: E.Arch)
    requires IsImage(image, objs, symbols) && DisjointObjects(objs) && Loaded(e.mem, image)
    requires i < |objs| && j < |objs[i].textRelocs|
    requires e.regs[15] == Layouts(objs)[i].text + objs[i].textRelocs[j].offset
    ensures
      var o, r := objs[i], objs[i].textRelocs[j];
      && Resolves(r, o.syms, symbols) && r.offset + FieldSize(r.kind) <= |o.text|
      && (FieldSize(r.kind) == 2 ==> Reaches(e, r.kind, HalfAt(o.text, r.offset), Resolved(r, o.syms, symbols)))
  {
    hide IsImage, DisjointObjects, E.Fetch, E.Cycle, E.Displace, E.Signed, HalfAt, Resolves, Resolved, Uses;
    LinkedField(objs, symbols, image, i, j, e.mem);
    var o, r, base := objs[i], objs[i].textRelocs[j], Layouts(objs)[i].text;
    if FieldSize(r.kind) == 2 {
      var was, now, address := HalfAt(o.text, r.offset), E.Fetch(e.mem, e.regs[15]), Resolved(r, o.syms, symbols);
      NextPc(e.regs[15]);
      if r.kind == R_PCREL13 {
        RunsLongJump(e, now, address);
      } else {
        SameFields(was, now);
        if r.kind == R_PCREL10 {
          RunsConditionalJump(e, now, address);
        } else if Format(was) == 1 && !IsJump(LsOpcode(was)) {
          RunsAccess(e, now, address);
        }
      }
    }
  }

  lemma NextPc(pc: Word)
    ensures Wrap(pc + 2) == Plus(pc, 2)
  {
  }

  /** Halves that agree above the offset field agree on format and opcode. */
  lemma SameFields(was: Half, now: Half)
    ensures was / 0x400 == now / 0x400 ==> Format(was) == Format(now) && LsOpcode(was) == LsOpcode(now)
  {
    ModuloSplit(was, 0x400, 16);
    ModuloSplit(now, 0x400, 16);
  }
}
