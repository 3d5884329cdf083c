/** What a linked image is to a program: where its sections stand, what stands at a symbol's address, and
    which relocations can be applied, in plain numbers. */
module LinkerMeaning {
  import opened Words
  import opened Instructions
  import opened Linker
  import E = Emulator

  const TWO_64: int := 0x1_0000_0000_0000_0000

  /** y is the first even address from x on. */
  predicate FirstEven(x: nat, y: nat) { y % 2 == 0 && x <= y <= x + 1 }

  /** The layout leaves no gap but for evenness: text, rodata, data and bss of the first object, then of the
      second, and so on. */
  lemma LayoutIsTight(objs: seq<Object>, i: nat)
    requires i < |objs|
    ensures
      var o, l := objs[i], Layouts(objs)[i];
      && FirstEven(if i == 0 then 0 else Layouts(objs)[i - 1].end, l.text)
      && FirstEven(l.text + |o.text|, l.rodata) && FirstEven(l.rodata + |o.rodata|, l.data)
      && FirstEven(l.data + |o.data|, l.bss) && l.end == l.bss + o.bssSize
  {
    hide Layouts;
    LayoutsNext(objs, i);
    if i > 0 {
      assert Layouts(objs)[..i][i - 1] == Layouts(objs)[i - 1];
    }
  }

  /** No relocation of the section patches byte x. */
  ghost predicate Unpatched(relocs: seq<Reloc>, x: int) { forall j :: 0 <= j < |relocs| ==> !InField(relocs[j], x) }

  /** The byte at an address of the linked words. */
  function ByteAt(words: seq<Half>, a: nat): int
    requires a < 2 * |words|
  {
    if a % 2 == 0 then words[a / 2] % 0x100 else words[a / 2] / 0x100
  }

  /** A byte of a section of bytes, which relocations may patch. */
  datatype Place = Place(section: seq<Byte>, relocs: seq<Reloc>, x: nat)

  /** What a symbol in a section of bytes names: that section's byte at the symbol's value. */
  function Named(o: Object, s: Symbol): Place
    requires s.home.Text? || s.home.Rodata? || s.home.Data?
  {
    match s.home
    case Text => Place(o.text, o.textRelocs, s.value)
    case Rodata(at) => Place(o.rodata, o.rodataRelocs, at + s.value)
    case Data => Place(o.data, o.dataRelocs, s.value)
  }

  lemma ObjectOfImage(objs: seq<Object>, symbols: map<string, Word>, image: seq<Byte>, i: nat)
    requires IsImage(image, objs, symbols) && i < |objs|
    ensures LayoutAt(objs[i], Start(objs, i)) == Layouts(objs)[i] && Layouts(objs)[i].end <= |image|
    ensures ObjectDone(image, objs[i], Start(objs, i), symbols)
  {
    hide Zero, Align, LayoutAt, ObjectDone;
    EndsGrow(objs, i, |objs|);
  }

  /** Where the sections of an object stand, and that the bytes of each are there unless patched. */
  lemma SectionsOfImage(objs: seq<Object>, symbols: map<string, Word>, image: seq<Byte>, i: nat)
    requires IsImage(image, objs, symbols) && i < |objs|
    ensures
      var o, l := objs[i], Layouts(objs)[i];
      && l.end <= |image| && l.text + |o.text| <= l.rodata && l.rodata + |o.rodata| <= l.data && l.data + |o.data| <= l.bss <= l.end
      && (forall x :: 0 <= x < |o.text| && Unpatched(o.textRelocs, x) ==> image[l.text + x] == o.text[x])
      && (forall x :: 0 <= x < |o.rodata| && Unpatched(o.rodataRelocs, x) ==> image[l.rodata + x] == o.rodata[x])
      && (forall x :: 0 <= x < |o.data| && Unpatched(o.dataRelocs, x) ==> image[l.data + x] == o.data[x])
      && (forall x :: l.data + |o.data| <= x < l.end ==> image[x] == 0)
  {
    hide IsImage, Layouts, Start, LayoutAt, SectionDone, Unpatched;
    var o, l := objs[i], Layouts(objs)[i];
    ObjectOfImage(objs, symbols, image, i);
    LayoutIsTight(objs, i);
    BytesInPlace(image, l.text, o.text, o.textRelocs, o.syms, symbols);
    BytesInPlace(image, l.rodata, o.rodata, RodataRelocs(o), o.syms, symbols);
    BytesInPlace(image, l.data, o.data, o.dataRelocs, o.syms, symbols);
  }

  lemma BytesInPlace(image: seq<Byte>, base: nat, section: seq<Byte>, relocs: seq<Reloc>, syms: seq<Symbol>, t: map<string, Word>)
    requires base + |section| <= |image| && SectionDone(image[base..base + |section|], section, base, relocs, syms, t)
    ensures forall x :: 0 <= x < |section| && Unpatched(relocs, x) ==> image[base + x] == section[x]
  {
    hide InField, RelocHolds, DisjointFields;
    forall x | 0 <= x < |section| && Unpatched(relocs, x)
      ensures image[base + x] == section[x]
    {
      assert image[base..base + |section|][x] == image[base + x];
    }
  }

  lemma LinkedByte(words: seq<Half>, a: nat)
    requires a < |BytesOf(words)|
    ensures a < 2 * |words| && ByteAt(words, a) == BytesOf(words)[a] as int
  {
  }

  /** What Link returns for objects without a name defined twice, small enough for the address space. */
  ghost predicate LinkResult(objs: seq<Object>, words: seq<Half>, symbols: map<string, Word>) {
    && IsTable(symbols, objs, Layouts(objs)) && IsImage(BytesOf(words), objs, symbols)
    && UniqueNames(objs) && 2 * |words| <= TWO_64
  }

  predicate NamedSymbol(objs: seq<Object>, i: nat, k: nat) {
    i < |objs| && 1 <= k < |objs[i].syms| && objs[i].syms[k].name != ""
  }

  lemma AddressOfSymbol(objs: seq<Object>, words: seq<Half>, symbols: map<string, Word>, i: nat, k: nat)
    requires LinkResult(objs, words, symbols) && NamedSymbol(objs, i, k)
    requires var h := objs[i].syms[k].home; !h.Undefined? && !h.Unsupported?
    ensures objs[i].syms[k].name in symbols && symbols[objs[i].syms[k].name] == Address(objs[i].syms[k], Layouts(objs)[i])
  {
    hide IsTable, IsImage, Layouts, UniqueNames, BytesOf, Address;
    ResolvesToDefinition(symbols, objs, Layouts(objs), i, k);
  }

  /** After a successful link with unique names, what stands at the address of a symbol is the byte of its
      own section it names, unless a relocation patches that byte. */
  lemma SymbolNamesItsByte(objs: seq<Object>, words: seq<Half>, symbols: map<string, Word>, i: nat, k: nat)
    requires LinkResult(objs, words, symbols) && NamedSymbol(objs, i, k)
    requires
      var s := objs[i].syms[k];
      (s.home.Text? || s.home.Rodata? || s.home.Data?) && Named(objs[i], s).x < |Named(objs[i], s).section|
    ensures
      var name, p := objs[i].syms[k].name, Named(objs[i], objs[i].syms[k]);
      && name in symbols && symbols[name] < 2 * |words|
      && (Unpatched(p.relocs, p.x) ==> ByteAt(words, symbols[name]) == p.section[p.x] as int)
  {
    hide IsTable, IsImage, Layouts, UniqueNames, BytesOf, Unpatched;
    var o, s, l := objs[i], objs[i].syms[k], Layouts(objs)[i];
    var x := Named(o, s).x;
    SectionsOfImage(objs, symbols, BytesOf(words), i);
    AddressOfSymbol(objs, words, symbols, i, k);
    var base := if s.home.Text? then l.text else if s.home.Data? then l.data else l.rodata;
    assert base + x < |BytesOf(words)|;
    Unwrapped(base + x);
    LinkedByte(words, base + x);
  }

  lemma Unwrapped(n: nat)
    requires n < TWO_64
    ensures Wrap(n) == n
  {
    DivModUnique(n, TWO_64, 0, n);
  }

  /** The object's data stands at `data`, and zeroes from its end to the end of the object's bss, which
      begins at the next even address. */
  ghost predicate BssBehindData(words: seq<Half>, o: Object, data: nat, bss: nat) {
    && FirstEven(data + |o.data|, bss) && bss + o.bssSize <= 2 * |words|
    && (forall x :: 0 <= x < |o.data| && Unpatched(o.dataRelocs, x) ==> ByteAt(words, data + x) == o.data[x] as int)
    && (forall a :: data + |o.data| <= a < bss + o.bssSize ==> ByteAt(words, a) == 0)
  }

  /** A symbol in .bss is counted from the start of its own object's zeroes. */
  lemma BssSymbolNamesZero(objs: seq<Object>, words: seq<Half>, symbols: map<string, Word>, i: nat, k: nat)
    returns (data: nat)
    requires LinkResult(objs, words, symbols) && NamedSymbol(objs, i, k)
    requires objs[i].syms[k].home.Bss? && objs[i].syms[k].value < objs[i].bssSize
    ensures
      var o, s := objs[i], objs[i].syms[k];
      && s.name in symbols && symbols[s.name] >= s.value
      && BssBehindData(words, o, data, symbols[s.name] - s.value)
  {
    hide IsTable, IsImage, Layouts, UniqueNames, BytesOf, Unpatched, BssBehindData;
    var o, s, l := objs[i], objs[i].syms[k], Layouts(objs)[i];
    SectionsOfImage(objs, symbols, BytesOf(words), i);
    AddressOfSymbol(objs, words, symbols, i, k);
    LayoutIsTight(objs, i);
    Unwrapped(l.bss + s.value);
    BssOfObject(words, o, l.data, l.bss);
    data := l.data;
  }

  lemma BssOfObject(words: seq<Half>, o: Object, data: nat, bss: nat)
    requires FirstEven(data + |o.data|, bss) && bss + o.bssSize <= |BytesOf(words)|
    requires forall x :: 0 <= x < |o.data| && Unpatched(o.dataRelocs, x) ==> BytesOf(words)[data + x] == o.data[x]
    requires forall a :: data + |o.data| <= a < bss + o.bssSize ==> BytesOf(words)[a] == 0
    ensures BssBehindData(words, o, data, bss)
  {
    hide BytesOf, Unpatched, ByteAt;
    forall x | 0 <= x < |o.data| && Unpatched(o.dataRelocs, x)
      ensures ByteAt(words, data + x) == o.data[x] as int
    {
      LinkedByte(words, data + x);
    }
    forall a | data + |o.data| <= a < bss + o.bssSize
      ensures ByteAt(words, a) == 0
    {
      LinkedByte(words, a);
    }
  }

  // ---------------------------------------------------------------- which relocations can be applied

  /** The distance, signed, from the next instruction to symbol plus addend. */
  function Distance(sym: Word, addend: int, patch: nat): int {
    (if sym < 0x8000_0000_0000_0000 then sym else sym - TWO_64) + addend - (patch + 2)
  }

  /** Each check of a relocation, first failure first, with the kinds, sizes and distances in numbers. */
  lemma CheckInNumbers(p: seq<Byte>, base: nat, r: Reloc, syms: seq<Symbol>, t: map<string, Word>)
    ensures
      var size := if r.kind == 1 then 8 else if r.kind == 2 then 4 else 2;
      Check(p, base, r, syms, t) ==
        if r.kind == 0 || r.kind > 5 then UnknownKind
        else if r.offset + size > |p| then OutOfSection
        else if r.sym == 0 || r.sym >= |syms| then InvalidSymbol
        else if syms[r.sym].name !in t then UndefinedSymbol
        else if r.kind <= 2 then Linked
        else
          var i := p[r.offset] as int + 0x100 * p[r.offset + 1] as int;
          var d := Distance(t[syms[r.sym].name], r.addend, base + r.offset);
          if r.kind == 4 && !(i / 0x4000 == 1 && i / 0x400 % 16 >= 11) then WrongInstruction
          else if r.kind == 5 && i / 0x2000 != 7 then WrongInstruction
          else if d % 2 != 0 then Unaligned
          else if r.kind == 3 && !(-64 <= d <= 62) then OutOfReach
          else if r.kind == 4 && !(-1024 <= d <= 1022) then OutOfReach
          else if r.kind == 5 && !(-8192 <= d <= 8190) then OutOfReach
          else Linked
  {
  }

  // ---------------------------------------------------------------- what stands in a patched field

  /** The number of bytes each kind patches, and when two relocations patch no byte in common. */
  lemma FieldsInNumbers(r: Reloc, r': Reloc, x: int)
    ensures
      var n := if r.kind == 1 then 8 else if r.kind == 2 then 4 else if 3 <= r.kind <= 5 then 2 else 0;
      var n' := if r'.kind == 1 then 8 else if r'.kind == 2 then 4 else if 3 <= r'.kind <= 5 then 2 else 0;
      && (InField(r, x) <==> r.offset <= x < r.offset + n)
      && (Apart(r, r') <==> r.offset + n <= r'.offset || r'.offset + n' <= r.offset)
  {
  }

  /** An n-bit number as two's complement, by its size 2^n. */
  function TwosComplement(v: nat, size: nat): int { if 2 * v < size then v else v - size }

  /** The field at x of the linked image, for a relocation of this kind to this address: the eight or four
      low bytes of the address; or a half-word with its offset bits, which count half-words from behind it
      to the address, changed and all others kept. */
  ghost predicate FieldSays(kind: nat, image: seq<Byte>, x: nat, was: nat, address: int)
    requires x + 2 <= |image|
  {
    var h := image[x] as int + 0x100 * image[x + 1] as int;
    match kind
    case 1 => x + 8 <= |image| && forall k :: 0 <= k < 8 ==> image[x + k] == address % TWO_64 / Pow2(8 * k) % 0x100
    case 2 => x + 4 <= |image| && forall k :: 0 <= k < 4 ==> image[x + k] == address % TWO_64 / Pow2(8 * k) % 0x100
    case 3 => h / 0x400 == was / 0x400 && h % 16 == was % 16 && (x + 2 + 2 * TwosComplement(h / 16 % 64, 64) - address) % TWO_64 == 0
    case 4 => h / 0x400 == was / 0x400 && (x + 2 + 2 * TwosComplement(h % 1024, 1024) - address) % TWO_64 == 0
    case 5 => h / 0x2000 == 7 == was / 0x2000 && (x + 2 + 2 * TwosComplement(h % 8192, 8192) - address) % TWO_64 == 0
    case _ => false
  }

  /** All relocations of a section that stands at base: each field says symbol plus addend. */
  ghost predicate FieldsSay(image: seq<Byte>, base: nat, section: seq<Byte>, relocs: seq<Reloc>, syms: seq<Symbol>, t: map<string, Word>) {
    forall j :: 0 <= j < |relocs| ==>
      var r := relocs[j];
      && r.offset + 2 <= |section| && base + r.offset + 2 <= |image| && 1 <= r.sym < |syms| && syms[r.sym].name in t
      && FieldSays(r.kind, image, base + r.offset, section[r.offset] as int + 0x100 * section[r.offset + 1] as int, t[syms[r.sym].name] + r.addend)
  }

  lemma LowBytes(l: seq<Byte>, w: nat, k: nat)
    requires Number(l) == w % Pow2(8 * |l|) && k < |l|
    ensures l[k] == w / Pow2(8 * k) % 0x100
  {
    hide Number, Pow2, Lanes;
    LanesNumber(l);
    NumberLanes(|l|, w);
    LanesNumber(Lanes(|l|, w));
    LaneAt(|l|, w, k);
  }

  lemma FieldBytes(image: seq<Byte>, base: nat, length: nat, offset: nat, n: nat, w: nat)
    requires base + length <= |image| && offset + n <= length
    requires Number(image[base..base + length][offset..offset + n]) == w % Pow2(8 * n)
    ensures forall k :: 0 <= k < n ==> image[base + offset + k] == w / Pow2(8 * k) % 0x100
  {
    hide Number, Pow2;
    var l := image[base..base + length][offset..offset + n];
    forall k | 0 <= k < n
      ensures image[base + offset + k] == w / Pow2(8 * k) % 0x100
    {
      LowBytes(l, w, k);
      assert l[k] == image[base..base + length][offset + k] == image[base + (offset + k)];
    }
  }

  lemma DisplacedTo(x: nat, d: int, target: int)
    requires (x % TWO_64 + d) % TWO_64 == target % TWO_64
    ensures (x + d - target) % TWO_64 == 0
  {
    var a, b, c := x / TWO_64, (x % TWO_64 + d) / TWO_64, target / TWO_64;
    assert x + d - target == (a + b - c) * TWO_64;
    DivModUnique(x + d - target, TWO_64, a + b - c, 0);
  }

  lemma {:induction false} FieldOfImage(image: seq<Byte>, base: nat, section: seq<Byte>, r: Reloc, syms: seq<Symbol>, t: map<string, Word>)
    requires base + |section| <= |image| && RelocHolds(image[base..base + |section|], section, base, r, syms, t)
    ensures r.offset + 2 <= |section| && 1 <= r.sym < |syms| && syms[r.sym].name in t
    ensures FieldSays(r.kind, image, base + r.offset, section[r.offset] as int + 0x100 * section[r.offset + 1] as int, t[syms[r.sym].name] + r.addend)
  {
    hide FieldHolds, FieldSays;
    HeldKind(image[base..base + |section|], section, base, r, Resolved(r, syms, t));
    var x, target := base + r.offset, t[syms[r.sym].name] + r.addend;
    if r.kind <= 2 {
      AbsoluteField(r, image, section, base, target);
    } else {
      RelativeSays(r, image, section, base, target);
    }
  }

  lemma HeldKind(now: seq<Byte>, was: seq<Byte>, base: nat, r: Reloc, address: Word)
    requires r.offset + FieldSize(r.kind) <= |now| == |was| && FieldHolds(now, was, base, r, address)
    ensures 1 <= r.kind <= 5
  {
  }

  lemma AbsoluteField(r: Reloc, image: seq<Byte>, was: seq<Byte>, base: nat, target: int)
    requires r.kind <= 2 && base + |was| <= |image| && r.offset + FieldSize(r.kind) <= |was|
    requires FieldHolds(image[base..base + |was|], was, base, r, Wrap(target))
    ensures r.offset + 2 <= |was| && FieldSays(r.kind, image, base + r.offset, HalfAt(was, r.offset), target)
  {
    hide Number, Pow2;
    var w := Wrap(target);
    Pow2Of64();
    SmallPowers();
    if r.kind == 1 {
      DivModUnique(w, TWO_64, 0, w);
      FieldBytes(image, base, |was|, r.offset, 8, w);
    } else {
      FieldBytes(image, base, |was|, r.offset, 4, w);
    }
  }

  lemma RelativeSays(r: Reloc, image: seq<Byte>, was: seq<Byte>, base: nat, target: int)
    requires 3 <= r.kind <= 5 && base + |was| <= |image| && r.offset + 2 <= |was|
    requires FieldHolds(image[base..base + |was|], was, base, r, Wrap(target))
    ensures FieldSays(r.kind, image, base + r.offset, HalfAt(was, r.offset), target)
  {
    hide FieldHolds;
    SliceHalf(image, base, |was|, r.offset);
    RelativeField(r, image[base..base + |was|], was, base, target);
  }

  lemma RelativeField(r: Reloc, now: seq<Byte>, was: seq<Byte>, base: nat, target: int)
    requires 3 <= r.kind <= 5 && r.offset + 2 <= |now| == |was| && FieldHolds(now, was, base, r, Wrap(target))
    ensures
      var h, h0, next := HalfAt(now, r.offset), HalfAt(was, r.offset), base + r.offset + 2;
      match r.kind
      case 3 => h / 0x400 == h0 / 0x400 && h % 16 == h0 % 16 && (next + 2 * TwosComplement(h / 16 % 64, 64) - target) % TWO_64 == 0
      case 4 => h / 0x400 == h0 / 0x400 && (next + 2 * TwosComplement(h % 1024, 1024) - target) % TWO_64 == 0
      case _ => h / 0x2000 == 7 == h0 / 0x2000 && (next + 2 * TwosComplement(h % 8192, 8192) - target) % TWO_64 == 0
  {
    hide HalfAt, Number;
    var h, next := HalfAt(now, r.offset), base + r.offset + 2;
    match r.kind
    case 3 => DisplacedTo(next, 2 * TwosComplement(h / 16 % 64, 64), target);
    case 4 => DisplacedTo(next, 2 * TwosComplement(h % 1024, 1024), target);
    case 5 => DisplacedTo(next, 2 * TwosComplement(h % 8192, 8192), target);
  }

  /** After a successful link of objects whose relocations do not patch the same byte, every field of every
      section says symbol plus addend. */
  lemma FieldsOfImage(objs: seq<Object>, symbols: map<string, Word>, image: seq<Byte>, i: nat)
    requires IsImage(image, objs, symbols) && DisjointObjects(objs) && i < |objs|
    ensures
      var o, l := objs[i], Layouts(objs)[i];
      && FieldsSay(image, l.text, o.text, o.textRelocs, o.syms, symbols)
      && (o.rodata != [] ==> FieldsSay(image, l.rodata, o.rodata, o.rodataRelocs, o.syms, symbols))
      && FieldsSay(image, l.data, o.data, o.dataRelocs, o.syms, symbols)
  {
    hide IsImage, Layouts, Start, LayoutAt, SectionDone, FieldsSay, DisjointFields;
    var o, l := objs[i], Layouts(objs)[i];
    ObjectOfImage(objs, symbols, image, i);
    LayoutIsTight(objs, i);
    assert DisjointObject(o);
    FieldsOfSection(image, l.text, o.text, o.textRelocs, o.syms, symbols);
    FieldsOfSection(image, l.data, o.data, o.dataRelocs, o.syms, symbols);
    if o.rodata != [] {
      FieldsOfSection(image, l.rodata, o.rodata, o.rodataRelocs, o.syms, symbols);
    }
  }

  lemma FieldsOfSection(image: seq<Byte>, base: nat, section: seq<Byte>, relocs: seq<Reloc>, syms: seq<Symbol>, t: map<string, Word>)
    requires base + |section| <= |image| && DisjointFields(relocs)
    requires SectionDone(image[base..base + |section|], section, base, relocs, syms, t)
    ensures FieldsSay(image, base, section, relocs, syms, t)
  {
    hide SectionDone, FieldSays, RelocHolds, DisjointFields;
    forall j | 0 <= j < |relocs|
      ensures
        var r := relocs[j];
        && r.offset + 2 <= |section| && base + r.offset + 2 <= |image| && 1 <= r.sym < |syms| && syms[r.sym].name in t
        && FieldSays(r.kind, image, base + r.offset, section[r.offset] as int + 0x100 * section[r.offset + 1] as int, t[syms[r.sym].name] + r.addend)
    {
      FieldOfSection(image[base..base + |section|], section, base, relocs, syms, t, j);
      FieldOfImage(image, base, section, relocs[j], syms, t);
    }
  }
}
