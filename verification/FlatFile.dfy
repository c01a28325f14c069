/** From a parsed object to a bFLT file, as board/mkflt.lua does it: lay the
    sections out, fill the image, resolve symbols, relocate, and write a 64-byte
    big-endian header followed by the image. */
module FlatFile {
  import opened Words
  import opened Rv32
  import opened Encoders
  import opened Layout
  import opened Relocate
  import opened Sites
  import opened LinkCorrect
  import opened WidthAgreement

  const SHN_UNDEF := 0
  const SHN_ABS := 0xfff1
  const HDR_SIZE := 64

  datatype SymEntry = SymEntry(name: string, value: U32, shndx: nat)

  /** What parsing leaves of an object file; None when it has no symbol table. */
  datatype Object = Object(sections: seq<Section>, symbols: Option<seq<SymEntry>>)

  // ------------------------------------------------------------ initial image

  ghost predicate Covers(secs: seq<Section>, m: Map, n: int, k: int) {
    n in m.base && 0 <= n < |secs| && !Nobits(secs[n]) && m.base[n] <= k < m.base[n] + secs[n].size
  }

  /** Stored section bytes at their bases, zero everywhere else in [0, len). */
  ghost predicate IsInitial(img: Image, secs: seq<Section>, m: Map) {
    InitialUpTo(img, secs, m, |secs|)
  }

  ghost predicate InitialUpTo(img: Image, secs: seq<Section>, m: Map, upto: nat) {
    && (forall k :: k in img <==> 0 <= k < m.len)
    && (forall n, k :: n < upto && Covers(secs, m, n, k) ==>
         k in img && k - m.base[n] < |secs[n].bytes| && img[k] == secs[n].bytes[k - m.base[n]])
    && (forall k :: 0 <= k < m.len && (forall n :: n < upto ==> !Covers(secs, m, n, k)) ==> img[k] == 0)
  }

  ghost predicate SizesMatch(secs: seq<Section>, m: Map) {
    forall n :: n in m.base && 0 <= n < |secs| && !Nobits(secs[n]) ==> |secs[n].bytes| == secs[n].size
  }

  lemma InitialUnique(a: Image, b: Image, secs: seq<Section>, m: Map)
    requires IsInitial(a, secs, m) && IsInitial(b, secs, m)
    ensures a == b
  {
    forall k | 0 <= k < m.len ensures a[k] == b[k] {
      if n :| n < |secs| && Covers(secs, m, n, k) {
        assert a[k] == secs[n].bytes[k - m.base[n]];
      }
    }
    forall k ensures k in a.Keys <==> k in b.Keys {
      assert k in a <==> 0 <= k < m.len;
    }
  }

  class Builder {
    var image: Image

    constructor ()
      ensures image == map[]
    {
      image := map[];
    }

    method Clear(len: nat)
      modifies this
      ensures forall k :: k in image <==> 0 <= k < len
      ensures forall k :: k in image ==> image[k] == 0
    {
      image := map[];
      var n := 0;
      while n < len
        invariant 0 <= n <= len
        invariant forall k :: k in image <==> 0 <= k < n
        invariant forall k :: k in image ==> image[k] == 0
      {
        image := image[n := 0];
        n := n + 1;
      }
    }

    method Blit(at: int, bytes: seq<Byte>)
      modifies this
      ensures forall k :: k in image <==> k in old(image) || at <= k < at + |bytes|
      ensures forall k :: k in image ==>
        image[k] == if at <= k < at + |bytes| then bytes[k - at] else old(image)[k]
    {
      var i := 0;
      while i < |bytes|
        invariant 0 <= i <= |bytes|
        invariant forall k :: k in image <==> k in old(image) || at <= k < at + i
        invariant forall k :: k in image ==>
          image[k] == if at <= k < at + i then bytes[k - at] else old(image)[k]
      {
        image := image[at + i := bytes[i]];
        i := i + 1;
      }
    }

    method Build(secs: seq<Section>, m: Map)
      requires Sound(secs, m) && Separate(secs, m) && SizesMatch(secs, m)
      modifies this
      ensures IsInitial(image, secs, m)
    {
      hide AlignUp, Aligned, Allocated, Nobits;
      Clear(m.len);
      var n := 0;
      while n < |secs|
        invariant 0 <= n <= |secs|
        invariant InitialUpTo(image, secs, m, n)
      {
        ghost var before := image;
        if n in m.base && !Nobits(secs[n]) {
          Blit(m.base[n], secs[n].bytes);
          Blitted(before, image, secs, m, n);
        } else {
          NothingToBlit(image, secs, m, n);
        }
        n := n + 1;
      }
    }
  }

  lemma NothingToBlit(img: Image, secs: seq<Section>, m: Map, n: nat)
    requires n < |secs| && InitialUpTo(img, secs, m, n) && (n !in m.base || Nobits(secs[n]))
    ensures InitialUpTo(img, secs, m, n + 1)
  {
    hide Nobits;
    forall k | 0 <= k < m.len && forall i :: i < n + 1 ==> !Covers(secs, m, i, k) ensures img[k] == 0 {
      assert forall i :: i < n ==> !Covers(secs, m, i, k);
    }
  }

  lemma Blitted(before: Image, after: Image, secs: seq<Section>, m: Map, n: nat)
    requires Sound(secs, m) && Separate(secs, m) && SizesMatch(secs, m)
    requires n < |secs| && n in m.base && !Nobits(secs[n]) && InitialUpTo(before, secs, m, n)
    requires forall k :: k in after <==> k in before || m.base[n] <= k < m.base[n] + secs[n].size
    requires forall k :: k in after ==>
      after[k] == if m.base[n] <= k < m.base[n] + secs[n].size then secs[n].bytes[k - m.base[n]] else before[k]
    ensures InitialUpTo(after, secs, m, n + 1)
  {
    hide Aligned, Allocated, Nobits;
    forall i, k | i < n + 1 && Covers(secs, m, i, k)
      ensures k in after && k - m.base[i] < |secs[i].bytes| && after[k] == secs[i].bytes[k - m.base[i]]
    {
      assert i != n ==> !Covers(secs, m, n, k);
    }
    forall k | 0 <= k < m.len && forall i :: i < n + 1 ==> !Covers(secs, m, i, k) ensures after[k] == 0 {
      assert !Covers(secs, m, n, k);
      assert forall i :: i < n ==> !Covers(secs, m, i, k);
    }
  }

  // --------------------------------------------------- symbols and relocations

  function Resolve(w: Width, m: Map, e: SymEntry): Symbol {
    var addr :=
      if e.shndx == SHN_ABS then Some(Norm(w, e.value))
      else if e.shndx == SHN_UNDEF then None
      else if e.shndx in m.base then Some(Norm(w, m.base[e.shndx] + e.value))
      else Some(Norm(w, e.value));
    Symbol(e.name, addr)
  }

  function ResolveAll(w: Width, m: Map, es: seq<SymEntry>): (s: seq<Symbol>)
    ensures |s| == |es| && forall k :: 0 <= k < |s| ==> s[k] == Resolve(w, m, es[k])
  {
    seq(|es|, i requires 0 <= i < |es| => Resolve(w, m, es[i]))
  }

  function RelocOf(w: Width, base: int, rela: bool, e: RelEntry): Reloc {
    Reloc(e.info % 0x100, Norm(w, base + e.offset), e.info / 0x100, if rela then S32(w, e.addend) else 0)
  }

  /** The relocations applied, in order: those of the first n sections that are
      relocation sections for something that was placed. */
  function RelocsOf(w: Width, secs: seq<Section>, m: Map, n: nat): seq<Reloc>
    requires n <= |secs|
  {
    if n == 0 then [] else
      var s := secs[n - 1];
      var rest := RelocsOf(w, secs, m, n - 1);
      if (s.typ == SHT_RELA || s.typ == SHT_REL) && s.info in m.base then
        rest + seq(|s.entries|, i requires 0 <= i < |s.entries| =>
                     RelocOf(w, m.base[s.info], s.typ == SHT_RELA, s.entries[i]))
      else rest
  }

  /** The last defined _start, or offset 0. */
  function EntryOf(syms: seq<Symbol>): int {
    if syms == [] then 0 else
      var s := syms[|syms| - 1];
      if s.name == "_start" && s.addr.Some? then s.addr.value else EntryOf(syms[..|syms| - 1])
  }

  // --------------------------------------------------------------- the file

  function Header(entry: int, len: nat, stack: int): (h: seq<Byte>)
    ensures |h| == HDR_SIZE
  {
    var end := Be32(Wrap(HDR_SIZE + len));
    [0x62, 0x46, 0x4c, 0x54] + Be32(4) + Be32(Wrap(HDR_SIZE + entry)) + end + end + end
    + Be32(Wrap(stack)) + end + Be32(0) + Be32(1) + Be32(0) + seq(20, _ => 0)
  }

  /** Four bytes, most significant first. */
  function Big(a: int, b: int, c: int, d: int): int { 0x100_0000 * a + 0x1_0000 * b + 0x100 * c + d }

  /** A header field as binfmt_flat reads it. */
  function FieldAt(file: seq<Byte>, off: nat): (v: U32)
    requires off + 4 <= |file|
    ensures v == Big(file[off], file[off + 1], file[off + 2], file[off + 3])
  {
    FromBe32(file[off..off + 4])
  }

  /** "bFLT" in front, and zeros behind the last field in use. */
  lemma HeaderRest(entry: int, len: nat, stack: int, body: seq<Byte>)
    ensures var file := Header(entry, len, stack) + body;
            file[..4] == [98, 70, 76, 84] && forall k :: 40 <= k < 64 ==> file[k] == 0
  {
    hide Wrap;
    var front := [98, 70, 76, 84] + Be32(4) + Be32(Wrap(HDR_SIZE + entry));
    var h := Header(entry, len, stack);
    assert |front| == 12;
    forall k | 40 <= k < 64 ensures h[k] == 0 {
      assert k < 44 ==> h[k] == Be32(0)[k - 40];
    }
  }

  /** Reading the header back: one segment holds everything, data, bss and the
      relocation table are empty and sit at the end of the file. */
  lemma HeaderReadsBack(entry: int, len: nat, stack: int, body: seq<Byte>)
    requires |body| == len && HDR_SIZE + len < TWO32
    ensures var file := Header(entry, len, stack) + body;
            && FieldAt(file, 4) == 4 && FieldAt(file, 8) == Wrap(HDR_SIZE + entry)
            && FieldAt(file, 12) == FieldAt(file, 16) == FieldAt(file, 20) == FieldAt(file, 28) == |file|
            && FieldAt(file, 24) == Wrap(stack) && FieldAt(file, 32) == 0 && FieldAt(file, 36) == 1
            && file[..4] == [98, 70, 76, 84] && forall k :: 40 <= k < 64 ==> file[k] == 0
  {
    hide Wrap, Be32, FromBe32;
    var end := Wrap(HDR_SIZE + len);
    assert end == HDR_SIZE + len by { SmallWrap(HDR_SIZE + len); }
    var file := Header(entry, len, stack) + body;
    HeaderRest(entry, len, stack, body);
    assert file[4..8] == Be32(4);
    assert file[8..12] == Be32(Wrap(HDR_SIZE + entry));
    assert file[12..16] == Be32(end) && file[16..20] == Be32(end) && file[20..24] == Be32(end);
    assert file[24..28] == Be32(Wrap(stack)) && file[28..32] == Be32(end);
    assert file[32..36] == Be32(0) && file[36..40] == Be32(1);
    Be32RoundTrip(4);
    Be32RoundTrip(Wrap(HDR_SIZE + entry));
    Be32RoundTrip(end);
    Be32RoundTrip(Wrap(stack));
    Be32RoundTrip(0);
    Be32RoundTrip(1);
  }

  lemma SmallWrap(n: int)
    requires 0 <= n < TWO32
    ensures Wrap(n) == n
  {}

  /** The image written 200 bytes at a time is the image. */
  method Emit(image: Image, len: nat) returns (blob: seq<Byte>)
    requires forall k :: 0 <= k < len ==> k in image
    ensures |blob| == len && forall k :: 0 <= k < len ==> blob[k] == image[k]
  {
    blob := [];
    var k := 0;
    while k < len
      invariant 0 <= k && |blob| == (if k < len then k else len)
      invariant forall j :: 0 <= j < |blob| ==> blob[j] == image[j]
    {
      var last := k + 200;
      if last > len {
        last := len;
      }
      var part := seq(last - k, i requires 0 <= i < last - k && k + i in image => image[k + i]);
      blob := blob + part;
      k := k + 200;
    }
  }

  // ------------------------------------------------------------ the script

  /** The file is the one for this object: its image is the initial image with
      every relocation applied, none refused. */
  ghost predicate LinkedVia(w: Width, obj: Object, stack: int, file: seq<Byte>, img: Image) {
    && obj.symbols.Some?
    && var m := Full(obj.sections);
    var syms := ResolveAll(w, m, obj.symbols.value);
    var out := Relocated(w, syms, img, RelocsOf(w, obj.sections, m, |obj.sections|));
    && IsInitial(img, obj.sections, m)
    && out.Some?
    && |file| == HDR_SIZE + m.len
    && file[..HDR_SIZE] == Header(EntryOf(syms), m.len, stack)
    && forall k :: 0 <= k < m.len ==> k in out.value && file[HDR_SIZE + k] == out.value[k]
  }

  /** Why the script stops without writing anything. */
  ghost predicate Refuses(w: Width, obj: Object, stack: int) {
    var m := Full(obj.sections);
    || stack < 1024
    || Stored(obj.sections).len == 0
    || !SizesMatch(obj.sections, m)
    || obj.symbols.None?
    || forall img :: IsInitial(img, obj.sections, m) ==>
         Relocated(w, ResolveAll(w, m, obj.symbols.value), img,
                   RelocsOf(w, obj.sections, m, |obj.sections|)).None?
  }

  lemma DomainKept(w: Width, syms: seq<Symbol>, img: Image, rels: seq<Reloc>, k: int)
    requires Relocated(w, syms, img, rels).Some? && k in img
    ensures k in Relocated(w, syms, img, rels).value
  {
    hide PlanAll, Exec;
    ExecKeeps(img, PlanAll(w, syms, rels).value.edits, k);
  }

  lemma {:induction false} ExecKeeps(img: Image, edits: seq<Edit>, k: int)
    requires Exec(img, edits).Some? && k in img
    ensures k in Exec(img, edits).value
  {
    hide NewWord, Rd32;
    if edits != [] {
      ExecKeeps(img, edits[..|edits| - 1], k);
    }
  }

  method Link(w: Width, obj: Object, stack: int) returns (file: Option<seq<Byte>>)
    ensures file.Some? ==> exists img :: LinkedVia(w, obj, stack, file.value, img)
    ensures file.None? <==> Refuses(w, obj, stack)
  {
    hide PlaceFirst, Resolve, RelocsOf, EntryOf, Header, Relocated, IsInitial, Sound, Separate;
    if stack < 1024 {
      return None;
    }
    var p := new Placer();
    p.Place(obj.sections, false);
    var storedEnd := p.imageLen;
    p.Place(obj.sections, true);
    var m := Map(p.base, p.imageLen);
    if storedEnd == 0 {
      return None;
    }
    LayoutSound(obj.sections);
    var n := 0;
    while n < |obj.sections|
      invariant 0 <= n <= |obj.sections|
      invariant forall i :: 0 <= i < n && i in m.base && !Nobits(obj.sections[i]) ==>
        |obj.sections[i].bytes| == obj.sections[i].size
    {
      if n in m.base && !Nobits(obj.sections[n]) && |obj.sections[n].bytes| != obj.sections[n].size {
        return None;
      }
      n := n + 1;
    }
    if obj.symbols.None? {
      return None;
    }
    file := Assemble(w, obj, stack, m);
  }

  method Assemble(w: Width, obj: Object, stack: int, m: Map) returns (file: Option<seq<Byte>>)
    requires m == Full(obj.sections) && Sound(obj.sections, m) && Separate(obj.sections, m)
    requires SizesMatch(obj.sections, m) && obj.symbols.Some?
    requires stack >= 1024 && Stored(obj.sections).len != 0
    ensures file.Some? ==> exists img :: LinkedVia(w, obj, stack, file.value, img)
    ensures file.None? <==> Refuses(w, obj, stack)
  {
    hide PlaceFirst, Resolve, RelocsOf, EntryOf, Header, Relocated, Sound, Separate, SizesMatch;
    var b := new Builder();
    b.Build(obj.sections, m);
    var img := b.image;
    var syms := ResolveAll(w, m, obj.symbols.value);
    var rels := RelocsOf(w, obj.sections, m, |obj.sections|);
    var linker := new Linker(w, syms, img);
    var ok := linker.RelocateAll(rels);
    if !ok {
      forall i | IsInitial(i, obj.sections, m) ensures Relocated(w, syms, i, rels).None? {
        InitialUnique(i, img, obj.sections, m);
      }
      return None;
    }
    forall k | 0 <= k < m.len ensures k in linker.image {
      DomainKept(w, syms, img, rels, k);
    }
    var blob := Emit(linker.image, m.len);
    var header := Header(EntryOf(syms), m.len, stack);
    file := Some(header + blob);
    assert LinkedVia(w, obj, stack, file.value, img);
  }

  // ------------------------------------------------------------- end to end

  /** Memory holds everything after the header from `load` on. */
  ghost predicate InMemory(mem: Memory, file: seq<Byte>, load: U32) {
    forall k :: HDR_SIZE <= k < |file| ==> mem(Wrap(load + k - HDR_SIZE)) == file[k]
  }

  /** A linked file in memory is a running program in the sense of LinkCorrect, so
      every theorem there holds for the bytes of the file at any load address. */
  lemma FileRuns(w: Width, obj: Object, stack: int, file: seq<Byte>, img: Image, mem: Memory, load: U32)
    requires LinkedVia(w, obj, stack, file, img) && InMemory(mem, file, load)
    ensures var m := Full(obj.sections);
            Running(w, ResolveAll(w, m, obj.symbols.value), img,
                    RelocsOf(w, obj.sections, m, |obj.sections|), m.len, mem, load)
  {
    hide PlaceFirst, Resolve, RelocsOf, EntryOf, Header, Relocated, Wrap;
    var m := Full(obj.sections);
    var out := Relocated(w, ResolveAll(w, m, obj.symbols.value), img, RelocsOf(w, obj.sections, m, |obj.sections|)).value;
    forall k | 0 <= k < m.len ensures mem(Wrap(load + k)) == out[k] {
      assert load + (HDR_SIZE + k) - HDR_SIZE == load + k;
      assert file[HDR_SIZE + k] == out[k];
    }
  }

  /** Every byte of the file that no relocation owns is the byte of the section that
      lies there, and zero where none does. */
  lemma FileBytes(w: Width, obj: Object, stack: int, file: seq<Byte>, img: Image, k: nat)
    requires LinkedVia(w, obj, stack, file, img) && k < Full(obj.sections).len
    requires forall r :: r in RelocsOf(w, obj.sections, Full(obj.sections), |obj.sections|) ==> !Owns(r, k)
    ensures var m := Full(obj.sections); var secs := obj.sections;
            && (forall n :: 0 <= n < |secs| && Covers(secs, m, n, k) ==>
                 k - m.base[n] < |secs[n].bytes| && file[HDR_SIZE + k] == secs[n].bytes[k - m.base[n]])
            && ((forall n :: 0 <= n < |secs| ==> !Covers(secs, m, n, k)) ==> file[HDR_SIZE + k] == 0)
  {
    hide PlaceFirst, Resolve, RelocsOf, EntryOf, Header, Relocated, Owns;
    var m := Full(obj.sections);
    UnownedBytes(w, ResolveAll(w, m, obj.symbols.value), img, RelocsOf(w, obj.sections, m, |obj.sections|), k);
  }

  /** The address of a symbol defined in a placed section is where its bytes are. */
  lemma SymbolLands(w: Width, secs: seq<Section>, e: SymEntry)
    requires Full(secs).len < 0x8000_0000
    requires e.shndx != SHN_UNDEF && e.shndx != SHN_ABS
    requires e.shndx < |secs| && Allocated(secs[e.shndx]) && e.value <= secs[e.shndx].size
    ensures var m := Full(secs);
            && e.shndx in m.base
            && Resolve(w, m, e).addr == Some(m.base[e.shndx] + e.value)
            && 0 <= m.base[e.shndx] + e.value <= m.len
  {
    hide PlaceFirst, Allocated, Aligned, Norm, Separate;
    LayoutSound(secs);
    var m := Full(secs);
    assert e.shndx in m.base;
    NormFixed(w, m.base[e.shndx] + e.value);
  }

  /** With _start in a placed section the header's entry lies inside the file. */
  lemma EntryInside(w: Width, obj: Object, stack: int, file: seq<Byte>, img: Image, k: nat)
    requires LinkedVia(w, obj, stack, file, img) && Full(obj.sections).len < 0x7fff_ffc0
    requires k < |obj.symbols.value|
    requires var e := obj.symbols.value[k];
             && e.name == "_start" && e.shndx != SHN_UNDEF && e.shndx != SHN_ABS
             && e.shndx < |obj.sections| && Allocated(obj.sections[e.shndx])
             && e.value < obj.sections[e.shndx].size
    requires forall j :: k < j < |obj.symbols.value| ==> obj.symbols.value[j].name != "_start"
    ensures var e := obj.symbols.value[k];
            && e.shndx in Full(obj.sections).base
            && HDR_SIZE <= FieldAt(file, 8) < |file|
            && FieldAt(file, 8) == HDR_SIZE + Full(obj.sections).base[e.shndx] + e.value
  {
    hide PlaceFirst, Allocated, Aligned, Norm, Separate, RelocsOf, Header, Relocated, Wrap, FieldAt, IsInitial, Sound;
    var m := Full(obj.sections);
    var e := obj.symbols.value[k];
    var syms := ResolveAll(w, m, obj.symbols.value);
    LayoutSound(obj.sections);
    SymbolLands(w, obj.sections, e);
    LastStart(syms, k);
    var at := m.base[e.shndx] + e.value;
    StartInSection(obj.sections, e);
    var body := file[HDR_SIZE..];
    assert file == Header(EntryOf(syms), m.len, stack) + body;
    HeaderReadsBack(EntryOf(syms), m.len, stack, body);
    SmallWrap(HDR_SIZE + at);
  }

  lemma StartInSection(secs: seq<Section>, e: SymEntry)
    requires e.shndx < |secs| && Allocated(secs[e.shndx]) && e.value < secs[e.shndx].size
    ensures e.shndx in Full(secs).base && 0 <= Full(secs).base[e.shndx] + e.value < Full(secs).len
  {
    hide PlaceFirst, Allocated, Aligned, Separate;
    LayoutSound(secs);
    assert (e.shndx as int) in Full(secs).base;
  }

  lemma {:induction false} LastStart(syms: seq<Symbol>, k: nat)
    requires k < |syms| && syms[k].name == "_start" && syms[k].addr.Some?
    requires forall j :: k < j < |syms| ==> syms[j].name != "_start"
    ensures EntryOf(syms) == syms[k].addr.value
  {
    if k < |syms| - 1 {
      LastStart(syms[..|syms| - 1], k);
    }
  }
}
