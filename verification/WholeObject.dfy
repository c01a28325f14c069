/** The linker script from an object file to what its program does: when a file comes
    out, that either Lua writes the same one, and where its instructions lead. */
module WholeObject {
  import opened Words
  import opened Rv32
  import opened Encoders
  import opened Layout
  import opened Relocate
  import opened Sites
  import opened LinkCorrect
  import opened Acceptance
  import opened WidthAgreement
  import opened FlatFile

  function Symbols(w: Width, obj: Object): seq<Symbol>
    requires obj.symbols.Some?
  {
    ResolveAll(w, Full(obj.sections), obj.symbols.value)
  }

  function Relocs(w: Width, obj: Object): seq<Reloc> {
    RelocsOf(w, obj.sections, Full(obj.sections), |obj.sections|)
  }

  // ------------------------------------------------------- when a file comes out

  /** Section n is a relocation section whose target was placed. */
  predicate Applies(secs: seq<Section>, m: Map, n: nat)
    requires n < |secs|
  {
    (secs[n].typ == SHT_RELA || secs[n].typ == SHT_REL) && secs[n].info in m.base
  }

  /** How many bytes the relocation of this entry owns. */
  function Room(e: RelEntry): int { Extent(Reloc(e.info % 0x100, 0, 0, 0)) }

  /** Every relocation lies in the section it is for, and the image is one a board
      integer can measure. */
  ghost predicate EntriesInside(secs: seq<Section>) {
    && Full(secs).len < 0x8000_0000
    && forall n, e :: 0 <= n < |secs| && Applies(secs, Full(secs), n) && e in secs[n].entries ==>
         0 <= secs[n].info < |secs| && e.offset + Room(e) <= secs[secs[n].info].size
  }

  lemma EntrySite(w: Width, base: int, size: nat, len: nat, rela: bool, e: RelEntry)
    requires 0 <= base && base + size <= len < 0x8000_0000 && e.offset + Room(e) <= size
    ensures var r := RelocOf(w, base, rela, e);
            r.at == base + e.offset && r.at + Extent(r) <= len
  {
    hide S32, Norm;
    assert Room(e) >= 0;
    NormFixed(w, base + e.offset);
  }

  lemma {:induction false} RelocsInside(w: Width, secs: seq<Section>, n: nat)
    requires EntriesInside(secs) && n <= |secs|
    ensures forall r :: r in RelocsOf(w, secs, Full(secs), n) ==> 0 <= r.at && r.at + Extent(r) <= Full(secs).len
  {
    hide RelocOf, Extent, PlaceFirst, Separate, InOrder, Aligned, Allocated;
    if n > 0 {
      RelocsInside(w, secs, n - 1);
      var m, s := Full(secs), secs[n - 1];
      if Applies(secs, m, n - 1) {
        LayoutSound(secs);
        forall i | 0 <= i < |s.entries|
          ensures var r := RelocOf(w, m.base[s.info], s.typ == SHT_RELA, s.entries[i]);
                  0 <= r.at && r.at + Extent(r) <= m.len
        {
          assert s.entries[i] in s.entries;
          EntrySite(w, m.base[s.info], secs[s.info].size, m.len, s.typ == SHT_RELA, s.entries[i]);
        }
      }
    }
  }

  /** The byte of the initial image at k. */
  ghost function InitialByte(secs: seq<Section>, m: Map, k: int): Byte
    requires SizesMatch(secs, m)
  {
    if n :| 0 <= n < |secs| && Covers(secs, m, n, k) then secs[n].bytes[k - m.base[n]] else 0
  }

  lemma InitialExists(secs: seq<Section>) returns (img: Image)
    requires SizesMatch(secs, Full(secs))
    ensures IsInitial(img, secs, Full(secs))
  {
    hide PlaceFirst, InOrder, Aligned, Allocated, Nobits;
    LayoutSound(secs);
    var m := Full(secs);
    img := map k | 0 <= k < m.len :: InitialByte(secs, m, k);
    forall n, k | 0 <= n < |secs| && Covers(secs, m, n, k)
      ensures k in img && k - m.base[n] < |secs[n].bytes| && img[k] == secs[n].bytes[k - m.base[n]]
    {
      OnlyCover(secs, m, n, k);
    }
  }

  lemma OnlyCover(secs: seq<Section>, m: Map, n: nat, k: int)
    requires Sound(secs, m) && Separate(secs, m) && SizesMatch(secs, m) && n < |secs| && Covers(secs, m, n, k)
    ensures 0 <= k < m.len && k - m.base[n] < |secs[n].bytes|
    ensures InitialByte(secs, m, k) == secs[n].bytes[k - m.base[n]]
  {
    hide Aligned, Allocated, Nobits;
    forall i | 0 <= i < |secs| && Covers(secs, m, i, k) ensures i == n {}
  }

  /** An object the script makes a file of: enough stack, something stored, section
      bytes as long as their headers say, a symbol table, and only relocations it can
      apply. */
  ghost predicate Linkable(w: Width, obj: Object, stack: int) {
    && stack >= 1024
    && Stored(obj.sections).len != 0
    && SizesMatch(obj.sections, Full(obj.sections))
    && obj.symbols.Some?
    && forall i :: 0 <= i < |Relocs(w, obj)| ==> Acceptable(w, Symbols(w, obj), Relocs(w, obj), i)
  }

  /** With every relocation inside its section, the script stops exactly for the
      objects that are not linkable. Together with Link: a file comes out exactly for
      those that are. */
  lemma LinksExactly(w: Width, obj: Object, stack: int)
    requires EntriesInside(obj.sections)
    ensures Refuses(w, obj, stack) <==> !Linkable(w, obj, stack)
  {
    hide PlaceFirst, Relocated, RelocsOf, Resolve, Acceptable, EntriesInside, IsInitial, SizesMatch;
    if obj.symbols.Some? && SizesMatch(obj.sections, Full(obj.sections)) {
      var img := InitialExists(obj.sections);
      forall i | IsInitial(i, obj.sections, Full(obj.sections))
        ensures Relocated(w, Symbols(w, obj), i, Relocs(w, obj)).Some?
                <==> forall k :: 0 <= k < |Relocs(w, obj)| ==> Acceptable(w, Symbols(w, obj), Relocs(w, obj), k)
      {
        InsideImage(w, obj, i);
        AcceptedExactly(w, Symbols(w, obj), i, Relocs(w, obj));
      }
    }
  }

  lemma InsideImage(w: Width, obj: Object, img: Image)
    requires EntriesInside(obj.sections) && IsInitial(img, obj.sections, Full(obj.sections))
    ensures SitesInImage(img, Relocs(w, obj))
  {
    hide PlaceFirst, RelocsOf, Extent, EntriesInside, Covers;
    RelocsInside(w, obj.sections, |obj.sections|);
  }

  // ------------------------------------------------------------- either Lua

  /** Symbol addresses fit 32 bits unsigned, and relocation sites 31. */
  ghost predicate FitsBothLuas(obj: Object) {
    var m := Full(obj.sections);
    && (obj.symbols.Some? ==> forall e :: e in obj.symbols.value && e.shndx in m.base ==>
          0 <= m.base[e.shndx] + e.value < TWO32)
    && (forall n, e :: 0 <= n < |obj.sections| && Applies(obj.sections, m, n) && e in obj.sections[n].entries ==>
          0 <= m.base[obj.sections[n].info] + e.offset < 0x8000_0000)
  }

  lemma ResolveSame(m: Map, e: SymEntry)
    requires e.shndx in m.base ==> 0 <= m.base[e.shndx] + e.value < TWO32
    ensures SameAddress(Resolve(Board, m, e).addr, Resolve(Host, m, e).addr)
  {
    hide Norm;
    HostExact(e.value);
    if e.shndx in m.base {
      HostExact(m.base[e.shndx] + e.value);
    }
  }

  lemma SymbolsSame(obj: Object)
    requires FitsBothLuas(obj) && obj.symbols.Some?
    ensures SameSymbols(Symbols(Board, obj), Symbols(Host, obj))
  {
    hide PlaceFirst, SameAddress, Norm;
    forall k | 0 <= k < |obj.symbols.value|
      ensures SameAddress(Symbols(Board, obj)[k].addr, Symbols(Host, obj)[k].addr)
    {
      assert obj.symbols.value[k] in obj.symbols.value;
      ResolveSame(Full(obj.sections), obj.symbols.value[k]);
    }
  }

  lemma RelocSame(base: int, rela: bool, e: RelEntry)
    requires 0 <= base + e.offset < 0x8000_0000
    ensures RelocOf(Board, base, rela, e) == RelocOf(Host, base, rela, e)
    ensures var r := RelocOf(Host, base, rela, e); Signed32(r.addend) && 0 <= r.at < 0x8000_0000
  {
    hide S32, Norm;
    NormFixed(Board, base + e.offset);
    NormFixed(Host, base + e.offset);
    S32IsSigned(Board, e.addend);
    S32IsSigned(Host, e.addend);
  }

  lemma {:induction false} RelocsSame(obj: Object, n: nat)
    requires FitsBothLuas(obj) && n <= |obj.sections|
    ensures var m := Full(obj.sections);
            && RelocsOf(Board, obj.sections, m, n) == RelocsOf(Host, obj.sections, m, n)
            && FitsBoard(RelocsOf(Host, obj.sections, m, n))
  {
    hide PlaceFirst, RelocOf;
    if n > 0 {
      RelocsSame(obj, n - 1);
      var m, s := Full(obj.sections), obj.sections[n - 1];
      if Applies(obj.sections, m, n - 1) {
        forall i | 0 <= i < |s.entries|
          ensures var r := RelocOf(Host, m.base[s.info], s.typ == SHT_RELA, s.entries[i]);
                  && RelocOf(Board, m.base[s.info], s.typ == SHT_RELA, s.entries[i]) == r
                  && Signed32(r.addend) && 0 <= r.at < 0x8000_0000
        {
          assert s.entries[i] in s.entries;
          RelocSame(m.base[s.info], s.typ == SHT_RELA, s.entries[i]);
        }
      }
    }
  }

  /** The header's entry is the same 32-bit number. */
  lemma {:induction false} EntrySame(sb: seq<Symbol>, sh: seq<Symbol>)
    requires SameSymbols(sb, sh)
    ensures Wrap(HDR_SIZE + EntryOf(sb)) == Wrap(HDR_SIZE + EntryOf(sh))
  {
    hide Norm, Wrap;
    if sh != [] {
      var n := |sh| - 1;
      if sh[n].name == "_start" && sh[n].addr.Some? {
        NormResidue(Board, sh[n].addr.value);
        SameResidue(Norm(Board, sh[n].addr.value), sh[n].addr.value, HDR_SIZE);
        WrapIs(HDR_SIZE + EntryOf(sb), HDR_SIZE + EntryOf(sh));
      } else {
        EntrySame(sb[..n], sh[..n]);
      }
    }
  }

  lemma WrapIs(a: int, b: int)
    requires a % TWO32 == b % TWO32
    ensures Wrap(a) == Wrap(b)
  {}

  lemma HeaderSame(a: int, b: int, len: nat, stack: int)
    requires Wrap(HDR_SIZE + a) == Wrap(HDR_SIZE + b)
    ensures FlatFile.Header(a, len, stack) == FlatFile.Header(b, len, stack)
  {
    hide Wrap, Be32;
  }

  /** One object under the two Luas: what the host links, the board links to the same
      file; and what the board links, the host links to the same file if and only if
      every branch and jal is truly in range. */
  lemma LinkAgrees(obj: Object, stack: int, file: seq<Byte>, img: Image)
    requires FitsBothLuas(obj)
    ensures LinkedVia(Host, obj, stack, file, img) ==> LinkedVia(Board, obj, stack, file, img)
    ensures LinkedVia(Board, obj, stack, file, img) ==>
              (LinkedVia(Host, obj, stack, file, img)
               <==> forall r :: r in Relocs(Host, obj) ==> TrulyInRange(Symbols(Host, obj), r))
  {
    hide PlaceFirst, Relocated, RelocsOf, Resolve, EntryOf, Wrap, FitsBothLuas, SameSymbols, FitsBoard, TrulyInRange,
         IsInitial;
    if obj.symbols.Some? {
      SymbolsSame(obj);
      RelocsSame(obj, |obj.sections|);
      var sb, sh, rels := Symbols(Board, obj), Symbols(Host, obj), Relocs(Host, obj);
      EntrySame(sb, sh);
      HeaderSame(EntryOf(sb), EntryOf(sh), Full(obj.sections).len, stack);
      ImagesAgree(sb, sh, img, rels);
    }
  }

  lemma ImagesAgree(sb: seq<Symbol>, sh: seq<Symbol>, img: Image, rels: seq<Reloc>)
    requires SameSymbols(sb, sh) && FitsBoard(rels)
    ensures var b := Relocated(Board, sb, img, rels); var h := Relocated(Host, sh, img, rels);
            && (h.Some? ==> b == h)
            && (b.Some? ==> (h.Some? <==> forall r :: r in rels ==> TrulyInRange(sh, r)))
  {
    hide Relocated, SameSymbols, FitsBoard, TrulyInRange;
    if Relocated(Host, sh, img, rels).Some? {
      HostImageIsBoardImage(sb, sh, img, rels);
    }
    if Relocated(Board, sb, img, rels).Some? {
      BoardImageIsHostImageIffInRange(sb, sh, img, rels);
    }
  }

  // ------------------------------------------------------ where its code leads

  /** Symbol k of the object lies in a section that was placed. */
  predicate Placed(obj: Object, k: int) {
    && obj.symbols.Some? && 0 <= k < |obj.symbols.value|
    && var e := obj.symbols.value[k];
       e.shndx != SHN_UNDEF && e.shndx != SHN_ABS && e.shndx < |obj.sections|
       && Allocated(obj.sections[e.shndx]) && e.value <= obj.sections[e.shndx].size
  }

  /** Where the bytes of symbol k are in the image: its section's base plus its value. */
  function PlaceOf(obj: Object, k: int): int
    requires Placed(obj, k)
  {
    LayoutSound(obj.sections);
    Full(obj.sections).base[obj.symbols.value[k].shndx] + obj.symbols.value[k].value
  }

  lemma PlacedAddress(w: Width, obj: Object, k: int)
    requires Placed(obj, k) && Full(obj.sections).len < 0x8000_0000
    ensures obj.symbols.Some? && SymAddr(Symbols(w, obj), k) == Some(PlaceOf(obj, k))
    ensures 0 <= PlaceOf(obj, k) <= Full(obj.sections).len
  {
    hide PlaceFirst, Resolve, Allocated, InOrder, Separate;
    SymbolLands(w, obj.sections, obj.symbols.value[k]);
  }

  /** A linked file, in memory behind its header from `load` on. */
  ghost predicate Started(w: Width, obj: Object, stack: int, file: seq<Byte>, img: Image, mem: Memory, load: U32) {
    && LinkedVia(w, obj, stack, file, img) && InMemory(mem, file, load)
    && Full(obj.sections).len < 0x8000_0000
  }

  /** Relocation h is on an auipc, and relocation i on an instruction that takes the
      low half of an address from the register it writes. */
  ghost predicate PairAt(img: Image, rels: seq<Reloc>, len: int, h: nat, i: nat) {
    && h < |rels| && i < |rels| && Alone(rels, h) && Alone(rels, i)
    && KindOf(rels[h].rtype).PcrelHi?
    && (KindOf(rels[i].rtype).PcrelLoI? || KindOf(rels[i].rtype).PcrelLoS?)
    && Inside(rels[h].at, len) && Inside(rels[i].at, len)
    && Readable(img, rels[h].at) && Readable(img, rels[i].at)
    && PairWords(Rd32(img, rels[h].at), Rd32(img, rels[i].at), KindOf(rels[i].rtype).PcrelLoI?)
  }

  predicate PairWords(hi: U32, lo: U32, immediate: bool) {
    && Opcode(hi) == AUIPC && Rd(hi) != 0 && Rs1(lo) == Rd(hi)
    && if immediate then TakesImmI(lo) else TakesImmS(lo)
  }

  /** The auipc runs in state c, the other instruction in state d, with the register
      between them as the auipc left it. */
  ghost predicate PairRuns(img: Image, rels: seq<Reloc>, mem: Memory, load: U32, h: nat, i: nat, c: Cpu, d: Cpu)
    requires h < |rels| && i < |rels| && Readable(img, rels[h].at)
  {
    var rd := Rd(Rd32(img, rels[h].at));
    && c.pc == Wrap(load + rels[h].at) && d.pc == Wrap(load + rels[i].at)
    && d.x[rd] == Step(mem, c).1.x[rd]
  }

  /** auipc and the instruction with its low half, from the object and its file: the
      second reaches the load address, plus the symbol's section base, plus its value,
      plus the addend. */
  lemma PairLands(w: Width, obj: Object, stack: int, file: seq<Byte>, img: Image, mem: Memory, load: U32,
                  h: nat, i: nat, c: Cpu, d: Cpu)
    requires Started(w, obj, stack, file, img, mem, load)
    requires PairAt(img, Relocs(w, obj), Full(obj.sections).len, h, i)
    requires PairRuns(img, Relocs(w, obj), mem, load, h, i, c, d)
    requires Placed(obj, Relocs(w, obj)[h].sym) && Placed(obj, Relocs(w, obj)[i].sym)
    requires PlaceOf(obj, Relocs(w, obj)[i].sym) == Relocs(w, obj)[h].at
    ensures var r := Relocs(w, obj)[h];
            Step(mem, d).0 == Intended(Rd32(img, Relocs(w, obj)[i].at),
                                       Wrap(load + PlaceOf(obj, r.sym) + r.addend))
  {
    hide Relocated, PlaceFirst, RelocsOf, Rd32, Step, Opcode, Rd, Rs1, TakesImmI, TakesImmS, Intended, Wrap, Alone,
         Placed, PlaceOf, LinkedVia, InMemory;
    var rels := Relocs(w, obj);
    PlacedAddress(w, obj, rels[h].sym);
    PlacedAddress(w, obj, rels[i].sym);
    FileRuns(w, obj, stack, file, img, mem, load);
    PairReaches(w, Symbols(w, obj), img, rels, Full(obj.sections).len, mem, load, h, i, c, d);
  }

  /** Relocation i is on an auipc and a jalr through its register. */
  ghost predicate CallAt(img: Image, rels: seq<Reloc>, len: int, i: nat) {
    && i < |rels| && Alone(rels, i) && KindOf(rels[i].rtype).CallPair?
    && Inside(rels[i].at, len) && Inside(rels[i].at + 4, len)
    && Readable(img, rels[i].at) && Readable(img, rels[i].at + 4)
    && CallWords(Rd32(img, rels[i].at), Rd32(img, rels[i].at + 4))
  }

  predicate CallWords(hi: U32, lo: U32) {
    Opcode(hi) == AUIPC && Rd(hi) != 0 && Opcode(lo) == JALR && Funct3(lo) == 0 && Rs1(lo) == Rd(hi)
  }

  /** call and tail, from the object and its file: two steps from the auipc the
      processor is at the symbol. */
  lemma CallLands(w: Width, obj: Object, stack: int, file: seq<Byte>, img: Image, mem: Memory, load: U32,
                  i: nat, c: Cpu)
    requires Started(w, obj, stack, file, img, mem, load)
    requires CallAt(img, Relocs(w, obj), Full(obj.sections).len, i)
    requires Placed(obj, Relocs(w, obj)[i].sym) && c.pc == Wrap(load + Relocs(w, obj)[i].at)
    ensures var r := Relocs(w, obj)[i];
            Step(mem, Step(mem, c).1).1.pc == ClearBit0(Wrap(load + PlaceOf(obj, r.sym) + r.addend))
  {
    hide Relocated, PlaceFirst, RelocsOf, Rd32, Step, Opcode, Rd, Rs1, Funct3, Wrap, Alone, Placed, PlaceOf, LinkedVia,
         InMemory, ClearBit0;
    var rels := Relocs(w, obj);
    PlacedAddress(w, obj, rels[i].sym);
    FileRuns(w, obj, stack, file, img, mem, load);
    CallReaches(w, Symbols(w, obj), img, rels, Full(obj.sections).len, mem, load, i, c);
  }

  // ----------------------------------------------------- what changes in a file

  /** The word at an image offset, as it is in the file. */
  function FileWord(file: seq<Byte>, at: int): U32
    requires 0 <= at && HDR_SIZE + at + 4 <= |file|
  {
    Word(file[HDR_SIZE + at], file[HDR_SIZE + at + 1], file[HDR_SIZE + at + 2], file[HDR_SIZE + at + 3])
  }

  /** Where a relocation is alone, the file differs from the section's own bytes only
      in the bits of the immediate, which then stands for the relocation's value. */
  lemma FileField(w: Width, obj: Object, stack: int, file: seq<Byte>, img: Image, i: nat, e: Edit)
    requires LinkedVia(w, obj, stack, file, img) && i < |Relocs(w, obj)| && Alone(Relocs(w, obj), i)
    requires e in EditsFor(w, i, Relocs(w, obj)[i], ValueAt(w, Symbols(w, obj), Relocs(w, obj), i))
    requires Inside(e.at, Full(obj.sections).len) && Readable(img, e.at)
    ensures |file| == HDR_SIZE + Full(obj.sections).len
    ensures KeepsRest(e.field, FileWord(file, e.at), Rd32(img, e.at))
    ensures !e.field.Plus? && !e.field.Minus? ==> Carries(e.field, FileWord(file, e.at), e.value)
  {
    hide PlaceFirst, Relocated, RelocsOf, Resolve, EntryOf, Alone, EditsFor, ValueAt, KeepsRest, Carries, IsInitial,
         PlanAll, Rd32, FileWord, Readable;
    LoneRelocation(w, Symbols(w, obj), img, Relocs(w, obj), i, e);
    FileWordIs(w, obj, stack, file, img, e.at);
  }

  lemma FileWordIs(w: Width, obj: Object, stack: int, file: seq<Byte>, img: Image, at: int)
    requires LinkedVia(w, obj, stack, file, img) && Inside(at, Full(obj.sections).len)
    ensures |file| == HDR_SIZE + Full(obj.sections).len
    ensures var out := Relocated(w, Symbols(w, obj), img, Relocs(w, obj)).value;
            Readable(out, at) && FileWord(file, at) == Rd32(out, at)
  {
    hide PlaceFirst, Relocated, RelocsOf, Resolve, EntryOf, IsInitial, Word;
    var out := Relocated(w, Symbols(w, obj), img, Relocs(w, obj)).value;
    assert file[HDR_SIZE + at] == out[at] && file[HDR_SIZE + (at + 1)] == out[at + 1];
    assert file[HDR_SIZE + (at + 2)] == out[at + 2] && file[HDR_SIZE + (at + 3)] == out[at + 3];
  }
}
