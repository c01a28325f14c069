/** What becomes of the object's own tables: each relocation entry read as its three
    words, each symbol as its section index and value, and where the linked program goes
    in these terms. */
module EntryMeaning {
  import opened Words
  import opened Rv32
  import opened Encoders
  import opened Layout
  import opened Relocate
  import opened Sites
  import opened LinkCorrect
  import opened Acceptance
  import opened WidthAgreement
  import opened FlatFile
  import opened WholeObject

  /** The signed reading of a word. */
  function Signed(u: U32): int { if u < 0x8000_0000 then u else u - 0x1_0000_0000 }

  /** Section n holds relocation entries, RELA (4) or REL (9), for a section that was
      placed. */
  predicate Counts(obj: Object, n: nat)
    requires n < |obj.sections|
  {
    (obj.sections[n].typ == 4 || obj.sections[n].typ == 9) && obj.sections[n].info in Full(obj.sections).base
  }

  /** How many entries the first n sections contribute. */
  function Before(obj: Object, n: nat): nat
    requires n <= |obj.sections|
  {
    if n == 0 then 0 else Before(obj, n - 1) + if Counts(obj, n - 1) then |obj.sections[n - 1].entries| else 0
  }

  /** Entry i of section n is one that counts. */
  predicate IsEntry(obj: Object, n: nat, i: nat) {
    n < |obj.sections| && Counts(obj, n) && i < |obj.sections[n].entries|
  }

  function Word0(obj: Object, n: nat, i: nat): U32
    requires IsEntry(obj, n, i)
  {
    obj.sections[n].entries[i].offset
  }

  function Word1(obj: Object, n: nat, i: nat): U32
    requires IsEntry(obj, n, i)
  {
    obj.sections[n].entries[i].info
  }

  /** The addend: the third word, signed, or 0 in a section without one. */
  function Addend(obj: Object, n: nat, i: nat): int
    requires IsEntry(obj, n, i)
  {
    if obj.sections[n].typ == 4 then Signed(obj.sections[n].entries[i].addend) else 0
  }

  /** The image offset it patches: the base of its target section plus its first word. */
  function SiteOf(obj: Object, n: nat, i: nat): int
    requires IsEntry(obj, n, i)
  {
    Full(obj.sections).base[obj.sections[n].info] + Word0(obj, n, i)
  }

  /** A relocation that says what entry i of section n says. */
  ghost predicate Means(obj: Object, n: nat, i: nat, r: Reloc)
    requires IsEntry(obj, n, i)
  {
    && r.rtype == Word1(obj, n, i) % 0x100
    && r.sym == Word1(obj, n, i) / 0x100
    && r.addend == Addend(obj, n, i)
    && (0 <= SiteOf(obj, n, i) < 0x8000_0000 ==> r.at == SiteOf(obj, n, i))
  }

  lemma OneEntry(w: Width, obj: Object, n: nat, i: nat)
    requires IsEntry(obj, n, i)
    ensures Means(obj, n, i, RelocOf(w, Full(obj.sections).base[obj.sections[n].info], obj.sections[n].typ == SHT_RELA,
                                     obj.sections[n].entries[i]))
  {
    hide Full, Norm, S32;
    var e := obj.sections[n].entries[i];
    S32IsSigned(w, e.addend);
    var at := Full(obj.sections).base[obj.sections[n].info] + e.offset;
    if 0 <= at < 0x8000_0000 {
      NormFixed(w, at);
    }
  }

  /** The entries of sections before n, in the list of all. */
  ghost predicate Listed(obj: Object, n: nat, rels: seq<Reloc>)
    requires n <= |obj.sections|
  {
    && |rels| == Before(obj, n)
    && forall s, i :: 0 <= s < n && IsEntry(obj, s, i) ==> Before(obj, s) + i < |rels| && Means(obj, s, i, rels[Before(obj, s) + i])
  }

  lemma {:induction false} BeforeGrows(obj: Object, s: nat, n: nat)
    requires s < n <= |obj.sections|
    ensures Before(obj, s) + (if Counts(obj, s) then |obj.sections[s].entries| else 0) <= Before(obj, n)
  {
    hide Counts;
    if s < n - 1 {
      BeforeGrows(obj, s, n - 1);
    }
  }

  lemma {:induction false} ListedUpTo(w: Width, obj: Object, n: nat)
    requires n <= |obj.sections|
    ensures Listed(obj, n, RelocsOf(w, obj.sections, Full(obj.sections), n))
  {
    hide Full, RelocOf, Means;
    if n > 0 {
      ListedUpTo(w, obj, n - 1);
      var rels, shorter := RelocsOf(w, obj.sections, Full(obj.sections), n), RelocsOf(w, obj.sections, Full(obj.sections), n - 1);
      forall s, i | 0 <= s < n && IsEntry(obj, s, i)
        ensures Before(obj, s) + i < |rels| && Means(obj, s, i, rels[Before(obj, s) + i])
      {
        if s < n - 1 {
          BeforeGrows(obj, s, n - 1);
          assert rels[Before(obj, s) + i] == shorter[Before(obj, s) + i];
        } else {
          OneEntry(w, obj, s, i);
        }
      }
    }
  }

  /** The relocations applied are exactly one for each entry of every RELA or REL section
      whose target is placed, in table order, each with what the entry's words say. */
  lemma OnePerEntry(w: Width, obj: Object)
    ensures Listed(obj, |obj.sections|, Relocs(w, obj))
  {
    hide Full, RelocsOf, Listed;
    ListedUpTo(w, obj, |obj.sections|);
  }

  /** The place of an entry in that list. */
  function Index(obj: Object, n: nat, i: nat): nat
    requires IsEntry(obj, n, i)
  {
    Before(obj, n) + i
  }

  lemma EntryAt(w: Width, obj: Object, n: nat, i: nat)
    requires IsEntry(obj, n, i)
    ensures Index(obj, n, i) < |Relocs(w, obj)| && Means(obj, n, i, Relocs(w, obj)[Index(obj, n, i)])
  {
    hide Means, Full, RelocsOf, Counts;
    OnePerEntry(w, obj);
  }

  /** What the type numbers are taken for, all others being refused. */
  lemma TypesByNumber(t: int)
    ensures KindOf(t).Skipped? <==> t in {0, 51}
    ensures KindOf(t).CondBranch? <==> t == 16
    ensures KindOf(t).Jump? <==> t == 17
    ensures KindOf(t).CallPair? <==> t in {18, 19}
    ensures KindOf(t).PcrelHi? <==> t == 23
    ensures KindOf(t).PcrelLoI? <==> t == 24
    ensures KindOf(t).PcrelLoS? <==> t == 25
    ensures KindOf(t).AbsHi? <==> t == 26
    ensures KindOf(t).AbsLoI? <==> t == 27
    ensures KindOf(t).AbsLoS? <==> t == 28
    ensures KindOf(t).Add32? <==> t == 35
    ensures KindOf(t).Sub32? <==> t == 39
    ensures KindOf(t).Set32? <==> t == 56
    ensures KindOf(t).Pcrel32? <==> t == 57
    ensures KindOf(t).Refused? <==> t !in {0, 16, 17, 18, 19, 23, 24, 25, 26, 27, 28, 35, 39, 51, 56, 57}
  {}

  // ------------------------------------------------------------------- symbols

  /** The address of symbol k in unbounded integers: its value, on top of its section's
      base when that was placed. 0xfff1 marks an absolute value. */
  function PlainAddress(obj: Object, k: nat): int
    requires obj.symbols.Some? && k < |obj.symbols.value|
  {
    var e := obj.symbols.value[k];
    if e.shndx != 0xfff1 && e.shndx in Full(obj.sections).base then Full(obj.sections).base[e.shndx] + e.value
    else e.value
  }

  predicate Undefined(obj: Object, k: int) {
    obj.symbols.Some? ==> k < 0 || k >= |obj.symbols.value| || obj.symbols.value[k].shndx == 0
  }

  /** A symbol of section index 0, or one that does not exist, has no address; every
      other has its plain one, as far as this Lua's integers hold it. */
  lemma SymbolMeans(w: Width, obj: Object, k: int)
    requires obj.symbols.Some?
    ensures SymAddr(WholeObject.Symbols(w, obj), k).None? <==> Undefined(obj, k)
    ensures !Undefined(obj, k) ==>
              SymAddr(WholeObject.Symbols(w, obj), k) == Some(Norm(w, PlainAddress(obj, k)))
    ensures 0 <= k < |obj.symbols.value| ==>
              WholeObject.Symbols(w, obj)[k].name == obj.symbols.value[k].name
  {
    hide Full, Norm;
  }

  /** An entry that is not NONE (0) or RELAX (51) and names an undefined symbol, or has a
      type the script does not support: no file. */
  lemma UndefinedRefuses(w: Width, obj: Object, stack: int, n: nat, i: nat)
    requires IsEntry(obj, n, i) && Word1(obj, n, i) % 0x100 !in {0, 51}
    requires Undefined(obj, Word1(obj, n, i) / 0x100)
             || Word1(obj, n, i) % 0x100 !in {16, 17, 18, 19, 23, 24, 25, 26, 27, 28, 35, 39, 56, 57}
    ensures Refuses(w, obj, stack)
  {
    hide Full, RelocsOf, IsInitial, Resolve, SizesMatch, Acceptable, PlanAll, Exec, IsEntry;
    if obj.symbols.Some? {
      EntryAt(w, obj, n, i);
      var j, rels, syms := Index(obj, n, i), Relocs(w, obj), WholeObject.Symbols(w, obj);
      TypesByNumber(rels[j].rtype);
      SymbolMeans(w, obj, rels[j].sym);
      NotAcceptable(w, syms, rels, j);
      PlanExists(w, syms, rels);
    }
  }

  lemma NotAcceptable(w: Width, syms: seq<Symbol>, rels: seq<Reloc>, j: nat)
    requires j < |rels| && !KindOf(rels[j].rtype).Skipped?
    requires KindOf(rels[j].rtype).Refused? || SymAddr(syms, rels[j].sym).None?
    ensures !Acceptable(w, syms, rels, j)
  {
    hide PcRel, HasHigh;
  }

  // --------------------------------------------------------------------- entry

  /** Symbol k is the last `_start` that is defined. */
  ghost predicate LastDefinedStart(obj: Object, k: nat)
    requires obj.symbols.Some? && k < |obj.symbols.value|
  {
    && obj.symbols.value[k].name == "_start" && !Undefined(obj, k)
    && forall j :: k < j < |obj.symbols.value| ==> !(obj.symbols.value[j].name == "_start" && !Undefined(obj, j))
  }

  lemma {:induction false} EntryFrom(syms: seq<Symbol>, k: nat)
    requires k < |syms| && syms[k].name == "_start" && syms[k].addr.Some?
    requires forall j :: k < j < |syms| ==> !(syms[j].name == "_start" && syms[j].addr.Some?)
    ensures EntryOf(syms) == syms[k].addr.value
  {
    if k < |syms| - 1 {
      EntryFrom(syms[..|syms| - 1], k);
    }
  }

  lemma {:induction false} NoEntry(syms: seq<Symbol>)
    requires forall j :: 0 <= j < |syms| ==> !(syms[j].name == "_start" && syms[j].addr.Some?)
    ensures EntryOf(syms) == 0
  {
    if syms != [] {
      NoEntry(syms[..|syms| - 1]);
    }
  }

  /** The header's entry: 64 without a defined `_start`, and 64 beyond the address of the
      last one otherwise. */
  lemma HeaderEntry(w: Width, obj: Object, stack: int, file: seq<Byte>, img: Image)
    requires LinkedVia(w, obj, stack, file, img) && 64 + Full(obj.sections).len < 0x1_0000_0000
    ensures |file| >= 64
    ensures (forall k :: 0 <= k < |obj.symbols.value| ==> !(obj.symbols.value[k].name == "_start" && !Undefined(obj, k)))
            ==> FlatFile.FieldAt(file, 8) == 64
    ensures forall k :: 0 <= k < |obj.symbols.value| && LastDefinedStart(obj, k) ==>
              FlatFile.FieldAt(file, 8) == Wrap(64 + PlainAddress(obj, k))
  {
    hide Full, RelocsOf, Relocated, IsInitial, FlatFile.Header, FlatFile.FieldAt, PlainAddress, Norm, Undefined, EntryOf;
    var syms, len := WholeObject.Symbols(w, obj), Full(obj.sections).len;
    var body := file[64..];
    assert file == FlatFile.Header(EntryOf(syms), len, stack) + body;
    HeaderReadsBack(EntryOf(syms), len, stack, body);
    forall k | 0 <= k < |syms|
      ensures syms[k].addr.None? <==> Undefined(obj, k)
      ensures !Undefined(obj, k) ==> syms[k].addr == Some(Norm(w, PlainAddress(obj, k)))
      ensures syms[k].name == obj.symbols.value[k].name
    {
      SymbolMeans(w, obj, k);
    }
    if forall k :: 0 <= k < |obj.symbols.value| ==> !(obj.symbols.value[k].name == "_start" && !Undefined(obj, k)) {
      NoEntry(syms);
      SmallWrap(64);
    }
    forall k | 0 <= k < |obj.symbols.value| && LastDefinedStart(obj, k)
      ensures FlatFile.FieldAt(file, 8) == Wrap(64 + PlainAddress(obj, k))
    {
      EntryFrom(syms, k);
      NormResidue(w, PlainAddress(obj, k));
      SameResidue(Norm(w, PlainAddress(obj, k)), PlainAddress(obj, k), 64);
      WrapIs(64 + Norm(w, PlainAddress(obj, k)), 64 + PlainAddress(obj, k));
    }
  }

  // ------------------------------------------------------ where its code leads

  /** Entry (n, i) patches a word of the image, alone. */
  ghost predicate Lone(w: Width, obj: Object, img: Image, n: nat, i: nat) {
    && IsEntry(obj, n, i) && 0 <= SiteOf(obj, n, i) && SiteOf(obj, n, i) + 4 <= Full(obj.sections).len
    && Readable(img, SiteOf(obj, n, i))
    && Index(obj, n, i) < |Relocs(w, obj)| && Alone(Relocs(w, obj), Index(obj, n, i))
  }

  /** The entry's symbol lies in a section that was placed. */
  predicate Local(obj: Object, n: nat, i: nat) {
    IsEntry(obj, n, i) && Placed(obj, Word1(obj, n, i) / 0x100)
  }

  /** What the entry asks for: its symbol's place and its addend. */
  function Target(obj: Object, n: nat, i: nat): int
    requires Local(obj, n, i)
  {
    PlaceOf(obj, Word1(obj, n, i) / 0x100) + Addend(obj, n, i)
  }

  /** Two entries of types 23 (PCREL_HI20) and 24 or 25 (PCREL_LO12_I or _S), the second
      named by a label on the first, on an auipc and an instruction that uses it: run from
      anywhere, the second reaches the load address plus what the first entry asks for. */
  lemma PairLands(w: Width, obj: Object, stack: int, file: seq<Byte>, img: Image, mem: Memory, load: U32,
                  n: nat, i: nat, n': nat, i': nat, c: Cpu, d: Cpu)
    requires Started(w, obj, stack, file, img, mem, load)
    requires Lone(w, obj, img, n, i) && Lone(w, obj, img, n', i') && Local(obj, n, i) && Local(obj, n', i')
    requires Word1(obj, n, i) % 0x100 == 23
    requires Word1(obj, n', i') % 0x100 == 24 || Word1(obj, n', i') % 0x100 == 25
    requires PlaceOf(obj, Word1(obj, n', i') / 0x100) == SiteOf(obj, n, i)
    requires PairWords(Rd32(img, SiteOf(obj, n, i)), Rd32(img, SiteOf(obj, n', i')), Word1(obj, n', i') % 0x100 == 24)
    requires c.pc == Wrap(load + SiteOf(obj, n, i)) && d.pc == Wrap(load + SiteOf(obj, n', i'))
    requires var rd := Rd(Rd32(img, SiteOf(obj, n, i))); d.x[rd] == Step(mem, c).1.x[rd]
    ensures Step(mem, d).0 == Intended(Rd32(img, SiteOf(obj, n', i')), Wrap(load + Target(obj, n, i)))
  {
    hide Full, RelocsOf, Rd32, Step, Intended, Wrap, Alone, Placed, PlaceOf, LinkedVia, InMemory, PairWords, Rd, Addend,
         IsEntry, Index;
    EntryAt(w, obj, n, i);
    EntryAt(w, obj, n', i');
    var h, l := Index(obj, n, i), Index(obj, n', i');
    TypesByNumber(Relocs(w, obj)[h].rtype);
    TypesByNumber(Relocs(w, obj)[l].rtype);
    WholeObject.PairLands(w, obj, stack, file, img, mem, load, h, l, c, d);
    assert load + PlaceOf(obj, Relocs(w, obj)[h].sym) + Relocs(w, obj)[h].addend == load + Target(obj, n, i);
  }

  /** An entry of type 18 (CALL) or 19 (CALL_PLT) on an auipc and the jalr behind it: two
      steps lead to the load address plus what it asks for. */
  lemma CallLands(w: Width, obj: Object, stack: int, file: seq<Byte>, img: Image, mem: Memory, load: U32,
                  n: nat, i: nat, c: Cpu)
    requires Started(w, obj, stack, file, img, mem, load)
    requires Lone(w, obj, img, n, i) && Local(obj, n, i)
    requires Word1(obj, n, i) % 0x100 == 18 || Word1(obj, n, i) % 0x100 == 19
    requires var at := SiteOf(obj, n, i);
             at + 8 <= Full(obj.sections).len && Readable(img, at + 4) && CallWords(Rd32(img, at), Rd32(img, at + 4))
    requires c.pc == Wrap(load + SiteOf(obj, n, i))
    ensures Step(mem, Step(mem, c).1).1.pc == ClearBit0(Wrap(load + Target(obj, n, i)))
  {
    hide Full, RelocsOf, Rd32, Step, Wrap, Alone, Placed, PlaceOf, LinkedVia, InMemory, CallWords, Addend, IsEntry, Index,
         ClearBit0;
    EntryAt(w, obj, n, i);
    var j := Index(obj, n, i);
    TypesByNumber(Relocs(w, obj)[j].rtype);
    WholeObject.CallLands(w, obj, stack, file, img, mem, load, j, c);
    assert load + PlaceOf(obj, Relocs(w, obj)[j].sym) + Relocs(w, obj)[j].addend == load + Target(obj, n, i);
  }

  lemma ParityKept(w: Width, s: int, r: Reloc)
    ensures PcRel(w, s, r) % 2 == (s + r.addend - r.at) % 2
  {
    hide Norm;
    NormEven(w, s + r.addend);
    NormEven(w, Absolute(w, s, r) - r.at);
    SameParity(Absolute(w, s, r), s + r.addend, r.at);
  }

  lemma NormEven(w: Width, n: int)
    ensures Norm(w, n) % 2 == n % 2
  {
    hide Norm;
    NormResidue(w, n);
    EvenApart(Norm(w, n), n);
  }

  lemma SameParity(a: int, b: int, c: int)
    requires a % 2 == b % 2
    ensures (a - c) % 2 == (b - c) % 2
  {}

  lemma EvenApart(a: int, b: int)
    requires a % TWO32 == b % TWO32
    ensures a % 2 == b % 2
  {
    assert a - b == TWO32 * (a / TWO32 - b / TWO32);
  }

  /** An entry of type 16 (BRANCH) on a branch, or 17 (JAL) on a jal, of an object that
      was linked: it leads to the load address plus what it asks for, less the low bit of
      the distance; so to the right place exactly when that is even. */
  lemma DirectLands(w: Width, obj: Object, stack: int, file: seq<Byte>, img: Image, mem: Memory, load: U32,
                    n: nat, i: nat, c: Cpu)
    requires Started(w, obj, stack, file, img, mem, load)
    requires Lone(w, obj, img, n, i) && Local(obj, n, i)
    requires var op, t := Opcode(Rd32(img, SiteOf(obj, n, i))), Word1(obj, n, i) % 0x100;
             (t == 16 && op == BRANCH) || (t == 17 && op == JAL)
    requires c.pc == Wrap(load + SiteOf(obj, n, i))
    ensures var word, odd := Rd32(img, SiteOf(obj, n, i)), (Target(obj, n, i) - SiteOf(obj, n, i)) % 2;
            && Step(mem, c).0 == Intended(word, Wrap(load + Target(obj, n, i) - odd))
            && (Step(mem, c).0 == Intended(word, Wrap(load + Target(obj, n, i))) <==> odd == 0)
  {
    hide Full, RelocsOf, Rd32, Step, Intended, Wrap, Alone, Placed, PlaceOf, LinkedVia, InMemory, Addend, IsEntry, Index,
         Opcode, PcRel, Running;
    EntryAt(w, obj, n, i);
    var j, rels := Index(obj, n, i), Relocs(w, obj);
    TypesByNumber(rels[j].rtype);
    PlacedAddress(w, obj, rels[j].sym);
    var s := PlaceOf(obj, rels[j].sym);
    ParityKept(w, s, rels[j]);
    FileRuns(w, obj, stack, file, img, mem, load);
    DirectReaches(w, WholeObject.Symbols(w, obj), img, rels, Full(obj.sections).len, mem, load, j, c);
    assert load + s + rels[j].addend == load + Target(obj, n, i);
  }
}
