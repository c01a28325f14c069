/** The semantic claim of board/mkflt.lua: wherever the image is loaded, the
    patched instructions reach the load address plus S + A.

    The theorems execute the final words with the Rv32 specification at an
    arbitrary load address. They hold for the board's integer width and the
    host's alike. */
module LinkCorrect {
  import opened Words
  import opened Rv32
  import opened Encoders
  import opened Relocate
  import opened Sites

  /** Memory holds the first `len` bytes of the image from address `load` on. */
  ghost predicate Loaded(m: Memory, img: Image, len: int, load: U32) {
    forall k :: 0 <= k < len ==> k in img && m(Wrap(load + k)) == img[k]
  }

  lemma WrapAdd(a: int, b: int)
    ensures Wrap(Wrap(a) + b) == Wrap(a + b)
  {
    DivShift(a + b, TWO32, -(a / TWO32));
  }

  lemma FetchLoaded(m: Memory, img: Image, len: int, load: U32, at: int)
    requires Loaded(m, img, len, load) && 0 <= at && at + 4 <= len
    ensures Readable(img, at) && Fetch(m, Wrap(load + at)) == Rd32(img, at)
  {
    hide Wrap, Word;
    assert at in img && at + 1 in img && at + 2 in img && at + 3 in img;
    WrapAdd(load + at, 1);
    WrapAdd(load + at, 2);
    WrapAdd(load + at, 3);
  }

  /** The effect the programmer wrote the instruction for: reach address t. */
  function Intended(i: U32, t: U32): Effect {
    var op := Opcode(i);
    if op == OP_IMM then Writes(Rd(i), t)
    else if op == JALR then Jumps(Rd(i), ClearBit0(t))
    else if op == JAL then Jumps(Rd(i), t)
    else if op == BRANCH then Branches(t)
    else Accesses(t)
  }

  predicate TakesImmI(i: U32) {
    (Opcode(i) == OP_IMM && Funct3(i) == 0) || (Opcode(i) == JALR && Funct3(i) == 0) || Opcode(i) == LOAD
  }

  predicate TakesImmS(i: U32) { Opcode(i) == STORE }

  // ---------------------------------- patched instructions keep what they are

  lemma LowBits(a: U32, b: U32)
    requires a % 0x1000 == b % 0x1000
    ensures Opcode(a) == Opcode(b) && Rd(a) == Rd(b)
  {
    SplitLow(a);
    SplitLow(b);
  }

  lemma SplitLow(a: U32)
    ensures Opcode(a) == a % 0x1000 % 0x80 && Rd(a) == a % 0x1000 / 0x80
  {
    assert a == a / 0x1000 * 0x1000 + a % 0x1000;
    var m := a / 0x1000 * 0x20;
    DivShift(a % 0x1000, 0x80, m);
    DivShift(a % 0x1000 / 0x80, 0x20, a / 0x1000);
  }

  lemma MiddleBits(a: U32, b: U32)
    requires a / 0x1000 % 0x2000 == b / 0x1000 % 0x2000
    ensures Funct3(a) == Funct3(b) && Rs1(a) == Rs1(b)
  {
    SplitMiddle(a);
    SplitMiddle(b);
  }

  lemma SplitMiddle(a: U32)
    ensures Funct3(a) == a / 0x1000 % 0x2000 % 8 && Rs1(a) == a / 0x1000 % 0x2000 / 8 % 0x20
  {
    var q := a / 0x1000;
    var t := q % 0x2000;
    assert q == t + 0x2000 * (q / 0x2000);
    DivShift(t, 8, 0x400 * (q / 0x2000));
    assert a / 0x8000 == q / 8;
    DivShift(t / 8, 0x20, 0x20 * (q / 0x2000));
  }

  lemma LowTwenty(a: U32, b: U32)
    requires a % 0x10_0000 == b % 0x10_0000
    ensures a % 0x1000 == b % 0x1000 && a / 0x1000 % 0x100 == b / 0x1000 % 0x100
    ensures Funct3(a) == Funct3(b) && Rs1(a) == Rs1(b)
  {
    SplitTwenty(a);
    SplitTwenty(b);
  }

  lemma SplitTwenty(a: U32)
    ensures a % 0x1000 == a % 0x10_0000 % 0x1000
    ensures a / 0x1000 % 0x100 == a % 0x10_0000 / 0x1000
    ensures Funct3(a) == a % 0x10_0000 / 0x1000 % 8
    ensures Rs1(a) == a % 0x10_0000 / 0x1000 / 8
  {
    var t := a % 0x10_0000;
    var k := a / 0x10_0000;
    assert a == t + 0x10_0000 * k;
    DivShift(t, 0x1000, 0x100 * k);
    DivShift(t / 0x1000, 0x100, k);
    DivShift(t / 0x1000, 8, 0x20 * k);
    assert a / 0x8000 == a / 0x1000 / 8;
    DivShift(t / 0x1000 / 8, 0x20, k);
  }

  lemma KeepsI(i: U32, v: int)
    requires -0x800 <= v < 0x800
    ensures var j := PutI(i, v);
            Opcode(j) == Opcode(i) && Rd(j) == Rd(i) && Funct3(j) == Funct3(i) && Rs1(j) == Rs1(i)
  {
    hide Opcode, Rd, Funct3, Rs1, PutI, ImmI;
    FieldsI(i, v);
    LowTwenty(PutI(i, v), i);
    LowBits(PutI(i, v), i);
  }

  lemma KeepsS(i: U32, v: int)
    requires -0x800 <= v < 0x800
    ensures var j := PutS(i, v);
            Opcode(j) == Opcode(i) && Funct3(j) == Funct3(i) && Rs1(j) == Rs1(i)
  {
    hide Rd, Funct3, Rs1, PutS, ImmS;
    FieldsS(i, v);
    MiddleBits(PutS(i, v), i);
  }

  // ------------------------------------------------------------ hi + lo

  /** auipc and a signed 12-bit immediate add up to pc + v. */
  lemma HiLoMeet(w: Width, v: int, pc: U32, i: U32)
    requires Norm(w, v) == v
    ensures -0x800 <= Lo12(w, v) < 0x800
    ensures Wrap(Wrap(pc + ImmU(PutU(i, Hi20(w, v)))) + Lo12(w, v)) == Wrap(pc + v)
  {
    hide Wrap, PutU, ImmU, Hi20, Lo12, Norm;
    HiLoSplit(w, v);
    FieldsU(i, Hi20(w, v));
    var u := (v + 0x800) / 0x1000 % 0x10_0000 * 0x1000;
    var lo := (v + 0x800) % 0x1000 - 0x800;
    WrapAdd(pc + u, lo);
    var k := (v + 0x800) / 0x1000 / 0x10_0000;
    assert u + lo == v - TWO32 * k;
    WrapPeriod(pc + v, -k);
  }

  lemma WrapPeriod(a: int, k: int)
    ensures Wrap(a + TWO32 * k) == Wrap(a)
  {
    DivShift(a, TWO32, k);
  }

  /** S + A - at, computed with wrap-around at either step, plus the address of
      the site, is the load address plus S + A. */
  lemma PcRelReaches(w: Width, s: int, r: Reloc, load: U32)
    ensures Wrap(Wrap(load + r.at) + PcRel(w, s, r)) == Wrap(load + s + r.addend)
    ensures Norm(w, PcRel(w, s, r)) == PcRel(w, s, r)
  {
    hide Norm, Wrap;
    var a := Absolute(w, s, r);
    NormResidue(w, s + r.addend);
    NormResidue(w, a - r.at);
    NormTwice(w, a - r.at);
    WrapAdd(load + r.at, PcRel(w, s, r));
    var k := (PcRel(w, s, r) + r.at) / TWO32 - (s + r.addend) / TWO32;
    SameResidue(PcRel(w, s, r), a - r.at, r.at);
    assert PcRel(w, s, r) + r.at == s + r.addend + TWO32 * k;
    WrapPeriod(load + s + r.addend, k);
  }

  lemma SameResidue(a: int, b: int, c: int)
    requires a % TWO32 == b % TWO32
    ensures (a + c) % TWO32 == (b + c) % TWO32
  {
    DivShift(b + c, TWO32, a / TWO32 - b / TWO32);
  }

  lemma NormTwice(w: Width, n: int)
    ensures Norm(w, Norm(w, n)) == Norm(w, n)
  {}

  // ------------------------------------------------------ values of relocations

  /** An entry of hi20_at was put there by an auipc relocation at that offset. */
  lemma {:induction false} HiEntry(w: Width, syms: seq<Symbol>, rels: seq<Reloc>, site: int) returns (j: nat)
    requires PlanAll(w, syms, rels).Some? && site in PlanAll(w, syms, rels).value.hi20At
    ensures j < |rels| && KindOf(rels[j].rtype).PcrelHi? && rels[j].at == site
    ensures PlanAll(w, syms, rels).value.hi20At[site] == ValueAt(w, syms, rels, j)
  {
    hide ValueOf, EditsFor;
    var n := |rels| - 1;
    var p := PlanAll(w, syms, rels[..n]).value;
    if KindOf(rels[n].rtype).PcrelHi? && rels[n].at == site {
      j := n;
    } else {
      j := HiEntry(w, syms, rels[..n], site);
      ValueAtPrefix(w, syms, rels, n, j);
    }
  }

  lemma PcRelValue(w: Width, syms: seq<Symbol>, rels: seq<Reloc>, i: nat)
    requires PlanAll(w, syms, rels).Some? && i < |rels|
    requires var k := KindOf(rels[i].rtype);
             k.PcrelHi? || k.CondBranch? || k.Jump? || k.CallPair? || k.Pcrel32?
    ensures SymAddr(syms, rels[i].sym).Some?
    ensures ValueAt(w, syms, rels, i) == PcRel(w, SymAddr(syms, rels[i].sym).value, rels[i])
    ensures KindOf(rels[i].rtype).CondBranch? ==> InRange(ValueAt(w, syms, rels, i), 0x1000)
    ensures KindOf(rels[i].rtype).Jump? ==> InRange(ValueAt(w, syms, rels, i), 0x10_0000)
  {
    hide PcRel, Absolute, Norm, EditsFor, HiAfter;
    PlanPrefix(w, syms, rels, i + 1);
    assert rels[..i + 1][..i] == rels[..i];
  }

  /** The low half works with the value of the auipc its symbol labels. */
  lemma LowHalfValue(w: Width, syms: seq<Symbol>, rels: seq<Reloc>, h: nat, i: nat)
    requires PlanAll(w, syms, rels).Some? && h < |rels| && i < |rels|
    requires KindOf(rels[h].rtype).PcrelHi? && Alone(rels, h)
    requires KindOf(rels[i].rtype).PcrelLoI? || KindOf(rels[i].rtype).PcrelLoS?
    requires SymAddr(syms, rels[i].sym) == Some(rels[h].at)
    ensures h < i && ValueAt(w, syms, rels, i) == ValueAt(w, syms, rels, h)
  {
    hide ValueOf, EditsFor, HiAfter, ValueAt;
    var site := rels[h].at;
    PlanPrefix(w, syms, rels, i);
    LowHalfLookup(w, syms, rels, i, site);
    var j := HiEntry(w, syms, rels[..i], site);
    assert rels[..i][j] == rels[j];
    assert !Disjoint(rels[h], rels[j]);
    ValueAtPrefix(w, syms, rels, i, j);
  }

  lemma LowHalfLookup(w: Width, syms: seq<Symbol>, rels: seq<Reloc>, i: nat, site: int)
    requires PlanAll(w, syms, rels).Some? && i < |rels|
    requires KindOf(rels[i].rtype).PcrelLoI? || KindOf(rels[i].rtype).PcrelLoS?
    requires SymAddr(syms, rels[i].sym) == Some(site)
    ensures PlanAll(w, syms, rels[..i]).Some? && site in PlanAll(w, syms, rels[..i]).value.hi20At
    ensures ValueAt(w, syms, rels, i) == PlanAll(w, syms, rels[..i]).value.hi20At[site]
  {
    hide PcRel, Absolute, Norm, EditsFor, HiAfter;
    PlanPrefix(w, syms, rels, i);
    PlanPrefix(w, syms, rels, i + 1);
    assert rels[..i + 1][..i] == rels[..i];
  }

  // ------------------------------------------------------ one relocation alone

  /** The values that are split into halves are ones this Lua holds. */
  lemma ValueNormal(w: Width, syms: seq<Symbol>, rels: seq<Reloc>, i: nat)
    requires PlanAll(w, syms, rels).Some? && i < |rels|
    requires var k := KindOf(rels[i].rtype);
             k.PcrelHi? || k.CallPair? || k.PcrelLoI? || k.PcrelLoS? || k.AbsHi? || k.AbsLoI? || k.AbsLoS?
    ensures Norm(w, ValueAt(w, syms, rels, i)) == ValueAt(w, syms, rels, i)
  {
    hide Norm, ValueAt, PlanAll;
    var k := KindOf(rels[i].rtype);
    if k.PcrelHi? || k.CallPair? {
      PcRelValue(w, syms, rels, i);
      NormTwice(w, Absolute(w, SymAddr(syms, rels[i].sym).value, rels[i]) - rels[i].at);
    } else if k.AbsHi? || k.AbsLoI? || k.AbsLoS? {
      AbsoluteValue(w, syms, rels, i);
      NormTwice(w, SymAddr(syms, rels[i].sym).value + rels[i].addend);
    } else {
      LowHalfNormal(w, syms, rels, i);
    }
  }

  lemma LowHalfNormal(w: Width, syms: seq<Symbol>, rels: seq<Reloc>, i: nat)
    requires PlanAll(w, syms, rels).Some? && i < |rels|
    requires KindOf(rels[i].rtype).PcrelLoI? || KindOf(rels[i].rtype).PcrelLoS?
    ensures Norm(w, ValueAt(w, syms, rels, i)) == ValueAt(w, syms, rels, i)
  {
    hide Norm, ValueAt, PlanAll;
    SymbolKnown(w, syms, rels, i);
    var site := SymAddr(syms, rels[i].sym).value;
    LowHalfLookup(w, syms, rels, i, site);
    var j := HiEntry(w, syms, rels[..i], site);
    PcRelValue(w, syms, rels[..i], j);
    NormTwice(w, Absolute(w, SymAddr(syms, rels[..i][j].sym).value, rels[..i][j]) - rels[..i][j].at);
  }

  /** The immediate of an instruction word stands for this value. */
  predicate Carries(f: Field, a: U32, v: int) {
    match f
    case FieldU => ImmU(a) == v % 0x10_0000 * 0x1000
    case FieldI => ImmI(a) == v
    case FieldS => ImmS(a) == v
    case FieldB => ImmB(a) == v - v % 2
    case FieldJ => ImmJ(a) == v - v % 2
    case Plus | Minus => true
    case Whole => a == Wrap(v)
  }

  /** What the immediate of this format has room for. */
  predicate HasRoom(f: Field, v: int) {
    match f
    case FieldI | FieldS => InRange(v, 0x800)
    case FieldB => InRange(v, 0x1000)
    case FieldJ => InRange(v, 0x10_0000)
    case FieldU | Plus | Minus | Whole => true
  }

  lemma NewWordCarries(f: Field, i: U32, v: int)
    requires HasRoom(f, v)
    ensures Carries(f, NewWord(f, i, v), v)
  {
    hide PutU, PutI, PutS, PutB, PutJ, ImmU, ImmI, ImmS, ImmB, ImmJ, Wrap;
    match f
    case FieldU => FieldsU(i, v);
    case FieldI => FieldsI(i, v);
    case FieldS => FieldsS(i, v);
    case FieldB => FieldsB(i, v);
    case FieldJ => FieldsJ(i, v);
    case _ =>
  }

  /** Every accepted relocation asks only for what fits. */
  lemma EditHasRoom(w: Width, syms: seq<Symbol>, rels: seq<Reloc>, i: nat, e: Edit)
    requires PlanAll(w, syms, rels).Some? && i < |rels|
    requires e in EditsFor(w, i, rels[i], ValueAt(w, syms, rels, i))
    ensures HasRoom(e.field, e.value)
  {
    hide ValueAt, PlanAll, Hi20, Lo12, Norm;
    var k, v := KindOf(rels[i].rtype), ValueAt(w, syms, rels, i);
    if k.CondBranch? || k.Jump? {
      PcRelValue(w, syms, rels, i);
    } else if !k.Skipped? && !k.Refused? && !k.Pcrel32? && !k.Set32? && !k.Add32? && !k.Sub32? {
      ValueNormal(w, syms, rels, i);
      HiLoSplit(w, v);
    }
  }

  /** A relocation that is alone changes, of each word it patches, only the bits of the
      immediate, and the immediate then stands for its value. */
  lemma LoneRelocation(w: Width, syms: seq<Symbol>, img: Image, rels: seq<Reloc>, i: nat, e: Edit)
    requires Relocated(w, syms, img, rels).Some? && i < |rels| && Alone(rels, i)
    requires e in EditsFor(w, i, rels[i], ValueAt(w, syms, rels, i)) && Readable(img, e.at)
    ensures var out := Relocated(w, syms, img, rels).value;
            && Readable(out, e.at)
            && KeepsRest(e.field, Rd32(out, e.at), Rd32(img, e.at))
            && (!e.field.Plus? && !e.field.Minus? ==> Carries(e.field, Rd32(out, e.at), e.value))
  {
    hide EditsFor, ValueAt, NewWord, Rd32, PlanAll, Exec, KeepsRest, Carries, HasRoom;
    AloneWord(w, syms, img, rels, i, e);
    EditHasRoom(w, syms, rels, i, e);
    NewWordKeepsRest(e.field, Rd32(img, e.at), e.value);
    NewWordCarries(e.field, Rd32(img, e.at), e.value);
  }

  // --------------------------------------------------------------- the theorems

  /** An accepted object, linked, and its image loaded at `load`. */
  ghost predicate Running(w: Width, syms: seq<Symbol>, img: Image, rels: seq<Reloc>, len: int, m: Memory, load: U32) {
    && Relocated(w, syms, img, rels).Some?
    && (forall k :: 0 <= k < len ==> k in img)
    && Loaded(m, Relocated(w, syms, img, rels).value, len, load)
  }

  predicate Inside(at: int, len: int) { 0 <= at && at + 4 <= len }

  /** The word the processor fetches at an edited site. */
  lemma FetchEdited(w: Width, syms: seq<Symbol>, img: Image, rels: seq<Reloc>, len: int, m: Memory, load: U32,
                    i: nat, e: Edit)
    requires Running(w, syms, img, rels, len, m, load) && i < |rels| && Alone(rels, i)
    requires e in EditsFor(w, i, rels[i], ValueAt(w, syms, rels, i)) && Inside(e.at, len)
    ensures Readable(img, e.at)
    ensures Fetch(m, Wrap(load + e.at)) == NewWord(e.field, Rd32(img, e.at), e.value)
  {
    hide EditsFor, ValueAt, NewWord, Rd32, PlanAll, Exec, Fetch, Wrap;
    var out := Relocated(w, syms, img, rels).value;
    assert e.at in img && e.at + 1 in img && e.at + 2 in img && e.at + 3 in img;
    AloneWord(w, syms, img, rels, i, e);
    FetchLoaded(m, out, len, load, e.at);
  }

  /** What an I-format instruction does once lo is in its immediate and its base
      register holds t - lo. */
  lemma RunImmI(c: Cpu, i: U32, lo: int, t: U32)
    requires -0x800 <= lo < 0x800 && TakesImmI(i)
    requires Wrap(Get(c, Rs1(i)) + lo) == t
    ensures Execute(c, PutI(i, lo)) == Intended(i, t)
  {
    hide PutI, ImmI, Wrap, Opcode, Rd, Funct3, Rs1;
    KeepsI(i, lo);
    FieldsI(i, lo);
  }

  lemma RunImmS(c: Cpu, i: U32, lo: int, t: U32)
    requires -0x800 <= lo < 0x800 && TakesImmS(i)
    requires Wrap(Get(c, Rs1(i)) + lo) == t
    ensures Execute(c, PutS(i, lo)) == Intended(i, t)
  {
    hide PutS, ImmS, Wrap, Rd, Funct3, Rs1;
    KeepsS(i, lo);
    FieldsS(i, lo);
  }

  lemma RunAuipc(c: Cpu, i: U32, v: int)
    requires Opcode(i) == AUIPC
    ensures Execute(c, PutU(i, v)) == Writes(Rd(i), Wrap(c.pc + ImmU(PutU(i, v))))
  {
    hide Opcode, Rd, Wrap, ImmU, PutU;
    FieldsU(i, v);
    LowBits(PutU(i, v), i);
  }

  /** The auipc of a pair, executed anywhere: its register then lacks exactly the
      low part of load + S + A. */
  lemma AuipcRuns(w: Width, syms: seq<Symbol>, img: Image, rels: seq<Reloc>, len: int, m: Memory, load: U32,
                  h: nat, c: Cpu)
    requires Running(w, syms, img, rels, len, m, load) && h < |rels| && Alone(rels, h)
    requires KindOf(rels[h].rtype).PcrelHi? || KindOf(rels[h].rtype).CallPair?
    requires Inside(rels[h].at, len) && c.pc == Wrap(load + rels[h].at)
    requires Readable(img, rels[h].at) && Opcode(Rd32(img, rels[h].at)) == AUIPC
    requires Rd(Rd32(img, rels[h].at)) != 0
    ensures SymAddr(syms, rels[h].sym).Some?
    ensures var lo := Lo12(w, ValueAt(w, syms, rels, h));
            var rd := Rd(Rd32(img, rels[h].at));
            && -0x800 <= lo < 0x800
            && Step(m, c).1.pc == Wrap(c.pc + 4)
            && Wrap(Get(Step(m, c).1, rd) + lo)
               == Wrap(load + SymAddr(syms, rels[h].sym).value + rels[h].addend)
  {
    hide ValueAt, NewWord, Rd32, PlanAll, Exec, Fetch, Wrap, Hi20, Lo12, PutU, ImmU, Opcode, Rd, PcRel, Norm, Execute;
    var v := ValueAt(w, syms, rels, h);
    var i := Rd32(img, rels[h].at);
    var e := Edit(h, rels[h].at, FieldU, Hi20(w, v));
    FetchEdited(w, syms, img, rels, len, m, load, h, e);
    AuipcWord(i, Hi20(w, v));
    RunAuipc(c, i, Hi20(w, v));
    PcRelValue(w, syms, rels, h);
    PcRelReaches(w, SymAddr(syms, rels[h].sym).value, rels[h], load);
    HiLoMeet(w, v, c.pc, i);
  }

  lemma AuipcWord(i: U32, v: int)
    ensures NewWord(FieldU, i, v) == PutU(i, v)
    ensures NewWord(FieldI, i, v) == PutI(i, v)
    ensures NewWord(FieldS, i, v) == PutS(i, v)
  {}

  /** lla, and loads and stores through a pair. The auipc runs in state c; at some
      later point the instruction with the low half runs in a state d whose base
      register still holds what the auipc wrote. It reaches load + S + A. */
  lemma PairReaches(w: Width, syms: seq<Symbol>, img: Image, rels: seq<Reloc>, len: int, m: Memory, load: U32,
                    h: nat, i: nat, c: Cpu, d: Cpu)
    requires Running(w, syms, img, rels, len, m, load)
    requires h < |rels| && i < |rels| && Alone(rels, h) && Alone(rels, i)
    requires KindOf(rels[h].rtype).PcrelHi?
    requires KindOf(rels[i].rtype).PcrelLoI? || KindOf(rels[i].rtype).PcrelLoS?
    requires SymAddr(syms, rels[i].sym) == Some(rels[h].at)
    requires Inside(rels[h].at, len) && Inside(rels[i].at, len)
    requires Readable(img, rels[h].at) && Readable(img, rels[i].at)
    requires Opcode(Rd32(img, rels[h].at)) == AUIPC && Rd(Rd32(img, rels[h].at)) != 0
    requires if KindOf(rels[i].rtype).PcrelLoI? then TakesImmI(Rd32(img, rels[i].at))
             else TakesImmS(Rd32(img, rels[i].at))
    requires Rs1(Rd32(img, rels[i].at)) == Rd(Rd32(img, rels[h].at))
    requires c.pc == Wrap(load + rels[h].at) && d.pc == Wrap(load + rels[i].at)
    requires d.x[Rd(Rd32(img, rels[h].at))] == Step(m, c).1.x[Rd(Rd32(img, rels[h].at))]
    ensures SymAddr(syms, rels[h].sym).Some?
    ensures Step(m, d).0 == Intended(Rd32(img, rels[i].at),
                                     Wrap(load + SymAddr(syms, rels[h].sym).value + rels[h].addend))
  {
    hide ValueAt, NewWord, Rd32, PlanAll, Exec, Fetch, Wrap, Hi20, Lo12, PutI, PutS, PutU, Opcode, Rd, Rs1, Funct3,
         Execute, TakesImmI, TakesImmS, Intended;
    LowHalfValue(w, syms, rels, h, i);
    PcRelValue(w, syms, rels, h);
    var lo := Lo12(w, ValueAt(w, syms, rels, h));
    var t := Wrap(load + SymAddr(syms, rels[h].sym).value + rels[h].addend);
    AuipcRuns(w, syms, img, rels, len, m, load, h, c);
    var f := if KindOf(rels[i].rtype).PcrelLoI? then FieldI else FieldS;
    FetchEdited(w, syms, img, rels, len, m, load, i, Edit(i, rels[i].at, f, lo));
    AuipcWord(Rd32(img, rels[i].at), lo);
    if f.FieldI? {
      RunImmI(d, Rd32(img, rels[i].at), lo, t);
    } else {
      RunImmS(d, Rd32(img, rels[i].at), lo, t);
    }
  }

  /** call and tail: the auipc and the jalr after it, run back to back, arrive at
      load + S + A with its low bit cleared. */
  lemma CallReaches(w: Width, syms: seq<Symbol>, img: Image, rels: seq<Reloc>, len: int, m: Memory, load: U32,
                    i: nat, c: Cpu)
    requires Running(w, syms, img, rels, len, m, load) && i < |rels| && Alone(rels, i)
    requires KindOf(rels[i].rtype).CallPair?
    requires var at := rels[i].at;
             && Inside(at, len) && Inside(at + 4, len) && c.pc == Wrap(load + at)
             && Readable(img, at) && Readable(img, at + 4)
             && Opcode(Rd32(img, at)) == AUIPC && Rd(Rd32(img, at)) != 0
             && Opcode(Rd32(img, at + 4)) == JALR && Funct3(Rd32(img, at + 4)) == 0
             && Rs1(Rd32(img, at + 4)) == Rd(Rd32(img, at))
    ensures SymAddr(syms, rels[i].sym).Some?
    ensures var t := Wrap(load + SymAddr(syms, rels[i].sym).value + rels[i].addend);
            var last := Step(m, Step(m, c).1);
            && last.0 == Jumps(Rd(Rd32(img, rels[i].at + 4)), ClearBit0(t))
            && last.1.pc == ClearBit0(t)
  {
    hide ValueAt, NewWord, Rd32, PlanAll, Exec, Fetch, Wrap, Hi20, Lo12, PutI, PutU, Opcode, Rd, Rs1, Funct3, Execute,
         ClearBit0, Norm;
    var at := rels[i].at;
    PcRelValue(w, syms, rels, i);
    var lo := Lo12(w, ValueAt(w, syms, rels, i));
    var t := Wrap(load + SymAddr(syms, rels[i].sym).value + rels[i].addend);
    var d := Step(m, c).1;
    AuipcRuns(w, syms, img, rels, len, m, load, i, c);
    FetchEdited(w, syms, img, rels, len, m, load, i, Edit(i, at + 4, FieldI, lo));
    AuipcWord(Rd32(img, at + 4), lo);
    WrapAdd(load + at, 4);
    RunImmI(d, Rd32(img, at + 4), lo, t);
  }

  /** A branch or jal that was in range goes to load + S + A, less the low bit
      its encoding has no room for: it is right exactly when the distance is even. */
  lemma DirectReaches(w: Width, syms: seq<Symbol>, img: Image, rels: seq<Reloc>, len: int, m: Memory, load: U32,
                      i: nat, c: Cpu)
    requires Running(w, syms, img, rels, len, m, load) && i < |rels| && Alone(rels, i)
    requires Inside(rels[i].at, len) && c.pc == Wrap(load + rels[i].at) && Readable(img, rels[i].at)
    requires (KindOf(rels[i].rtype).CondBranch? && Opcode(Rd32(img, rels[i].at)) == BRANCH)
          || (KindOf(rels[i].rtype).Jump? && Opcode(Rd32(img, rels[i].at)) == JAL)
    ensures SymAddr(syms, rels[i].sym).Some?
    ensures var s := SymAddr(syms, rels[i].sym).value;
            var dist := PcRel(w, s, rels[i]);
            var t := load + s + rels[i].addend;
            && Step(m, c).0 == Intended(Rd32(img, rels[i].at), Wrap(t - dist % 2))
            && (Step(m, c).0 == Intended(Rd32(img, rels[i].at), Wrap(t)) <==> dist % 2 == 0)
  {
    hide ValueAt, NewWord, Rd32, PlanAll, Exec, Fetch, Wrap, PutB, PutJ, Opcode, Rd, Execute, PcRel, Norm, Intended;
    var v := ValueAt(w, syms, rels, i);
    var j := Rd32(img, rels[i].at);
    PcRelValue(w, syms, rels, i);
    var s := SymAddr(syms, rels[i].sym).value;
    PcRelReaches(w, s, rels[i], load);
    var t := load + s + rels[i].addend;
    ShiftedTarget(load + rels[i].at, v, t, v % 2);
    if KindOf(rels[i].rtype).CondBranch? {
      FetchEdited(w, syms, img, rels, len, m, load, i, Edit(i, rels[i].at, FieldB, v));
      RunDirect(c, j, v);
    } else {
      FetchEdited(w, syms, img, rels, len, m, load, i, Edit(i, rels[i].at, FieldJ, v));
      RunDirect(c, j, v);
    }
    IntendedInjective(j, Wrap(t - v % 2), Wrap(t));
  }

  lemma ShiftedTarget(base: int, v: int, t: int, b: int)
    requires Wrap(Wrap(base) + v) == Wrap(t) && 0 <= b < 2
    ensures Wrap(Wrap(base) + (v - b)) == Wrap(t - b)
    ensures Wrap(t - b) == Wrap(t) <==> b == 0
  {
    hide Wrap;
    WrapAdd(t, -b);
    WrapAdd(Wrap(base) + v, -b);
    OneApart(t);
  }

  lemma OneApart(t: int)
    ensures Wrap(t - 1) != Wrap(t)
  {}

  lemma RunDirect(c: Cpu, i: U32, v: int)
    requires (Opcode(i) == BRANCH && InRange(v, 0x1000)) || (Opcode(i) == JAL && InRange(v, 0x10_0000))
    ensures Opcode(i) == BRANCH ==> Execute(c, NewWord(FieldB, i, v)) == Intended(i, Wrap(c.pc + (v - v % 2)))
    ensures Opcode(i) == JAL ==> Execute(c, NewWord(FieldJ, i, v)) == Intended(i, Wrap(c.pc + (v - v % 2)))
  {
    hide PutB, PutJ, ImmB, ImmJ, Wrap, Rd, Opcode;
    if Opcode(i) == BRANCH {
      FieldsB(i, v);
      SameOpcode(PutB(i, v), i);
    } else {
      FieldsJ(i, v);
      LowBits(PutJ(i, v), i);
    }
  }

  lemma SameOpcode(a: U32, b: U32)
    requires a % 0x80 == b % 0x80
    ensures Opcode(a) == Opcode(b)
  {}

  lemma IntendedInjective(i: U32, a: U32, b: U32)
    requires Opcode(i) == BRANCH || Opcode(i) == JAL
    ensures Intended(i, a) == Intended(i, b) <==> a == b
  {
    hide Opcode, Rd;
  }

  /** A stored PC-relative word, added to its own address, is load + S + A. */
  lemma StoredOffsetReaches(w: Width, syms: seq<Symbol>, img: Image, rels: seq<Reloc>, len: int, m: Memory,
                            load: U32, i: nat)
    requires Running(w, syms, img, rels, len, m, load) && i < |rels| && Alone(rels, i)
    requires KindOf(rels[i].rtype).Pcrel32? && Inside(rels[i].at, len)
    ensures SymAddr(syms, rels[i].sym).Some?
    ensures var here := Wrap(load + rels[i].at);
            Wrap(here + Fetch(m, here)) == Wrap(load + SymAddr(syms, rels[i].sym).value + rels[i].addend)
  {
    hide ValueAt, NewWord, Rd32, PlanAll, Exec, Fetch, Wrap, PcRel, Norm;
    var v := ValueAt(w, syms, rels, i);
    FetchEdited(w, syms, img, rels, len, m, load, i, Edit(i, rels[i].at, Whole, v));
    WholeIgnoresOld(v, Rd32(img, rels[i].at));
    PcRelValue(w, syms, rels, i);
    PcRelReaches(w, SymAddr(syms, rels[i].sym).value, rels[i], load);
    WrapAdd(v, Wrap(load + rels[i].at));
  }

  /** SET32 stores S + A itself, whatever the load address is. */
  lemma StoredAddress(w: Width, syms: seq<Symbol>, img: Image, rels: seq<Reloc>, len: int, m: Memory,
                      load: U32, i: nat)
    requires Running(w, syms, img, rels, len, m, load) && i < |rels| && Alone(rels, i)
    requires KindOf(rels[i].rtype).Set32? && Inside(rels[i].at, len)
    ensures SymAddr(syms, rels[i].sym).Some?
    ensures Fetch(m, Wrap(load + rels[i].at)) == Wrap(SymAddr(syms, rels[i].sym).value + rels[i].addend)
  {
    hide ValueAt, NewWord, Rd32, PlanAll, Exec, Fetch, Wrap, PcRel, Norm;
    var v := ValueAt(w, syms, rels, i);
    FetchEdited(w, syms, img, rels, len, m, load, i, Edit(i, rels[i].at, Whole, v));
    WholeIgnoresOld(v, Rd32(img, rels[i].at));
    SetValue(w, syms, rels, i);
    var sa := SymAddr(syms, rels[i].sym).value + rels[i].addend;
    NormResidue(w, sa);
    WrapPeriod(v, sa / TWO32 - v / TWO32);
  }

  lemma SetValue(w: Width, syms: seq<Symbol>, rels: seq<Reloc>, i: nat)
    requires PlanAll(w, syms, rels).Some? && i < |rels| && KindOf(rels[i].rtype).Set32?
    ensures SymAddr(syms, rels[i].sym).Some?
    ensures ValueAt(w, syms, rels, i) == Norm(w, SymAddr(syms, rels[i].sym).value + rels[i].addend)
  {
    hide Norm, EditsFor, HiAfter;
    PlanPrefix(w, syms, rels, i + 1);
    assert rels[..i + 1][..i] == rels[..i];
  }

  // ------------------------------------------------------ absolute pairs

  lemma AbsoluteValue(w: Width, syms: seq<Symbol>, rels: seq<Reloc>, i: nat)
    requires PlanAll(w, syms, rels).Some? && i < |rels|
    requires var k := KindOf(rels[i].rtype); k.AbsHi? || k.AbsLoI? || k.AbsLoS?
    ensures SymAddr(syms, rels[i].sym).Some?
    ensures ValueAt(w, syms, rels, i) == Absolute(w, SymAddr(syms, rels[i].sym).value, rels[i])
  {
    hide Absolute, Norm, EditsFor, HiAfter;
    PlanPrefix(w, syms, rels, i + 1);
    assert rels[..i + 1][..i] == rels[..i];
  }

  lemma RunLui(c: Cpu, i: U32, v: int)
    requires Opcode(i) == LUI
    ensures Execute(c, PutU(i, v)) == Writes(Rd(i), ImmU(PutU(i, v)))
  {
    hide Opcode, Rd, Wrap, ImmU, PutU;
    FieldsU(i, v);
    LowBits(PutU(i, v), i);
  }

  lemma AbsoluteMeets(w: Width, s: int, r: Reloc, i: U32)
    ensures var v := Absolute(w, s, r);
            && -0x800 <= Lo12(w, v) < 0x800
            && Wrap(ImmU(PutU(i, Hi20(w, v))) + Lo12(w, v)) == Wrap(s + r.addend)
  {
    hide Wrap, PutU, ImmU, Hi20, Lo12, Norm;
    var v := Absolute(w, s, r);
    NormTwice(w, s + r.addend);
    NormResidue(w, s + r.addend);
    HiLoMeet(w, v, 0, i);
    WrapAdd(0 + ImmU(PutU(i, Hi20(w, v))), Lo12(w, v));
    WrapPeriod(v, (s + r.addend) / TWO32 - v / TWO32);
  }

  /** lui with an absolute low half: the address is S + A whatever the load
      address is. The script accepts the pair for any symbol, but against a
      symbol of the image itself it is right only for an image loaded at 0. */
  lemma AbsolutePairIgnoresLoad(w: Width, syms: seq<Symbol>, img: Image, rels: seq<Reloc>, len: int, m: Memory,
                                load: U32, h: nat, i: nat, c: Cpu, d: Cpu)
    requires Running(w, syms, img, rels, len, m, load)
    requires h < |rels| && i < |rels| && Alone(rels, h) && Alone(rels, i)
    requires KindOf(rels[h].rtype).AbsHi?
    requires KindOf(rels[i].rtype).AbsLoI? || KindOf(rels[i].rtype).AbsLoS?
    requires rels[i].sym == rels[h].sym && rels[i].addend == rels[h].addend
    requires Inside(rels[h].at, len) && Inside(rels[i].at, len)
    requires Readable(img, rels[h].at) && Readable(img, rels[i].at)
    requires Opcode(Rd32(img, rels[h].at)) == LUI && Rd(Rd32(img, rels[h].at)) != 0
    requires if KindOf(rels[i].rtype).AbsLoI? then TakesImmI(Rd32(img, rels[i].at))
             else TakesImmS(Rd32(img, rels[i].at))
    requires Rs1(Rd32(img, rels[i].at)) == Rd(Rd32(img, rels[h].at))
    requires c.pc == Wrap(load + rels[h].at) && d.pc == Wrap(load + rels[i].at)
    requires d.x[Rd(Rd32(img, rels[h].at))] == Step(m, c).1.x[Rd(Rd32(img, rels[h].at))]
    ensures SymAddr(syms, rels[h].sym).Some?
    ensures var sa := SymAddr(syms, rels[h].sym).value + rels[h].addend;
            && Step(m, d).0 == Intended(Rd32(img, rels[i].at), Wrap(sa))
            && (Wrap(sa) == Wrap(load + sa) <==> load == 0)
  {
    hide ValueAt, NewWord, Rd32, PlanAll, Exec, Fetch, Wrap, Hi20, Lo12, PutI, PutS, PutU, ImmU, Opcode, Rd, Rs1,
         Funct3, Execute, TakesImmI, TakesImmS, Intended, Norm;
    AbsoluteValue(w, syms, rels, h);
    AbsoluteValue(w, syms, rels, i);
    var s := SymAddr(syms, rels[h].sym).value;
    var v := Absolute(w, s, rels[h]);
    var ih := Rd32(img, rels[h].at);
    AbsoluteMeets(w, s, rels[h], ih);
    FetchEdited(w, syms, img, rels, len, m, load, h, Edit(h, rels[h].at, FieldU, Hi20(w, v)));
    AuipcWord(ih, Hi20(w, v));
    RunLui(c, ih, Hi20(w, v));
    var lo := Lo12(w, v);
    var f := if KindOf(rels[i].rtype).AbsLoI? then FieldI else FieldS;
    FetchEdited(w, syms, img, rels, len, m, load, i, Edit(i, rels[i].at, f, lo));
    AuipcWord(Rd32(img, rels[i].at), lo);
    if f.FieldI? {
      RunImmI(d, Rd32(img, rels[i].at), lo, Wrap(s + rels[h].addend));
    } else {
      RunImmS(d, Rd32(img, rels[i].at), lo, Wrap(s + rels[h].addend));
    }
    ShiftVisible(s + rels[h].addend, load);
  }

  lemma ShiftVisible(a: int, load: U32)
    ensures Wrap(a) == Wrap(load + a) <==> load == 0
  {
    var d := (load + a) / TWO32 - a / TWO32;
    assert Wrap(load + a) - Wrap(a) == load - TWO32 * d;
  }
}
