/** Small programs, linked and followed at every load address: `lla` as an assembler
    emits it, an absolute address, a branch to an odd address, a label difference, and
    one whole object with an address and a call. */
module LinkExamples {
  import opened Words
  import opened Rv32
  import opened Encoders
  import opened Relocate
  import opened Sites
  import opened LinkCorrect
  import opened Acceptance
  import opened LabelArithmetic
  import opened Layout
  import opened FlatFile
  import opened WholeObject

  // auipc a0, 0 and addi a0, a0, 0
  const LLA: Image := map[0 := 0x17, 1 := 0x05, 2 := 0, 3 := 0, 4 := 0x13, 5 := 0x05, 6 := 0x05, 7 := 0]

  const LLA_RELOCS: seq<Reloc> := [Reloc(R_PCREL_HI20, 0, 0, 0), Reloc(R_PCREL_LO12_I, 4, 1, 0)]

  /** The target, and the label on the auipc. */
  function LlaSymbols(target: int): seq<Symbol> {
    [Symbol("target", Some(target)), Symbol(".L0", Some(0))]
  }

  lemma LlaWords()
    ensures Readable(LLA, 0) && Opcode(Rd32(LLA, 0)) == AUIPC && Rd(Rd32(LLA, 0)) == 10
    ensures Readable(LLA, 4) && TakesImmI(Rd32(LLA, 4)) && Opcode(Rd32(LLA, 4)) == OP_IMM
    ensures Rd(Rd32(LLA, 4)) == 10 && Rs1(Rd32(LLA, 4)) == 10
  {
    assert Rd32(LLA, 0) == 0x517 && Rd32(LLA, 4) == 0x5_0513;
  }

  lemma LlaLinks(w: Width, target: int)
    ensures Relocated(w, LlaSymbols(target), LLA, LLA_RELOCS).Some?
    ensures Alone(LLA_RELOCS, 0) && Alone(LLA_RELOCS, 1)
  {
    hide Relocated, PcRel;
    AcceptedExactly(w, LlaSymbols(target), LLA, LLA_RELOCS);
    assert LLA_RELOCS[..1][0] == LLA_RELOCS[0];
    assert HasHigh(LLA_RELOCS[..1], 0);
  }

  /** Wherever it is loaded and whatever the registers hold, the pair leaves the
      load address plus the target's offset in a0. */
  lemma LlaRuns(w: Width, target: int, load: U32, m: Memory, x: Registers)
    requires Relocated(w, LlaSymbols(target), LLA, LLA_RELOCS).Some? ==>
               Loaded(m, Relocated(w, LlaSymbols(target), LLA, LLA_RELOCS).value, 8, load)
    ensures Step(m, Step(m, Cpu(load, x)).1).0 == Writes(10, Wrap(load + target))
  {
    hide Relocated, Step, Rd32, Opcode, Rd, Rs1, TakesImmI, Alone;
    LlaWords();
    LlaLinks(w, target);
    var c := Cpu(load, x);
    SmallLoad(load);
    var d := Step(m, c).1;
    AuipcRuns(w, LlaSymbols(target), LLA, LLA_RELOCS, 8, m, load, 0, c);
    PairReaches(w, LlaSymbols(target), LLA, LLA_RELOCS, 8, m, load, 0, 1, c, d);
    assert load + target + 0 == load + target;
  }

  lemma SmallLoad(load: U32)
    ensures Wrap(load + 0) == load
  {}

  // beq zero, zero, 0
  const BEQ: Image := map[0 := 0x63, 1 := 0, 2 := 0, 3 := 0]

  const ODD_SYMBOLS: seq<Symbol> := [Symbol("odd", Some(3))]

  const ODD_RELOCS: seq<Reloc> := [Reloc(R_BRANCH, 0, 0, 0)]

  lemma OddDistance(w: Width)
    ensures PcRel(w, 3, ODD_RELOCS[0]) == 3
  {
    NormFixed(w, 3);
  }

  lemma OddWord()
    ensures Readable(BEQ, 0) && Opcode(Rd32(BEQ, 0)) == BRANCH && KindOf(R_BRANCH).CondBranch?
    ensures forall t: U32 :: Intended(Rd32(BEQ, 0), t) == Branches(t)
  {
    assert Rd32(BEQ, 0) == 0x63;
  }

  lemma OddBranchLinks(w: Width)
    ensures Relocated(w, ODD_SYMBOLS, BEQ, ODD_RELOCS).Some? && Alone(ODD_RELOCS, 0)
  {
    hide Relocated, PcRel;
    OddDistance(w);
    AcceptedExactly(w, ODD_SYMBOLS, BEQ, ODD_RELOCS);
  }

  /** Accepted, and linked to the byte before its target. */
  lemma OddBranchMisses(w: Width, load: U32, m: Memory, x: Registers)
    requires Relocated(w, ODD_SYMBOLS, BEQ, ODD_RELOCS).Some? ==>
               Loaded(m, Relocated(w, ODD_SYMBOLS, BEQ, ODD_RELOCS).value, 4, load)
    ensures Step(m, Cpu(load, x)).0 == Branches(Wrap(load + 2))
    ensures Wrap(load + 2) != Wrap(load + 3)
  {
    hide Relocated, Step, PcRel, Alone, Rd32, Opcode, Intended, Wrap;
    OddWord();
    OddDistance(w);
    OddBranchLinks(w);
    SmallLoad(load);
    OneApart(load + 3);
    DirectReaches(w, ODD_SYMBOLS, BEQ, ODD_RELOCS, 4, m, load, 0, Cpu(load, x));
  }

  // lui a0, 0 and addi a0, a0, 0
  const ABSOLUTE: Image := map[0 := 0x37, 1 := 0x05, 2 := 0, 3 := 0, 4 := 0x13, 5 := 0x05, 6 := 0x05, 7 := 0]

  const ABSOLUTE_RELOCS: seq<Reloc> := [Reloc(R_HI20, 0, 0, 0), Reloc(R_LO12_I, 4, 0, 0)]

  lemma AbsoluteWords()
    ensures Readable(ABSOLUTE, 0) && Opcode(Rd32(ABSOLUTE, 0)) == LUI && Rd(Rd32(ABSOLUTE, 0)) == 10
    ensures Readable(ABSOLUTE, 4) && TakesImmI(Rd32(ABSOLUTE, 4)) && Opcode(Rd32(ABSOLUTE, 4)) == OP_IMM
    ensures Rd(Rd32(ABSOLUTE, 4)) == 10 && Rs1(Rd32(ABSOLUTE, 4)) == 10
  {
    assert Rd32(ABSOLUTE, 0) == 0x537 && Rd32(ABSOLUTE, 4) == 0x5_0513;
  }

  lemma AbsoluteLinks(w: Width, target: int)
    ensures Relocated(w, LlaSymbols(target), ABSOLUTE, ABSOLUTE_RELOCS).Some?
    ensures Alone(ABSOLUTE_RELOCS, 0) && Alone(ABSOLUTE_RELOCS, 1)
  {
    hide Relocated, PcRel;
    AcceptedExactly(w, LlaSymbols(target), ABSOLUTE, ABSOLUTE_RELOCS);
  }

  /** The pair is accepted against a symbol of the image, and leaves the symbol's offset
      in a0: its address only in an image loaded at 0. */
  lemma AbsoluteMisses(w: Width, target: int, load: U32, m: Memory, x: Registers)
    requires Relocated(w, LlaSymbols(target), ABSOLUTE, ABSOLUTE_RELOCS).Some? ==>
               Loaded(m, Relocated(w, LlaSymbols(target), ABSOLUTE, ABSOLUTE_RELOCS).value, 8, load)
    ensures var d := Cpu(Wrap(load + 4), Step(m, Cpu(load, x)).1.x);
            Step(m, d).0 == Writes(10, Wrap(target))
    ensures Wrap(target) == Wrap(load + target) <==> load == 0
  {
    hide Relocated, Step, Rd32, Opcode, Rd, Rs1, TakesImmI, Alone;
    AbsoluteWords();
    AbsoluteLinks(w, target);
    var c := Cpu(load, x);
    SmallLoad(load);
    var d := Cpu(Wrap(load + 4), Step(m, c).1.x);
    AbsolutePairIgnoresLoad(w, LlaSymbols(target), ABSOLUTE, ABSOLUTE_RELOCS, 8, m, load, 0, 1, c, d);
    assert target + 0 == target && load + (target + 0) == load + target;
  }

  // .word target - .L0
  const ZERO_WORD: Image := map[0 := 0, 1 := 0, 2 := 0, 3 := 0]

  const DIFFERENCE_RELOCS: seq<Reloc> := [Reloc(R_ADD32, 0, 0, 0), Reloc(R_SUB32, 0, 1, 0)]

  lemma DifferenceWord(w: Width, target: int)
    ensures Relocated(w, LlaSymbols(target), ZERO_WORD, DIFFERENCE_RELOCS).Some?
    ensures var out := Relocated(w, LlaSymbols(target), ZERO_WORD, DIFFERENCE_RELOCS).value;
            Readable(out, 0) && Rd32(out, 0) == Wrap(target)
  {
    hide Relocated, PcRel, Rd32, Wrap;
    AcceptedExactly(w, LlaSymbols(target), ZERO_WORD, DIFFERENCE_RELOCS);
    LabelDifference(w, LlaSymbols(target), ZERO_WORD, DIFFERENCE_RELOCS, 0, 1);
    ZeroWord();
    assert 0 + (target + 0) - (0 + 0) == target;
  }

  lemma ZeroWord()
    ensures Rd32(ZERO_WORD, 0) == 0
  {}

  // ------------------------------------------------------------- a whole object

  // auipc a0, 0; addi a0, a0, 0; auipc ra, 0; jalr ra, 0(ra)
  const CODE: seq<Byte> := [0x17, 0x05, 0, 0, 0x13, 0x05, 0x05, 0, 0x97, 0, 0, 0, 0xE7, 0x80, 0, 0]

  const ENTRIES: seq<RelEntry> := [
    RelEntry(0, R_PCREL_HI20, 0),
    RelEntry(4, 0x100 + R_PCREL_LO12_I, 0),
    RelEntry(8, R_CALL, 0)]

  /** A null section, the code, and its relocations: `lla a0, end` and `call end`. */
  const PROGRAM := Object(
    [Section(0, 0, 0, 0, 0, [], []),
     Section(SHT_PROGBITS, 6, 16, 4, 0, CODE, []),
     Section(SHT_RELA, 0x40, 36, 4, 1, [], ENTRIES)],
    Some([SymEntry("end", 16, 1), SymEntry(".L0", 0, 1)]))

  const PROGRAM_RELOCS: seq<Reloc> :=
    [Reloc(R_PCREL_HI20, 0, 0, 0), Reloc(R_PCREL_LO12_I, 4, 1, 0), Reloc(R_CALL, 8, 0, 0)]

  lemma PassOf(secs: seq<Section>, nobits: bool, m: Map)
    requires |secs| == 3
    ensures PlaceFirst(secs, 3, nobits, m)
            == PlaceOne(secs, 2, nobits, PlaceOne(secs, 1, nobits, PlaceOne(secs, 0, nobits, m)))
  {
    hide PlaceOne;
    assert PlaceFirst(secs, 1, nobits, m) == PlaceOne(secs, 0, nobits, m);
    assert PlaceFirst(secs, 2, nobits, m) == PlaceOne(secs, 1, nobits, PlaceFirst(secs, 1, nobits, m));
  }

  lemma ProgramLayout()
    ensures Stored(PROGRAM.sections) == Full(PROGRAM.sections) == Map(map[1 := 0], 16)
  {
    hide PlaceFirst;
    PassOf(PROGRAM.sections, false, Map(map[], 0));
    PassOf(PROGRAM.sections, true, Map(map[1 := 0], 16));
    assert AlignUp(0, 4) == 0;
  }

  lemma ProgramReloc(w: Width, i: nat)
    requires i < 3
    ensures RelocOf(w, 0, true, ENTRIES[i]) == PROGRAM_RELOCS[i]
  {
    hide Norm;
    NormFixed(w, 0);
    NormFixed(w, 4);
    NormFixed(w, 8);
    WidthAgreement.S32IsSigned(w, 0);
  }

  lemma ProgramTables(w: Width)
    ensures Relocs(w, PROGRAM) == PROGRAM_RELOCS
    ensures WholeObject.Symbols(w, PROGRAM) == [Symbol("end", Some(16)), Symbol(".L0", Some(0))]
  {
    hide Full, RelocOf, Norm;
    ProgramLayout();
    NormFixed(w, 16);
    NormFixed(w, 0);
    ProgramReloc(w, 0);
    ProgramReloc(w, 1);
    ProgramReloc(w, 2);
    var m, secs := Map(map[1 := 0], 16), PROGRAM.sections;
    assert RelocsOf(w, secs, m, 1) == [];
    assert RelocsOf(w, secs, m, 2) == [];
    assert RelocsOf(w, secs, m, 3) == PROGRAM_RELOCS;
  }

  /** The script makes a file of it. */
  lemma ProgramLinks(w: Width, stack: int)
    requires stack >= 1024
    ensures !Refuses(w, PROGRAM, stack)
  {
    hide Full, Stored, Relocs, WholeObject.Symbols, PcRel, Refuses;
    ProgramLayout();
    ProgramTables(w);
    LinksExactly(w, PROGRAM, stack);
    var syms := WholeObject.Symbols(w, PROGRAM);
    assert PROGRAM_RELOCS[..1][0] == PROGRAM_RELOCS[0];
    assert HasHigh(PROGRAM_RELOCS[..1], 0);
    assert Acceptable(w, syms, PROGRAM_RELOCS, 0) && Acceptable(w, syms, PROGRAM_RELOCS, 1);
    assert Acceptable(w, syms, PROGRAM_RELOCS, 2);
  }

  lemma ProgramBytes(img: Image)
    requires IsInitial(img, PROGRAM.sections, Full(PROGRAM.sections))
    ensures forall k :: 0 <= k < 16 ==> k in img && img[k] == CODE[k]
  {
    hide Full;
    ProgramLayout();
    forall k | 0 <= k < 16 ensures k in img && img[k] == CODE[k] {
      assert Covers(PROGRAM.sections, Full(PROGRAM.sections), 1, k);
    }
  }

  /** The words of the code in its initial image. */
  lemma ProgramWords(img: Image)
    requires IsInitial(img, PROGRAM.sections, Full(PROGRAM.sections))
    ensures Readable(img, 0) && Rd32(img, 0) == 0x517 && Readable(img, 4) && Rd32(img, 4) == 0x5_0513
    ensures Readable(img, 8) && Rd32(img, 8) == 0x97 && Readable(img, 12) && Rd32(img, 12) == 0x80E7
  {
    hide Full, IsInitial;
    ProgramBytes(img);
    CodeWord(img, 0);
    CodeWord(img, 4);
    CodeWord(img, 8);
    CodeWord(img, 12);
  }

  lemma CodeWord(img: Image, at: nat)
    requires at <= 12 && forall k :: 0 <= k < 16 ==> k in img && img[k] == CODE[k]
    ensures Readable(img, at) && Rd32(img, at) == Word(CODE[at], CODE[at + 1], CODE[at + 2], CODE[at + 3])
  {
    hide Word;
  }

  lemma ProgramSites(img: Image)
    requires Readable(img, 0) && Rd32(img, 0) == 0x517 && Readable(img, 4) && Rd32(img, 4) == 0x5_0513
    requires Readable(img, 8) && Rd32(img, 8) == 0x97 && Readable(img, 12) && Rd32(img, 12) == 0x80E7
    ensures PairAt(img, PROGRAM_RELOCS, 16, 0, 1) && CallAt(img, PROGRAM_RELOCS, 16, 2)
  {
    hide Rd32;
  }

  lemma ProgramPlaces()
    ensures Placed(PROGRAM, 0) && PlaceOf(PROGRAM, 0) == 16 && Placed(PROGRAM, 1) && PlaceOf(PROGRAM, 1) == 0
  {
    hide Full;
    ProgramLayout();
  }

  /** At every load address: the first pair leaves load + 16 in a0, and the second
      goes there. */
  lemma ProgramRuns(w: Width, stack: int, file: seq<Byte>, img: Image, mem: Memory, load: U32, x: Registers)
    requires LinkedVia(w, PROGRAM, stack, file, img) && InMemory(mem, file, load)
    ensures Step(mem, Step(mem, Cpu(load, x)).1).0 == Writes(10, Wrap(load + 16))
    ensures Step(mem, Step(mem, Cpu(Wrap(load + 8), x)).1).1.pc == ClearBit0(Wrap(load + 16))
  {
    hide LinkedVia, InMemory, Full, Relocs, WholeObject.Symbols, Step, PairAt, CallAt, Placed, PlaceOf, Wrap, Rd32,
         IsInitial;
    LinkedInitial(w, stack, file, img);
    ProgramLayout();
    ProgramTables(w);
    ProgramWords(img);
    ProgramSites(img);
    ProgramPlaces();
    SmallLoad(load);
    var c := Cpu(load, x);
    ProgramFirst(w, stack, file, img, mem, load, c);
    PairLands(w, PROGRAM, stack, file, img, mem, load, 0, 1, c, Step(mem, c).1);
    AddiA0(Wrap(load + 16));
    assert load + 16 + 0 == load + 16;
    CallLands(w, PROGRAM, stack, file, img, mem, load, 2, Cpu(Wrap(load + 8), x));
  }

  lemma LinkedInitial(w: Width, stack: int, file: seq<Byte>, img: Image)
    requires LinkedVia(w, PROGRAM, stack, file, img)
    ensures IsInitial(img, PROGRAM.sections, Full(PROGRAM.sections))
  {}

  lemma AddiA0(t: U32)
    ensures Intended(0x5_0513, t) == Writes(10, t)
  {}

  /** The auipc steps to the instruction behind it. */
  lemma ProgramFirst(w: Width, stack: int, file: seq<Byte>, img: Image, mem: Memory, load: U32, c: Cpu)
    requires LinkedVia(w, PROGRAM, stack, file, img) && InMemory(mem, file, load) && c.pc == load
    ensures Readable(img, 0) && Step(mem, c).1.pc == Wrap(load + 4)
    ensures PairRuns(img, PROGRAM_RELOCS, mem, load, 0, 1, c, Step(mem, c).1)
  {
    hide LinkedVia, InMemory, Full, Step, Rd32, IsInitial, Alone, Wrap, Running, ValueAt,
         Lo12, CallAt, TakesImmI, TakesImmS, Rs1, PlaceFirst, ResolveAll, RelocsOf;
    LinkedInitial(w, stack, file, img);
    ProgramLayout();
    ProgramTables(w);
    ProgramWords(img);
    ProgramSites(img);
    SmallLoad(load);
    FileRuns(w, PROGRAM, stack, file, img, mem, load);
    AuipcRuns(w, WholeObject.Symbols(w, PROGRAM), img, PROGRAM_RELOCS, 16, mem, load, 0, c);
  }
}
