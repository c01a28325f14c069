/** The part of RV32I that position-independent code is linked with: how the
    immediates of each instruction format are laid out, and what the
    instructions that carry them do.

    Everything is arithmetic on 32-bit words: a bit field is a quotient and a
    remainder by powers of two, and addresses wrap modulo 2^32. This module is
    the specification the linker is proved against; nothing in it is derived
    from the linker. */
module Rv32 {
  import opened Words

  const LUI := 0x37
  const AUIPC := 0x17
  const OP_IMM := 0x13
  const LOAD := 0x03
  const STORE := 0x23
  const BRANCH := 0x63
  const JALR := 0x67
  const JAL := 0x6f

  function Opcode(w: U32): int { w % 0x80 }

  function Rd(w: U32): (r: int)
    ensures 0 <= r < 32
  { w / 0x80 % 0x20 }

  function Funct3(w: U32): int { w / 0x1000 % 8 }

  function Rs1(w: U32): (r: int)
    ensures 0 <= r < 32
  { w / 0x8000 % 0x20 }

  function SignExtend(x: int, half: int): int {
    if x < half then x else x - 2 * half
  }

  function ImmU(w: U32): U32 { w / 0x1000 * 0x1000 }

  function ImmI(w: U32): int { SignExtend(w / 0x10_0000, 0x800) }

  function ImmS(w: U32): int {
    SignExtend(w / 0x200_0000 * 0x20 + w / 0x80 % 0x20, 0x800)
  }

  function ImmB(w: U32): int {
    SignExtend(w / 0x8000_0000 * 0x1000 + w / 0x80 % 2 * 0x800
               + w / 0x200_0000 % 0x40 * 0x20 + w / 0x100 % 0x10 * 2, 0x1000)
  }

  function ImmJ(w: U32): int {
    SignExtend(w / 0x8000_0000 * 0x10_0000 + w / 0x1000 % 0x100 * 0x1000
               + w / 0x10_0000 % 2 * 0x800 + w / 0x20_0000 % 0x400 * 2, 0x10_0000)
  }

  type Registers = r: seq<U32> | |r| == 32 witness seq(32, _ => 0)

  datatype Cpu = Cpu(pc: U32, x: Registers)

  type Memory = U32 -> Byte

  function Wrap(n: int): U32 { n % TWO32 }

  function Fetch(m: Memory, pc: U32): U32 {
    Word(m(pc), m(Wrap(pc + 1)), m(Wrap(pc + 2)), m(Wrap(pc + 3)))
  }

  /** What executing one instruction does. A load or store is described by the
      address it reaches, a conditional branch by where it goes when taken. */
  datatype Effect =
    | Writes(rd: int, value: U32)
    | Jumps(link: int, target: U32)
    | Accesses(address: U32)
    | Branches(target: U32)
    | Other

  function Get(c: Cpu, r: int): U32
    requires 0 <= r < 32
  {
    if r == 0 then 0 else c.x[r]
  }

  function Execute(c: Cpu, w: U32): Effect {
    var op := Opcode(w);
    if op == LUI then Writes(Rd(w), ImmU(w))
    else if op == AUIPC then Writes(Rd(w), Wrap(c.pc + ImmU(w)))
    else if op == OP_IMM && Funct3(w) == 0 then Writes(Rd(w), Wrap(Get(c, Rs1(w)) + ImmI(w)))
    else if op == JALR && Funct3(w) == 0 then Jumps(Rd(w), ClearBit0(Wrap(Get(c, Rs1(w)) + ImmI(w))))
    else if op == LOAD then Accesses(Wrap(Get(c, Rs1(w)) + ImmI(w)))
    else if op == STORE then Accesses(Wrap(Get(c, Rs1(w)) + ImmS(w)))
    else if op == BRANCH then Branches(Wrap(c.pc + ImmB(w)))
    else if op == JAL then Jumps(Rd(w), Wrap(c.pc + ImmJ(w)))
    else Other
  }

  /** JALR clears the low bit of the sum before jumping. */
  function ClearBit0(a: U32): U32 { a - a % 2 }

  function Set(x: Registers, r: int, v: U32): Registers
    requires 0 <= r < 32
  {
    x[r := v]
  }

  /** One instruction fetched and executed; straight-line code advances by 4. */
  function Step(m: Memory, c: Cpu): (Effect, Cpu) {
    var w := Fetch(m, c.pc);
    var e := Execute(c, w);
    match e
    case Writes(rd, v) =>
      (e, Cpu(Wrap(c.pc + 4), if 0 <= rd < 32 then Set(c.x, rd, v) else c.x))
    case Jumps(rd, t) =>
      (e, Cpu(t, if 0 <= rd < 32 then Set(c.x, rd, Wrap(c.pc + 4)) else c.x))
    case _ => (e, Cpu(Wrap(c.pc + 4), c.x))
  }
}
