/** CRC-32 as zlib and the ROM compute it (section 8 of RFC 1952): reflected, and
    inverted on the way in and on the way out. */
module Crc32 {
  import opened Words

  /** A byte as the low bits of a 32-bit register. */
  function Register(b: Byte): bv32 {
    (if b % 2 == 1 then 1 else 0) | (if b / 2 % 2 == 1 then 2 else 0)
    | (if b / 4 % 2 == 1 then 4 else 0) | (if b / 8 % 2 == 1 then 8 else 0)
    | (if b / 16 % 2 == 1 then 16 else 0) | (if b / 32 % 2 == 1 then 32 else 0)
    | (if b / 64 % 2 == 1 then 64 else 0) | (if b / 128 % 2 == 1 then 128 else 0)
  }

  function StepBit(c: bv32): bv32 {
    if c & 1 == 1 then (c >> 1) ^ 0xEDB8_8320 else c >> 1
  }

  function StepFour(c: bv32): bv32 { StepBit(StepBit(StepBit(StepBit(c)))) }

  function Xor(c: bv32, d: bv32): bv32 { c ^ d }

  function StepByte(c: bv32, b: Byte): bv32 { StepFour(StepFour(Xor(c, Register(b)))) }

  function Fold(c: bv32, s: seq<Byte>): bv32 {
    if s == [] then c else StepByte(Fold(c, s[..|s| - 1]), s[|s| - 1])
  }

  function Invert(c: bv32): bv32 { c ^ 0xFFFF_FFFF }

  /** crc32_le(crc, s), and zlib.crc32(s, crc). */
  function Crc(crc: bv32, s: seq<Byte>): bv32 { Invert(Fold(Invert(crc), s)) }

  lemma {:induction false} FoldAppend(c: bv32, a: seq<Byte>, b: seq<Byte>)
    ensures Fold(c, a + b) == Fold(Fold(c, a), b)
  {
    hide StepByte;
    if b == [] {
      assert a + b == a;
    } else {
      var n := |b| - 1;
      FoldAppend(c, a, b[..n]);
      assert (a + b)[..|a + b| - 1] == a + b[..n];
    }
  }

  lemma InvertTwice(c: bv32)
    ensures Invert(Invert(c)) == c
  {}

  /** What makes chaining work: continuing from a finished CRC is the same as
      never having stopped. */
  lemma Chain(crc: bv32, a: seq<Byte>, b: seq<Byte>)
    ensures Crc(Crc(crc, a), b) == Crc(crc, a + b)
  {
    hide Fold, Invert;
    InvertTwice(Fold(Invert(crc), a));
    FoldAppend(Invert(crc), a, b);
  }

  lemma CrcNothing(crc: bv32)
    ensures Crc(crc, []) == crc
  {
    InvertTwice(crc);
  }

  // -------------------------------------------------- what a CRC can tell apart

  lemma StepBitInjective(c: bv32, d: bv32)
    requires StepBit(c) == StepBit(d)
    ensures c == d
  {}

  lemma StepFourInjective(c: bv32, d: bv32)
    requires StepFour(c) == StepFour(d)
    ensures c == d
  {
    hide StepBit;
    StepBitInjective(StepBit(StepBit(StepBit(c))), StepBit(StepBit(StepBit(d))));
    StepBitInjective(StepBit(StepBit(c)), StepBit(StepBit(d)));
    StepBitInjective(StepBit(c), StepBit(d));
    StepBitInjective(c, d);
  }

  lemma XorCancels(a: bv32, b: bv32, c: bv32)
    ensures Xor(a, c) == Xor(b, c) ==> a == b
    ensures Xor(c, a) == Xor(c, b) ==> a == b
  {}

  lemma StepByteInjective(c: bv32, d: bv32, x: Byte, y: Byte)
    requires StepByte(c, x) == StepByte(d, y)
    ensures x == y ==> c == d
    ensures c == d ==> x == y
  {
    hide StepFour, Register, Xor;
    StepFourInjective(StepFour(Xor(c, Register(x))), StepFour(Xor(d, Register(y))));
    StepFourInjective(Xor(c, Register(x)), Xor(d, Register(y)));
    XorCancels(c, d, Register(x));
    XorCancels(Register(x), Register(y), c);
    RegisterInjective(x, y);
  }

  lemma {:induction false} RegisterInjective(x: Byte, y: Byte)
    ensures Register(x) == Register(y) ==> x == y
  {
    if Register(x) == Register(y) {
      RegisterBits(x);
      RegisterBits(y);
      BitsMakeByte(x);
      BitsMakeByte(y);
    }
  }

  lemma RegisterBits(b: Byte)
    ensures b % 2 == (if Register(b) & 1 != 0 then 1 else 0)
    ensures b / 2 % 2 == (if Register(b) & 2 != 0 then 1 else 0)
    ensures b / 4 % 2 == (if Register(b) & 4 != 0 then 1 else 0)
    ensures b / 8 % 2 == (if Register(b) & 8 != 0 then 1 else 0)
    ensures b / 16 % 2 == (if Register(b) & 16 != 0 then 1 else 0)
    ensures b / 32 % 2 == (if Register(b) & 32 != 0 then 1 else 0)
    ensures b / 64 % 2 == (if Register(b) & 64 != 0 then 1 else 0)
    ensures b / 128 % 2 == (if Register(b) & 128 != 0 then 1 else 0)
  {}

  lemma BitsMakeByte(b: Byte)
    ensures b == b % 2 + b / 2 % 2 * 2 + b / 4 % 2 * 4 + b / 8 % 2 * 8
                 + b / 16 % 2 * 16 + b / 32 % 2 * 32 + b / 64 % 2 * 64 + b / 128 % 2 * 128
  {
    LowHalf(b);
    HighHalf(b);
  }

  lemma LowHalf(n: nat)
    ensures n == n % 2 + n / 2 % 2 * 2 + n / 4 % 2 * 4 + n / 8 % 2 * 8 + n / 16 * 16
  {
    var q := n / 2;
    var r := q / 2;
    var t := r / 2;
    assert n / 4 == r && n / 8 == t && n / 16 == t / 2;
  }

  lemma HighHalf(b: Byte)
    ensures b / 16 == b / 16 % 2 + b / 32 % 2 * 2 + b / 64 % 2 * 4 + b / 128 % 2 * 8
  {
    var n := b / 16;
    assert b / 32 == n / 2 && b / 64 == n / 4 && b / 128 == n / 8;
    LowHalf(n);
  }

  lemma {:induction false} FoldInjective(c: bv32, d: bv32, s: seq<Byte>)
    requires Fold(c, s) == Fold(d, s)
    ensures c == d
  {
    hide StepByte;
    if s != [] {
      var n := |s| - 1;
      StepByteInjective(Fold(c, s[..n]), Fold(d, s[..n]), s[n], s[n]);
      FoldInjective(c, d, s[..n]);
    }
  }

  /** Two payloads that differ in exactly one byte never share a CRC: a copy with
      one wrong byte is always noticed. */
  lemma OneByteChangeDetected(crc: bv32, a: seq<Byte>, x: Byte, y: Byte, b: seq<Byte>)
    requires x != y
    ensures Crc(crc, a + [x] + b) != Crc(crc, a + [y] + b)
  {
    hide Fold, Invert, StepByte;
    var c := Fold(Invert(crc), a);
    FoldOne(c, x);
    FoldOne(c, y);
    FoldAppend(Invert(crc), a, [x]);
    FoldAppend(Invert(crc), a, [y]);
    FoldAppend(Invert(crc), a + [x], b);
    FoldAppend(Invert(crc), a + [y], b);
    var p, q := StepByte(c, x), StepByte(c, y);
    InvertTwice(Fold(p, b));
    InvertTwice(Fold(q, b));
    if Fold(p, b) == Fold(q, b) {
      FoldInjective(p, q, b);
      StepByteInjective(c, c, x, y);
      assert false;
    }
  }

  lemma FoldOne(c: bv32, x: Byte)
    ensures Fold(c, [x]) == StepByte(c, x)
  {
    hide StepByte;
    assert [x][..0] == [];
  }

  // -------------------------------------------------------------- check value

  lemma Check1()
    ensures StepByte(0xFFFF_FFFF, 49) == 0x7C23_1048
  {
    assert Register(49) == 49;
  }

  lemma Check2()
    ensures StepByte(0x7C23_1048, 50) == 0xB0AC_BB32
  {
    assert Register(50) == 50;
  }

  lemma Check3()
    ensures StepByte(0xB0AC_BB32, 51) == 0x77B7_9C2D
  {
    assert Register(51) == 51;
  }

  lemma Check4()
    ensures StepByte(0x77B7_9C2D, 52) == 0x641C_1F5C
  {
    assert Register(52) == 52;
  }

  lemma Check5()
    ensures StepByte(0x641C_1F5C, 53) == 0x340A_C5E3
  {
    assert Register(53) == 53;
  }

  lemma Check6()
    ensures StepByte(0x340A_C5E3, 54) == 0xF68D_2C9E
  {
    assert Register(54) == 54;
  }

  lemma Check7()
    ensures StepByte(0xF68D_2C9E, 55) == 0xAFFC_9660
  {
    assert Register(55) == 55;
  }

  lemma Check8()
    ensures StepByte(0xAFFC_9660, 56) == 0x651F_2550
  {
    assert Register(56) == 56;
  }

  lemma Check9()
    ensures StepByte(0x651F_2550, 57) == 0x340B_C6D9
  {
    assert Register(57) == 57;
  }

  lemma CheckHigh()
    ensures StepByte(0xFFFF_FFFF, 128) == 0xC045_9352
  {
    assert Register(128) == 128;
  }

  /** One byte more. */
  lemma FoldNext(s: seq<Byte>, b: Byte)
    ensures Fold(0xFFFF_FFFF, s + [b]) == StepByte(Fold(0xFFFF_FFFF, s), b)
  {
    hide StepByte;
    assert (s + [b])[..|s|] == s;
  }

  /** The check value of CRC-32, that of the digits "123456789", and the CRC of a byte
      with only its top bit set. */
  lemma CheckValue()
    ensures Crc(0, [49, 50, 51, 52, 53, 54, 55, 56, 57]) == 0xCBF4_3926
    ensures Crc(0, [128]) == 0x3FBA_6CAD
  {
    hide StepByte, Fold;
    FoldNothing();
    CheckHigh();
    FoldNext([], 128);
    assert [] + [128] == [128];
    Check1();
    FoldNext([], 49);
    assert [] + [49] == [49];
    Check2();
    FoldNext([49], 50);
    assert [49] + [50] == [49, 50];
    Check3();
    FoldNext([49, 50], 51);
    assert [49, 50] + [51] == [49, 50, 51];
    Check4();
    FoldNext([49, 50, 51], 52);
    assert [49, 50, 51] + [52] == [49, 50, 51, 52];
    Check5();
    FoldNext([49, 50, 51, 52], 53);
    assert [49, 50, 51, 52] + [53] == [49, 50, 51, 52, 53];
    Check6();
    FoldNext([49, 50, 51, 52, 53], 54);
    assert [49, 50, 51, 52, 53] + [54] == [49, 50, 51, 52, 53, 54];
    Check7();
    FoldNext([49, 50, 51, 52, 53, 54], 55);
    assert [49, 50, 51, 52, 53, 54] + [55] == [49, 50, 51, 52, 53, 54, 55];
    Check8();
    FoldNext([49, 50, 51, 52, 53, 54, 55], 56);
    assert [49, 50, 51, 52, 53, 54, 55] + [56] == [49, 50, 51, 52, 53, 54, 55, 56];
    Check9();
    FoldNext([49, 50, 51, 52, 53, 54, 55, 56], 57);
    assert [49, 50, 51, 52, 53, 54, 55, 56] + [57] == [49, 50, 51, 52, 53, 54, 55, 56, 57];
  }

  lemma FoldNothing()
    ensures Fold(0xFFFF_FFFF, []) == 0xFFFF_FFFF
  {}
}
