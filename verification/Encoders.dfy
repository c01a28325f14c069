/** Lua integers of either width, and the instruction-field encoders of
    board/mkflt.lua.

    The script runs on the board under a Lua with 32-bit integers and on a host
    with 64-bit ones. A Lua integer is modelled as the signed number it stands
    for; additions and left shifts wrap to the width, and a right shift is
    logical, so it acts on the unsigned residue. Or-ing disjoint bit fields
    together is adding them. */
module Encoders {
  import opened Words
  import opened Rv32

  datatype Width = Board | Host

  function Span(w: Width): int {
    if w.Board? then 0x1_0000_0000 else 0x1_0000_0000_0000_0000
  }

  /** The signed integer a Lua of this width holds after computing n. */
  function Norm(w: Width, n: int): int {
    (n + Span(w) / 2) % Span(w) - Span(w) / 2
  }

  function ShiftRight(w: Width, v: int, pow: int): int
    requires pow > 0
  {
    v % Span(w) / pow
  }

  function Hi20(w: Width, v: int): int { ShiftRight(w, Norm(w, v + 0x800), 0x1000) }

  function Lo12(w: Width, v: int): int { Norm(w, v - Norm(w, Hi20(w, v) * 0x1000)) }

  // The encoders mask right after shifting, and every mask ends below bit 32,
  // so a floor division gives the same field at either width (ShiftThenMask; narrower masks follow).

  function PutU(i: U32, v: int): U32 {
    i % 0x1000 + v % 0x10_0000 * 0x1000
  }

  function PutI(i: U32, v: int): U32 {
    i % 0x10_0000 + v % 0x1000 * 0x10_0000
  }

  function PutS(i: U32, v: int): U32 {
    i % 0x80 + v % 0x20 * 0x80 + i / 0x1000 % 0x2000 * 0x1000 + v / 0x20 % 0x80 * 0x200_0000
  }

  function PutB(i: U32, v: int): U32 {
    i % 0x80 + v / 0x800 % 2 * 0x80 + v / 2 % 0x10 * 0x100 + i / 0x1000 % 0x2000 * 0x1000
    + v / 0x20 % 0x40 * 0x200_0000 + v / 0x1000 % 2 * 0x8000_0000
  }

  function PutJ(i: U32, v: int): U32 {
    i % 0x1000 + v / 0x1000 % 0x100 * 0x1000 + v / 0x800 % 2 * 0x10_0000
    + v / 2 % 0x400 * 0x20_0000 + v / 0x10_0000 % 2 * 0x8000_0000
  }

  lemma ShiftThenMask(w: Width, v: int)
    ensures ShiftRight(w, v, 2) % 0x400 == v / 2 % 0x400
    ensures ShiftRight(w, v, 0x20) % 0x80 == v / 0x20 % 0x80
    ensures ShiftRight(w, v, 0x800) % 2 == v / 0x800 % 2
    ensures ShiftRight(w, v, 0x1000) % 0x100 == v / 0x1000 % 0x100
    ensures ShiftRight(w, v, 0x10_0000) % 2 == v / 0x10_0000 % 2
  {
    var u := v % Span(w);
    var k := v / Span(w) * if w.Board? then 1 else 0x1_0000_0000;
    assert v == u + 0x1_0000_0000 * k;
    FieldPeriod(u, k, 2, 0x8000_0000, 0x400, 0x20_0000);
    FieldPeriod(u, k, 0x20, 0x800_0000, 0x80, 0x10_0000);
    FieldPeriod(u, k, 0x800, 0x20_0000, 2, 0x10_0000);
    FieldPeriod(u, k, 0x1000, 0x10_0000, 0x100, 0x1000);
    FieldPeriod(u, k, 0x10_0000, 0x1000, 2, 0x800);
  }

  /** A field that ends below bit 32 does not see multiples of 2^32. */
  lemma FieldPeriod(u: int, k: int, pow: int, rest: int, mask: int, over: int)
    requires pow > 0 && mask > 0 && pow * rest == 0x1_0000_0000 && mask * over == rest
    ensures (u + 0x1_0000_0000 * k) / pow % mask == u / pow % mask
  {
    DivShift(u, pow, rest * k);
    assert pow * (rest * k) == (pow * rest) * k;
    DivShift(u / pow, mask, over * k);
    assert mask * (over * k) == (mask * over) * k;
  }

  lemma DivShift(u: int, m: int, n: int)
    requires m > 0
    ensures (u + m * n) / m == u / m + n
    ensures (u + m * n) % m == u % m
  {
    var r := u % m;
    var d := (u + m * n) / m - (u / m + n);
    var e := (u + m * n) % m - r;
    assert m * d + e == 0 by {
      assert m * ((u + m * n) / m) == u + m * n - (u + m * n) % m;
      assert m * (u / m) == u - r;
    }
    assert d > 0 ==> m * d >= m;
    assert d < 0 ==> m * d <= -m;
  }

  // ---------------------------------------------------------------- integers

  lemma NormResidue(w: Width, n: int)
    ensures Norm(w, n) % TWO32 == n % TWO32
    ensures -Span(w) / 2 <= Norm(w, n) < Span(w) / 2
  {
    var q := (n + Span(w) / 2) / Span(w);
    var k := q * if w.Board? then 1 else 0x1_0000_0000;
    assert n == Norm(w, n) + 0x1_0000_0000 * k;
    DivShift(Norm(w, n), 0x1_0000_0000, k);
  }

  lemma NormFixed(w: Width, n: int)
    requires -0x8000_0000 <= n < 0x8000_0000
    ensures Norm(w, n) == n
  {}

  /** The +0x800 rounds: what is left for the low part always fits in a signed
      12-bit immediate, and the two parts add back to v at either width. */
  lemma HiLoSplit(w: Width, v: int)
    requires Norm(w, v) == v
    ensures Hi20(w, v) % 0x10_0000 == (v + 0x800) / 0x1000 % 0x10_0000
    ensures Lo12(w, v) == (v + 0x800) % 0x1000 - 0x800
  {
    var y := Norm(w, v + 0x800);
    HiField(w, v);
    var hi := Hi20(w, v);
    var r := (v + 0x800) % 0x1000;
    assert exists k :: hi * 0x1000 == v + 0x800 - r + k * Span(w);
    var k :| hi * 0x1000 == v + 0x800 - r + k * Span(w);
    NormShift(w, v + 0x800 - r, k);
    LoFromHi(w, v, r, Norm(w, hi * 0x1000));
  }

  lemma HiField(w: Width, v: int)
    ensures Hi20(w, v) % 0x10_0000 == (v + 0x800) / 0x1000 % 0x10_0000
    ensures exists k :: Hi20(w, v) * 0x1000 == v + 0x800 - (v + 0x800) % 0x1000 + k * Span(w)
  {
    var x := v + 0x800;
    NormModSpan(w, x);
    var u := x % Span(w);
    var q := x / Span(w);
    assert Hi20(w, v) == u / 0x1000;
    var m := q * if w.Board? then 0x10_0000 else 0x10_0000_0000_0000;
    DivShift(u, 0x1000, m);
    assert x == u + 0x1000 * m;
    var e := q * if w.Board? then 1 else 0x1_0000_0000;
    DivShift(u / 0x1000, 0x10_0000, e);
    assert u / 0x1000 * 0x1000 == x - x % 0x1000 + (-q) * Span(w);
  }

  lemma NormModSpan(w: Width, n: int)
    ensures Norm(w, n) % Span(w) == n % Span(w)
  {
    var q := (n + Span(w) / 2) / Span(w);
    assert Norm(w, n) == n - q * Span(w);
  }

  lemma NormShift(w: Width, n: int, k: int)
    ensures Norm(w, n + k * Span(w)) == Norm(w, n)
  {}

  lemma LoFromHi(w: Width, v: int, r: int, high: int)
    requires 0 <= r < 0x1000
    requires high == Norm(w, v + 0x800 - r)
    ensures Norm(w, v - high) == r - 0x800
  {
    var h := Span(w) / 2;
    var n := v + 0x800 - r;
    var q := (n + h) / Span(w);
    assert high == n - q * Span(w);
    NormShift(w, r - 0x800, q);
    NormFixed(w, r - 0x800);
  }

  // ------------------------------------------------------- encode and decode

  lemma FieldsU(i: U32, v: int)
    ensures ImmU(PutU(i, v)) == v % 0x10_0000 * 0x1000
    ensures PutU(i, v) % 0x1000 == i % 0x1000
  {}

  lemma FieldsI(i: U32, v: int)
    requires -0x800 <= v < 0x800
    ensures ImmI(PutI(i, v)) == v
    ensures PutI(i, v) % 0x10_0000 == i % 0x10_0000
  {}

  /** Four digits in the mixed radix of the S format come apart again. */
  lemma DigitsS(a: int, b: int, c: int, d: int)
    requires 0 <= a < 0x80 && 0 <= b < 0x20 && 0 <= c < 0x2000 && 0 <= d < 0x80
    ensures var i := a + b * 0x80 + c * 0x1000 + d * 0x200_0000;
            && i % 0x80 == a && i / 0x80 % 0x20 == b
            && i / 0x1000 % 0x2000 == c && i / 0x200_0000 == d
  {
    var i := a + b * 0x80 + c * 0x1000 + d * 0x200_0000;
    assert i / 0x80 == b + c * 0x20 + d * 0x4_0000;
    assert i / 0x1000 == c + d * 0x2000;
  }

  lemma FieldsS(i: U32, v: int)
    requires -0x800 <= v < 0x800
    ensures ImmS(PutS(i, v)) == v
    ensures PutS(i, v) % 0x80 == i % 0x80
    ensures PutS(i, v) / 0x1000 % 0x2000 == i / 0x1000 % 0x2000
  {
    DigitsS(i % 0x80, v % 0x20, i / 0x1000 % 0x2000, v / 0x20 % 0x80);
    var q := v / 0x20;
    assert v == q * 0x20 + v % 0x20 && -0x40 <= q < 0x40;
    assert q % 0x80 == if q < 0 then q + 0x80 else q;
  }

  lemma DigitsB(a: int, b: int, c: int, d: int, e: int, f: int)
    requires 0 <= a < 0x80 && 0 <= b < 2 && 0 <= c < 0x10
    requires 0 <= d < 0x2000 && 0 <= e < 0x40 && 0 <= f < 2
    ensures var i := a + b * 0x80 + c * 0x100 + d * 0x1000 + e * 0x200_0000 + f * 0x8000_0000;
            && i % 0x80 == a && i / 0x80 % 2 == b && i / 0x100 % 0x10 == c
            && i / 0x1000 % 0x2000 == d && i / 0x200_0000 % 0x40 == e && i / 0x8000_0000 == f
  {
    var i := a + b * 0x80 + c * 0x100 + d * 0x1000 + e * 0x200_0000 + f * 0x8000_0000;
    assert i / 0x80 == b + 2 * (c + d * 0x10 + e * 0x2_0000 + f * 0x80_0000);
    assert i / 0x100 == c + 0x10 * (d + e * 0x2000 + f * 0x8_0000);
    assert i / 0x1000 == d + 0x2000 * (e + f * 0x40);
    assert i / 0x200_0000 == e + f * 0x40;
  }

  lemma FieldsB(i: U32, v: int)
    requires -0x1000 <= v < 0x1000
    ensures ImmB(PutB(i, v)) == v - v % 2
    ensures PutB(i, v) % 0x80 == i % 0x80
    ensures PutB(i, v) / 0x1000 % 0x2000 == i / 0x1000 % 0x2000
  {
    DigitsB(i % 0x80, v / 0x800 % 2, v / 2 % 0x10, i / 0x1000 % 0x2000, v / 0x20 % 0x40, v / 0x1000 % 2);
    JoinB(v);
  }

  lemma JoinB(v: int)
    requires -0x1000 <= v < 0x1000
    ensures SignExtend(v / 0x1000 % 2 * 0x1000 + v / 0x800 % 2 * 0x800
                       + v / 0x20 % 0x40 * 0x20 + v / 2 % 0x10 * 2, 0x1000) == v - v % 2
  {
    var h := v / 2;
    var q := v / 0x20;
    var t := v / 0x800;
    assert q == h / 0x10 && t == q / 0x40 && v / 0x1000 == t / 2;
    assert v - v % 2 == 2 * h;
    assert h == q * 0x10 + h % 0x10;
    assert q == t * 0x40 + q % 0x40;
    assert -2 <= t < 2;
  }

  lemma DigitsJ(a: int, b: int, c: int, d: int, e: int)
    requires 0 <= a < 0x1000 && 0 <= b < 0x100 && 0 <= c < 2 && 0 <= d < 0x400 && 0 <= e < 2
    ensures var i := a + b * 0x1000 + c * 0x10_0000 + d * 0x20_0000 + e * 0x8000_0000;
            && i % 0x1000 == a && i / 0x1000 % 0x100 == b && i / 0x10_0000 % 2 == c
            && i / 0x20_0000 % 0x400 == d && i / 0x8000_0000 == e
  {
    var i := a + b * 0x1000 + c * 0x10_0000 + d * 0x20_0000 + e * 0x8000_0000;
    assert i / 0x1000 == b + 0x100 * (c + d * 2 + e * 0x800);
    assert i / 0x10_0000 == c + 2 * (d + e * 0x400);
    assert i / 0x20_0000 == d + e * 0x400;
  }

  lemma FieldsJ(i: U32, v: int)
    requires -0x10_0000 <= v < 0x10_0000
    ensures ImmJ(PutJ(i, v)) == v - v % 2
    ensures PutJ(i, v) % 0x1000 == i % 0x1000
  {
    DigitsJ(i % 0x1000, v / 0x1000 % 0x100, v / 0x800 % 2, v / 2 % 0x400, v / 0x10_0000 % 2);
    JoinJ(v);
  }

  lemma JoinJ(v: int)
    requires -0x10_0000 <= v < 0x10_0000
    ensures SignExtend(v / 0x10_0000 % 2 * 0x10_0000 + v / 0x1000 % 0x100 * 0x1000
                       + v / 0x800 % 2 * 0x800 + v / 2 % 0x400 * 2, 0x10_0000) == v - v % 2
  {
    var h := v / 2;
    var t := v / 0x800;
    var p := v / 0x1000;
    var s := v / 0x10_0000;
    assert t == h / 0x400 && p == t / 2 && s == p / 0x100;
    assert v - v % 2 == 2 * h;
    assert h == t * 0x400 + h % 0x400;
    assert t == p * 2 + t % 2;
    assert p == s * 0x100 + p % 0x100;
    assert -1 <= s < 1;
  }

  /** Whatever the value, an encoder leaves the other fields alone. */
  lemma OtherFieldsS(i: U32, v: int)
    ensures PutS(i, v) % 0x80 == i % 0x80
    ensures PutS(i, v) / 0x1000 % 0x2000 == i / 0x1000 % 0x2000
  {
    DigitsS(i % 0x80, v % 0x20, i / 0x1000 % 0x2000, v / 0x20 % 0x80);
  }

  lemma OtherFieldsB(i: U32, v: int)
    ensures PutB(i, v) % 0x80 == i % 0x80
    ensures PutB(i, v) / 0x1000 % 0x2000 == i / 0x1000 % 0x2000
  {
    DigitsB(i % 0x80, v / 0x800 % 2, v / 2 % 0x10, i / 0x1000 % 0x2000, v / 0x20 % 0x40, v / 0x1000 % 2);
  }

  lemma OtherFieldsJ(i: U32, v: int)
    ensures PutJ(i, v) % 0x1000 == i % 0x1000
  {
    DigitsJ(i % 0x1000, v / 0x1000 % 0x100, v / 0x800 % 2, v / 2 % 0x400, v / 0x10_0000 % 2);
  }
}
