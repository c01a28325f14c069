/** The baud-rate divisor of bootloader/p4/p4_uart.c, in its 32-bit arithmetic. */
module Uart {
  import opened Words
  import opened Encoders

  const MAX_DIV: nat := 0xFFF
  const MAX_PRE: nat := 0x100

  function Trunc(n: nat): U32 { n % TWO32 }

  /** The divisor's cap in hertz, as far as 32 bits hold it. */
  function Cap(baud: U32): U32 { Trunc(MAX_DIV * baud) }

  /** The cap is never zero: 2^32 does not divide 4095 times less than 2^32. */
  lemma CapNotZero(baud: U32)
    requires baud != 0
    ensures Cap(baud) != 0
  {
    var q := MAX_DIV * baud / TWO32;
    if Cap(baud) == 0 {
      // 2^36 - 1 is a multiple of 4095
      assert MAX_DIV * (16 * baud - 16781313 * q) == q;
      SmallMultiple(16 * baud - 16781313 * q, q);
    }
  }

  lemma SmallMultiple(m: int, q: nat)
    requires MAX_DIV * m == q && q < MAX_DIV
    ensures q == 0
  {}

  /** Neither is the product the fraction is divided by, when a pre-divider was
      found: d times the cap does not wrap, so d times the rate is not a multiple
      of 2^32. */
  lemma ProductNotZero(baud: U32, d: nat, num: U32)
    requires baud != 0 && d > 0 && d * Cap(baud) <= num
    ensures Trunc(baud * d) != 0
  {
    CapNotZero(baud);
    if Trunc(baud * d) == 0 {
      var k := baud * d / TWO32;
      var c := MAX_DIV * baud / TWO32;
      assert baud * d == TWO32 * k && MAX_DIV * baud == Cap(baud) + TWO32 * c;
      assert d * Cap(baud) == TWO32 * (MAX_DIV * k - d * c) by {
        assert d * (MAX_DIV * baud) == d * Cap(baud) + d * (TWO32 * c);
        assert d * (MAX_DIV * baud) == MAX_DIV * (baud * d);
        assert d * (TWO32 * c) == TWO32 * (d * c);
      }
      Positive(d, Cap(baud));
      NoMultiple(d * Cap(baud), MAX_DIV * k - d * c);
    }
  }

  lemma Positive(a: nat, b: nat)
    requires a > 0 && b > 0
    ensures a * b > 0
  {}

  lemma NoMultiple(n: nat, m: int)
    requires n == TWO32 * m
    ensures n == 0 || n >= TWO32
  {}

  // ------------------------------------------------------------- the registers

  /** The clock and divider registers p4_uart0_set_baud() programs. */
  class Registers {
    var ctrl110: U32
    var ctrl111: U32
    var shadow: U32           // the divider register as it is written
    var clkdiv: U32           // what has crossed into the UART's clock domain
    var pending: nat          // polls until the hardware clears the update bit

    constructor (a: U32, b: U32, c: U32)
      ensures ctrl110 == a && ctrl111 == b && shadow == clkdiv == c
    {
      ctrl110, ctrl111, shadow, clkdiv, pending := a, b, c, c, 0;
    }

    /** The pre-divider and divider the registers stand for. */
    function PreDivider(): nat
      reads this
    {
      ctrl111 % 0x100 + 1
    }

    function Divider(): int
      reads this
    {
      clkdiv % 0x1000 * 16 + clkdiv / 0x10_0000 % 16
    }

    /** The update bit is set, and the shadow reaches the UART by the time it is
        seen to be clear. */
    method Update(latency: nat)
      modifies this`pending, this`clkdiv
      ensures pending == 0 && clkdiv == shadow
    {
      pending := latency;
      while pending > 0
        invariant pending >= 0
      {
        pending := pending - 1;
      }
      clkdiv := shadow;
    }

    method SetBaud(baud: U32, sclk: U32, latency: nat) returns (ok: bool)
      modifies this
      ensures !ok ==> ctrl110 == old(ctrl110) && ctrl111 == old(ctrl111) && clkdiv == old(clkdiv) && shadow == old(shadow)
      ensures ok <==> Pre(baud, sclk).Some?
      ensures ok ==> Pre(baud, sclk) == Some(PreDivider()) && Divider() == Div(baud, sclk, PreDivider())
      ensures ok ==> ctrl110 / 0x100_0000 % 8 == 4 && ctrl111 / 0x100 == old(ctrl111) / 0x100
      ensures ok ==> ctrl110 % 0x100_0000 == old(ctrl110) % 0x100_0000 && ctrl110 / 0x800_0000 == old(ctrl110) / 0x800_0000
    {
      hide Pre, Div;
      var p := PreDivide(baud, sclk);
      if p.None? {
        return false;
      }
      var d := p.value;
      PreFits(baud, sclk, d);
      var div := Fraction(baud, sclk, d);
      DivIsExact(baud, sclk, d);
      if div / 16 > MAX_DIV {
        return false;
      }
      SelectReadsBack(ctrl110);
      PreDividerReadsBack(ctrl111, d);
      DividerReadsBack(div);
      ctrl110 := ctrl110 % 0x100_0000 + 0x400_0000 + ctrl110 / 0x800_0000 * 0x800_0000;
      ctrl111 := ctrl111 / 0x100 * 0x100 + (d - 1);
      shadow := div / 16 + div % 16 * 0x10_0000;
      Update(latency);
      ok := true;
    }
  }

  /** The source select and enable bits, with the rest of their register kept. */
  lemma SelectReadsBack(a: U32)
    ensures var a1 := a % 0x100_0000 + 0x400_0000 + a / 0x800_0000 * 0x800_0000;
            && 0 <= a1 < TWO32 && a1 / 0x100_0000 % 8 == 4
            && a1 % 0x100_0000 == a % 0x100_0000 && a1 / 0x800_0000 == a / 0x800_0000
  {
    DivShift(a % 0x100_0000 + 0x400_0000, 0x100_0000, 8 * (a / 0x800_0000));
    DivShift(a % 0x100_0000 + 0x400_0000, 0x800_0000, a / 0x800_0000);
  }

  /** The pre-divider, with the rest of its register kept. */
  lemma PreDividerReadsBack(b: U32, d: int)
    requires 0 < d <= MAX_PRE
    ensures var b1 := b / 0x100 * 0x100 + (d - 1);
            0 <= b1 < TWO32 && b1 % 0x100 + 1 == d && b1 / 0x100 == b / 0x100
  {
    DivShift(d - 1, 0x100, b / 0x100);
  }

  lemma DividerReadsBack(div: U32)
    requires div / 16 <= MAX_DIV
    ensures var c1 := div / 16 + div % 16 * 0x10_0000;
            0 <= c1 < TWO32 && c1 % 0x1000 * 16 + c1 / 0x10_0000 % 16 == div
  {
    DivShift(div / 16, 0x1000, div % 16 * 0x100);
    DivShift(div / 16, 0x10_0000, div % 16);
  }

  method PreDivide(baud: U32, sclk: U32) returns (d: Option<nat>)
    ensures d == Pre(baud, sclk)
  {
    hide Trunc, Over, Sum;
    if baud == 0 {
      return None;
    }
    CapNotZero(baud);
    var cap := Trunc(MAX_DIV * baud);
    var pre := Over(Sum(cap, sclk), cap);
    if pre == 0 || pre > MAX_PRE {
      return None;
    }
    d := Some(pre);
  }

  method Fraction(baud: U32, sclk: U32, d: nat) returns (div: U32)
    requires d > 0 && Trunc(baud * d) != 0
    ensures div == Div(baud, sclk, d)
  {
    div := Trunc(16 * sclk / Trunc(baud * d));
  }

  function Over(n: nat, m: nat): nat
    requires m > 0
  {
    n / m
  }

  /** The clock plus the cap less one, wrapping like the registers it is kept in. */
  function Sum(cap: U32, sclk: U32): U32 { Trunc(Trunc(sclk + cap) + 0xFFFF_FFFF) }

  /** The pre-divider, rounded up, in wrapping 32-bit arithmetic. */
  function Pre(baud: U32, sclk: U32): Option<nat> {
    if baud == 0 || Cap(baud) == 0 then None else InRange(Over(Sum(Cap(baud), sclk), Cap(baud)))
  }

  function InRange(pre: nat): Option<nat> { if pre == 0 || pre > MAX_PRE then None else Some(pre) }

  lemma PreFits(baud: U32, sclk: U32, d: nat)
    requires Pre(baud, sclk) == Some(d)
    ensures baud != 0 && 0 < d <= MAX_PRE && Trunc(baud * d) != 0
  {
    hide Trunc, Cap, Sum;
    var num := Sum(Cap(baud), sclk);
    Quotient(num, Cap(baud));
    ProductNotZero(baud, d, num);
  }

  lemma Quotient(n: nat, m: nat)
    requires m > 0
    ensures 0 <= n / m && n / m * m <= n < (n / m + 1) * m
  {}

  /** The divider in sixteenths; the product is a 32-bit one. */
  function Div(baud: U32, sclk: U32, d: nat): U32 {
    if Trunc(baud * d) == 0 then 0 else Trunc(16 * sclk / Trunc(baud * d))
  }

  /** The registers' arithmetic, in one modulus: the rounded-up quotient by the wrapped
      cap, refused outside 1 to 256, and the quotient by the wrapped product. */
  lemma WrappedArithmetic(baud: U32, sclk: U32, d: nat)
    ensures var cap := 4095 * baud % 0x1_0000_0000;
            Pre(baud, sclk) == Some(d)
            <==> baud != 0 && cap != 0 && 1 <= d <= 256 && d == (sclk + cap - 1) % 0x1_0000_0000 / cap
    ensures var product := baud * d % 0x1_0000_0000;
            product != 0 ==> Div(baud, sclk, d) == 16 * sclk / product % 0x1_0000_0000
  {
    var cap := Cap(baud);
    if cap != 0 {
      OneModulus(sclk + cap - 1);
    }
  }

  lemma OneModulus(n: nat)
    requires n + 1 < 2 * TWO32
    ensures Trunc(Trunc(n + 1) + 0xFFFF_FFFF) == n % 0x1_0000_0000
  {}

  // ------------------------------------------------------------------ the rate

  /** The programmed divider brackets the wanted rate: one sixteenth more would
      be too slow. */
  predicate Brackets(baud: U32, sclk: U32, d: nat, div: nat) {
    baud * d * div <= 16 * sclk < baud * d * (div + 1)
  }

  /** Nothing wraps when the cap plus the clock fits 32 bits. */
  predicate Narrow(baud: U32, sclk: U32) { MAX_DIV * baud + sclk - 1 < TWO32 }

  /** Then the pre-divider is the least that brings the clock within the divider's
      twelve bits, and it is found exactly when there is one of at most 256. */
  lemma NarrowPre(baud: U32, sclk: U32)
    requires baud != 0 && Narrow(baud, sclk)
    ensures Pre(baud, sclk).Some? <==> 0 < sclk <= MAX_DIV * baud * MAX_PRE
    ensures forall d: nat :: Pre(baud, sclk) == Some(d) ==> IsLeast(baud, sclk, d)
  {
    var cap := MAX_DIV * baud;
    CapNotZero(baud);
    NarrowNum(cap, sclk);
    var d := (sclk + cap - 1) / cap;
    RoundedUp(sclk, cap, d, 0);
    RoundedUp(sclk, cap, d, MAX_PRE);
    RoundedUp(sclk, cap, d, d);
    forall e: nat | e < d ensures sclk > cap * e {
      RoundedUp(sclk, cap, d, e);
    }
  }

  /** The clock divided by d fits the divider, and divided by less it does not. */
  ghost predicate IsLeast(baud: U32, sclk: U32, d: nat) {
    && sclk <= MAX_DIV * baud * d
    && forall e: nat :: e < d ==> sclk > MAX_DIV * baud * e
  }

  lemma NarrowNum(cap: nat, sclk: U32)
    requires 0 < cap < TWO32 && cap + sclk - 1 < TWO32
    ensures Trunc(cap) == cap && Sum(cap, sclk) == sclk + cap - 1
  {}

  lemma RoundedUp(n: nat, m: nat, d: nat, e: nat)
    requires m > 0 && d == (n + m - 1) / m
    ensures d <= e <==> n <= m * e
  {
    Quotient(n + m - 1, m);
    assert m * (d - 1) == d * m - m;
    if d <= e {
      Monotone(m, d, e);
    } else {
      Monotone(m, e, d - 1);
    }
  }

  lemma Monotone(m: nat, a: int, b: int)
    requires a <= b
    ensures m * a <= m * b
  {}

  /** For every input: the clock is within the divider's reach of the 32-bit
      product, because rounding up stopped at the first multiple that reaches it. */
  lemma ClockWithinReach(baud: U32, sclk: U32, d: nat)
    requires Pre(baud, sclk) == Some(d)
    ensures sclk <= MAX_DIV * Trunc(baud * d)
  {
    hide Trunc, Cap, Sum;
    PreFits(baud, sclk, d);
    CapNotZero(baud);
    var num := Sum(Cap(baud), sclk);
    Quotient(num, Cap(baud));
    NumIs(Cap(baud), sclk);
    assert (d + 1) * Cap(baud) == d * Cap(baud) + Cap(baud);
    Monotone(Cap(baud), 1, d);
    ProductResidue(baud, d);
  }

  lemma NumIs(cap: U32, sclk: U32)
    requires cap > 0
    ensures Sum(cap, sclk) < cap || Sum(cap, sclk) == sclk + cap - 1
  {}

  /** d times the cap is at most 4095 times the wrapped product. */
  lemma ProductResidue(baud: U32, d: nat)
    requires d * Cap(baud) < TWO32
    ensures d * Cap(baud) <= MAX_DIV * Trunc(baud * d)
  {
    var k := baud * d / TWO32;
    var c := MAX_DIV * baud / TWO32;
    var y := Trunc(baud * d);
    assert baud * d == y + TWO32 * k && MAX_DIV * baud == Cap(baud) + TWO32 * c;
    assert d * Cap(baud) == MAX_DIV * y + TWO32 * (MAX_DIV * k - d * c) by {
      assert d * (MAX_DIV * baud) == d * Cap(baud) + d * (TWO32 * c);
      assert d * (MAX_DIV * baud) == MAX_DIV * (baud * d);
      assert MAX_DIV * (baud * d) == MAX_DIV * y + MAX_DIV * (TWO32 * k);
      assert d * (TWO32 * c) == TWO32 * (d * c);
      assert MAX_DIV * (TWO32 * k) == TWO32 * (MAX_DIV * k);
    }
    LessThanOne(d * Cap(baud), MAX_DIV * y, MAX_DIV * k - d * c);
  }

  lemma LessThanOne(a: nat, b: nat, m: int)
    requires a == b + TWO32 * m && a < TWO32
    ensures a <= b
  {
    assert m >= 1 ==> TWO32 * m >= TWO32;
  }

  /** For every input the divider is the exact quotient, and the test for one of
      more than twelve bits can never fail. */
  lemma DivIsExact(baud: U32, sclk: U32, d: nat)
    requires Pre(baud, sclk) == Some(d)
    ensures var y := Trunc(baud * d); var q := Div(baud, sclk, d);
            q * y <= 16 * sclk < (q + 1) * y && q / 16 <= MAX_DIV
  {
    hide Pre, Cap, Trunc;
    PreFits(baud, sclk, d);
    ClockWithinReach(baud, sclk, d);
    var y := Trunc(baud * d);
    Quotient(16 * sclk, y);
    SmallQuotient(16 * sclk / y, y, sclk);
  }

  lemma SmallQuotient(q: nat, x: nat, sclk: U32)
    requires 0 < x && q * x <= 16 * sclk && sclk <= MAX_DIV * x
    ensures q <= 16 * MAX_DIV && Trunc(q) == q
  {
    if q > 16 * MAX_DIV {
      Monotone(x, 16 * MAX_DIV + 1, q);
    }
  }

  /** A divider is programmed, not zero, and brackets the wanted rate. */
  predicate RightRate(baud: U32, sclk: U32, d: nat, div: nat) {
    div >= 1 && Brackets(baud, sclk, d, div)
  }

  /** Whenever a divider is programmed: it is at least 1 exactly when sixteen clocks
      reach the 32-bit product, it brackets the rate exactly when the product does not
      wrap or they fall short of it, and it is right exactly when the product does not
      wrap and they reach it. */
  lemma RateIffProductFits(baud: U32, sclk: U32, d: nat)
    requires Pre(baud, sclk) == Some(d)
    ensures Div(baud, sclk, d) >= 1 <==> Trunc(baud * d) <= 16 * sclk
    ensures Brackets(baud, sclk, d, Div(baud, sclk, d)) <==> baud * d < TWO32 || 16 * sclk < Trunc(baud * d)
    ensures RightRate(baud, sclk, d, Div(baud, sclk, d)) <==> baud * d < TWO32 && baud * d <= 16 * sclk
  {
    hide Pre, Div, Trunc;
    DivIsExact(baud, sclk, d);
    var x, q := baud * d, Div(baud, sclk, d);
    var y := Trunc(x);
    TruncIs(x);
    assert x * q == q * x && x * (q + 1) == (q + 1) * x;
    ZeroQuotient(q, y, sclk);
    if x >= TWO32 {
      assert (q + 1) * y == q * y + y;
      TooFast(x, y, q, sclk);
    }
  }

  lemma ZeroQuotient(q: nat, y: nat, sclk: U32)
    requires q * y <= 16 * sclk < (q + 1) * y
    ensures q >= 1 <==> y <= 16 * sclk
  {
    if q >= 1 {
      Monotone(y, 1, q);
    }
  }

  lemma TruncIs(x: nat)
    ensures if x < TWO32 then Trunc(x) == x else x >= Trunc(x) + TWO32
  {
    assert x == Trunc(x) + TWO32 * (x / TWO32);
  }

  lemma TooFast(x: nat, y: nat, q: nat, sclk: U32)
    requires y < TWO32 && x >= y + TWO32 && 16 * sclk < q * y + y
    ensures q == 0 ==> 16 * sclk < x
    ensures q > 0 ==> x * q > 16 * sclk
  {
    if q > 0 {
      Monotone(q, y + TWO32, x);
      assert q * (y + TWO32) == q * y + TWO32 * q;
      assert q * x == x * q;
    }
  }

  /** In particular it brackets the rate throughout the narrow range, and is right
      there exactly when sixteen clocks reach the product. */
  lemma NarrowRate(baud: U32, sclk: U32, d: nat)
    requires Narrow(baud, sclk) && Pre(baud, sclk) == Some(d)
    ensures Brackets(baud, sclk, d, Div(baud, sclk, d))
    ensures RightRate(baud, sclk, d, Div(baud, sclk, d)) <==> baud * d <= 16 * sclk
  {
    hide Pre, Div, Brackets, Trunc;
    PreFits(baud, sclk, d);
    NarrowPre(baud, sclk);
    NarrowProduct(baud, sclk, d);
    RateIffProductFits(baud, sclk, d);
  }

  lemma NarrowProduct(baud: U32, sclk: U32, d: nat)
    requires Narrow(baud, sclk) && IsLeast(baud, sclk, d)
    ensures baud * d < TWO32
  {
    if d > 0 {
      var e: nat := d - 1;
      assert sclk > MAX_DIV * baud * e;
      assert MAX_DIV * baud * e == MAX_DIV * (baud * d) - MAX_DIV * baud;
    }
  }

  /** The console's own setting is outside the narrow range, and right all the same:
      40 MHz and 4 Mbaud give pre-divider 1 and 160 sixteenths. */
  lemma ConsoleSetting()
    ensures !Narrow(4_000_000, 40_000_000)
    ensures Pre(4_000_000, 40_000_000) == Some(1) && Div(4_000_000, 40_000_000, 1) == 160
    ensures RightRate(4_000_000, 40_000_000, 1, 160)
  {}

  /** The exception is real: 3 GHz of clock for 3 * 2^30 baud is accepted, with a
      product that wraps. */
  lemma WrappedRate()
    ensures Pre(0xC000_0000, 3_000_000_000) == Some(3)
    ensures !Brackets(0xC000_0000, 3_000_000_000, 3, Div(0xC000_0000, 3_000_000_000, 3))
  {}

  /** Nor is a zero divider ruled out: 1 kHz of clock for 1 Mbaud is accepted, without
      anything wrapping, and programs 0. */
  lemma ZeroDivider()
    ensures Narrow(1_000_000, 1000)
    ensures Pre(1_000_000, 1000) == Some(1) && Div(1_000_000, 1000, 1) == 0
    ensures !RightRate(1_000_000, 1000, 1, 0)
  {}
}
