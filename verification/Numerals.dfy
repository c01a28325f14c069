/** The numbers a text shows, as a person reads them, and that strtol and its relatives
    read just these: the status, the announced length and the chunk sizes of
    board/hget/hget.c. */
module Numerals {
  import opened Words
  import opened CText

  predicate IsDigit(c: Byte) { 48 <= c <= 57 }

  /** A decimal number, most significant digit first. */
  function Value(d: seq<Byte>): nat
    requires forall i :: 0 <= i < |d| ==> IsDigit(d[i])
  {
    if d == [] then 0
    else
      assert IsDigit(d[|d| - 1]);
      10 * Value(d[..|d| - 1]) + (d[|d| - 1] as int - 48)
  }

  /** t is white space up to i, a sign or none up to j, digits up to k and then
      something else. */
  predicate NumberIn(t: seq<Byte>, i: nat, j: nat, k: nat) {
    && i <= j <= k <= |t| && j <= i + 1
    && (forall x :: 0 <= x < i ==> t[x] == 32 || 9 <= t[x] <= 13)
    && (j == i + 1 ==> t[i] == 43 || t[i] == 45)
    && (j == i < |t| ==> t[i] != 43 && t[i] != 45 && t[i] != 32 && !(9 <= t[i] <= 13))
    && (forall x :: j <= x < k ==> IsDigit(t[x]))
    && (k < |t| ==> !IsDigit(t[k]))
  }

  function Held(negative: bool, v: nat, max: nat): int {
    if negative then (if v > max + 1 then -1 - max else 0 - v) else if v > max then max else v
  }

  /** The number at the front of t, held in a signed integer that goes up to max; a
      text without one reads as 0. */
  ghost predicate Shows(t: seq<Byte>, max: nat, n: int) {
    exists i: nat, j: nat, k: nat :: NumberIn(t, i, j, k) && n == Held(t[i..j] == [45], Value(t[j..k]), max)
  }

  predicate HexDigit(c: Byte) { 48 <= c <= 57 || 65 <= c <= 70 || 97 <= c <= 102 }

  predicate IsHex(t: seq<Byte>) { forall i :: 0 <= i < |t| ==> HexDigit(t[i]) }

  /** A hexadecimal number, most significant digit first, in either letter case. */
  function HexValue(t: seq<Byte>): nat
    requires IsHex(t)
  {
    if t == [] then 0
    else
      var c: int := t[|t| - 1];
      assert HexDigit(t[|t| - 1]);
      16 * HexValue(t[..|t| - 1]) + (if c <= 57 then c - 48 else if c <= 70 then c - 55 else c - 87)
  }

  /** As NumberIn, in hexadecimal: digits from p on, behind a 0x if digits follow it. */
  predicate HexIn(t: seq<Byte>, i: nat, j: nat, p: nat, k: nat) {
    && i <= j <= p <= k <= |t| && j <= i + 1
    && (forall x :: 0 <= x < i ==> t[x] == 32 || 9 <= t[x] <= 13)
    && (j == i + 1 ==> t[i] == 43 || t[i] == 45)
    && (j == i < |t| ==> t[i] != 43 && t[i] != 45 && t[i] != 32 && !(9 <= t[i] <= 13))
    && p == (if j + 2 < |t| && t[j] == 48 && (t[j + 1] == 88 || t[j + 1] == 120) && HexDigit(t[j + 2]) then j + 2 else j)
    && IsHex(t[p..k])
    && (k < |t| ==> !HexDigit(t[k]))
  }

  /** The hexadecimal number at the front of t, held in a signed integer. */
  ghost predicate ShowsHex(t: seq<Byte>, max: nat, n: int) {
    exists i: nat, j: nat, p: nat, k: nat ::
      HexIn(t, i, j, p, k) && n == Held(t[i..j] == [45], HexValue(t[p..k]), max)
  }

  // ------------------------------------------------------------ the client's reading

  lemma {:induction false} SkipTo(t: seq<Byte>, i: nat)
    requires i <= |t| && (i < |t| ==> t[i] != 32 && !(9 <= t[i] <= 13))
    requires forall x :: 0 <= x < i ==> t[x] == 32 || 9 <= t[x] <= 13
    ensures SkipSpace(t) == t[i..]
  {
    if i > 0 {
      SkipTo(t[1..], i - 1);
      assert t[1..][i - 1..] == t[i..];
    }
  }

  lemma {:induction false} DigitsJoin(a: seq<Byte>, b: seq<Byte>, acc: nat)
    requires forall x :: 0 <= x < |a| ==> IsDigit(a[x])
    ensures Digits(a + b, 10, acc) == Digits(b, 10, Digits(a, 10, acc))
  {
    if a == [] {
      assert a + b == b;
    } else {
      assert (a + b)[1..] == a[1..] + b;
      var scaled: nat := acc * 10;
      DigitsJoin(a[1..], b, scaled + DigitOf(a[0], 10));
    }
  }

  /** The client's running sum is the positional value. */
  lemma {:induction false} DigitsValue(d: seq<Byte>)
    requires forall x :: 0 <= x < |d| ==> IsDigit(d[x])
    ensures Digits(d, 10, 0) == Value(d)
  {
    if d != [] {
      var front, last := d[..|d| - 1], [d[|d| - 1]];
      assert d == front + last;
      DigitsJoin(front, last, 0);
      DigitsValue(front);
      var v: nat := Value(front);
      var scaled: nat := v * 10;
      assert last[1..] == [];
      assert Digits(last, 10, v) == scaled + DigitOf(last[0], 10);
    }
  }

  lemma ShownIs(t: seq<Byte>, max: nat, i: nat, j: nat, k: nat)
    requires NumberIn(t, i, j, k)
    ensures Strto(t, 10, max) == Held(t[i..j] == [45], Value(t[j..k]), max)
  {
    hide Digits, SkipSpace, Value;
    SkipTo(t, i);
    var u := t[i..];
    assert j == i + 1 ==> u[1..] == t[j..] && t[i..j] == [t[i]];
    assert t[j..] == t[j..k] + t[k..];
    DigitsStop(t[j..k], t[k..], 10, 0);
    DigitsValue(t[j..k]);
  }

  lemma {:induction false} SpaceRun(t: seq<Byte>) returns (i: nat)
    ensures i <= |t| && (i < |t| ==> t[i] != 32 && !(9 <= t[i] <= 13))
    ensures forall x :: 0 <= x < i ==> t[x] == 32 || 9 <= t[x] <= 13
  {
    i := 0;
    if t != [] && (t[0] == 32 || 9 <= t[0] <= 13) {
      i := SpaceRun(t[1..]);
      i := i + 1;
      assert forall x :: 1 <= x < i ==> t[x] == t[1..][x - 1];
    }
  }

  lemma {:induction false} DigitRun(t: seq<Byte>, j: nat) returns (k: nat)
    requires j <= |t|
    ensures j <= k <= |t| && (k < |t| ==> !IsDigit(t[k]))
    ensures forall x :: j <= x < k ==> IsDigit(t[x])
    decreases |t| - j
  {
    k := j;
    if j < |t| && IsDigit(t[j]) {
      k := DigitRun(t, j + 1);
    }
  }

  /** strtol and its relatives read the number that is shown, and every text shows
      one. */
  lemma ShowsIff(t: seq<Byte>, max: nat, n: int)
    ensures Shows(t, max, n) <==> Strto(t, 10, max) == n
  {
    hide Strto, Value;
    var i := SpaceRun(t);
    var j := if i < |t| && (t[i] == 43 || t[i] == 45) then i + 1 else i;
    var k := DigitRun(t, j);
    assert NumberIn(t, i, j, k);
    ShownIs(t, max, i, j, k);
    if Shows(t, max, n) {
      var a: nat, b: nat, c: nat :| NumberIn(t, a, b, c) && n == Held(t[a..b] == [45], Value(t[b..c]), max);
      ShownIs(t, max, a, b, c);
    }
  }

  lemma {:induction false} DigitsAppend(a: seq<Byte>, b: seq<Byte>, acc: nat)
    requires IsHex(a)
    ensures Digits(a + b, 16, acc) == Digits(b, 16, Digits(a, 16, acc))
  {
    if a == [] {
      assert a + b == b;
    } else {
      assert (a + b)[1..] == a[1..] + b;
      var scaled: nat := acc * 16;
      DigitsAppend(a[1..], b, scaled + DigitOf(a[0], 16));
    }
  }

  /** The client's running sum is the positional value. */
  lemma {:induction false} HexDigits(t: seq<Byte>)
    requires IsHex(t)
    ensures Digits(t, 16, 0) == HexValue(t)
  {
    if t != [] {
      var front, last := t[..|t| - 1], [t[|t| - 1]];
      assert t == front + last;
      DigitsAppend(front, last, 0);
      HexDigits(front);
      var v: nat := HexValue(front);
      var scaled: nat := v * 16;
      assert HexDigit(t[|t| - 1]) && last[1..] == [];
      assert Digits(last, 16, v) == scaled + DigitOf(last[0], 16);
    }
  }

  lemma HexShownIs(t: seq<Byte>, max: nat, i: nat, j: nat, p: nat, k: nat)
    requires HexIn(t, i, j, p, k)
    ensures Strto(t, 16, max) == Held(t[i..j] == [45], HexValue(t[p..k]), max)
  {
    hide Digits, SkipSpace, HexValue, Magnitude;
    SkipTo(t, i);
    var u := t[i..];
    assert j == i + 1 ==> u[1..] == t[j..] && t[i..j] == [t[i]];
    var v := t[j..];
    assert v[p - j..k - j] == t[p..k];
    assert forall x :: 0 <= x < |v| ==> v[x] == t[j + x];
    HexMagnitude(v, p - j, k - j);
  }

  lemma HexMagnitude(u: seq<Byte>, p: nat, k: nat)
    requires p <= k <= |u| && IsHex(u[p..k]) && (k < |u| ==> !HexDigit(u[k]))
    requires p == if 2 < |u| && u[0] == 48 && (u[1] == 88 || u[1] == 120) && HexDigit(u[2]) then 2 else 0
    ensures Magnitude(u, 16) == HexValue(u[p..k])
  {
    hide Digits, HexValue;
    assert u[p..] == u[p..k] + u[k..];
    DigitsStop(u[p..k], u[k..], 16, 0);
    HexDigits(u[p..k]);
  }

  lemma {:induction false} HexRun(t: seq<Byte>, p: nat) returns (k: nat)
    requires p <= |t|
    ensures p <= k <= |t| && (k < |t| ==> !HexDigit(t[k])) && IsHex(t[p..k])
    decreases |t| - p
  {
    k := p;
    if p < |t| && HexDigit(t[p]) {
      k := HexRun(t, p + 1);
      assert t[p..k] == [t[p]] + t[p + 1..k];
    }
  }

  lemma ShowsHexIff(t: seq<Byte>, max: nat, n: int)
    ensures ShowsHex(t, max, n) <==> Strto(t, 16, max) == n
  {
    hide Strto, HexValue;
    var i := SpaceRun(t);
    var j := if i < |t| && (t[i] == 43 || t[i] == 45) then i + 1 else i;
    var p := if j + 2 < |t| && t[j] == 48 && (t[j + 1] == 88 || t[j + 1] == 120) && HexDigit(t[j + 2]) then j + 2 else j;
    var k := HexRun(t, p);
    assert HexIn(t, i, j, p, k);
    HexShownIs(t, max, i, j, p, k);
    if ShowsHex(t, max, n) {
      var a: nat, b: nat, q: nat, c: nat :|
        HexIn(t, a, b, q, c) && n == Held(t[a..b] == [45], HexValue(t[q..c]), max);
      HexShownIs(t, max, a, b, q, c);
    }
  }
}
