/** The C string functions board/hget/hget.c parses a response with, on byte
    sequences. */
module CText {
  import opened Words

  const CR: Byte := 13
  const LF: Byte := 10
  const CRLF: seq<Byte> := [CR, LF]

  /** The bytes of a plain string. */
  function Ascii(s: string): (b: seq<Byte>)
    requires forall i :: 0 <= i < |s| ==> s[i] < 128 as char
    ensures |b| == |s| && forall i :: 0 <= i < |s| ==> b[i] == s[i] as int
  {
    seq(|s|, i requires 0 <= i < |s| => s[i] as int)
  }

  predicate IsSpace(c: Byte) { c == 32 || 9 <= c <= 13 }

  predicate IsBlank(c: Byte) { c == 32 || c == 9 }

  function SkipSpace(t: seq<Byte>): seq<Byte> {
    if t != [] && IsSpace(t[0]) then SkipSpace(t[1..]) else t
  }

  /** skip_ws() of the client. */
  function SkipBlank(t: seq<Byte>): seq<Byte> {
    if t != [] && IsBlank(t[0]) then SkipBlank(t[1..]) else t
  }

  /** The value of a digit in this base, or -1. */
  function DigitOf(c: Byte, base: int): int {
    var d := if 48 <= c <= 57 then c - 48
             else if 97 <= c <= 102 then c - 87
             else if 65 <= c <= 70 then c - 55
             else -1;
    if d < base then d else -1
  }

  function Digits(t: seq<Byte>, base: nat, acc: nat): nat {
    if t == [] || DigitOf(t[0], base) < 0 then acc
    else
      var scaled: nat := acc * base;
      Digits(t[1..], base, scaled + DigitOf(t[0], base))
  }

  /** The part of a number after spaces, sign and any 0x. */
  function Magnitude(u: seq<Byte>, base: nat): nat {
    var d := if base == 16 && |u| >= 3 && u[0] == 48 && u[1] in {88, 120} && DigitOf(u[2], 16) >= 0
             then u[2..] else u;
    Digits(d, base, 0)
  }

  /** strtol and its relatives: out-of-range values saturate at the type's ends. */
  function Strto(t: seq<Byte>, base: nat, max: nat): int {
    var u := SkipSpace(t);
    if u != [] && u[0] == 45 then
      var v := Magnitude(u[1..], base);
      if v > max + 1 then -1 - max else 0 - v
    else
      var v := Magnitude(if u != [] && u[0] == 43 then u[1..] else u, base);
      if v > max then max else v
  }

  const LONG_MAX: nat := 0x7fff_ffff
  const LLONG_MAX: nat := 0x7fff_ffff_ffff_ffff

  /** The string that starts at index i of a buffer: up to the first NUL. */
  function CString(b: seq<Byte>): (s: seq<Byte>)
    ensures s <= b && 0 !in s && (|s| < |b| ==> b[|s|] == 0)
  {
    if b == [] || b[0] == 0 then [] else
      var rest := CString(b[1..]);
      assert |rest| < |b[1..]| ==> b[1..][|rest|] == b[|rest| + 1];
      [b[0]] + rest
  }

  /** Where `pat` first occurs in s, or -1: memmem, strstr and strchr. */
  function Find(s: seq<Byte>, pat: seq<Byte>): (i: int)
    ensures -1 <= i <= |s|
    ensures i >= 0 ==> i + |pat| <= |s| && s[i..i + |pat|] == pat
  {
    if |pat| <= |s| && s[..|pat|] == pat then 0
    else if s == [] then -1
    else
      var r := Find(s[1..], pat);
      assert r >= 0 ==> s[1..][r..r + |pat|] == s[r + 1..r + 1 + |pat|];
      if r < 0 then -1 else r + 1
  }

  function Lower(c: Byte): Byte { if 65 <= c <= 90 then c + 32 else c }

  /** ci_prefix() against a NUL-free pattern; the string ends in a NUL that no
      pattern byte equals. */
  predicate CiPrefix(s: seq<Byte>, pat: seq<Byte>) {
    |pat| <= |s| && forall i :: 0 <= i < |pat| ==> Lower(s[i]) == Lower(pat[i])
  }

  /** part occurs somewhere in s. */
  ghost predicate Contains(s: seq<Byte>, part: seq<Byte>) {
    exists i :: 0 <= i <= |s| && part <= s[i..]
  }

  // -------------------------------------------------------------- properties

  /** The first occurrence: nothing earlier matches. */
  lemma {:induction false} FindFirst(s: seq<Byte>, pat: seq<Byte>, j: nat)
    requires j + |pat| <= |s| && s[j..j + |pat|] == pat
    ensures 0 <= Find(s, pat) <= j
  {
    if |pat| <= |s| && s[..|pat|] == pat {
    } else {
      assert j > 0;
      assert s[1..][j - 1..j - 1 + |pat|] == s[j..j + |pat|];
      FindFirst(s[1..], pat, j - 1);
    }
  }

  /** More input after a match does not move it. */
  lemma {:induction false} FindStable(s: seq<Byte>, t: seq<Byte>, pat: seq<Byte>)
    requires Find(s, pat) >= 0
    ensures Find(s + t, pat) == Find(s, pat)
  {
    if |pat| <= |s| && s[..|pat|] == pat {
      assert (s + t)[..|pat|] == s[..|pat|];
    } else {
      assert |pat| <= |s|;
      assert (s + t)[..|pat|] == s[..|pat|];
      FindStable(s[1..], t, pat);
      assert (s + t)[1..] == s[1..] + t;
    }
  }

  lemma {:induction false} CStringIs(b: seq<Byte>, n: nat)
    requires n <= |b| && 0 !in b[..n] && (n < |b| ==> b[n] == 0)
    ensures CString(b) == b[..n]
  {
    if n > 0 {
      assert b[0] in b[..n];
      assert b[1..][..n - 1] == b[..n][1..];
      CStringIs(b[1..], n - 1);
      assert b[..n] == [b[0]] + b[1..][..n - 1];
    }
  }

  /** A number ends at the first byte that is not a digit. */
  lemma {:induction false} DigitsStop(t: seq<Byte>, more: seq<Byte>, base: nat, acc: nat)
    requires more != [] ==> DigitOf(more[0], base) < 0
    ensures Digits(t + more, base, acc) == Digits(t, base, acc)
  {
    if t == [] {
      assert t + more == more;
    } else {
      assert (t + more)[1..] == t[1..] + more;
      if DigitOf(t[0], base) >= 0 {
        var scaled: nat := acc * base;
        DigitsStop(t[1..], more, base, scaled + DigitOf(t[0], base));
      }
    }
  }

  lemma {:induction false} SkipSpaceAppend(t: seq<Byte>, more: seq<Byte>)
    ensures SkipSpace(t) != [] ==> SkipSpace(t + more) == SkipSpace(t) + more
    ensures SkipSpace(t) == [] ==> SkipSpace(t + more) == SkipSpace(more)
  {
    if t == [] {
      assert t + more == more;
    } else {
      assert (t + more)[1..] == t[1..] + more;
      SkipSpaceAppend(t[1..], more);
    }
  }

  /** A decimal number that has begun is not changed by what follows a CR. */
  lemma DecimalStops(t: seq<Byte>, more: seq<Byte>, max: nat)
    requires SkipSpace(t) != [] && more != [] && more[0] == CR
    ensures Strto(t + more, 10, max) == Strto(t, 10, max)
  {
    hide Digits, SkipSpace;
    var u := SkipSpace(t);
    SkipSpaceAppend(t, more);
    assert (u + more)[1..] == u[1..] + more;
    DigitsStop(u, more, 10, 0);
    DigitsStop(u[1..], more, 10, 0);
  }

  lemma {:induction false} CStringAppend(a: seq<Byte>, b: seq<Byte>)
    ensures CString(a + b) == if |CString(a)| < |a| then CString(a) else a + CString(b)
  {
    if a == [] {
      assert a + b == b;
    } else {
      assert (a + b)[1..] == a[1..] + b;
      CStringAppend(a[1..], b);
    }
  }

  /** More digits make a number no smaller. */
  lemma {:induction false} DigitsMore(t: seq<Byte>, more: seq<Byte>, base: nat, acc: nat)
    requires base > 0
    ensures acc <= Digits(t, base, acc) <= Digits(t + more, base, acc)
  {
    if t == [] || DigitOf(t[0], base) < 0 {
      assert t == [] ==> t + more == more;
      DigitsLeast(t + more, base, acc);
    } else {
      assert (t + more)[1..] == t[1..] + more;
      var scaled: nat := acc * base;
      DigitsMore(t[1..], more, base, scaled + DigitOf(t[0], base));
      Scaled(acc, base);
    }
  }

  lemma {:induction false} DigitsLeast(t: seq<Byte>, base: nat, acc: nat)
    requires base > 0
    ensures acc <= Digits(t, base, acc)
  {
    if t != [] && DigitOf(t[0], base) >= 0 {
      var scaled: nat := acc * base;
      DigitsLeast(t[1..], base, scaled + DigitOf(t[0], base));
      Scaled(acc, base);
    }
  }

  lemma Scaled(acc: nat, base: nat)
    requires base > 0
    ensures acc <= acc * base
  {}

  /** A decimal number read from longer text moves away from zero, if it moves. */
  lemma StrtoMore(t: seq<Byte>, more: seq<Byte>, max: nat)
    ensures var a, b := Strto(t, 10, max), Strto(t + more, 10, max);
            if b >= 0 then a <= b else a <= 0
  {
    hide Digits, SkipSpace;
    SkipSpaceAppend(t, more);
    var u := SkipSpace(t);
    if u == [] {
      NoNumber(t, max);
    } else {
      assert (u + more)[1..] == u[1..] + more;
      DigitsMore(u, more, 10, 0);
      DigitsMore(u[1..], more, 10, 0);
    }
  }

  lemma NoNumber(t: seq<Byte>, max: nat)
    requires SkipSpace(t) == []
    ensures Strto(t, 10, max) == 0
  {}

  lemma FindMeans(s: seq<Byte>, part: seq<Byte>)
    ensures Find(s, part) >= 0 <==> Contains(s, part)
  {
    if i :| 0 <= i <= |s| && part <= s[i..] {
      assert s[i..i + |part|] == part;
      FindFirst(s, part, i);
    }
    var i := Find(s, part);
    if i >= 0 {
      assert s[i..][..|part|] == s[i..i + |part|];
      assert part <= s[i..];
    }
  }
}
