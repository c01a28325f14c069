/** The address-in-address memory test of bootloader/p4/p4_psram.c, against a chip
    whose address lines may send any word to any cell. */
module PsramTest {
  const PSRAM_VADDR: nat := 0x4800_0000
  const MASK: nat := 0xA5A5_A5A5

  /** Bitwise exclusive or. */
  function Xor(a: nat, b: nat): nat
    decreases a + b
  {
    if a == 0 && b == 0 then 0 else (if a % 2 == b % 2 then 0 else 1) + 2 * Xor(a / 2, b / 2)
  }

  lemma XorStep(a: nat, b: nat)
    ensures Xor(a, b) == (if a % 2 == b % 2 then 0 else 1) + 2 * Xor(a / 2, b / 2)
  {}

  lemma {:induction false} XorUndone(a: nat, b: nat)
    ensures Xor(Xor(a, b), b) == a
    decreases a + b
  {
    if a != 0 || b != 0 {
      XorUndone(a / 2, b / 2);
      XorTwice(a, b, Xor(a, b));
    } else {
      assert Xor(0, 0) == 0;
    }
  }

  lemma XorTwice(a: nat, b: nat, x: nat)
    requires x == Xor(a, b) && Xor(Xor(a / 2, b / 2), b / 2) == a / 2
    ensures Xor(x, b) == a
  {
    hide Xor;
    XorStep(a, b);
    XorStep(x, b);
    assert x / 2 == Xor(a / 2, b / 2) && x % 2 == if a % 2 == b % 2 then 0 else 1;
  }

  /** Bit k of a number, least significant first. */
  function Bit(a: nat, k: nat): nat { if k == 0 then a % 2 else Bit(a / 2, k - 1) }

  lemma {:induction false} XorBits(a: nat, b: nat, k: nat)
    ensures Bit(Xor(a, b), k) == if Bit(a, k) == Bit(b, k) then 0 else 1
    decreases k
  {
    hide Xor;
    XorStep(a, b);
    if k > 0 {
      XorBits(a / 2, b / 2, k - 1);
      assert Xor(a, b) / 2 == Xor(a / 2, b / 2);
    }
  }

  function AddressOf(i: nat): nat { PSRAM_VADDR + 4 * i }

  function Pattern(i: nat): nat { Xor(AddressOf(i), MASK) }

  lemma PatternInjective(i: nat, j: nat)
    ensures Pattern(i) == Pattern(j) ==> i == j
  {
    XorUndone(AddressOf(i), MASK);
    XorUndone(AddressOf(j), MASK);
  }

  // -------------------------------------------------------------- what it finds

  /** Another word written later lands in the same cell. */
  ghost predicate Overwritten(decode: seq<nat>, i: nat)
    requires i < |decode|
  {
    exists j :: i < j < |decode| && decode[j] == decode[i]
  }

  ghost predicate Injective(decode: seq<nat>) {
    forall i, j :: 0 <= i < j < |decode| ==> decode[i] != decode[j]
  }

  /** The last of the first k words to land in cell c, or -1. */
  function Last(decode: seq<nat>, k: nat, c: nat): int
    requires k <= |decode|
  {
    if k == 0 then -1 else if decode[k - 1] == c then k - 1 else Last(decode, k - 1, c)
  }

  lemma {:induction false} LastIs(decode: seq<nat>, k: nat, i: nat)
    requires i < k <= |decode|
    ensures i <= Last(decode, k, decode[i]) < k
    ensures decode[Last(decode, k, decode[i])] == decode[i]
    ensures forall j :: Last(decode, k, decode[i]) < j < k ==> decode[j] != decode[i]
  {
    if i < k - 1 {
      if decode[k - 1] != decode[i] {
        LastIs(decode, k - 1, i);
      }
    }
  }

  lemma OverwrittenIsLater(decode: seq<nat>, i: nat)
    requires i < |decode|
    ensures Overwritten(decode, i) <==> Last(decode, |decode|, decode[i]) != i
  {
    LastIs(decode, |decode|, i);
  }

  /** How many of the first k words are overwritten. */
  ghost function Losses(decode: seq<nat>, k: nat): nat
    requires k <= |decode|
  {
    if k == 0 then 0 else Losses(decode, k - 1) + if Overwritten(decode, k - 1) then 1 else 0
  }

  class Ram {
    const decode: seq<nat>      // which cell each word of the window reaches
    const cells: array<nat>

    constructor (d: seq<nat>, size: nat)
      requires forall i :: 0 <= i < |d| ==> d[i] < size
      ensures decode == d && fresh(cells) && cells.Length == size
    {
      decode := d;
      cells := new nat[size];
    }

    ghost predicate Valid()
      reads this
    {
      forall i :: 0 <= i < |decode| ==> decode[i] < cells.Length
    }

    /** The first loop: every word gets its own address. */
    method WriteAll()
      requires Valid()
      modifies cells
      ensures forall i :: 0 <= i < |decode| ==>
        0 <= Last(decode, |decode|, decode[i])
        && cells[decode[i]] == Xor(0x4800_0000 + 4 * Last(decode, |decode|, decode[i]), 0xA5A5_A5A5)
    {
      hide Xor;
      var i := 0;
      while i < |decode|
        invariant 0 <= i <= |decode|
        invariant forall j :: 0 <= j < i ==>
          0 <= Last(decode, i, decode[j]) && cells[decode[j]] == Pattern(Last(decode, i, decode[j]))
      {
        cells[decode[i]] := Pattern(i);
        i := i + 1;
      }
    }

    /** p4_psram_test() over the words of the window. It passes exactly when no two
        words share a cell; otherwise it names the lowest word that was lost and
        counts all of them. */
    method Test() returns (ok: bool, badAddr: nat, badCount: nat)
      requires Valid()
      modifies cells
      ensures ok <==> Injective(decode)
      ensures badCount == Losses(decode, |decode|)
      ensures ok ==> badAddr == 0
      ensures !ok ==> exists i :: 0 <= i < |decode| && badAddr == 0x4800_0000 + 4 * i && Overwritten(decode, i)
                                && forall j :: 0 <= j < i ==> !Overwritten(decode, j)
    {
      hide Xor, Overwritten;
      badAddr, badCount := 0, 0;
      WriteAll();
      ghost var left := cells[..];
      ghost var first: nat := 0;
      var i := 0;
      while i < |decode|
        invariant 0 <= i <= |decode| && badCount == Losses(decode, i) && cells[..] == left
        invariant badCount == 0 ==> badAddr == 0 && forall j :: 0 <= j < i ==> !Overwritten(decode, j)
        invariant badCount > 0 ==> first < i && badAddr == AddressOf(first) && Overwritten(decode, first)
                                   && forall j :: 0 <= j < first ==> !Overwritten(decode, j)
      {
        var wrote := Pattern(i);
        var got := cells[decode[i]];
        assert got == left[decode[i]] == Pattern(Last(decode, |decode|, decode[i]));
        OverwrittenIsLater(decode, i);
        PatternInjective(i, Last(decode, |decode|, decode[i]));
        if got != wrote {
          if badCount == 0 {
            badAddr := AddressOf(i);
            first := i;
          }
          badCount := badCount + 1;
        }
        i := i + 1;
      }
      NoLoss(decode);
      ok := badCount == 0;
    }
  }

  lemma NoLoss(decode: seq<nat>)
    ensures Injective(decode) <==> forall i :: 0 <= i < |decode| ==> !Overwritten(decode, i)
  {
    if forall i :: 0 <= i < |decode| ==> !Overwritten(decode, i) {
      forall i, j | 0 <= i < j < |decode| ensures decode[i] != decode[j] {
        assert !Overwritten(decode, i);
      }
    }
  }
}
