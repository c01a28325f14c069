/** Which addresses tcp_connect() of board/hget/hget.c tries: the two families in
    turn, so that a cap on their number never shuts one family out (section 4 of
    RFC 8305). */
module Candidates {

  const MAX_ADDRS: nat := 8

  datatype Addr = Addr(v6: bool, id: int)

  function OfFamily(s: seq<Addr>, family: bool): seq<Addr> {
    if s == [] then [] else
      var n := |s| - 1;
      OfFamily(s[..n], family) + (if s[n].v6 == family then [s[n]] else [])
  }

  function Cap(s: seq<Addr>): seq<Addr> { if MAX_ADDRS < |s| then s[..MAX_ADDRS] else s }

  function Slot(s: seq<Addr>, n: nat): seq<Addr> { if n < |s| then [s[n]] else [] }

  /** The first `slots` entries of each list, taken in turn. */
  function Alternate(a: seq<Addr>, b: seq<Addr>, slots: nat): seq<Addr> {
    if slots == 0 then [] else Alternate(a, b, slots - 1) + Slot(a, slots - 1) + Slot(b, slots - 1)
  }

  function Selection(res: seq<Addr>): seq<Addr> {
    Cap(Alternate(Cap(OfFamily(res, true)), Cap(OfFamily(res, false)), MAX_ADDRS))
  }

  method Select(res: seq<Addr>) returns (sel: seq<Addr>)
    ensures sel == Selection(res)
  {
    var fam6, fam4 := SplitFamilies(res);
    sel := [];
    var slot := 0;
    while slot < MAX_ADDRS && |sel| < MAX_ADDRS
      invariant 0 <= slot <= MAX_ADDRS
      invariant sel == Cap(Alternate(fam6, fam4, slot))
    {
      if slot < |fam6| {
        sel := sel + [fam6[slot]];
      }
      if |sel| < MAX_ADDRS && slot < |fam4| {
        sel := sel + [fam4[slot]];
      }
      slot := slot + 1;
    }
    FullStaysFull(fam6, fam4, slot);
  }

  method SplitFamilies(res: seq<Addr>) returns (fam6: seq<Addr>, fam4: seq<Addr>)
    ensures fam6 == Cap(OfFamily(res, true)) && fam4 == Cap(OfFamily(res, false))
  {
    fam6, fam4 := [], [];
    var ai := 0;
    while ai < |res|
      invariant 0 <= ai <= |res|
      invariant fam6 == Cap(OfFamily(res[..ai], true)) && fam4 == Cap(OfFamily(res[..ai], false))
    {
      assert res[..ai + 1][..ai] == res[..ai];
      if res[ai].v6 {
        if |fam6| < MAX_ADDRS {
          fam6 := fam6 + [res[ai]];
        }
      } else if |fam4| < MAX_ADDRS {
        fam4 := fam4 + [res[ai]];
      }
      ai := ai + 1;
    }
    assert res[..ai] == res;
  }

  lemma {:induction false} AlternatePrefix(a: seq<Addr>, b: seq<Addr>, n: nat, m: nat)
    requires n <= m
    ensures Alternate(a, b, n) <= Alternate(a, b, m)
  {
    if n < m {
      AlternatePrefix(a, b, n, m - 1);
    }
  }

  lemma FullStaysFull(a: seq<Addr>, b: seq<Addr>, slot: nat)
    requires slot <= MAX_ADDRS && (|Cap(Alternate(a, b, slot))| == MAX_ADDRS || slot == MAX_ADDRS)
    ensures Cap(Alternate(a, b, slot)) == Cap(Alternate(a, b, MAX_ADDRS))
  {
    AlternatePrefix(a, b, slot, MAX_ADDRS);
  }

  // ---------------------------------------------------------------- fairness

  lemma {:induction false} FilterAppend(s: seq<Addr>, t: seq<Addr>, family: bool)
    ensures OfFamily(s + t, family) == OfFamily(s, family) + OfFamily(t, family)
  {
    if t == [] {
      assert s + t == s;
    } else {
      var n := |t| - 1;
      assert (s + t)[..|s + t| - 1] == s + t[..n];
      FilterAppend(s, t[..n], family);
    }
  }

  lemma {:induction false} FilterPure(s: seq<Addr>, family: bool)
    ensures forall x :: x in OfFamily(s, family) ==> x.v6 == family
  {
    if s != [] {
      FilterPure(s[..|s| - 1], family);
    }
  }

  lemma SlotFilter(s: seq<Addr>, n: nat, family: bool)
    requires forall x :: x in s ==> x.v6 == family
    ensures OfFamily(Slot(s, n), family) == Slot(s, n) && OfFamily(Slot(s, n), !family) == []
  {
    if n < |s| {
      assert s[n] in s;
      assert [s[n]][..0] == [];
    }
  }

  function Min(a: nat, b: nat): nat { if a < b then a else b }

  lemma {:induction false} AlternateFamilies(a: seq<Addr>, b: seq<Addr>, slots: nat)
    requires (forall x :: x in a ==> x.v6) && (forall x :: x in b ==> !x.v6)
    ensures OfFamily(Alternate(a, b, slots), true) == a[..Min(slots, |a|)]
    ensures OfFamily(Alternate(a, b, slots), false) == b[..Min(slots, |b|)]
    ensures |Alternate(a, b, slots)| == Min(slots, |a|) + Min(slots, |b|)
  {
    hide OfFamily;
    if slots == 0 {
      FilterNil();
    } else {
      var n := slots - 1;
      var s := Alternate(a, b, n);
      AlternateFamilies(a, b, n);
      SlotFilter(a, n, true);
      SlotFilter(b, n, false);
      FilterAppend(s + Slot(a, n), Slot(b, n), true);
      FilterAppend(s + Slot(a, n), Slot(b, n), false);
      FilterAppend(s, Slot(a, n), true);
      FilterAppend(s, Slot(a, n), false);
      NextSlot(a, n);
      NextSlot(b, n);
    }
  }

  lemma FilterNil()
    ensures OfFamily([], true) == [] && OfFamily([], false) == []
  {}

  lemma NextSlot(s: seq<Addr>, n: nat)
    ensures s[..Min(n, |s|)] + Slot(s, n) == s[..Min(n + 1, |s|)]
  {}

  lemma FilterPrefix(s: seq<Addr>, t: seq<Addr>, family: bool)
    requires s <= t
    ensures OfFamily(s, family) <= OfFamily(t, family)
  {
    assert t == s + t[|s|..];
    FilterAppend(s, t[|s|..], family);
  }

  /** For any list of answers: as many candidates as fit; each family in its own
      order, from its first answer on; and at least four of a family that has
      four, all of one that has fewer. */
  lemma SelectionIsFair(res: seq<Addr>)
    ensures var sel := Selection(res);
            var n6 := Min(|OfFamily(res, true)|, 8);
            var n4 := Min(|OfFamily(res, false)|, 8);
            && |sel| == Min(8, n6 + n4)
            && OfFamily(sel, true) <= OfFamily(res, true) && OfFamily(sel, false) <= OfFamily(res, false)
            && |OfFamily(sel, true)| >= Min(4, n6) && |OfFamily(sel, false)| >= Min(4, n4)
  {
    hide OfFamily, Alternate;
    FilterPure(res, true);
    FilterPure(res, false);
    var a, b := Cap(OfFamily(res, true)), Cap(OfFamily(res, false));
    AlternateFamilies(a, b, MAX_ADDRS);
    AlternateFamilies(a, b, 4);
    AlternatePrefix(a, b, 4, MAX_ADDRS);
    var sel := Selection(res);
    FilterPrefix(sel, Alternate(a, b, MAX_ADDRS), true);
    FilterPrefix(sel, Alternate(a, b, MAX_ADDRS), false);
    assert Alternate(a, b, 4) <= sel;
    FilterPrefix(Alternate(a, b, 4), sel, true);
    FilterPrefix(Alternate(a, b, 4), sel, false);
  }

  /** The families take turns, IPv6 first, until one of them runs out. */
  lemma FamiliesTakeTurns(res: seq<Addr>, k: nat)
    requires k < 4 && k < |OfFamily(res, true)| && k < |OfFamily(res, false)|
    ensures var sel := Selection(res);
            && 2 * k + 1 < |sel|
            && sel[2 * k] == OfFamily(res, true)[k] && sel[2 * k + 1] == OfFamily(res, false)[k]
  {
    hide OfFamily, Alternate;
    var a, b := Cap(OfFamily(res, true)), Cap(OfFamily(res, false));
    TakeTurns(a, b, k + 1, k);
    AlternatePrefix(a, b, k + 1, MAX_ADDRS);
  }

  lemma {:induction false} TakeTurns(a: seq<Addr>, b: seq<Addr>, slots: nat, k: nat)
    requires k < slots <= |a| && slots <= |b|
    ensures |Alternate(a, b, slots)| == 2 * slots
    ensures Alternate(a, b, slots)[2 * k] == a[k] && Alternate(a, b, slots)[2 * k + 1] == b[k]
  {
    if slots > 1 {
      TakeTurns(a, b, slots - 1, if k < slots - 1 then k else 0);
    }
  }
}
