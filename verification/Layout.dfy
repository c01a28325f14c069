/** Where board/mkflt.lua puts each section in the image: two passes over the section
    table, one for stored contents and one for the sections that are only zeroes. */
module Layout {
  import opened Words
  import opened Encoders

  const SHT_PROGBITS := 1
  const SHT_SYMTAB := 2
  const SHT_RELA := 4
  const SHT_NOBITS := 8
  const SHT_REL := 9

  /** One relocation entry as its three raw words; a REL entry has no addend. */
  datatype RelEntry = RelEntry(offset: U32, info: U32, addend: U32)

  /** A section header, the bytes objcopy extracts for it, and, for a relocation
      section, its entries. */
  datatype Section = Section(
    typ: int, flags: nat, size: nat, align: nat, info: nat,
    bytes: seq<Byte>, entries: seq<RelEntry>)

  predicate Nobits(s: Section) { s.typ == SHT_NOBITS }

  /** SHF_ALLOC is bit 1 of the flags. */
  predicate Allocated(s: Section) { s.flags / 2 % 2 == 1 && s.size > 0 }

  function AlignUp(n: nat, a: nat): nat {
    if a > 1 then (n + a - 1) / a * a else n
  }

  datatype Map = Map(base: map<int, int>, len: nat)

  function PlaceOne(secs: seq<Section>, n: nat, nobits: bool, m: Map): Map
    requires n < |secs|
  {
    if Allocated(secs[n]) && Nobits(secs[n]) == nobits then
      var at := AlignUp(m.len, secs[n].align);
      Map(m.base[n := at], at + secs[n].size)
    else m
  }

  function PlaceFirst(secs: seq<Section>, n: nat, nobits: bool, m: Map): Map
    requires n <= |secs|
  {
    if n == 0 then m else PlaceOne(secs, n - 1, nobits, PlaceFirst(secs, n - 1, nobits, m))
  }

  function Stored(secs: seq<Section>): Map { PlaceFirst(secs, |secs|, false, Map(map[], 0)) }

  function Full(secs: seq<Section>): Map { PlaceFirst(secs, |secs|, true, Stored(secs)) }

  /** The script's two tables, and place() as it updates them. */
  class Placer {
    var base: map<int, int>
    var imageLen: nat

    constructor ()
      ensures base == map[] && imageLen == 0
    {
      base, imageLen := map[], 0;
    }

    method Place(secs: seq<Section>, nobits: bool)
      modifies this
      ensures Map(base, imageLen) == PlaceFirst(secs, |secs|, nobits, Map(old(base), old(imageLen)))
    {
      var n := 0;
      while n < |secs|
        invariant 0 <= n <= |secs|
        invariant Map(base, imageLen) == PlaceFirst(secs, n, nobits, Map(old(base), old(imageLen)))
      {
        var s := secs[n];
        if Allocated(s) && Nobits(s) == nobits {
          if s.align > 1 {
            imageLen := (imageLen + s.align - 1) / s.align * s.align;
          }
          base := base[n := imageLen];
          imageLen := imageLen + s.size;
        }
        n := n + 1;
      }
    }
  }

  // --------------------------------------------------------------- properties

  lemma AlignUpIs(n: nat, a: nat)
    ensures n <= AlignUp(n, a) && (a > 1 ==> AlignUp(n, a) % a == 0 && AlignUp(n, a) < n + a)
  {
    if a > 1 {
      var q := (n + a - 1) / a;
      Remainder(n + a - 1, a);
      Multiple(q, a);
    }
  }

  lemma Remainder(n: nat, a: nat)
    requires a > 0
    ensures n - a < n / a * a <= n
  {}

  lemma Multiple(q: nat, a: nat)
    requires a > 0
    ensures q * a % a == 0
  {
    DivShift(0, a, q);
    assert a * q == q * a;
  }

  predicate Aligned(s: Section, at: int) { s.align > 1 ==> at % s.align == 0 }

  lemma NextPlace(len: nat, s: Section)
    ensures len <= AlignUp(len, s.align) && Aligned(s, AlignUp(len, s.align))
  {
    AlignUpIs(len, s.align);
  }

  /** Everything placed so far lies in [0, len), on its alignment. */
  ghost predicate Sound(secs: seq<Section>, m: Map) {
    forall i :: i in m.base ==>
      0 <= i < |secs| && Allocated(secs[i]) && Aligned(secs[i], m.base[i])
      && 0 <= m.base[i] && m.base[i] + secs[i].size <= m.len
  }

  ghost predicate Separate(secs: seq<Section>, m: Map)
    requires Sound(secs, m)
  {
    forall i, j :: i in m.base && j in m.base && i != j ==>
      m.base[i] + secs[i].size <= m.base[j] || m.base[j] + secs[j].size <= m.base[i]
  }

  /** The sections of one kind lie in the order of their indices. */
  ghost predicate InOrder(secs: seq<Section>, m: Map, nobits: bool)
    requires Sound(secs, m)
  {
    forall i, j :: i in m.base && j in m.base && i < j && Nobits(secs[i]) == Nobits(secs[j]) == nobits ==>
      m.base[i] + secs[i].size <= m.base[j]
  }

  lemma {:induction false} PassKeeps(secs: seq<Section>, n: nat, nobits: bool, m: Map)
    requires n <= |secs| && Sound(secs, m) && Separate(secs, m)
    requires forall i :: i in m.base ==> Nobits(secs[i]) != nobits
    ensures var p := PlaceFirst(secs, n, nobits, m);
            && m.len <= p.len && Sound(secs, p) && Separate(secs, p)
            && (forall i :: i in m.base ==> i in p.base && p.base[i] == m.base[i])
            && (forall i :: i in p.base && i !in m.base ==> 0 <= i < n && Nobits(secs[i]) == nobits && m.len <= p.base[i])
            && (forall i :: 0 <= i < n && Allocated(secs[i]) && Nobits(secs[i]) == nobits ==> i in p.base)
  {
    hide AlignUp, Aligned, Allocated, Nobits;
    if n > 0 {
      PassKeeps(secs, n - 1, nobits, m);
      NextPlace(PlaceFirst(secs, n - 1, nobits, m).len, secs[n - 1]);
    }
  }

  lemma {:induction false} PassOrder(secs: seq<Section>, n: nat, nobits: bool, m: Map)
    requires n <= |secs| && Sound(secs, m) && Separate(secs, m)
    requires forall i :: i in m.base ==> Nobits(secs[i]) != nobits
    ensures Sound(secs, PlaceFirst(secs, n, nobits, m)) && InOrder(secs, PlaceFirst(secs, n, nobits, m), nobits)
  {
    hide AlignUp, Aligned, Allocated, Nobits, Separate;
    PassKeeps(secs, n, nobits, m);
    if n > 0 {
      PassOrder(secs, n - 1, nobits, m);
      PassKeeps(secs, n - 1, nobits, m);
      NextPlace(PlaceFirst(secs, n - 1, nobits, m).len, secs[n - 1]);
    }
  }

  lemma OrderKept(secs: seq<Section>, m: Map, p: Map)
    requires Sound(secs, m) && Sound(secs, p) && InOrder(secs, m, false)
    requires forall i :: i in m.base ==> i in p.base && p.base[i] == m.base[i]
    requires forall i :: i in p.base && i !in m.base ==> Nobits(secs[i])
    ensures InOrder(secs, p, false)
  {
    hide Aligned, Allocated, Nobits;
  }

  /** For every section table: exactly the non-empty allocatable sections are
      placed; they lie in the image, on their alignment, apart from each other; each
      kind in the order of the table; and everything stored comes before everything
      that is only zeroes. */
  lemma LayoutSound(secs: seq<Section>)
    ensures var m := Full(secs); var stored := Stored(secs).len;
            && Sound(secs, m) && Separate(secs, m) && InOrder(secs, m, false) && InOrder(secs, m, true)
            && stored <= m.len
            && (forall i :: i in m.base <==> 0 <= i < |secs| && Allocated(secs[i]))
            && (forall i :: i in m.base && !Nobits(secs[i]) ==> m.base[i] + secs[i].size <= stored)
            && (forall i :: i in m.base && Nobits(secs[i]) ==> stored <= m.base[i])
  {
    hide PlaceFirst, Aligned, Allocated;
    var none := Map(map[], 0);
    PassKeeps(secs, |secs|, false, none);
    PassOrder(secs, |secs|, false, none);
    PassKeeps(secs, |secs|, true, Stored(secs));
    PassOrder(secs, |secs|, true, Stored(secs));
    OrderKept(secs, Stored(secs), Full(secs));
  }

  // --------------------------------------------------------------- no gaps

  /** q is the start of the image, or where some placed section ends. */
  ghost predicate IsEnd(secs: seq<Section>, base: map<int, int>, q: int) {
    q == 0 || exists j :: 0 <= j < |secs| && j in base && q == base[j] + secs[j].size
  }

  /** Section i begins as soon as its alignment lets it behind such an end. */
  ghost predicate Close(secs: seq<Section>, base: map<int, int>, i: int) {
    0 <= i < |secs| && i in base
    && exists q :: IsEnd(secs, base, q) && q <= base[i] < q + if secs[i].align > 1 then secs[i].align else 1
  }

  ghost predicate Tight(secs: seq<Section>, m: Map) {
    IsEnd(secs, m.base, m.len) && forall i :: i in m.base ==> Close(secs, m.base, i)
  }

  lemma PlaceTight(secs: seq<Section>, n: nat, nobits: bool, m: Map)
    requires n < |secs| && n !in m.base && Tight(secs, m)
    ensures Tight(secs, PlaceOne(secs, n, nobits, m))
  {
    hide AlignUp, Allocated, Nobits;
    AlignUpIs(m.len, secs[n].align);
    Unaligned(m.len, secs[n].align);
    var p := PlaceOne(secs, n, nobits, m);
    forall q | IsEnd(secs, m.base, q) ensures IsEnd(secs, p.base, q) {
      KeepsEnd(secs, m.base, p.base, q);
    }
    forall i | i in p.base ensures Close(secs, p.base, i) {
      if i in m.base {
        var q :| IsEnd(secs, m.base, q) && q <= m.base[i] < q + if secs[i].align > 1 then secs[i].align else 1;
        assert IsEnd(secs, p.base, q);
      } else {
        assert IsEnd(secs, p.base, m.len);
      }
    }
  }

  lemma Unaligned(n: nat, a: nat)
    ensures a <= 1 ==> AlignUp(n, a) == n
  {}

  lemma KeepsEnd(secs: seq<Section>, b: map<int, int>, c: map<int, int>, q: int)
    requires IsEnd(secs, b, q) && forall j :: j in b ==> j in c && c[j] == b[j]
    ensures IsEnd(secs, c, q)
  {}

  lemma {:induction false} PassTight(secs: seq<Section>, n: nat, nobits: bool, m: Map)
    requires n <= |secs| && Tight(secs, m)
    requires Sound(secs, m) && Separate(secs, m)
    requires forall i :: i in m.base ==> Nobits(secs[i]) != nobits
    ensures Tight(secs, PlaceFirst(secs, n, nobits, m))
  {
    hide AlignUp, Aligned, Allocated, Separate, Tight, InOrder;
    if n > 0 {
      PassTight(secs, n - 1, nobits, m);
      PassKeeps(secs, n - 1, nobits, m);
      var p := PlaceFirst(secs, n - 1, nobits, m);
      if n - 1 in p.base {
        assert Nobits(secs[n - 1]) != nobits;
      } else {
        PlaceTight(secs, n - 1, nobits, p);
      }
    }
  }

  /** The same in the numbers of the section header: placed are the sections whose flags
      have bit 1 (SHF_ALLOC) and that are not empty; type 8 (NOBITS) comes last; and
      there is no more space between sections than alignment asks for. */
  lemma LayoutByNumber(secs: seq<Section>)
    ensures var m := Full(secs); var stored := Stored(secs).len;
            && (forall i :: i in m.base <==> 0 <= i < |secs| && secs[i].flags / 2 % 2 == 1 && secs[i].size > 0)
            && (forall i :: i in m.base && secs[i].typ != 8 ==> m.base[i] + secs[i].size <= stored)
            && (forall i :: i in m.base && secs[i].typ == 8 ==> stored <= m.base[i])
            && (forall i :: i in m.base && secs[i].align > 1 ==> m.base[i] % secs[i].align == 0)
            && Tight(secs, m)
  {
    hide PlaceFirst, Separate, Tight, InOrder;
    LayoutSound(secs);
    var none := Map(map[], 0);
    NothingPlaced(secs, none);
    PassTight(secs, |secs|, false, none);
    PassKeeps(secs, |secs|, false, none);
    PassTight(secs, |secs|, true, Stored(secs));
  }

  lemma NothingPlaced(secs: seq<Section>, m: Map)
    requires m == Map(map[], 0)
    ensures Tight(secs, m) && Sound(secs, m) && Separate(secs, m)
  {}
}
