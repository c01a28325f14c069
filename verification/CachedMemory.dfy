/** PSRAM behind a write-back cache. Addresses count from the start of the window.
    Lines may be evicted or fetched at any moment; what the processor reads is the
    cached copy where there is one, what is in the chip is the backing store. */
module CachedMemory {
  import opened Words

  const LINE: nat := 64

  type LineData = s: seq<Byte> | |s| == LINE witness seq(LINE, _ => 0)

  datatype Line = Line(data: LineData, dirty: bool)

  class Psram {
    var backing: seq<LineData>
    var lines: map<nat, Line>

    constructor (n: nat)
      ensures Valid() && |backing| == n && lines == map[]
    {
      backing := seq(n, _ => seq(LINE, _ => 0));
      lines := map[];
    }

    /** A clean line is a copy of the store. */
    ghost predicate Valid()
      reads this
    {
      forall l :: l in lines ==> l < |backing| && (!lines[l].dirty ==> lines[l].data == backing[l])
    }

    function Size(): nat
      reads this
    {
      |backing| * LINE
    }

    /** The line as the processor sees it. */
    function Seen(l: nat): LineData
      requires l < |backing|
      reads this
    {
      if l in lines then lines[l].data else backing[l]
    }

    /** The byte a load returns, and the byte in the chip. */
    function At(a: nat): Byte
      requires a < Size()
      reads this
    {
      Seen(a / LINE)[a % LINE]
    }

    function Raw(a: nat): Byte
      requires a < Size()
      reads this
    {
      backing[a / LINE][a % LINE]
    }

    /** All of memory as the processor sees it. */
    ghost function View(): (v: seq<Byte>)
      reads this
      ensures |v| == Size() && forall a :: 0 <= a < Size() ==> v[a] == At(a)
    {
      seq(Size(), a requires 0 <= a < Size() reads this => At(a))
    }

    /** Nothing the processor sees has changed, and nothing clean has become dirty. */
    twostate predicate Unseen()
      reads this
    {
      && |backing| == |old(backing)|
      && (forall l :: 0 <= l < |backing| ==> Seen(l) == old(Seen(l)))
      && (forall l :: l in lines && lines[l].dirty ==> l in old(lines) && old(lines)[l].dirty)
    }

    method EvictLine(l: nat)
      requires Valid()
      modifies this
      ensures Valid() && Unseen() && l !in lines
    {
      if l in lines {
        if lines[l].dirty {
          backing := backing[l := lines[l].data];
        }
        lines := lines - {l};
      }
    }

    method FetchLine(l: nat)
      requires Valid() && l < |backing|
      modifies this
      ensures Valid() && Unseen() && l in lines
    {
      if l !in lines {
        lines := lines[l := Line(backing[l], false)];
      }
    }

    /** Any pattern of evictions and fetches. */
    method Chaos()
      requires Valid()
      modifies this
      ensures Valid() && Unseen() && View() == old(View())
    {
      var steps: int := *;
      while steps > 0
        invariant Valid() && Unseen()
      {
        var l: int := *;
        var evict: bool := *;
        if 0 <= l < |backing| {
          if evict {
            EvictLine(l);
          } else {
            FetchLine(l);
          }
        }
        steps := steps - 1;
      }
      forall a | 0 <= a < Size() ensures At(a) == old(At(a)) {
        assert Seen(a / LINE) == old(Seen(a / LINE));
      }
      assert View() == old(View());
    }

    /** A byte stored through the cache, which allocates on write. */
    method Store(a: nat, b: Byte)
      requires Valid() && a < Size()
      modifies this
      ensures Valid() && backing == old(backing)
      ensures View() == old(View())[a := b]
    {
      var l := a / LINE;
      var d: LineData := Seen(l)[a % LINE := b];
      lines := lines[l := Line(d, true)];
      forall x | 0 <= x < Size() ensures At(x) == old(View())[a := b][x] {
        SamePlace(x, a);
      }
      assert View() == old(View())[a := b];
    }

    /** cache_hal_writeback_addr(): the dirty lines that overlap [lo, lo + len). */
    method Writeback(lo: nat, len: nat)
      requires Valid() && lo + len <= Size()
      modifies this
      ensures Valid() && Unseen() && View() == old(View())
      ensures forall l :: l in lines && Overlaps(l, lo, len) ==> !lines[l].dirty
    {
      var l := 0;
      while l < |backing|
        invariant 0 <= l <= |backing| && Valid() && Unseen()
        invariant forall i :: i in lines && i < l && Overlaps(i, lo, len) ==> !lines[i].dirty
      {
        if l in lines && Overlaps(l, lo, len) && lines[l].dirty {
          backing := backing[l := lines[l].data];
          lines := lines[l := lines[l].(dirty := false)];
        }
        l := l + 1;
      }
      forall a | 0 <= a < Size() ensures At(a) == old(At(a)) {
        assert Seen(a / LINE) == old(Seen(a / LINE));
      }
      assert View() == old(View());
    }

    /** cache_hal_invalidate_addr(): those lines forgotten, dirty or not. What the
        processor sees stays the same if none of them was dirty. */
    method Invalidate(lo: nat, len: nat)
      requires Valid() && lo + len <= Size()
      modifies this`lines
      ensures Valid()
      ensures lines == map l | l in old(lines) && !Overlaps(l, lo, len) :: old(lines)[l]
      ensures (forall l :: l in old(lines) && Overlaps(l, lo, len) ==> !old(lines)[l].dirty) ==> View() == old(View())
    {
      lines := map l | l in lines && !Overlaps(l, lo, len) :: lines[l];
      if forall l :: l in old(lines) && Overlaps(l, lo, len) ==> !old(lines)[l].dirty {
        forall a | 0 <= a < Size() ensures At(a) == old(At(a)) {
          assert Seen(a / LINE) == old(Seen(a / LINE));
        }
        assert View() == old(View());
      }
    }

    /** Cache_WriteBack_All(): afterwards the chip holds everything. */
    method WritebackAll()
      requires Valid()
      modifies this
      ensures Valid() && Unseen() && View() == old(View())
      ensures forall a :: 0 <= a < Size() ==> Raw(a) == At(a)
    {
      Writeback(0, Size());
      forall a | 0 <= a < Size() ensures Raw(a) == At(a) {
        CoveringLine(a, 0, Size());
      }
    }
  }

  predicate Overlaps(l: nat, lo: nat, len: nat) {
    l * LINE < lo + len && lo < l * LINE + LINE
  }

  lemma SamePlace(a: nat, b: nat)
    ensures a / LINE == b / LINE && a % LINE == b % LINE ==> a == b
  {}

  lemma CoveringLine(a: nat, lo: nat, len: nat)
    requires lo <= a < lo + len
    ensures Overlaps(a / LINE, lo, len)
  {}
}
