/** p4_flash_copy() and p4_mem_crc32() of bootloader/p4/p4_flash.c: flash into
    PSRAM through the write-back cache, and back out of the cache, so that the CRC
    that follows is a CRC of what is in the chip. */
module VerifiedCopy {
  import opened Words
  import opened Encoders
  import opened Crc32
  import opened Flash
  import opened CachedMemory

  /** Two views of memory that differ at most in [lo, hi). */
  ghost predicate SameOutside(v: seq<Byte>, w: seq<Byte>, lo: int, hi: int) {
    |v| == |w| && forall a :: 0 <= a < |v| && !(lo <= a < hi) ==> v[a] == w[a]
  }

  /** A view in which s is at lo. */
  ghost predicate Holds(v: seq<Byte>, lo: nat, s: seq<Byte>) {
    lo + |s| <= |v| && v[lo..lo + |s|] == s
  }

  /** [lo, lo + |s|) holds s in the chip itself. */
  ghost predicate HoldsRaw(mem: Psram, lo: nat, s: seq<Byte>)
    reads mem
  {
    && lo + |s| <= 64 * |mem.backing|
    && forall i :: 0 <= i < |s| ==> mem.backing[(lo + i) / 64][(lo + i) % 64] == s[i]
  }

  lemma StoredOne(v: seq<Byte>, v0: seq<Byte>, lo: nat, hi: nat, s: seq<Byte>, b: Byte)
    requires lo + |s| < hi <= |v| && SameOutside(v0, v, lo, hi) && Holds(v, lo, s)
    ensures var w := v[lo + |s| := b];
            SameOutside(v0, w, lo, hi) && Holds(w, lo, s + [b])
  {
    var w := v[lo + |s| := b];
    forall i | 0 <= i < |s| + 1 ensures w[lo..lo + |s| + 1][i] == (s + [b])[i] {
      assert i < |s| ==> v[lo + i] == v[lo..lo + |s|][i];
    }
  }

  /** The ROM's stores, one after the other behind the s that is already there,
      with the cache doing as it likes. */
  method StoreAll(mem: Psram, lo: nat, ghost s: seq<Byte>, at: nat, data: seq<Byte>)
    requires mem.Valid() && at == lo + |s| && at + |data| <= mem.Size() && Holds(mem.View(), lo, s)
    modifies mem
    ensures mem.Valid() && mem.Size() == old(mem.Size())
    ensures SameOutside(old(mem.View()), mem.View(), lo, at + |data|) && Holds(mem.View(), lo, s + data)
  {
    hide Holds, SameOutside;
    ghost var v0 := mem.View();
    Unchanged(v0, lo, at + |data|);
    assert s + data[..0] == s;
    var i := 0;
    while i < |data|
      invariant 0 <= i <= |data| && mem.Valid() && mem.Size() == |v0|
      invariant SameOutside(v0, mem.View(), lo, at + |data|) && Holds(mem.View(), lo, s + data[..i])
    {
      mem.Chaos();
      StoredOne(mem.View(), v0, lo, at + |data|, s + data[..i], data[i]);
      assert s + data[..i] + [data[i]] == s + data[..i + 1];
      mem.Store(at + i, data[i]);
      i := i + 1;
    }
    assert data[..i] == data;
  }

  lemma Unchanged(v: seq<Byte>, lo: int, hi: int)
    ensures SameOutside(v, v, lo, hi)
  {}

  /** One piece, behind the s that is already there. */
  method CopyPiece(f: Chip, offset: nat, want: nat, mem: Psram, lo: nat, ghost s: seq<Byte>, at: nat)
    returns (ok: bool, data: seq<Byte>)
    requires mem.Valid() && at == lo + |s| && at + want <= mem.Size() && Holds(mem.View(), lo, s)
    modifies mem
    ensures mem.Valid() && mem.Size() == old(mem.Size())
    ensures ok == (offset % 4 == 0 && want % 4 == 0 && at % 4 == 0 && offset + want <= |f.content|)
    ensures SameOutside(old(mem.View()), mem.View(), lo, at + want)
    ensures ok ==> |data| == want && Holds(mem.View(), lo, s + data)
    ensures ok ==> Covered(f, offset, data)
  {
    hide Holds, SameOutside;
    Unchanged(mem.View(), lo, at + want);
    ok, data := f.Read(offset, at, want);
    if ok {
      StoreAll(mem, lo, s, at, data);
    }
  }

  /** The copy loop, straight from the flash FIFO to the destination. */
  method CopyLoop(f: Chip, offset: U32, len: U32, mem: Psram, dest: nat) returns (ok: bool, ghost seen: seq<Byte>)
    requires mem.Valid() && dest + len <= mem.Size() && dest % 4 == 0 && offset % 4 == 0
    modifies mem
    ensures mem.Valid() && mem.Size() == old(mem.Size())
    ensures SameOutside(old(mem.View()), mem.View(), dest, dest + len)
    ensures ok <==> len % 4 == 0 && (len == 0 || offset + len <= |f.content|)
    ensures ok ==> |seen| == len && Holds(mem.View(), dest, seen)
    ensures ok && f.reliable && len > 0 ==> seen == f.content[offset..offset + len]
  {
    hide Holds, SameOutside, OnPiece, Covered;
    seen := [];
    ghost var v0 := mem.View();
    Unchanged(v0, dest, dest + len);
    HoldsNothing(v0, dest);
    FirstPiece(f, offset, len);
    var done := 0;
    while done < len
      invariant 0 <= done <= len && |seen| == done && mem.Valid() && mem.Size() == |v0|
      invariant OnPiece(done, len)
      invariant SameOutside(v0, mem.View(), dest, dest + len) && Holds(mem.View(), dest, seen)
      invariant Covered(f, offset, seen)
    {
      var want := if len - done > CHUNK then CHUNK else len - done;
      NextPiece(offset, dest, done, len, want);
      ghost var v1 := mem.View();
      var got, data := CopyPiece(f, offset + done, want, mem, dest, seen, dest + done);
      Within(v0, v1, mem.View(), dest, dest + done + want, dest + len);
      if !got {
        return false, seen;
      }
      CoverMore(f, offset, seen, data);
      seen := seen + data;
      done := done + want;
    }
    AllPieces(f, offset, seen, len);
    ok := true;
  }

  /** The loop counter: whole 4 KB pieces until the last one. */
  predicate OnPiece(done: nat, len: nat) {
    done % 4 == 0 && (done < len ==> done % CHUNK == 0)
  }

  lemma NextPiece(offset: nat, dest: nat, done: nat, len: nat, want: nat)
    requires offset % 4 == 0 && dest % 4 == 0 && done < len && OnPiece(done, len)
    requires want == if len - done > CHUNK then CHUNK else len - done
    ensures (offset + done) % 4 == 0 && (dest + done) % 4 == 0
    ensures want % 4 != 0 ==> len % 4 != 0
    ensures want % 4 == 0 ==> OnPiece(done + want, len)
  {
    var k := done / 4;
    assert done == 4 * k;
    DivShift(offset, 4, k);
    DivShift(dest, 4, k);
    DivShift(want, 4, k);
    if len - done > CHUNK {
      DivShift(0, CHUNK, done / CHUNK + 1);
    }
  }

  lemma FirstPiece(f: Chip, offset: nat, len: nat)
    ensures OnPiece(0, len) && Covered(f, offset, [])
  {}

  lemma AllPieces(f: Chip, offset: nat, seen: seq<Byte>, len: nat)
    requires OnPiece(|seen|, len) && |seen| == len && Covered(f, offset, seen)
    ensures len % 4 == 0 && (len == 0 || offset + len <= |f.content|)
    ensures f.reliable && len > 0 ==> seen == f.content[offset..offset + len]
  {}

  /** What has been read so far, if reads can be trusted. */
  ghost predicate Covered(f: Chip, offset: nat, s: seq<Byte>) {
    s != [] ==> offset + |s| <= |f.content| && (f.reliable ==> s == f.content[offset..offset + |s|])
  }

  lemma CoverMore(f: Chip, offset: nat, s: seq<Byte>, t: seq<Byte>)
    requires Covered(f, offset, s) && Covered(f, offset + |s|, t)
    ensures Covered(f, offset, s + t)
  {
    if s != [] && t != [] {
      Joined(f.content, offset, offset + |s|, offset + |s| + |t|);
    } else {
      assert s + t == if s == [] then t else s;
    }
  }

  lemma Within(u: seq<Byte>, v: seq<Byte>, w: seq<Byte>, lo: int, hi: int, end: int)
    requires SameOutside(u, v, lo, end) && SameOutside(v, w, lo, hi) && hi <= end
    ensures SameOutside(u, w, lo, end)
  {}

  lemma HoldsNothing(v: seq<Byte>, lo: nat)
    requires lo <= |v|
    ensures Holds(v, lo, [])
  {}

  /** Write back, then forget: in this order nothing is lost, in the range or in
      the rest of the lines at its edges. */
  method Flush(mem: Psram, lo: nat, len: nat)
    requires mem.Valid() && lo + len <= mem.Size()
    modifies mem
    ensures mem.Valid() && mem.View() == old(mem.View())
    ensures forall l :: l in mem.lines ==> !Overlaps(l, lo, len)
  {
    WriteOut(mem, lo, len);
    mem.Invalidate(lo, len);
  }

  method WriteOut(mem: Psram, lo: nat, len: nat)
    requires mem.Valid() && lo + len <= mem.Size()
    modifies mem
    ensures mem.Valid() && mem.View() == old(mem.View())
    ensures forall l :: l in mem.lines && Overlaps(l, lo, len) ==> !mem.lines[l].dirty
  {
    hide Overlaps;
    mem.Writeback(lo, len);
    Settle(mem, lo, len);
  }

  /** The cache goes on evicting and fetching between the two calls. */
  method Settle(mem: Psram, lo: nat, len: nat)
    requires mem.Valid() && forall l :: l in mem.lines && Overlaps(l, lo, len) ==> !mem.lines[l].dirty
    modifies mem
    ensures mem.Valid() && mem.View() == old(mem.View())
    ensures forall l :: l in mem.lines && Overlaps(l, lo, len) ==> !mem.lines[l].dirty
  {
    hide Overlaps;
    mem.Chaos();
  }

  lemma FlushedIsRaw(mem: Psram, lo: nat, s: seq<Byte>)
    requires Holds(mem.View(), lo, s) && forall l :: l in mem.lines ==> !Overlaps(l, lo, |s|)
    ensures HoldsRaw(mem, lo, s)
  {
    forall i | 0 <= i < |s| ensures mem.Raw(lo + i) == s[i] {
      CoveringLine(lo + i, lo, |s|);
      assert mem.View()[lo..lo + |s|][i] == mem.At(lo + i);
    }
  }

  /** p4_flash_copy(). It succeeds exactly when everything is aligned and in range;
      then the chip itself, not the cache, holds what the flash reads returned.
      Nothing outside the destination changes, lines it shares with others included. */
  method FlashCopy(f: Chip, offset: U32, len: U32, mem: Psram, dest: nat) returns (ok: bool, ghost seen: seq<Byte>)
    requires mem.Valid() && dest + len <= mem.Size()
    modifies mem, f`journal
    ensures mem.Valid() && mem.Size() == old(mem.Size())
    ensures f.journal == old(f.journal) + if ok then [Copied(offset, dest, seen)] else []
    ensures SameOutside(old(mem.View()), mem.View(), dest, dest + len)
    ensures ok <==> dest % 4 == 0 && offset % 4 == 0 && len % 4 == 0 && (len == 0 || offset + len <= |f.content|)
    ensures ok ==> |seen| == len && HoldsRaw(mem, dest, seen) && Holds(mem.View(), dest, seen)
    ensures ok ==> forall l :: l in mem.lines ==> 64 * l + 64 <= dest || dest + len <= 64 * l
    ensures ok && f.reliable && len > 0 ==> seen == f.content[offset..offset + len]
  {
    hide Holds, HoldsRaw, SameOutside;
    seen := [];
    Unchanged(mem.View(), dest, dest + len);
    if dest % 4 != 0 || offset % 4 != 0 {
      return false, seen;
    }
    ok, seen := CopyLoop(f, offset, len, mem, dest);
    if ok {
      Flush(mem, dest, len);
      FlushedIsRaw(mem, dest, seen);
      f.journal := f.journal + [Copied(offset, dest, seen)];
    }
  }

  /** p4_mem_crc32(): loads through the cache, which fetches as it needs to. */
  method MemCrc32(mem: Psram, lo: nat, len: nat) returns (crc: bv32)
    requires mem.Valid() && lo + len <= mem.Size()
    modifies mem
    ensures mem.Valid() && mem.View() == old(mem.View()) && crc == Crc(0, mem.View()[lo..lo + len])
  {
    hide Crc;
    ghost var v := mem.View();
    var i := 0;
    crc := 0;
    CrcNothing(0);
    assert v[lo..lo] == [];
    while i < len
      invariant 0 <= i <= len && mem.Valid() && mem.View() == v
      invariant crc == Crc(0, v[lo..lo + i])
    {
      mem.Chaos();
      var b := mem.At(lo + i);
      OneMore(v, lo, i, b);
      crc := Crc(crc, [b]);
      i := i + 1;
    }
  }

  lemma OneMore(v: seq<Byte>, lo: nat, i: nat, b: Byte)
    requires lo + i < |v| && v[lo + i] == b
    ensures Crc(Crc(0, v[lo..lo + i]), [b]) == Crc(0, v[lo..lo + i + 1])
  {
    hide Crc;
    Chain(0, v[lo..lo + i], [b]);
    assert v[lo..lo + i] + [b] == v[lo..lo + i + 1];
  }
}
