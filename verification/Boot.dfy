/** The sequence of bootloader/main.c from the partition table to the jump. Every
    failure branch of the original halts; here it returns without jumping. */
module Boot {
  import opened Words
  import opened Crc32
  import opened Flash
  import opened PartTable
  import opened CachedMemory
  import opened VerifiedCopy

  const TYPE_KERNEL: Byte := 0x40
  const TYPE_DTB: Byte := 0x41

  // KERNEL_PA is the start of the PSRAM window, DTB_PA is 16 MB into it.
  const KERNEL_AT: nat := 0
  const DTB_AT: nat := 0x100_0000
  const PSRAM_SIZE: nat := 0x200_0000

  /** A pass that took this CRC of this region: it is the CRC of what was read then,
      whether or not that is what the flash holds. */
  predicate SumOf(e: Event, offset: nat, len: nat, crc: bv32) {
    e.Summed? && e.offset == offset && |e.bytes| == len && e.crc == crc && crc == Crc(0, e.bytes)
  }

  /** A pass that copied this region to `at`, where v still holds what was read then,
      with this CRC. */
  predicate CopyOf(e: Event, offset: nat, len: nat, crc: bv32, at: nat, v: seq<Byte>) {
    && e.Copied? && e.offset == offset && e.dest == at && |e.bytes| == len && Crc(0, e.bytes) == crc
    && at + len <= |v| && v[at..at + len] == e.bytes
  }

  /** p4_flash_selftest(): the same 64 KB read twice. */
  method Selftest(f: Chip, buf: array<Byte>) returns (ok: bool)
    requires buf.Length == CHUNK
    modifies buf, f`journal
    ensures old(f.journal) <= f.journal
    ensures ok ==> |f.journal| == |old(f.journal)| + 2 && StableReads(f.journal[|old(f.journal)|], f.journal[|old(f.journal)| + 1])
    ensures f.reliable ==> (ok <==> 0x3_0000 <= |f.content|)
  {
    hide Crc, WholeWords;
    WordsOf(0x1_0000);
    WordsExact(0x1_0000);
    var a, b;
    ghost var first, second;
    ok, a, first := FlashCrc32(f, 0x2_0000, 0x1_0000, buf);
    if ok {
      ok, b, second := FlashCrc32(f, 0x2_0000, 0x1_0000, buf);
      ok := ok && a == b;
    }
  }

  /** A payload found in flash: where it is, and the CRC of what was read there. */
  datatype Payload = Payload(part: Partition, crc: bv32)

  /** The CRC is the one of the partition as it is in flash. */
  ghost predicate TrueCrc(f: Chip, p: Payload) {
    && (p.part.size == 0 ==> p.crc == 0)
    && (0 < p.part.size && p.part.offset + p.part.size <= |f.content| ==>
         p.crc == Crc(0, f.content[p.part.offset..p.part.offset + p.part.size]))
  }

  /** What step 7 establishes about a payload. The size is bounded because a read
      past the end of the 16 MB chip is refused. */
  ghost predicate Located(f: Chip, p: Payload, typ: Byte) {
    && TABLE_END <= |f.content| && p.part.size <= |f.content|
    && (f.reliable ==>
         && FirstMatch(Visits(f.content, 0), typ, 0) == Some(p.part)
         && (p.part.size > 0 ==> p.part.offset + p.part.size <= |f.content|)
         && TrueCrc(f, p))
  }

  /** Two passes over the tested region that gave the same CRC. */
  predicate StableReads(a: Event, b: Event) {
    && a.Summed? && SumOf(a, 0x2_0000, 0x1_0000, a.crc)
    && b.Summed? && SumOf(b, 0x2_0000, 0x1_0000, a.crc)
  }

  lemma WordsExact(n: nat)
    requires n % 4 == 0
    ensures WholeWords(n) == n
  {}

  /** A partition the bootloader can copy: on whole words, inside the chip. */
  predicate Copyable(f: Chip, part: Partition) {
    part.offset % 4 == 0 && part.size % 4 == 0 && (part.size == 0 || part.offset + part.size <= |f.content|)
  }

  /** The table names a partition of this type, and it can be copied. */
  predicate Bootable(f: Chip, typ: Byte)
    requires TABLE_END <= |f.content|
  {
    var part := FirstMatch(Visits(f.content, 0), typ, 0);
    part.Some? && Copyable(f, part.value)
  }

  method Locate(f: Chip, typ: Byte, buf: array<Byte>) returns (p: Option<Payload>)
    requires buf.Length == CHUNK && TABLE_END <= |f.content|
    modifies buf, f`journal
    ensures p.Some? ==> Located(f, p.value, typ)
    ensures p.None? ==> f.journal == old(f.journal)
    ensures p.Some? ==>
      && old(f.journal) <= f.journal && |f.journal| == |old(f.journal)| + 1
      && SumOf(f.journal[|old(f.journal)|], p.value.part.offset, p.value.part.size, p.value.crc)
    ensures f.reliable && Bootable(f, typ) ==> p.Some?
  {
    hide Crc, Visits, FirstMatch, WholeWords;
    var part := PartFind(f, typ, 0);
    if part.None? {
      return None;
    }
    if part.value.size % 4 == 0 {
      WordsExact(part.value.size);
    }
    var ok, crc;
    ghost var seen;
    ok, crc, seen := FlashCrc32(f, part.value.offset, part.value.size, buf);
    if !ok {
      return None;
    }
    WordsOf(part.value.size);
    CrcNothing(0);
    assert part.value.size == 0 ==> seen == [];
    p := Some(Payload(part.value, crc));
  }

  /** Copy a payload to its place and check it there. True only if the memory
      behind the cache, read back, has the CRC that the flash had; and when flash
      can be trusted, true whenever the partition can be copied at all. */
  method Load(f: Chip, p: Payload, mem: Psram, at: nat) returns (ok: bool)
    requires mem.Valid() && at + p.part.size <= mem.Size()
    modifies mem, f`journal
    ensures ok ==>
      && old(f.journal) <= f.journal && |f.journal| == |old(f.journal)| + 1
      && CopyOf(f.journal[|old(f.journal)|], p.part.offset, p.part.size, p.crc, at, mem.View())
    ensures mem.Valid() && mem.Size() == old(mem.Size())
    ensures SameOutside(old(mem.View()), mem.View(), at, at + p.part.size)
    ensures ok ==> Loaded(f, p, mem.View(), at)
    ensures ok ==> Copyable(f, p.part)
    ensures f.reliable && TrueCrc(f, p) && Copyable(f, p.part) && at % 4 == 0 ==> ok
  {
    hide Crc, Holds, SameOutside, HoldsRaw;
    ghost var seen;
    ok, seen := FlashCopy(f, p.part.offset, p.part.size, mem, at);
    if !ok {
      return;
    }
    HeldSlice(mem.View(), at, seen);
    CrcNothing(0);
    var crc := MemCrc32(mem, at, p.part.size);
    if crc != p.crc {
      return false;
    }
    CopyIsLoaded(f, p, mem.View(), at, seen);
  }

  /** Memory holds the payload: its CRC is the one taken from flash, and if the
      flash can be trusted it is the partition byte for byte. */
  ghost predicate Loaded(f: Chip, p: Payload, v: seq<Byte>, at: nat) {
    && at + p.part.size <= |v|
    && Crc(0, v[at..at + p.part.size]) == p.crc
    && (f.reliable && p.part.size > 0 ==>
         && p.part.offset + p.part.size <= |f.content|
         && v[at..at + p.part.size] == f.content[p.part.offset..p.part.offset + p.part.size])
  }

  lemma CopyIsLoaded(f: Chip, p: Payload, v: seq<Byte>, at: nat, seen: seq<Byte>)
    requires Holds(v, at, seen) && |seen| == p.part.size && Crc(0, v[at..at + |seen|]) == p.crc
    requires f.reliable && |seen| > 0 ==>
      p.part.offset + |seen| <= |f.content| && seen == f.content[p.part.offset..p.part.offset + |seen|]
    ensures Loaded(f, p, v, at)
  {
    hide Crc;
  }

  lemma HeldSlice(v: seq<Byte>, at: nat, seen: seq<Byte>)
    requires Holds(v, at, seen)
    ensures at + |seen| <= |v| && v[at..at + |seen|] == seen
    ensures |seen| == 0 ==> seen == []
  {}

  /** A payload is not disturbed by what happens elsewhere. */
  lemma LoadedStays(f: Chip, p: Payload, v: seq<Byte>, w: seq<Byte>, at: nat, lo: int, hi: int)
    requires Loaded(f, p, v, at) && SameOutside(v, w, lo, hi) && (at + p.part.size <= lo || hi <= at)
    ensures Loaded(f, p, w, at)
  {
    hide Crc;
    assert v[at..at + p.part.size] == w[at..at + p.part.size];
  }

  lemma CopyStays(e: Event, p: Payload, v: seq<Byte>, w: seq<Byte>, at: nat, lo: int, hi: int)
    requires CopyOf(e, p.part.offset, p.part.size, p.crc, at, v)
    requires SameOutside(v, w, lo, hi) && (at + p.part.size <= lo || hi <= at)
    ensures CopyOf(e, p.part.offset, p.part.size, p.crc, at, w)
  {
    hide Crc;
    assert v[at..at + p.part.size] == w[at..at + p.part.size];
  }

  /** The memory test and the alias probe write where they like before the copies. */
  method Scribble(mem: Psram)
    requires mem.Valid()
    modifies mem
    ensures mem.Valid() && mem.Size() == old(mem.Size())
  {
    var steps: int := *;
    while steps > 0
      invariant mem.Valid() && mem.Size() == old(mem.Size())
    {
      var a: int := *;
      var b: Byte := *;
      if 0 <= a < mem.Size() {
        mem.Store(a, b);
      }
      steps := steps - 1;
    }
  }

  /** What the chip holds at [lo, lo + len). */
  ghost function InChip(mem: Psram): (v: seq<Byte>)
    reads mem
    ensures |v| == 64 * |mem.backing| && forall a :: 0 <= a < |v| ==> v[a] == mem.backing[a / 64][a % 64]
  {
    seq(mem.Size(), a requires 0 <= a < mem.Size() reads mem => mem.Raw(a))
  }

  /** How a boot went that reached the jump: the self-test, then a pass over each
      payload that took its CRC, and only then a pass that copied each, with the same
      CRC again; and memory v holds what those copies read. */
  ghost predicate Verified(before: seq<Event>, after: seq<Event>, kernel: Payload, dtb: Payload, v: seq<Byte>) {
    var n := |before|;
    && before <= after && |after| == n + 6
    && StableReads(after[n], after[n + 1])
    && SumOf(after[n + 2], kernel.part.offset, kernel.part.size, kernel.crc)
    && SumOf(after[n + 3], dtb.part.offset, dtb.part.size, dtb.crc)
    && CopyOf(after[n + 4], kernel.part.offset, kernel.part.size, kernel.crc, 0, v)
    && CopyOf(after[n + 5], dtb.part.offset, dtb.part.size, dtb.crc, 0x100_0000, v)
  }

  /** main(), for a 16 MB flash and a 32 MB PSRAM; `trained` and `tested` are the
      outcomes of bringing the PSRAM up and of testing it. Every run that reaches the
      jump has both payloads in the chip itself with the CRCs step 7 took in passes of
      its own before anything was copied, even if flash cannot be trusted; the later
      copy has not disturbed the kernel. With flash that can be trusted it is
      reached exactly when both partitions are there and can be copied. */
  method Start(f: Chip, mem: Psram, buf: array<Byte>, trained: bool, tested: bool)
    returns (jumped: bool, kernel: Option<Payload>, dtb: Option<Payload>)
    requires buf.Length == CHUNK && |f.content| == 0x100_0000 && mem.Valid() && mem.Size() == 0x200_0000
    modifies mem, buf, f`journal
    ensures mem.Valid() && mem.Size() == old(mem.Size())
    ensures jumped ==> trained && tested && kernel.Some? && dtb.Some?
    ensures jumped ==> Located(f, kernel.value, 0x40) && Located(f, dtb.value, 0x41)
    ensures jumped ==> Loaded(f, kernel.value, InChip(mem), 0) && Loaded(f, dtb.value, InChip(mem), 0x100_0000)
    ensures jumped ==> Verified(old(f.journal), f.journal, kernel.value, dtb.value, InChip(mem))
    ensures f.reliable ==>
      (jumped <==> trained && tested && Bootable(f, 0x40) && Bootable(f, 0x41))
  {
    hide Located, Loaded, SameOutside, Bootable, Copyable, TrueCrc, CopyOf, SumOf, StableReads;
    jumped, kernel, dtb := false, None, None;
    var stable := Selftest(f, buf);
    if !stable {
      return;
    }
    kernel := Locate(f, TYPE_KERNEL, buf);
    if kernel.None? {
      return;
    }
    dtb := Locate(f, TYPE_DTB, buf);
    if dtb.None? {
      return;
    }
    LocatedFacts(f, kernel.value, TYPE_KERNEL);
    LocatedFacts(f, dtb.value, TYPE_DTB);
    if !trained {
      return;
    }
    Scribble(mem);
    if !tested {
      return;
    }
    jumped := LoadBoth(f, kernel.value, dtb.value, mem);
  }

  lemma LocatedFacts(f: Chip, p: Payload, typ: Byte)
    requires Located(f, p, typ)
    ensures TABLE_END <= |f.content| && p.part.size <= |f.content|
    ensures f.reliable ==> TrueCrc(f, p) && (Bootable(f, typ) <==> Copyable(f, p.part))
  {
    hide Visits, FirstMatch, TrueCrc, Copyable;
  }

  /** Step 8 and the write-back before the jump. */
  method LoadBoth(f: Chip, kernel: Payload, dtb: Payload, mem: Psram) returns (jumped: bool)
    requires mem.Valid() && mem.Size() == PSRAM_SIZE
    requires kernel.part.size <= DTB_AT - KERNEL_AT && dtb.part.size <= PSRAM_SIZE - DTB_AT
    modifies mem, f`journal
    ensures jumped ==>
      && old(f.journal) <= f.journal && |f.journal| == |old(f.journal)| + 2
      && CopyOf(f.journal[|old(f.journal)|], kernel.part.offset, kernel.part.size, kernel.crc, KERNEL_AT, InChip(mem))
      && CopyOf(f.journal[|old(f.journal)| + 1], dtb.part.offset, dtb.part.size, dtb.crc, DTB_AT, InChip(mem))
    ensures mem.Valid() && mem.Size() == old(mem.Size())
    ensures jumped ==> Loaded(f, kernel, InChip(mem), KERNEL_AT) && Loaded(f, dtb, InChip(mem), DTB_AT)
    ensures jumped ==> Copyable(f, kernel.part) && Copyable(f, dtb.part)
    ensures f.reliable && TrueCrc(f, kernel) && TrueCrc(f, dtb) && Copyable(f, kernel.part) && Copyable(f, dtb.part)
            ==> jumped
  {
    hide Loaded, SameOutside, Copyable, TrueCrc, CopyOf;
    jumped := Load(f, kernel, mem, KERNEL_AT);
    if !jumped {
      return;
    }
    ghost var v := mem.View();
    jumped := Load(f, dtb, mem, DTB_AT);
    if !jumped {
      return;
    }
    CopyStays(f.journal[|f.journal| - 2], kernel, v, mem.View(), KERNEL_AT, DTB_AT, DTB_AT + dtb.part.size);
    LoadedStays(f, kernel, v, mem.View(), KERNEL_AT, DTB_AT, DTB_AT + dtb.part.size);
    mem.WritebackAll();
    assert InChip(mem) == mem.View();
  }
}
