/** Reading the flash chip, and the CRC of a region computed on the board
    (bootloader/p4/p4_flash.c) and on the host (cmd_crc of bootloader/flashmap.py). */
module Flash {
  import opened Words
  import opened Crc32
  import opened Encoders

  const CHIP_SIZE: nat := 0x100_0000
  const CHUNK: nat := 4096

  /** A region whose CRC was taken, and one that was copied, with the bytes that the
      reads of that pass returned. */
  datatype Event =
    | Summed(offset: nat, bytes: seq<Byte>, crc: bv32)
    | Copied(offset: nat, dest: nat, bytes: seq<Byte>)

  /** The chip as the ROM reads it: in range or not at all. Reads after a warm
      reset may return anything; `reliable` says that this boot's do not. */
  class Chip {
    const content: seq<Byte>
    const reliable: bool
    ghost var journal: seq<Event>      // the completed passes over it, in order

    constructor (c: seq<Byte>, r: bool)
      ensures content == c && reliable == r && journal == []
    {
      content, reliable, journal := c, r, [];
    }

    method RomRead(offset: nat, len: nat) returns (ok: bool, data: seq<Byte>)
      ensures ok <==> offset + len <= |content|
      ensures ok ==> |data| == len && (reliable ==> data == content[offset..offset + len])
    {
      if offset + len > |content| {
        return false, [];
      }
      data := content[offset..offset + len];
      if !reliable {
        var garbled: seq<Byte> :| |garbled| == len;
        data := garbled;
      }
      ok := true;
    }

    /** p4_flash_read(): the ROM behind three alignment tests. */
    method Read(offset: nat, dest: nat, len: nat) returns (ok: bool, data: seq<Byte>)
      ensures ok <==> offset % 4 == 0 && len % 4 == 0 && dest % 4 == 0 && offset + len <= |content|
      ensures ok ==> |data| == len && (reliable ==> data == content[offset..offset + len])
    {
      if offset % 4 != 0 || len % 4 != 0 || dest % 4 != 0 {
        return false, [];
      }
      ok, data := RomRead(offset, len);
    }
  }

  function WholeWords(n: nat): nat { (n + 3) / 4 * 4 }

  /** One piece into the staging buffer, read in whole words. */
  method Stage(f: Chip, at: nat, want: nat, buf: array<Byte>) returns (ok: bool)
    requires buf.Length == CHUNK && WholeWords(want) <= CHUNK && want <= WholeWords(want)
    modifies buf
    ensures ok <==> at % 4 == 0 && WholeWords(want) % 4 == 0 && at + WholeWords(want) <= |f.content|
    ensures ok && f.reliable ==> at + want <= |f.content| && buf[..want] == f.content[at..at + want]
  {
    hide WholeWords;
    var data;
    ok, data := f.Read(at, 0, WholeWords(want));
    if ok {
      forall i | 0 <= i < WholeWords(want) {
        buf[i] := data[i];
      }
      assert buf[..want] == data[..want];
    }
  }

  /** p4_flash_crc32(), through its 4 KB staging buffer. The last piece is read in
      whole words and folded in short. `seen` is what the reads returned. */
  method FlashCrc32(f: Chip, offset: U32, len: U32, buf: array<Byte>)
    returns (ok: bool, crc: bv32, ghost seen: seq<Byte>)
    requires buf.Length == CHUNK
    modifies buf, f`journal
    ensures f.journal == old(f.journal) + if ok then [Summed(offset, seen, crc)] else []
    ensures ok <==> offset % 4 == 0 && (len == 0 || offset + WholeWords(len) <= |f.content|)
    ensures ok ==> |seen| == len && crc == Crc(0, seen)
    ensures ok && f.reliable && len > 0 ==> offset + len <= |f.content| && seen == f.content[offset..offset + len]
  {
    hide Crc, WholeWords;
    crc, seen := 0, [];
    CrcNothing(0);
    if offset % 4 != 0 {
      return false, crc, seen;
    }
    var done := 0;
    while done < len
      invariant 0 <= done <= len && |seen| == done && crc == Crc(0, seen)
      invariant done < len ==> done % CHUNK == 0
      invariant done > 0 ==> offset + WholeWords(done) <= |f.content| && done <= WholeWords(done)
      invariant f.journal == old(f.journal)
      invariant done > 0 && f.reliable ==> seen == f.content[offset..offset + done]
    {
      var want := if len - done > CHUNK then CHUNK else len - done;
      Rounding(done, want);
      WordsOf(done + want);
      var got := Stage(f, offset + done, want, buf);
      if !got {
        RoundingUp(done + want, len);
        return false, crc, seen;
      }
      Chain(0, seen, buf[..want]);
      crc := Crc(crc, buf[..want]);
      if f.reliable {
        Joined(f.content, offset, offset + done, offset + done + want);
      }
      seen := seen + buf[..want];
      done := done + want;
    }
    f.journal := f.journal + [Summed(offset, seen, crc)];
    ok := true;
  }

  lemma Joined(s: seq<Byte>, a: nat, b: nat, c: nat)
    requires a <= b <= c <= |s|
    ensures s[a..b] + s[b..c] == s[a..c]
  {}

  lemma Rounding(done: nat, want: nat)
    requires done % CHUNK == 0 && want <= CHUNK
    ensures WholeWords(done + want) == done + WholeWords(want) && want <= WholeWords(want) <= CHUNK
    ensures WholeWords(want) % 4 == 0 && done % 4 == 0
    ensures WholeWords(done) == done
  {
    var k := done / CHUNK * 1024;
    assert done == 4 * k;
    DivShift(want + 3, 4, k);
    DivShift(3, 4, k);
    DivShift(0, 4, k);
    WordsOf(want);
    WordsFit(want);
  }

  lemma WordsFit(want: nat)
    requires want <= CHUNK
    ensures WholeWords(want) <= CHUNK
  {}

  lemma WordsOf(want: nat)
    ensures want <= WholeWords(want) < want + 4 && WholeWords(want) % 4 == 0
  {}

  lemma RoundingUp(a: nat, b: nat)
    requires a <= b
    ensures WholeWords(a) <= WholeWords(b)
  {}

  // -------------------------------------------------------------------- host

  /** What `make` leaves of an erased region behind a payload. */
  function Pad(n: nat): (p: seq<Byte>)
    ensures |p| == n && forall i :: 0 <= i < n ==> p[i] == 0xFF
  {
    seq(n, _ => 0xFF)
  }

  /** w is the payload, and erased flash behind it. */
  ghost predicate PayloadThenErased(w: seq<Byte>, payload: seq<Byte>) {
    payload <= w && forall k :: |payload| <= k < |w| ==> w[k] == 0xFF
  }

  lemma ErasedIs(w: seq<Byte>, payload: seq<Byte>)
    requires PayloadThenErased(w, payload)
    ensures w == payload + Pad(|w| - |payload|)
  {
    assert w == payload + w[|payload|..];
    assert w[|payload|..] == Pad(|w| - |payload|);
  }

  const HOST_CHUNK: nat := 0x1_0000

  /** cmd_crc(): the payload, then the padding in pieces of at most 64 KB. An empty
      partition gets no number: its percentage is a division by zero. */
  method CmdCrc(payload: seq<Byte>, size: int) returns (ok: bool, crc: bv32)
    ensures ok <==> |payload| <= size && size != 0
    ensures ok ==> forall w: seq<Byte> :: |w| == size && PayloadThenErased(w, payload) ==> crc == Crc(0, w)
  {
    hide Crc, PayloadThenErased;
    crc := 0;
    if |payload| > size {
      return false, crc;
    }
    crc := Crc(0, payload);
    var pad := size - |payload|;
    var chunk := Pad(if pad < HOST_CHUNK then pad else HOST_CHUNK);
    ghost var total, done := pad, 0;
    assert payload + Pad(0) == payload;
    while pad > 0
      invariant 0 <= pad && done + pad == total && (pad > 0 ==> |chunk| > 0)
      invariant chunk == Pad(|chunk|)
      invariant crc == Crc(0, payload + Pad(done))
    {
      var n := if pad < |chunk| then pad else |chunk|;
      assert chunk[..n] == Pad(n);
      Chain(0, payload + Pad(done), Pad(n));
      assert payload + Pad(done) + Pad(n) == payload + Pad(done + n);
      crc := Crc(crc, chunk[..n]);
      pad := pad - n;
      done := done + n;
    }
    forall w: seq<Byte> | |w| == size && PayloadThenErased(w, payload) ensures crc == Crc(0, w) {
      ErasedIs(w, payload);
    }
    ok := size != 0;
  }

  /** Host and board print the same number for a partition that holds a payload
      and erased flash behind it, whatever the two lengths. */
  method CompareCrc(f: Chip, offset: U32, size: U32, payload: seq<Byte>, buf: array<Byte>)
    returns (host: bv32, board: bv32)
    requires buf.Length == CHUNK && f.reliable && offset % 4 == 0
    requires |payload| <= size && size > 0 && offset + WholeWords(size) <= |f.content|
    requires f.content[offset..offset + |payload|] == payload
    requires forall k :: offset + |payload| <= k < offset + size ==> f.content[k] == 0xFF
    modifies buf, f`journal
    ensures host == board
  {
    hide Crc;
    ghost var w := f.content[offset..offset + size];
    assert w[..|payload|] == payload;
    assert PayloadThenErased(w, payload);
    var ok;
    ok, host := CmdCrc(payload, size);
    ghost var seen;
    ok, board, seen := FlashCrc32(f, offset, size, buf);
    assert f.content[offset..offset + size] == seen;
  }
}
