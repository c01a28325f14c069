/** The host side of the flash layout: check() and cmd_binary() of
    bootloader/flashmap.py, on the parsed rows of partitions.csv. */
module FlashMap {
  import opened Words
  import opened Flash
  import opened PartTable

  /** A row: Python integers, so nothing bounds them yet. */
  datatype Part = Part(name: seq<Byte>, typ: int, sub: int, off: int, size: int)

  const SECTOR := 0x1000

  predicate InPlace(p: Part) { p.off >= TABLE_END && p.off % SECTOR == 0 && p.size % SECTOR == 0 }

  /** The two ranges have no byte in common. */
  predicate Clear(p: Part, q: Part) { p.off + p.size <= q.off || q.off + q.size <= p.off }

  ghost predicate AllClear(s: seq<Part>) {
    forall i, j :: 0 <= i < j < |s| ==> Clear(s[i], s[j])
  }

  /** Row p, listed before q, is apart from it as the check sees it: the one that
      sorts first ends where the other begins, and with equal offsets that is p. */
  predicate Apart(p: Part, q: Part) {
    if q.off < p.off then q.off + q.size <= p.off else p.off + p.size <= q.off
  }

  ghost predicate AllApart(s: seq<Part>) {
    forall i, j :: 0 <= i < j < |s| ==> Apart(s[i], s[j])
  }

  // ----------------------------------------------------------------- sorting

  /** sorted() is stable: a row goes behind the rows with the same offset. */
  function Insert(s: seq<Part>, p: Part): seq<Part> {
    if s == [] then [p]
    else if p.off < s[|s| - 1].off then Insert(s[..|s| - 1], p) + [s[|s| - 1]]
    else s + [p]
  }

  function SortByOffset(s: seq<Part>): seq<Part> {
    if s == [] then [] else Insert(SortByOffset(s[..|s| - 1]), s[|s| - 1])
  }

  predicate Sorted(s: seq<Part>) { forall i, j :: 0 <= i < j < |s| ==> s[i].off <= s[j].off }

  lemma {:induction false} InsertMembers(s: seq<Part>, p: Part)
    ensures multiset(Insert(s, p)) == multiset(s) + multiset{p}
    ensures forall x :: x in Insert(s, p) <==> x in s || x == p
  {
    if s != [] && p.off < s[|s| - 1].off {
      assert s == s[..|s| - 1] + [s[|s| - 1]];
      InsertMembers(s[..|s| - 1], p);
    }
  }

  lemma {:induction false} InsertSorted(s: seq<Part>, p: Part)
    requires Sorted(s)
    ensures Sorted(Insert(s, p))
  {
    if s != [] && p.off < s[|s| - 1].off {
      InsertSorted(s[..|s| - 1], p);
      InsertMembers(s[..|s| - 1], p);
      var t := Insert(s[..|s| - 1], p);
      forall i | 0 <= i < |t| ensures t[i].off <= s[|s| - 1].off {
        assert t[i] in t;
      }
    }
  }

  lemma {:induction false} InsertApart(s: seq<Part>, p: Part)
    ensures AllApart(Insert(s, p)) <==> AllApart(s) && forall x :: x in s ==> Apart(x, p)
  {
    hide Apart, AllApart;
    if s != [] && p.off < s[|s| - 1].off {
      var n := |s| - 1;
      assert s == s[..n] + [s[n]];
      InsertApart(s[..n], p);
      InsertMembers(s[..n], p);
      AppendApart(s[..n], s[n]);
      AppendApart(Insert(s[..n], p), s[n]);
      ApartSwaps(s[n], p);
    } else {
      AppendApart(s, p);
      NothingApart();
      assert s == [] ==> s + [p] == [p];
    }
  }

  lemma NothingApart()
    ensures AllApart([])
  {}

  /** Sorting past a row does not change whether the two are apart. */
  lemma ApartSwaps(p: Part, q: Part)
    requires q.off < p.off
    ensures Apart(p, q) <==> Apart(q, p)
  {}

  lemma AppendApart(s: seq<Part>, p: Part)
    ensures AllApart(s + [p]) <==> AllApart(s) && forall x :: x in s ==> Apart(x, p)
  {
    hide Apart;
    var t := s + [p];
    if AllApart(t) {
      forall x | x in s ensures Apart(x, p) {
        var i :| 0 <= i < |s| && s[i] == x;
        assert Apart(t[i], t[|s|]);
      }
      forall i, j | 0 <= i < j < |s| ensures Apart(s[i], s[j]) {
        assert Apart(t[i], t[j]);
      }
    }
  }

  lemma {:induction false} SortFacts(s: seq<Part>)
    ensures Sorted(SortByOffset(s)) && multiset(SortByOffset(s)) == multiset(s)
    ensures AllApart(SortByOffset(s)) <==> AllApart(s)
    ensures forall x :: x in SortByOffset(s) <==> x in s
  {
    hide Apart;
    if s != [] {
      var n := |s| - 1;
      assert s == s[..n] + [s[n]];
      SortFacts(s[..n]);
      InsertSorted(SortByOffset(s[..n]), s[n]);
      InsertMembers(SortByOffset(s[..n]), s[n]);
      InsertApart(SortByOffset(s[..n]), s[n]);
      AppendApart(s[..n], s[n]);
    }
  }

  // ------------------------------------------------------------------- check

  ghost predicate NeighboursApart(s: seq<Part>) {
    forall i :: 0 <= i < |s| - 1 ==> s[i].off + s[i].size <= s[i + 1].off
  }

  ghost predicate Accepted(parts: seq<Part>) {
    (forall p :: p in parts ==> InPlace(p)) && NeighboursApart(SortByOffset(parts))
  }

  method Check(parts: seq<Part>) returns (ok: bool)
    ensures ok <==> Accepted(parts)
  {
    hide InPlace;
    var i := 0;
    while i < |parts|
      invariant 0 <= i <= |parts| && forall j :: 0 <= j < i ==> InPlace(parts[j])
    {
      if !InPlace(parts[i]) {
        return false;
      }
      i := i + 1;
    }
    var ordered := SortByOffset(parts);
    i := 1;
    while i < |ordered|
      invariant 1 <= i && forall j :: 0 <= j < i - 1 && j + 1 < |ordered| ==>
        ordered[j].off + ordered[j].size <= ordered[j + 1].off
    {
      if ordered[i - 1].off + ordered[i - 1].size > ordered[i].off {
        return false;
      }
      i := i + 1;
    }
    ok := true;
  }

  lemma SortedNeighbours(s: seq<Part>)
    requires Sorted(s)
    ensures NeighboursApart(s) <==> AllApart(s)
  {
    if NeighboursApart(s) {
      forall i, j | 0 <= i < j < |s| ensures Apart(s[i], s[j]) {
        assert s[i].off + s[i].size <= s[i + 1].off;
        assert s[i + 1].off <= s[j].off;
      }
    }
    if AllApart(s) {
      forall i | 0 <= i < |s| - 1 ensures s[i].off + s[i].size <= s[i + 1].off {
        assert Apart(s[i], s[i + 1]);
      }
    }
  }

  /** Only neighbours in offset order are compared, and for every list, of whatever
      sizes, that decides about all pairs: the check accepts exactly the lists whose
      rows are in place and any two of which are apart in the order they are listed. */
  lemma CheckIsExact(parts: seq<Part>)
    ensures Accepted(parts) <==>
              && (forall p :: p in parts ==> p.off >= 0x9000 && p.off % 0x1000 == 0 && p.size % 0x1000 == 0)
              && AllApart(parts)
  {
    hide SortByOffset, AllApart, NeighboursApart;
    SortFacts(parts);
    SortedNeighbours(SortByOffset(parts));
  }

  /** Any two partitions of an accepted list are disjoint, and all are on whole
      sectors from 0x9000 on. Whether that is clear of the table is TableClearIff. */
  lemma AcceptedIsClear(parts: seq<Part>)
    requires Accepted(parts)
    ensures AllClear(parts)
    ensures forall p :: p in parts ==> p.off >= 0x9000 && p.off % 0x1000 == 0 && p.size % 0x1000 == 0
  {
    hide NeighboursApart;
    CheckIsExact(parts);
    forall i, j | 0 <= i < j < |parts| ensures Clear(parts[i], parts[j]) {
      assert Apart(parts[i], parts[j]);
    }
  }

  /** For partitions that are not empty, the order of the list does not matter. */
  lemma CheckWithoutEmpty(parts: seq<Part>)
    requires forall p :: p in parts ==> p.size > 0
    ensures Accepted(parts) <==> AllClear(parts) && forall p :: p in parts ==> InPlace(p)
  {
    hide Accepted;
    CheckIsExact(parts);
    if Accepted(parts) {
      AcceptedIsClear(parts);
    }
    if AllClear(parts) {
      forall i, j | 0 <= i < j < |parts| ensures Apart(parts[i], parts[j]) {
        assert parts[i] in parts && parts[j] in parts;
        assert Clear(parts[i], parts[j]);
      }
    }
  }

  /** With an empty one it does: listed before a partition at the same offset it is
      accepted, listed behind it it is refused, although they share no byte. */
  lemma EmptyRowOrder()
    ensures var full := Part([], 0x40, 0, 0x9000, 0x1000);
            var empty := Part([], 0x41, 0, 0x9000, 0);
            && AllClear([full, empty]) && AllClear([empty, full])
            && Accepted([empty, full]) && !Accepted([full, empty])
  {
    var full := Part([], 0x40, 0, 0x9000, 0x1000);
    var empty := Part([], 0x41, 0, 0x9000, 0);
    CheckIsExact([empty, full]);
    CheckIsExact([full, empty]);
    var refused := [full, empty];
    assert !Apart(refused[0], refused[1]);
  }

  // ------------------------------------------------------------- cmd_binary

  /** What struct.pack and the label test let through. */
  predicate Encodable(p: Part) {
    |p.name| <= LABEL_SIZE && 0 <= p.typ < 0x100 && 0 <= p.sub < 0x100
    && 0 <= p.off < TWO32 && 0 <= p.size < TWO32
  }

  function ToEntry(p: Part): Entry
    requires Encodable(p)
  {
    Entry(p.typ, p.sub, p.off, p.size, p.name + seq(LABEL_SIZE - |p.name|, _ => 0))
  }

  function ToEntries(parts: seq<Part>): (es: seq<Entry>)
    requires forall p :: p in parts ==> Encodable(p)
    ensures |es| == |parts| && forall i :: 0 <= i < |parts| ==> es[i] == ToEntry(parts[i])
  {
    seq(|parts|, i requires 0 <= i < |parts| => ToEntry(parts[i]))
  }

  /** cmd_binary(): the table for a list of rows, or nothing. */
  method CmdBinary(parts: seq<Part>, digest: seq<Byte>) returns (blob: Option<seq<Byte>>)
    requires |digest| == 16
    ensures blob.Some? <==> Accepted(parts) && forall p :: p in parts ==>
                              && |p.name| <= 16 && 0 <= p.typ <= 0xFF && 0 <= p.sub <= 0xFF
                              && 0 <= p.off <= 0xFFFF_FFFF && 0 <= p.size <= 0xFFFF_FFFF
    ensures blob.Some? ==> (forall p :: p in parts ==> Encodable(p))
                           && blob.value == EncodeAll(ToEntries(parts)) + EncodeMd5(digest)
  {
    hide Accepted, ToEntry, Encode, EncodeMd5;
    var ok := Check(parts);
    if !ok {
      return None;
    }
    var out: seq<Byte> := [];
    var i := 0;
    while i < |parts|
      invariant 0 <= i <= |parts|
      invariant forall j :: 0 <= j < i ==> Encodable(parts[j])
      invariant forall p :: p in parts[..i] ==> Encodable(p)
      invariant out == EncodeAll(ToEntries(parts[..i]))
    {
      if !Encodable(parts[i]) {
        assert parts[i] in parts;
        return None;
      }
      out := out + Encode(ToEntry(parts[i]));
      EntriesGrow(parts, i);
      i := i + 1;
    }
    assert parts[..i] == parts;
    blob := Some(out + EncodeMd5(digest));
  }

  lemma EntriesGrow(parts: seq<Part>, i: nat)
    requires i < |parts| && (forall p :: p in parts[..i] ==> Encodable(p)) && Encodable(parts[i])
    ensures forall p :: p in parts[..i + 1] ==> Encodable(p)
    ensures EncodeAll(ToEntries(parts[..i + 1])) == EncodeAll(ToEntries(parts[..i])) + Encode(ToEntry(parts[i]))
  {
    hide Encodable, ToEntry, Encode;
    assert parts[..i + 1] == parts[..i] + [parts[i]];
    var es := ToEntries(parts[..i + 1]);
    assert es[..i] == ToEntries(parts[..i]);
  }

  /** Four bytes, least significant first. */
  function Little(b: seq<Byte>): int
    requires |b| == 4
  {
    (b[0] as int) + 0x100 * (b[1] as int) + 0x1_0000 * (b[2] as int) + 0x100_0000 * (b[3] as int)
  }

  /** The table byte for byte: 32 for each row, then 32 for the checksum. */
  lemma TableBytes(parts: seq<Part>, digest: seq<Byte>, i: nat)
    requires |digest| == 16 && (forall p :: p in parts ==> Encodable(p)) && i < |parts|
    ensures var blob, p := EncodeAll(ToEntries(parts)) + EncodeMd5(digest), parts[i];
            && |blob| == 32 * |parts| + 32
            && blob[32 * |parts|..] == [0xEB, 0xEB] + seq(14, _ => 0xFF) + digest
            && var b := blob[32 * i..32 * i + 32];
               && b[..4] == [0xAA, 0x50, p.typ, p.sub]
               && Little(b[4..8]) == p.off && Little(b[8..12]) == p.size
               && b[12..12 + |p.name|] == p.name
               && (forall k :: 12 + |p.name| <= k < 32 ==> b[k] == 0)
  {
    hide EncodeAll, Encode;
    var es := ToEntries(parts);
    EncodeAllAt(es, i);
    var all := EncodeAll(es);
    assert (all + EncodeMd5(digest))[32 * i..32 * i + 32] == all[32 * i..32 * i + 32];
    EntryBytes(es[i]);
    var tag := es[i].tag;
    assert tag == parts[i].name + seq(LABEL_SIZE - |parts[i].name|, _ => 0);
    var b := Encode(es[i]);
    assert b[12..12 + |parts[i].name|] == tag[..|parts[i].name|];
    assert forall k :: 12 <= k < 28 ==> b[k] == b[12..28][k - 12];
    assert forall k :: 28 <= k < 32 ==> b[k] == b[28..32][k - 28];
  }

  lemma EntryBytes(e: Entry)
    ensures var b := Encode(e);
            && b[..4] == [0xAA, 0x50, e.typ, e.sub] && Little(b[4..8]) == e.offset && Little(b[8..12]) == e.size
            && b[12..28] == e.tag && b[28..32] == [0, 0, 0, 0]
  {
    hide Le32;
    var b := Encode(e);
    assert b[4..8] == Le32(e.offset) && b[8..12] == Le32(e.size) && b[28..32] == Le32(0);
    LittleLe32(e.offset);
    LittleLe32(e.size);
    ZeroWord();
  }

  lemma LittleLe32(v: U32)
    ensures Little(Le32(v)) == v
  {
    WordOfBytes(v);
  }

  lemma ZeroWord()
    ensures Le32(0) == [0, 0, 0, 0]
  {}

  /** The host writes, the board looks up: with at most 128 rows in an erased sector,
      p4_part_find answers with the first row of the type and subtype, or not at
      all when there is none. */
  lemma FindReadsTable(parts: seq<Part>, digest: seq<Byte>, content: seq<Byte>, typ: Byte, sub: Byte)
    requires |digest| == 16 && |parts| <= 128 && forall p :: p in parts ==> Encodable(p)
    requires TableOnFlash(content, EncodeAll(ToEntries(parts)) + EncodeMd5(digest))
    ensures var found := FirstMatch(Visits(content, 0), typ, sub);
            match found
            case None => forall p :: p in parts ==> !(p.typ == typ && p.sub == sub)
            case Some(f) =>
              exists i :: 0 <= i < |parts| && parts[i].typ == typ && parts[i].sub == sub
                       && (forall j :: 0 <= j < i ==> !(parts[j].typ == typ && parts[j].sub == sub))
                       && f == Partition(parts[i].off, parts[i].size,
                                         parts[i].name + seq(17 - |parts[i].name|, _ => 0))
  {
    hide EncodeAll, EncodeMd5, Visits, TableOnFlash;
    TableReadsBack(content, ToEntries(parts), digest);
    FirstRow(ToEntries(parts), typ, sub);
    var found := FirstMatch(ToEntries(parts), typ, sub);
    if found.Some? {
      var i :| 0 <= i < |parts| && IsFirst(ToEntries(parts), i, typ, sub)
            && found.value == Partition(ToEntries(parts)[i].offset, ToEntries(parts)[i].size, ToEntries(parts)[i].tag + [0]);
      assert ToEntry(parts[i]).tag + [0] == parts[i].name + seq(LABEL_SIZE + 1 - |parts[i].name|, _ => 0);
      forall j | 0 <= j < i ensures !(parts[j].typ == typ && parts[j].sub == sub) {
        assert !Matches(ToEntries(parts)[j], typ, sub);
      }
    } else {
      forall p | p in parts ensures !(p.typ == typ && p.sub == sub) {
        var j :| 0 <= j < |parts| && parts[j] == p;
        assert !Matches(ToEntries(parts)[j], typ, sub);
      }
    }
  }

  ghost predicate IsFirst(es: seq<Entry>, i: nat, typ: Byte, sub: Byte)
    requires i < |es|
  {
    Matches(es[i], typ, sub) && forall j :: 0 <= j < i ==> !Matches(es[j], typ, sub)
  }

  lemma {:induction false} FirstRow(es: seq<Entry>, typ: Byte, sub: Byte)
    ensures var found := FirstMatch(es, typ, sub);
            match found
            case None => forall j :: 0 <= j < |es| ==> !Matches(es[j], typ, sub)
            case Some(f) => exists i :: 0 <= i < |es| && IsFirst(es, i, typ, sub)
                                     && f == Partition(es[i].offset, es[i].size, es[i].tag + [0])
  {
    hide Matches;
    if es != [] {
      if Matches(es[0], typ, sub) {
        assert IsFirst(es, 0, typ, sub);
      } else {
        FirstRow(es[1..], typ, sub);
        var found := FirstMatch(es, typ, sub);
        if found.Some? {
          var i :| 0 <= i < |es[1..]| && IsFirst(es[1..], i, typ, sub)
                && found.value == Partition(es[1..][i].offset, es[1..][i].size, es[1..][i].tag + [0]);
          forall j | 0 <= j < i + 1 ensures !Matches(es[j], typ, sub) {
            assert j > 0 ==> es[j] == es[1..][j - 1];
          }
          assert IsFirst(es, i + 1, typ, sub);
        } else {
          forall j | 0 <= j < |es| ensures !Matches(es[j], typ, sub) {
            assert j > 0 ==> es[j] == es[1..][j - 1];
          }
        }
      }
    }
  }

  // -------------------------------------------------- the table's own place

  /** No byte of a table that ends at `end` lies in the partition. */
  predicate ClearOfTable(p: Part, end: nat) { end <= p.off || p.off + p.size <= TABLE }

  /** The rows are not counted, so a long table can run into the first partitions. For
      the rows that get as far as a table: it is clear of all of them exactly when each
      begins behind its last entry; 127 rows are always few enough, and no more than
      that leave it in its own sector. */
  lemma TableClearIff(parts: seq<Part>, digest: seq<Byte>)
    requires |digest| == 16 && Accepted(parts) && forall p :: p in parts ==> Encodable(p)
    ensures var end := TABLE + |EncodeAll(ToEntries(parts)) + EncodeMd5(digest)|;
            && ((forall p :: p in parts ==> ClearOfTable(p, end))
                <==> forall p :: p in parts ==> TABLE + ENTRY_SIZE * (|parts| + 1) <= p.off)
            && (|parts| <= 127 ==> forall p :: p in parts ==> ClearOfTable(p, end))
            && (end <= TABLE_END <==> |parts| <= 127)
  {
    hide Accepted, EncodeAll, EncodeMd5;
    AcceptedIsClear(parts);
  }

  /** 128 sectors in a row, the first behind the table. */
  function ManyRows(): (rows: seq<Part>)
    ensures |rows| == 128
    ensures forall i :: 0 <= i < 128 ==> rows[i] == Part([], 0x40, 0, 0x9000 + 0x1000 * i, 0x1000)
  {
    seq(128, i requires 0 <= i < 128 => Part([], 0x40, 0, 0x9000 + 0x1000 * i, 0x1000))
  }

  /** They are accepted, and the last 32 bytes of their table are the first 32 of the
      first partition. */
  lemma LongTableOverlaps(digest: seq<Byte>)
    requires |digest| == 16
    ensures var rows := ManyRows();
            && Accepted(rows) && (forall p :: p in rows ==> Encodable(p))
            && TABLE + |EncodeAll(ToEntries(rows)) + EncodeMd5(digest)| == rows[0].off + ENTRY_SIZE
            && !ClearOfTable(rows[0], rows[0].off + ENTRY_SIZE)
  {
    hide Accepted, EncodeAll, EncodeMd5;
    var rows := ManyRows();
    forall p | p in rows ensures Encodable(p) && InPlace(p) {
      var i :| 0 <= i < 128 && rows[i] == p;
      SectorAligned(i);
    }
    CheckIsExact(rows);
  }

  lemma SectorAligned(i: nat)
    requires i < 128
    ensures (0x9000 + 0x1000 * i) % SECTOR == 0
  {}

  lemma TableFits(content: seq<Byte>, blob: seq<Byte>)
    requires TableOnFlash(content, blob)
    ensures TABLE_END <= |content|
  {}

  /** What is written into the partitions afterwards, whatever their number, does not
      reach the table's sector: the board's view of the table stays. */
  lemma TableSurvives(parts: seq<Part>, blob: seq<Byte>, content: seq<Byte>, later: seq<Byte>)
    requires Accepted(parts) && TableOnFlash(content, blob) && |later| == |content|
    requires forall k :: 0 <= k < |content| && later[k] != content[k] ==>
               exists p :: p in parts && p.off <= k < p.off + p.size
    ensures TableOnFlash(later, blob)
  {
    hide NeighboursApart, TableOnFlash;
    TableFits(content, blob);
    assert forall k :: TABLE <= k < TABLE_END ==> later[k] == content[k];
    TableStays(content, later, blob);
  }
}
