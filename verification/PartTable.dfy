/** The partition table: written by cmd_binary() of bootloader/flashmap.py, walked
    by part_walk() of bootloader/p4/p4_flash.c. */
module PartTable {
  import opened Words
  import opened Flash

  const TABLE: nat := 0x8000
  const TABLE_END: nat := 0x9000
  const ENTRY_SIZE: nat := 32
  const MAX_ENTRIES: nat := 128
  const MAGIC: int := 0x50AA
  const MAGIC_MD5: int := 0xEBEB
  const LABEL_SIZE: nat := 16

  type Label = s: seq<Byte> | |s| == LABEL_SIZE witness seq(LABEL_SIZE, _ => 0)

  /** A real entry as it is on flash. */
  datatype Entry = Entry(typ: Byte, sub: Byte, offset: U32, size: U32, tag: Label)

  // -------------------------------------------------------------------- layout

  function Encode(e: Entry): (b: seq<Byte>)
    ensures |b| == ENTRY_SIZE
  {
    [0xAA, 0x50, e.typ, e.sub] + Le32(e.offset) + Le32(e.size) + e.tag + Le32(0)
  }

  function EncodeMd5(digest: seq<Byte>): (b: seq<Byte>)
    requires |digest| == 16
    ensures |b| == ENTRY_SIZE
  {
    [0xEB, 0xEB] + seq(14, _ => 0xFF) + digest
  }

  function EncodeAll(es: seq<Entry>): (b: seq<Byte>)
    ensures |b| == ENTRY_SIZE * |es|
  {
    if es == [] then [] else EncodeAll(es[..|es| - 1]) + Encode(es[|es| - 1])
  }

  function MagicOf(b: seq<Byte>): int
    requires |b| == ENTRY_SIZE
  {
    (b[0] as int) + 0x100 * (b[1] as int)
  }

  function Decode(b: seq<Byte>): Entry
    requires |b| == ENTRY_SIZE
  {
    Entry(b[2], b[3], FromLe32(b[4..8]), FromLe32(b[8..12]), b[12..28])
  }

  lemma DecodeEncode(e: Entry)
    ensures MagicOf(Encode(e)) == MAGIC && Decode(Encode(e)) == e
  {
    hide Le32, FromLe32;
    var b := Encode(e);
    assert b[4..8] == Le32(e.offset) && b[8..12] == Le32(e.size) && b[12..28] == e.tag;
    Le32RoundTrip(e.offset);
    Le32RoundTrip(e.size);
  }

  // --------------------------------------------------------------- walking it

  function SlotAt(content: seq<Byte>, i: nat): (b: seq<Byte>)
    requires i < MAX_ENTRIES && TABLE_END <= |content|
    ensures |b| == ENTRY_SIZE
  {
    content[TABLE + i * ENTRY_SIZE..TABLE + (i + 1) * ENTRY_SIZE]
  }

  /** The real entries from slot i on: checksum entries are stepped over, and
      anything else that is not an entry ends the table. */
  function Visits(content: seq<Byte>, i: nat): seq<Entry>
    requires i <= MAX_ENTRIES && TABLE_END <= |content|
    decreases MAX_ENTRIES - i
  {
    if i == MAX_ENTRIES then [] else
      var b := SlotAt(content, i);
      if MagicOf(b) == MAGIC_MD5 then Visits(content, i + 1)
      else if MagicOf(b) != MAGIC then []
      else [Decode(b)] + Visits(content, i + 1)
  }

  datatype Partition = Partition(offset: U32, size: U32, tag: seq<Byte>)

  predicate Matches(e: Entry, typ: Byte, sub: Byte) { e.typ == typ && e.sub == sub }

  /** The first entry of a type and subtype, its label with a NUL behind all
      sixteen bytes. */
  function FirstMatch(es: seq<Entry>, typ: Byte, sub: Byte): Option<Partition> {
    if es == [] then None
    else if Matches(es[0], typ, sub) then Some(Partition(es[0].offset, es[0].size, es[0].tag + [0]))
    else FirstMatch(es[1..], typ, sub)
  }

  /** The visitors: one looks for an entry, the other sees them all. */
  class Visitor {
    const finder: bool
    const typ: Byte
    const sub: Byte
    var found: Option<Partition>
    var seen: seq<Entry>

    constructor Find(t: Byte, s: Byte)
      ensures finder && typ == t && sub == s && found == None && seen == []
    {
      finder, typ, sub, found, seen := true, t, s, None, [];
    }

    constructor Dump()
      ensures !finder && found == None && seen == []
    {
      finder, typ, sub, found, seen := false, 0, 0, None, [];
    }

    method Visit(e: Entry) returns (more: bool)
      modifies this
      ensures seen == old(seen) + [e]
      ensures more == !(finder && Matches(e, typ, sub))
      ensures found == if more then old(found) else Some(Partition(e.offset, e.size, e.tag + [0]))
    {
      seen := seen + [e];
      if !finder || !Matches(e, typ, sub) {
        return true;
      }
      found := Some(Partition(e.offset, e.size, e.tag + [0]));
      return false;
    }

    /** What is left of a walk from here: the outcome, if the rest is es. */
    ghost function Outcome(es: seq<Entry>): Option<Partition>
      reads this
    {
      if finder then FirstMatch(es, typ, sub) else found
    }
  }

  /** part_walk(): one 32-byte read per slot. */
  method PartWalk(f: Chip, v: Visitor) returns (ok: bool)
    requires v.found == None && v.seen == [] && TABLE_END <= |f.content|
    modifies v
    ensures ok
    ensures f.reliable ==> v.found == old(v.Outcome(Visits(f.content, 0)))
    ensures f.reliable && !v.finder ==> v.seen == Visits(f.content, 0)
  {
    hide Decode, MagicOf, SlotAt, Matches, Visits, FirstMatch;
    ghost var all := Visits(f.content, 0);
    var i := 0;
    while i < MAX_ENTRIES
      invariant 0 <= i <= MAX_ENTRIES && v.found == None
      invariant f.reliable ==> all == v.seen + Visits(f.content, i)
      invariant f.reliable && v.finder ==> FirstMatch(all, v.typ, v.sub) == FirstMatch(Visits(f.content, i), v.typ, v.sub)
    {
      var got, b := f.Read(TABLE + i * ENTRY_SIZE, 0, ENTRY_SIZE);
      SlotIs(f.content, i);
      assert f.reliable ==> b == SlotAt(f.content, i);
      VisitsStep(f.content, i, v.typ, v.sub);
      if MagicOf(b) == MAGIC_MD5 {
        i := i + 1;
        continue;
      }
      if MagicOf(b) != MAGIC {
        return true;
      }
      ghost var rest := Visits(f.content, i + 1);
      assert f.reliable ==> v.seen + ([Decode(b)] + rest) == v.seen + [Decode(b)] + rest;
      var more := v.Visit(Decode(b));
      if !more {
        return true;
      }
      i := i + 1;
    }
    VisitsEnd(f.content, v.typ, v.sub);
    ok := true;
  }

  function FirstOr(e: Entry, later: Option<Partition>, typ: Byte, sub: Byte): Option<Partition> {
    if Matches(e, typ, sub) then Some(Partition(e.offset, e.size, e.tag + [0])) else later
  }

  lemma VisitsStep(content: seq<Byte>, i: nat, typ: Byte, sub: Byte)
    requires i < MAX_ENTRIES && TABLE_END <= |content|
    ensures var b := SlotAt(content, i);
            var rest := Visits(content, i + 1);
            var m := MagicOf(b);
            && (m == MAGIC_MD5 ==> Visits(content, i) == rest)
            && (m != MAGIC_MD5 && m != MAGIC ==> Visits(content, i) == [] && FirstMatch([], typ, sub) == None)
            && (m == MAGIC ==> Visits(content, i) == [Decode(b)] + rest)
            && FirstMatch([Decode(b)] + rest, typ, sub) == FirstOr(Decode(b), FirstMatch(rest, typ, sub), typ, sub)
  {
    hide Decode, SlotAt, MagicOf, Matches;
    var rest := Visits(content, i + 1);
    var e := Decode(SlotAt(content, i));
    assert ([e] + rest)[1..] == rest;
  }

  lemma VisitsEnd(content: seq<Byte>, typ: Byte, sub: Byte)
    requires TABLE_END <= |content|
    ensures Visits(content, MAX_ENTRIES) == [] && FirstMatch([], typ, sub) == None
  {}

  lemma SlotIs(content: seq<Byte>, i: nat)
    requires i < MAX_ENTRIES && TABLE_END <= |content|
    ensures (TABLE + i * ENTRY_SIZE) % 4 == 0
    ensures SlotAt(content, i) == content[TABLE + i * ENTRY_SIZE..TABLE + i * ENTRY_SIZE + ENTRY_SIZE]
  {}

  /** p4_part_find(). */
  method PartFind(f: Chip, typ: Byte, sub: Byte) returns (p: Option<Partition>)
    requires TABLE_END <= |f.content|
    ensures f.reliable ==> p == FirstMatch(Visits(f.content, 0), typ, sub)
  {
    var v := new Visitor.Find(typ, sub);
    var ok := PartWalk(f, v);
    p := v.found;
  }

  // ---------------------------------------------------------------- round trip

  /** The table's sector holds the blob, as much of it as fits, and is erased behind
      it. Nothing is said about flash outside the sector. */
  ghost predicate TableOnFlash(content: seq<Byte>, blob: seq<Byte>) {
    var n := if |blob| < 0x1000 then |blob| else 0x1000;
    && 0x9000 <= |content|
    && content[0x8000..0x8000 + n] == blob[..n]
    && forall k :: 0x8000 + n <= k < 0x9000 ==> content[k] == 0xFF
  }

  /** So whatever is written outside the sector leaves the table there. */
  lemma TableStays(content: seq<Byte>, later: seq<Byte>, blob: seq<Byte>)
    requires TableOnFlash(content, blob) && |later| == |content|
    requires forall k :: TABLE <= k < TABLE_END ==> later[k] == content[k]
    ensures TableOnFlash(later, blob)
  {
    var n := if |blob| < TABLE_END - TABLE then |blob| else TABLE_END - TABLE;
    assert later[TABLE..TABLE + n] == content[TABLE..TABLE + n];
  }

  lemma {:induction false} EncodeAllAt(es: seq<Entry>, k: nat)
    requires k < |es|
    ensures EncodeAll(es)[k * ENTRY_SIZE..(k + 1) * ENTRY_SIZE] == Encode(es[k])
  {
    hide Encode;
    var n := |es| - 1;
    if k < n {
      EncodeAllAt(es[..n], k);
      assert EncodeAll(es)[..n * ENTRY_SIZE] == EncodeAll(es[..n]);
      Nested(EncodeAll(es), 0, n * ENTRY_SIZE, k * ENTRY_SIZE, (k + 1) * ENTRY_SIZE);
    }
  }

  lemma Nested(s: seq<Byte>, lo: nat, hi: nat, a: nat, b: nat)
    requires a <= b && lo + b <= hi <= |s|
    ensures s[lo..hi][a..b] == s[lo + a..lo + b]
  {
    forall i | 0 <= i < b - a ensures s[lo..hi][a..b][i] == s[lo + a..lo + b][i] {}
  }

  lemma SlotOfBlob(content: seq<Byte>, blob: seq<Byte>, i: nat)
    requires TableOnFlash(content, blob) && i < MAX_ENTRIES && (i + 1) * ENTRY_SIZE <= |blob|
    ensures SlotAt(content, i) == blob[i * ENTRY_SIZE..(i + 1) * ENTRY_SIZE]
  {
    var n := if |blob| < TABLE_END - TABLE then |blob| else TABLE_END - TABLE;
    Nested(content, TABLE, TABLE + n, i * ENTRY_SIZE, (i + 1) * ENTRY_SIZE);
    Nested(blob, 0, n, i * ENTRY_SIZE, (i + 1) * ENTRY_SIZE);
  }

  function AtMost(es: seq<Entry>, n: nat): seq<Entry> { if n < |es| then es[..n] else es }

  /** Walking from slot i of a table that was written from es. */
  lemma {:induction false} VisitsRest(content: seq<Byte>, es: seq<Entry>, digest: seq<Byte>, i: nat)
    requires |digest| == 16 && TableOnFlash(content, EncodeAll(es) + EncodeMd5(digest))
    requires i <= |es| && i <= MAX_ENTRIES
    ensures Visits(content, i) == AtMost(es, MAX_ENTRIES)[i..]
    decreases |es| - i
  {
    hide Encode, Decode, MagicOf, SlotAt, EncodeAll;
    var blob := EncodeAll(es) + EncodeMd5(digest);
    if i == MAX_ENTRIES {
    } else if i < |es| {
      SlotOfBlob(content, blob, i);
      EncodeAllAt(es, i);
      assert blob[i * ENTRY_SIZE..(i + 1) * ENTRY_SIZE] == EncodeAll(es)[i * ENTRY_SIZE..(i + 1) * ENTRY_SIZE];
      DecodeEncode(es[i]);
      VisitsRest(content, es, digest, i + 1);
    } else {
      SlotOfBlob(content, blob, i);
      assert blob[i * ENTRY_SIZE..(i + 1) * ENTRY_SIZE] == EncodeMd5(digest);
      Md5Magic(digest);
      if i + 1 < MAX_ENTRIES {
        ErasedMagic(content, i + 1);
      }
    }
  }

  lemma Md5Magic(digest: seq<Byte>)
    requires |digest| == 16
    ensures MagicOf(EncodeMd5(digest)) == MAGIC_MD5
  {}

  lemma ErasedMagic(content: seq<Byte>, i: nat)
    requires i < MAX_ENTRIES && TABLE_END <= |content|
    requires forall k :: TABLE + i * ENTRY_SIZE <= k < TABLE_END ==> content[k] == 0xFF
    ensures MagicOf(SlotAt(content, i)) == 0xFFFF
  {}

  /** The board visits exactly what the host wrote, in order, exactly when there
      are at most 128 entries: the host does not count them. */
  lemma TableReadsBack(content: seq<Byte>, es: seq<Entry>, digest: seq<Byte>)
    requires |digest| == 16 && TableOnFlash(content, EncodeAll(es) + EncodeMd5(digest))
    ensures Visits(content, 0) == AtMost(es, 128)
    ensures Visits(content, 0) == es <==> |es| <= 128
  {
    hide EncodeAll, EncodeMd5, Visits, TableOnFlash;
    VisitsRest(content, es, digest, 0);
    assert AtMost(es, MAX_ENTRIES)[0..] == AtMost(es, MAX_ENTRIES);
  }

  /** A table of 129 rows, whatever they are: the last one is lost. */
  lemma OneRowTooMany(content: seq<Byte>, es: seq<Entry>, last: Entry, digest: seq<Byte>)
    requires |digest| == 16 && |es| == 128
    requires TableOnFlash(content, EncodeAll(es + [last]) + EncodeMd5(digest))
    ensures Visits(content, 0) == es
  {
    hide EncodeAll, EncodeMd5, Visits, TableOnFlash;
    TableReadsBack(content, es + [last], digest);
    assert AtMost(es + [last], MAX_ENTRIES) == es;
  }
}
