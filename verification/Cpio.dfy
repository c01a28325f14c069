/** The newc archive writer of tools/tar2cpio.py, and a reader of the format. */
module Cpio {
  import opened Words
  import opened CText

  const MAGIC: seq<Byte> := [48, 55, 48, 55, 48, 49]       // "070701"
  const HDR: nat := 110

  /** A record. The numbers are Python integers; the writer does not bound them. */
  datatype Rec = Rec(name: seq<Byte>, mode: int, uid: int, gid: int, nlink: int, mtime: int,
                     data: seq<Byte>, rmaj: int, rmin: int)

  // ------------------------------------------------------------------ numbers

  function HexDigit(d: nat): Byte
    requires d < 16
  {
    if d < 10 then 48 + d else 55 + d
  }

  function HexDigits(n: nat): seq<Byte> {
    if n < 16 then [HexDigit(n)] else HexDigits(n / 16) + [HexDigit(n % 16)]
  }

  function ZeroFill(s: seq<Byte>, width: nat): seq<Byte> {
    if |s| < width then seq(width - |s|, _ => 48) + s else s
  }

  /** "%08X": at least eight characters, more for a number that needs them, the
      sign counted among them. */
  function Field(v: int): seq<Byte> {
    if v < 0 then [45] + ZeroFill(HexDigits(-v), 7) else ZeroFill(HexDigits(v), 8)
  }

  function DigitValue(c: Byte): int { DigitOf(c, 16) }

  function ParseHex(s: seq<Byte>): int {
    if s == [] then 0 else ParseHex(s[..|s| - 1]) * 16 + DigitValue(s[|s| - 1])
  }

  predicate AllHex(s: seq<Byte>) { forall i :: 0 <= i < |s| ==> DigitValue(s[i]) >= 0 }

  function Pow16(k: nat): nat { if k == 0 then 1 else 16 * Pow16(k - 1) }

  lemma {:induction false} HexRoundTrip(n: nat, k: nat)
    requires k > 0 && n < Pow16(k)
    ensures |HexDigits(n)| <= k && ParseHex(HexDigits(n)) == n
  {
    if n < 16 {
      assert [HexDigit(n)][..0] == [];
    } else {
      HexRoundTrip(n / 16, k - 1);
      var s := HexDigits(n / 16);
      assert (s + [HexDigit(n % 16)])[..|s|] == s;
    }
  }

  lemma {:induction false} ZerosVanish(m: nat, s: seq<Byte>)
    ensures ParseHex(seq(m, _ => 48) + s) == ParseHex(s)
  {
    var z := seq(m, _ => 48);
    if s == [] {
      assert z + s == z;
      if m > 0 {
        ZerosVanish(m - 1, []);
        assert z[..m - 1] == seq(m - 1, _ => 48) + [];
      }
    } else {
      var n := |s| - 1;
      assert (z + s)[..|z + s| - 1] == z + s[..n];
      ZerosVanish(m, s[..n]);
    }
  }

  lemma FieldRoundTrip(v: U32)
    ensures |Field(v)| == 8 && ParseHex(Field(v)) == v
  {
    assert Pow16(8) == TWO32 by {
      assert Pow16(4) == 0x1_0000;
    }
    HexRoundTrip(v, 8);
    var s := HexDigits(v);
    ZerosVanish(8 - |s|, s);
    assert seq(0, _ => 48) + s == s;
  }

  lemma {:induction false} HexIsHex(n: nat)
    ensures AllHex(HexDigits(n))
  {
    if n >= 16 {
      HexIsHex(n / 16);
    }
  }

  lemma FieldIsHex(v: U32)
    ensures AllHex(Field(v))
  {
    HexIsHex(v);
  }

  /** What a hex number can be. */
  lemma {:induction false} ParseRange(s: seq<Byte>)
    requires AllHex(s)
    ensures 0 <= ParseHex(s) < Pow16(|s|)
  {
    if s != [] {
      ParseRange(s[..|s| - 1]);
    }
  }

  // ----------------------------------------------------------------- a record

  function Padding(n: nat): (z: seq<Byte>)
    ensures |z| < 4 && (n + |z|) % 4 == 0 && forall i :: 0 <= i < |z| ==> z[i] == 0
  {
    var minus: int := 0 - n;
    seq(minus % 4, _ => 0)
  }

  /** The thirteen numbers of a header. */
  function Numbers(r: Rec): seq<Byte> {
    (Field(0) + Field(r.mode) + Field(r.uid) + Field(r.gid))
    + (Field(r.nlink) + Field(r.mtime) + Field(|r.data|) + Field(0))
    + (Field(0) + Field(r.rmaj) + Field(r.rmin) + Field(|r.name| + 1))
    + Field(0)
  }

  function Header(r: Rec): seq<Byte> { MAGIC + Numbers(r) }

  /** entry(): header and name, then data, each padded to a multiple of four. */
  function Encode(r: Rec): seq<Byte> {
    var head := Header(r) + (r.name + [0]);
    head + Padding(|head|) + r.data + Padding(|r.data|)
  }

  /** The fields a newc header has room for. */
  predicate Fits(r: Rec) {
    && 0 <= r.mode < TWO32 && 0 <= r.uid < TWO32 && 0 <= r.gid < TWO32 && 0 <= r.nlink < TWO32
    && 0 <= r.mtime < TWO32 && 0 <= r.rmaj < TWO32 && 0 <= r.rmin < TWO32
    && |r.data| < TWO32 && |r.name| + 1 < TWO32
  }

  class Writer {
    var out: seq<Byte>

    constructor ()
      ensures out == []
    {
      out := [];
    }

    method Entry(r: Rec)
      modifies this
      ensures out == old(out) + Encode(r)
    {
      hide Header;
      var name := r.name + [0];
      var hdr := Header(r);
      out := out + hdr;
      out := out + name;
      out := out + Padding(|hdr + name|);
      out := out + r.data;
      out := out + Padding(|r.data|);
      assert out == old(out) + (hdr + name + Padding(|hdr + name|) + r.data + Padding(|r.data|));
    }
  }

  // --------------------------------------------------------------- the reader

  function FieldAt(s: seq<Byte>, i: nat): int
    requires 14 + 8 * i <= |s|
  {
    ParseHex(s[6 + 8 * i..14 + 8 * i])
  }

  function Up4(n: nat): nat { (n + 3) / 4 * 4 }

  lemma FieldBound(s: seq<Byte>, i: nat)
    requires HDR <= |s| && AllHex(s[6..HDR]) && i < 13
    ensures 0 <= FieldAt(s, i) < TWO32
  {
    hide ParseHex;
    var f := s[6 + 8 * i..14 + 8 * i];
    forall k | 0 <= k < 8 ensures DigitValue(f[k]) >= 0 {
      assert f[k] == s[6..HDR][8 * i + k];
    }
    ParseRange(f);
    assert Pow16(4) == 0x1_0000;
  }

  datatype ReadResult = Bad | Read(r: Rec, rest: seq<Byte>)

  /** One record off the front of an archive; a header that is not all hex digits is
      no header, and a name ends at its first NUL. */
  function Decode(s: seq<Byte>): ReadResult {
    if |s| < HDR || s[..6] != MAGIC || !AllHex(s[6..HDR]) then Bad else
      FieldBound(s, 6);
      var nameSize := FieldAt(s, 11);
      var size := FieldAt(s, 6);
      if nameSize < 1 then Bad else
        var start := Up4(HDR + nameSize);
        if start + Up4(size) > |s| || s[HDR + nameSize - 1] != 0 then Bad else
          Read(Rec(CString(s[HDR..HDR + nameSize - 1]), FieldAt(s, 1), FieldAt(s, 2), FieldAt(s, 3), FieldAt(s, 4),
                   FieldAt(s, 5), s[start..start + size], FieldAt(s, 9), FieldAt(s, 10)),
               s[start + Up4(size)..])
  }

  lemma PaddedSize(n: nat)
    ensures n + |Padding(n)| == Up4(n) && Up4(n) % 4 == 0
  {}

  lemma FieldsRead(r: Rec, rest: seq<Byte>)
    requires Fits(r)
    ensures |Header(r)| == HDR
    ensures var s := Header(r) + rest;
            && s[..6] == MAGIC
            && FieldAt(s, 1) == r.mode && FieldAt(s, 2) == r.uid && FieldAt(s, 3) == r.gid && FieldAt(s, 4) == r.nlink
            && FieldAt(s, 5) == r.mtime && FieldAt(s, 6) == |r.data| && FieldAt(s, 9) == r.rmaj
            && FieldAt(s, 10) == r.rmin && FieldAt(s, 11) == |r.name| + 1
  {
    hide Field, ParseHex;
    FieldRoundTrip(0);
    FieldRoundTrip(r.mode);
    FieldRoundTrip(r.uid);
    FieldRoundTrip(r.gid);
    FieldRoundTrip(r.nlink);
    FieldRoundTrip(r.mtime);
    FieldRoundTrip(|r.data|);
    FieldRoundTrip(r.rmaj);
    FieldRoundTrip(r.rmin);
    FieldRoundTrip(|r.name| + 1);
    var s := Header(r) + rest;
    assert s[14..22] == Field(r.mode) && s[22..30] == Field(r.uid) && s[30..38] == Field(r.gid);
    assert s[38..46] == Field(r.nlink) && s[46..54] == Field(r.mtime) && s[54..62] == Field(|r.data|);
    assert s[78..86] == Field(r.rmaj) && s[86..94] == Field(r.rmin) && s[94..102] == Field(|r.name| + 1);
  }

  /** A header byte for byte: the magic, then thirteen upper-case numbers of which the
      first, the eighth, the ninth and the last are always zero. */
  lemma HeaderBytes(r: Rec)
    requires Fits(r)
    ensures var s := Header(r);
            && |s| == 110 && s[..6] == Ascii("070701")
            && (forall k :: 6 <= k < 110 ==> 48 <= s[k] <= 57 || 65 <= s[k] <= 70)
            && FieldAt(s, 0) == FieldAt(s, 7) == FieldAt(s, 8) == FieldAt(s, 12) == 0
            && FieldAt(s, 1) == r.mode && FieldAt(s, 2) == r.uid && FieldAt(s, 3) == r.gid && FieldAt(s, 4) == r.nlink
            && FieldAt(s, 5) == r.mtime && FieldAt(s, 6) == |r.data| && FieldAt(s, 9) == r.rmaj
            && FieldAt(s, 10) == r.rmin && FieldAt(s, 11) == |r.name| + 1
  {
    hide ParseHex, Field;
    FieldsRead(r, []);
    var s := Header(r);
    assert s + [] == s;
    ZeroFields(r);
    NumbersUpper(r);
    var n := Numbers(r);
    assert s == MAGIC + n;
    forall k | 6 <= k < 110 ensures 48 <= s[k] <= 57 || 65 <= s[k] <= 70 {
      assert s[k] == n[k - 6];
      assert Upper(n);
    }
  }

  predicate Upper(t: seq<Byte>) { forall i :: 0 <= i < |t| ==> 48 <= t[i] <= 57 || 65 <= t[i] <= 70 }

  lemma ZeroFields(r: Rec)
    requires Fits(r)
    ensures var s := Header(r);
            |s| == 110 && FieldAt(s, 0) == FieldAt(s, 7) == FieldAt(s, 8) == FieldAt(s, 12) == 0
  {
    hide Field, ParseHex;
    FieldsRead(r, []);
    var s := Header(r);
    assert s + [] == s;
    FieldRoundTrip(0);
    FieldRoundTrip(r.mode);
    FieldRoundTrip(r.uid);
    FieldRoundTrip(r.gid);
    FieldRoundTrip(r.nlink);
    FieldRoundTrip(r.mtime);
    FieldRoundTrip(|r.data|);
    FieldRoundTrip(r.rmaj);
    FieldRoundTrip(r.rmin);
    FieldRoundTrip(|r.name| + 1);
    assert s[6..14] == Field(0) && s[62..70] == Field(0) && s[70..78] == Field(0) && s[102..110] == Field(0);
  }

  lemma {:induction false} DigitsUpper(n: nat)
    ensures Upper(HexDigits(n))
  {
    if n >= 16 {
      DigitsUpper(n / 16);
    }
  }

  lemma FieldUpper(v: U32)
    ensures Upper(Field(v))
  {
    DigitsUpper(v);
  }

  lemma FourUpper(a: seq<Byte>, b: seq<Byte>, c: seq<Byte>, d: seq<Byte>)
    requires Upper(a) && Upper(b) && Upper(c) && Upper(d)
    ensures Upper(a + b + c + d)
  {}

  lemma NumbersUpper(r: Rec)
    requires Fits(r)
    ensures Upper(Numbers(r))
  {
    hide Field, Upper;
    FieldUpper(0);
    FieldUpper(r.mode);
    FieldUpper(r.uid);
    FieldUpper(r.gid);
    FieldUpper(r.nlink);
    FieldUpper(r.mtime);
    FieldUpper(|r.data|);
    FieldUpper(r.rmaj);
    FieldUpper(r.rmin);
    FieldUpper(|r.name| + 1);
    var a := Field(0) + Field(r.mode) + Field(r.uid) + Field(r.gid);
    var b := Field(r.nlink) + Field(r.mtime) + Field(|r.data|) + Field(0);
    var c := Field(0) + Field(r.rmaj) + Field(r.rmin) + Field(|r.name| + 1);
    FourUpper(Field(0), Field(r.mode), Field(r.uid), Field(r.gid));
    FourUpper(Field(r.nlink), Field(r.mtime), Field(|r.data|), Field(0));
    FourUpper(Field(0), Field(r.rmaj), Field(r.rmin), Field(|r.name| + 1));
    FourUpper(a, b, c, Field(0));
  }

  lemma HexJoin(a: seq<Byte>, b: seq<Byte>)
    requires AllHex(a) && AllHex(b)
    ensures AllHex(a + b)
  {}

  lemma NumbersHex(r: Rec)
    requires Fits(r)
    ensures AllHex(Numbers(r))
  {
    hide Field, AllHex;
    FieldIsHex(0);
    FieldIsHex(r.mode);
    FieldIsHex(r.uid);
    FieldIsHex(r.gid);
    FieldIsHex(r.nlink);
    FieldIsHex(r.mtime);
    FieldIsHex(|r.data|);
    FieldIsHex(r.rmaj);
    FieldIsHex(r.rmin);
    FieldIsHex(|r.name| + 1);
    var a := Field(0) + Field(r.mode) + Field(r.uid) + Field(r.gid);
    var b := Field(r.nlink) + Field(r.mtime) + Field(|r.data|) + Field(0);
    var c := Field(0) + Field(r.rmaj) + Field(r.rmin) + Field(|r.name| + 1);
    FourHex(Field(0), Field(r.mode), Field(r.uid), Field(r.gid));
    FourHex(Field(r.nlink), Field(r.mtime), Field(|r.data|), Field(0));
    FourHex(Field(0), Field(r.rmaj), Field(r.rmin), Field(|r.name| + 1));
    FourHex(a, b, c, Field(0));
  }

  lemma HeaderHex(r: Rec, rest: seq<Byte>)
    requires Fits(r) && |Header(r)| == HDR
    ensures AllHex((Header(r) + rest)[6..HDR])
  {
    hide Numbers, AllHex;
    NumbersHex(r);
    assert (Header(r) + rest)[6..HDR] == Numbers(r);
  }

  lemma FourHex(a: seq<Byte>, b: seq<Byte>, c: seq<Byte>, d: seq<Byte>)
    requires AllHex(a) && AllHex(b) && AllHex(c) && AllHex(d)
    ensures AllHex(a + b + c + d)
  {
    hide AllHex;
    HexJoin(a, b);
    HexJoin(a + b, c);
    HexJoin(a + b + c, d);
  }

  /** A record as a reader of the format sees it. */
  function Seen(r: Rec): Rec { r.(name := CString(r.name)) }

  /** Reading what entry() wrote gives the record back, its name up to the first NUL,
      and the rest untouched. */
  lemma DecodeEncode(r: Rec, rest: seq<Byte>)
    requires Fits(r)
    ensures Decode(Encode(r) + rest) == Read(Seen(r), rest)
  {
    hide Header, FieldAt, Padding, Up4, Fits, AllHex, CString;
    var name := r.name + [0];
    var pad1, pad2 := Padding(HDR + |name|), Padding(|r.data|);
    var after := name + pad1 + r.data + pad2 + rest;
    FieldsRead(r, after);
    HeaderHex(r, after);
    PaddedSize(HDR + |name|);
    PaddedSize(|r.data|);
    var s := Encode(r) + rest;
    assert s == Header(r) + after;
    Slices(Header(r), r.name, pad1, r.data, pad2, rest);
  }

  /** The records the format can carry: there is room for the numbers, and the name
      has no NUL. */
  predicate Portable(r: Rec) { Fits(r) && 0 !in r.name }

  lemma PortableSeen(r: Rec)
    requires Portable(r)
    ensures Seen(r) == r
  {
    CStringIs(r.name, |r.name|);
    assert r.name[..|r.name|] == r.name;
  }

  /** A reader only ever returns such records. */
  lemma DecodedPortable(s: seq<Byte>)
    ensures Decode(s).Read? ==> Portable(Decode(s).r)
  {
    hide FieldAt, AllHex, CString;
    if Decode(s).Read? {
      FieldBound(s, 1);
      FieldBound(s, 2);
      FieldBound(s, 3);
      FieldBound(s, 4);
      FieldBound(s, 5);
      FieldBound(s, 6);
      FieldBound(s, 9);
      FieldBound(s, 10);
      FieldBound(s, 11);
    }
  }

  /** entry() checks nothing: its record reads back if and only if the format can carry
      it. */
  lemma DecodeEncodeIff(r: Rec, rest: seq<Byte>)
    ensures Decode(Encode(r) + rest) == Read(r, rest) <==> Portable(r)
  {
    hide Decode, Encode, Fits, Seen;
    DecodedPortable(Encode(r) + rest);
    if Portable(r) {
      DecodeEncode(r, rest);
      PortableSeen(r);
    }
  }

  lemma Slices(h: seq<Byte>, name: seq<Byte>, p: seq<Byte>, data: seq<Byte>, q: seq<Byte>, rest: seq<Byte>)
    requires |h| == HDR
    ensures var s := h + (name + [0] + p + data + q + rest);
            var n := HDR + |name| + 1;
            var start := n + |p|;
            && s[HDR..n - 1] == name && s[n - 1] == 0
            && s[start..start + |data|] == data && s[start + |data| + |q|..] == rest
  {
    var s := h + (name + [0] + p + data + q + rest);
    var n := HDR + |name| + 1;
    assert s == (h + name + [0] + p) + data + (q + rest);
    assert s == (h + name + [0] + p + data + q) + rest;
    assert s == h + name + ([0] + p + data + q + rest);
  }

  lemma EncodeAligned(r: Rec)
    requires Fits(r)
    ensures |Encode(r)| % 4 == 0
  {
    hide Header, Padding, Up4, Fits;
    FieldsRead(r, []);
    PaddedSize(HDR + |r.name| + 1);
    PaddedSize(|r.data|);
  }

  // --------------------------------------------------------------- an archive

  const TRAILER: seq<Byte> := [84, 82, 65, 73, 76, 69, 82, 33, 33, 33]       // "TRAILER!!!"

  const TRAILER_REC := Rec(TRAILER, 0, 0, 0, 1, 0, [], 0, 0)

  lemma TrailerIs()
    ensures TRAILER == Ascii("TRAILER!!!")
  {}

  function EncodeAll(rs: seq<Rec>): seq<Byte> {
    if rs == [] then [] else EncodeAll(rs[..|rs| - 1]) + Encode(rs[|rs| - 1])
  }

  /** The records up to the trailer; None when the archive is cut short or damaged. */
  function DecodeAll(s: seq<Byte>): Option<seq<Rec>>
    decreases |s|
  {
    match Decode(s)
    case Bad => None
    case Read(r, rest) =>
      if r.name == TRAILER then Some([])
      else match DecodeAll(rest)
        case None => None
        case Some(rs) => Some([r] + rs)
  }

  lemma {:induction false} EncodeAllCons(r: Rec, rs: seq<Rec>)
    ensures EncodeAll([r] + rs) == Encode(r) + EncodeAll(rs)
  {
    hide Encode;
    if rs == [] {
      assert [r] + rs == [r] && [r][..0] == [];
    } else {
      var n := |rs| - 1;
      EncodeAllCons(r, rs[..n]);
      assert ([r] + rs)[..|[r] + rs| - 1] == [r] + rs[..n];
    }
  }

  predicate Storable(r: Rec) { Portable(r) && r.name != TRAILER }

  /** Records up to the first one whose name a reader takes for the trailer's come
      back, in order; what follows that one does not matter. */
  lemma {:induction false} ReadUpTo(rs: seq<Rec>, t: Rec, after: seq<Byte>)
    requires (forall r :: r in rs ==> Storable(r)) && Fits(t) && Seen(t).name == TRAILER
    ensures DecodeAll(EncodeAll(rs) + Encode(t) + after) == Some(rs)
  {
    hide Encode, Decode, Fits, DecodeAll, Seen;
    if rs == [] {
      DecodeEncode(t, after);
      DecodeAllStep(Encode(t) + after);
      assert EncodeAll(rs) + Encode(t) + after == Encode(t) + after;
    } else {
      var r, more := rs[0], rs[1..];
      assert rs == [r] + more;
      EncodeAllCons(r, more);
      ReadUpTo(more, t, after);
      var tail := EncodeAll(more) + Encode(t) + after;
      assert EncodeAll(rs) + Encode(t) + after == Encode(r) + tail;
      assert Storable(r);
      DecodeEncode(r, tail);
      PortableSeen(r);
      DecodeAllStep(Encode(r) + tail);
    }
  }

  lemma DecodeAllStep(s: seq<Byte>)
    ensures match Decode(s)
            case Bad => DecodeAll(s) == None
            case Read(r, rest) =>
              && (r.name == TRAILER ==> DecodeAll(s) == Some([]))
              && (r.name != TRAILER && DecodeAll(rest).Some? ==> DecodeAll(s) == Some([r] + DecodeAll(rest).value))
  {
    hide Decode;
  }

  lemma {:induction false} DecodedStorable(s: seq<Byte>)
    ensures match DecodeAll(s) case None => true case Some(rs) => forall r :: r in rs ==> Storable(r)
    decreases |s|
  {
    hide Fits;
    DecodedPortable(s);
    match Decode(s)
    case Bad =>
    case Read(r, rest) =>
      if r.name != TRAILER {
        DecodedStorable(rest);
      }
  }

  /** An archive reads back as exactly its records, whatever follows the trailer, if
      and only if the format can carry each and none is named like the trailer. */
  lemma ArchiveRoundTrip(rs: seq<Rec>, after: seq<Byte>)
    ensures DecodeAll(EncodeAll(rs) + Encode(TRAILER_REC) + after) == Some(rs)
            <==> forall r :: r in rs ==> Storable(r)
  {
    hide Encode, DecodeAll, EncodeAll, Storable;
    TrailerFits();
    PortableSeen(TRAILER_REC);
    DecodedStorable(EncodeAll(rs) + Encode(TRAILER_REC) + after);
    if forall r :: r in rs ==> Storable(r) {
      ReadUpTo(rs, TRAILER_REC, after);
    }
  }

  /** A record whose name, up to its first NUL, is the trailer's cuts the archive: what
      was written before it is read, and nothing else. */
  lemma TrailerNameCuts(before: seq<Rec>, t: Rec, behind: seq<Rec>, after: seq<Byte>)
    requires (forall r :: r in before ==> Storable(r)) && Fits(t) && Seen(t).name == TRAILER
    ensures DecodeAll(EncodeAll(before + [t] + behind) + Encode(TRAILER_REC) + after) == Some(before)
  {
    hide Encode, DecodeAll, Fits;
    EncodeAllAppend(before + [t], behind);
    assert (before + [t])[..|before|] == before;
    var rest := EncodeAll(behind) + Encode(TRAILER_REC) + after;
    assert EncodeAll(before + [t] + behind) + Encode(TRAILER_REC) + after
           == EncodeAll(before) + Encode(t) + rest;
    ReadUpTo(before, t, rest);
  }

  lemma {:induction false} EncodeAllAppend(a: seq<Rec>, b: seq<Rec>)
    ensures EncodeAll(a + b) == EncodeAll(a) + EncodeAll(b)
  {
    hide Encode;
    if b == [] {
      assert a + b == a;
    } else {
      var n := |b| - 1;
      EncodeAllAppend(a, b[..n]);
      assert (a + b)[..|a + b| - 1] == a + b[..n];
    }
  }

  lemma TrailerFits()
    ensures Portable(TRAILER_REC)
  {}

  /** Every header starts at a multiple of four. */
  lemma {:induction false} HeadersAligned(rs: seq<Rec>)
    requires forall r :: r in rs ==> Fits(r)
    ensures |EncodeAll(rs)| % 4 == 0
  {
    hide Encode, Fits;
    if rs != [] {
      HeadersAligned(rs[..|rs| - 1]);
      EncodeAligned(rs[|rs| - 1]);
    }
  }
}
