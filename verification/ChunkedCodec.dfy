/** The chunked transfer coding of section 7.1 of RFC 9112, as a sender writes it,
    against body_chunked(): decoding inverts encoding, and a stream cut anywhere
    before the end of the last-chunk line is reported, having written a prefix. Both
    hold exactly as long as no chunk's size takes more than 63 digits, leading zeros
    included: the client keeps no more of a size line. */
module ChunkedCodec {
  import opened Words
  import opened CText
  import opened Numerals
  import opened Stream
  import opened Chunked

  /** A chunk as sent: its size in hex digits, an extension, its data. */
  datatype Chunk = Chunk(digits: seq<Byte>, ext: seq<Byte>, data: seq<Byte>)

  predicate PlainLine(t: seq<Byte>) { 13 !in t && 10 !in t }

  /** An extension starts with a semicolon or blank space. */
  predicate IsExt(t: seq<Byte>) { PlainLine(t) && (t != [] ==> t[0] in {59, 32, 9}) }

  /** A size may have any number of leading zeros. */
  predicate SizeLine(digits: seq<Byte>, ext: seq<Byte>, n: nat) {
    IsHex(digits) && digits != [] && HexValue(digits) == n <= 0x7fff_ffff && IsExt(ext)
  }

  /** The size line of this chunk is kept whole, as far as its digits go. */
  predicate Short(c: Chunk) { |c.digits| <= 63 }

  predicate WellFormed(c: Chunk) { c.data != [] && SizeLine(c.digits, c.ext, |c.data|) }

  function EncodeChunk(c: Chunk): seq<Byte> { c.digits + c.ext + [13, 10] + c.data + [13, 10] }

  function EncodeChunks(cs: seq<Chunk>): seq<Byte> {
    if cs == [] then [] else EncodeChunk(cs[0]) + EncodeChunks(cs[1..])
  }

  function Payload(cs: seq<Chunk>): seq<Byte> {
    if cs == [] then [] else cs[0].data + Payload(cs[1..])
  }

  /** The chunks and the last-chunk line; trailers and the closing CRLF follow it. */
  function Encode(cs: seq<Chunk>, zeros: seq<Byte>, ext: seq<Byte>): seq<Byte> {
    EncodeChunks(cs) + (zeros + ext + [13, 10])
  }

  // ----------------------------------------------------------------- one line

  lemma {:induction false} LineRead(t: seq<Byte>, rest: seq<Byte>, text: seq<Byte>)
    requires PlainLine(t) && |text| <= LINE_MAX
    ensures LineFrom(t + CRLF + rest, text) == Line(Take(text + t, LINE_MAX), rest)
  {
    hide Take;
    var s := t + CRLF + rest;
    if t == [] {
      TakeAll(text, LINE_MAX, LINE_MAX);
      assert s[0] == CR && s[1..] == [LF] + rest;
      assert ([LF] + rest)[1..] == rest;
      assert text + t == text;
    } else {
      assert s[0] == t[0] && t[0] in t;
      assert s[1..] == t[1..] + CRLF + rest;
      if |text| < LINE_MAX {
        LineRead(t[1..], rest, text + [t[0]]);
        assert text + [t[0]] + t[1..] == text + t;
      } else {
        LineRead(t[1..], rest, text);
        TakeLong(text, t[1..]);
        TakeLong(text, t);
      }
    }
  }

  lemma TakeLong(text: seq<Byte>, t: seq<Byte>)
    requires |text| == LINE_MAX
    ensures Take(text + t, LINE_MAX) == text
  {}

  lemma {:induction false} NoLineYet(s: seq<Byte>, text: seq<Byte>)
    requires LF !in s
    ensures LineFrom(s, text) == NoLine
  {
    if s != [] {
      assert s[0] in s;
      NoLineYet(s[1..], if s[0] != CR && |text| < LINE_MAX then text + [s[0]] else text);
    }
  }

  // --------------------------------------------------------------- one number

  /** The size the client takes a line for: the hexadecimal number it shows. */
  lemma SizeMeans(text: seq<Byte>, n: int)
    ensures SizeOf(text) == n <==> ShowsHex(text, 0x7fff_ffff, n)
  {
    hide Strto, ShowsHex;
    ShowsHexIff(text, 0x7fff_ffff, n);
  }

  /** A number in plain hex digits, whatever follows them. */
  lemma SizeOfDigits(t: seq<Byte>)
    requires t != [] && DigitOf(t[0], 16) >= 0 && (|t| >= 2 ==> t[1] !in {88, 120})
    requires Digits(t, 16, 0) <= LONG_MAX
    ensures SizeOf(t) == Digits(t, 16, 0)
  {
    assert Magnitude(t, 16) == Digits(t, 16, 0);
  }

  lemma {:induction false} DigitsGrow(b: seq<Byte>, acc: nat)
    requires IsHex(b)
    ensures acc <= Digits(b, 16, acc) && (b != [] ==> 16 * acc <= Digits(b, 16, acc))
  {
    if b != [] {
      var scaled: nat := acc * 16;
      DigitsGrow(b[1..], scaled + DigitOf(b[0], 16));
    }
  }

  /** The client reads the size that was sent, if and only if its digits were kept or
      it is zero; a size whose digits were not all kept comes out smaller. */
  lemma SizeReadIff(digits: seq<Byte>, ext: seq<Byte>, n: nat)
    requires SizeLine(digits, ext, n)
    ensures var m := SizeOf(Take(digits + ext, LINE_MAX));
            && Take(digits + ext, LINE_MAX) != [] && 0 <= m <= n
            && (m == n <==> |digits| <= 63 || n == 0)
  {
    hide SizeOf, HexValue;
    HexDigits(digits);
    var t := Take(digits + ext, LINE_MAX);
    assert t[0] == digits[0] && DigitOf(t[0], 16) >= 0;
    if |digits| <= LINE_MAX {
      var more := Take(ext, LINE_MAX - |digits|);
      assert t == digits + more;
      if |t| >= 2 {
        assert t[1] == if |digits| >= 2 then digits[1] else more[0];
      }
      DigitsStop(digits, more, 16, 0);
      SizeOfDigits(t);
    } else {
      assert t == digits[..LINE_MAX];
      var cut := digits[LINE_MAX..];
      assert digits == t + cut;
      DigitsAppend(t, cut, 0);
      DigitsGrow(cut, Digits(t, 16, 0));
      SizeOfDigits(t);
    }
  }

  // ------------------------------------------------------------- the round trip

  lemma CrlfSkipped(s: seq<Byte>)
    ensures Decode(CRLF + s) == Decode(s)
  {
    LineRead([], s, []);
    assert [] + CRLF + s == CRLF + s;
    assert Take([] + [], LINE_MAX) == [];
    DecodeStep(CRLF + s);
  }

  /** What the client makes of the size line of a chunk. */
  lemma HeadRead(c: Chunk, tail: seq<Byte>)
    requires WellFormed(c)
    ensures LineFrom(c.digits + c.ext + CRLF + tail, []) == Line(Take(c.digits + c.ext, LINE_MAX), tail)
    ensures Take(c.digits + c.ext, LINE_MAX) != [] && c.data != []
    ensures var m := SizeOf(Take(c.digits + c.ext, LINE_MAX));
            0 <= m <= |c.data| && (m == |c.data| <==> Short(c))
  {
    hide SizeOf, LineFrom, Take;
    PlainSize(c.digits, c.ext);
    LineRead(c.digits + c.ext, tail, []);
    assert [] + (c.digits + c.ext) == c.digits + c.ext;
    SizeReadIff(c.digits, c.ext, |c.data|);
  }

  lemma ChunkDecoded(c: Chunk, rest: seq<Byte>)
    requires WellFormed(c) && Short(c)
    ensures Decode(EncodeChunk(c) + rest) == After(c.data, Decode(rest))
  {
    hide Decode, SizeOf, LineFrom, Take, WellFormed;
    var s := EncodeChunk(c) + rest;
    var tail := c.data + (CRLF + rest);
    assert s == c.digits + c.ext + CRLF + tail;
    HeadRead(c, tail);
    DecodeStep(s);
    assert tail[..|c.data|] == c.data && tail[|c.data|..] == CRLF + rest;
    CrlfSkipped(rest);
  }

  lemma PlainSize(digits: seq<Byte>, ext: seq<Byte>)
    requires IsHex(digits) && IsExt(ext)
    ensures PlainLine(digits + ext)
  {
    forall b | b in digits ensures b != CR && b != LF {
      var i :| 0 <= i < |digits| && digits[i] == b;
      assert DigitOf(digits[i], 16) >= 0;
    }
  }

  /** Whatever follows the last-chunk line, decoding gives back the payload. */
  lemma {:induction false} DecodeInvertsEncode(cs: seq<Chunk>, zeros: seq<Byte>, ext: seq<Byte>, trailer: seq<Byte>)
    requires forall c :: c in cs ==> WellFormed(c) && Short(c)
    requires SizeLine(zeros, ext, 0)
    ensures Decode(Encode(cs, zeros, ext) + trailer) == Body(Payload(cs), true)
  {
    hide Decode, SizeOf, LineFrom, Take, WellFormed, SizeLine, EncodeChunk;
    var s := Encode(cs, zeros, ext) + trailer;
    if cs == [] {
      assert s == zeros + ext + CRLF + trailer;
      LastLine(zeros, ext, trailer);
    } else {
      DecodeInvertsEncode(cs[1..], zeros, ext, trailer);
      assert s == EncodeChunk(cs[0]) + (Encode(cs[1..], zeros, ext) + trailer);
      ChunkDecoded(cs[0], Encode(cs[1..], zeros, ext) + trailer);
    }
  }

  lemma LastLine(zeros: seq<Byte>, ext: seq<Byte>, trailer: seq<Byte>)
    requires SizeLine(zeros, ext, 0)
    ensures Decode(zeros + ext + CRLF + trailer) == Body([], true)
  {
    hide Decode, SizeOf, LineFrom, Take;
    PlainSize(zeros, ext);
    LineRead(zeros + ext, trailer, []);
    assert [] + (zeros + ext) == zeros + ext;
    SizeReadIff(zeros, ext, 0);
    DecodeStep(zeros + ext + CRLF + trailer);
  }

  // ---------------------------------------------------------------- truncation

  /** A stream that ends early, wherever that is, gives a prefix of the payload
      and is never taken for complete. */
  lemma {:induction false} TruncationSeen(cs: seq<Chunk>, zeros: seq<Byte>, ext: seq<Byte>, p: seq<Byte>)
    requires forall c :: c in cs ==> WellFormed(c) && Short(c)
    requires SizeLine(zeros, ext, 0)
    requires p < Encode(cs, zeros, ext)
    ensures !Decode(p).complete && Decode(p).bytes <= Payload(cs)
  {
    hide Decode, SizeOf, LineFrom, Take, WellFormed, SizeLine, EncodeChunk;
    if cs == [] {
      assert Encode(cs, zeros, ext) == zeros + ext + CRLF;
      CutInLine(zeros, ext, 0, p);
      NoLineYet(p, []);
      DecodeStep(p);
    } else {
      var c := cs[0];
      var next := Encode(cs[1..], zeros, ext);
      assert Encode(cs, zeros, ext) == EncodeChunk(c) + next;
      if |EncodeChunk(c)| <= |p| {
        var q := p[|EncodeChunk(c)|..];
        assert p == EncodeChunk(c) + q;
        assert q < next;
        TruncationSeen(cs[1..], zeros, ext, q);
        ChunkDecoded(c, q);
      } else {
        assert p < EncodeChunk(c);
        CutInChunk(c, p);
      }
    }
  }

  lemma CutInLine(digits: seq<Byte>, ext: seq<Byte>, n: nat, p: seq<Byte>)
    requires SizeLine(digits, ext, n) && p < digits + ext + CRLF
    ensures LF !in p
  {
    PlainSize(digits, ext);
    assert p <= digits + ext + [CR];
  }

  lemma CutInChunk(c: Chunk, p: seq<Byte>)
    requires WellFormed(c) && Short(c) && p < EncodeChunk(c)
    ensures !Decode(p).complete && Decode(p).bytes <= c.data
  {
    hide Decode, SizeOf, LineFrom, Take;
    var head := c.digits + c.ext + CRLF;
    assert EncodeChunk(c) == head + (c.data + CRLF);
    if |p| < |head| {
      assert p < head;
      CutInLine(c.digits, c.ext, |c.data|, p);
      NoLineYet(p, []);
      DecodeStep(p);
    } else {
      var rest := p[|head|..];
      assert p == head + rest;
      assert rest < c.data + CRLF;
      CutInData(c, rest);
    }
  }

  lemma CutInData(c: Chunk, rest: seq<Byte>)
    requires WellFormed(c) && Short(c) && rest < c.data + CRLF
    ensures var p := c.digits + c.ext + CRLF + rest;
            !Decode(p).complete && Decode(p).bytes <= c.data
  {
    hide Decode, SizeOf, LineFrom, Take, WellFormed;
    var p := c.digits + c.ext + CRLF + rest;
    HeadRead(c, rest);
    DecodeStep(p);
    if |rest| >= |c.data| {
      var q := rest[|c.data|..];
      assert rest[..|c.data|] == c.data;
      assert q <= [CR];
      NoLineYet(q, []);
      DecodeStep(q);
      assert c.data + [] == c.data;
    } else {
      assert rest <= c.data;
    }
  }

  // ----------------------------------------------------------- long size lines

  /** The same chunks as far as their size lines go, with other data. */
  ghost predicate SameLines(cs: seq<Chunk>, ds: seq<Chunk>) {
    |cs| == |ds| && forall i :: 0 <= i < |cs| ==>
      ds[i].digits == cs[i].digits && ds[i].ext == cs[i].ext && |ds[i].data| == |cs[i].data|
  }

  const G: Byte := 103                    // 'g', no hex digit

  predicate AllG(s: seq<Byte>) { forall i :: 0 <= i < |s| ==> s[i] == G }

  /** A line of letters is no size, and ends the body. */
  lemma LettersEnd(g: seq<Byte>, rest: seq<Byte>)
    requires g != [] && AllG(g)
    ensures Decode(g + CRLF + rest) == Body([], true)
  {
    hide Decode, LineFrom;
    LineRead(g, rest, []);
    assert [] + g == g;
    var t := Take(g, LINE_MAX);
    assert t != [] && t[0] == G && DigitOf(G, 16) < 0;
    assert SizeOf(t) == 0;
    DecodeStep(g + CRLF + rest);
  }

  /** A chunk with a long size line is read as a shorter one, and what is left of its
      data as the next size line. */
  lemma LongChunk(c: Chunk, rest: seq<Byte>)
    requires WellFormed(c) && !Short(c)
    ensures var m := SizeOf(Take(c.digits + c.ext, LINE_MAX));
            && 0 <= m < |c.data|
            && Decode(EncodeChunk(c) + rest)
               == if m == 0 then Body([], true) else After(c.data[..m], Decode(c.data[m..] + CRLF + rest))
  {
    hide Decode, SizeOf, LineFrom, Take, WellFormed;
    var s := EncodeChunk(c) + rest;
    var tail := c.data + (CRLF + rest);
    assert s == c.digits + c.ext + CRLF + tail;
    HeadRead(c, tail);
    DecodeStep(s);
    var m := SizeOf(Take(c.digits + c.ext, LINE_MAX));
    assert tail[..m] == c.data[..m] && tail[m..] == c.data[m..] + CRLF + rest;
  }

  /** With data that happens to be letters, a long size line ends the body early, and
      it counts as complete. */
  lemma {:induction false} LongLineEnds(cs: seq<Chunk>, tail: seq<Byte>)
    requires forall c :: c in cs ==> WellFormed(c) && AllG(c.data)
    requires exists c :: c in cs && !Short(c)
    ensures var d := Decode(EncodeChunks(cs) + tail);
            d.complete && |d.bytes| < |Payload(cs)|
  {
    hide Decode, SizeOf, WellFormed, EncodeChunk;
    var c, more := cs[0], EncodeChunks(cs[1..]) + tail;
    assert EncodeChunks(cs) + tail == EncodeChunk(c) + more;
    SomeData(c);
    if Short(c) {
      LongLineEnds(cs[1..], tail);
      ChunkDecoded(c, more);
    } else {
      LongChunk(c, more);
      var m := SizeOf(Take(c.digits + c.ext, LINE_MAX));
      LettersEnd(c.data[m..], more);
    }
  }

  lemma SomeData(c: Chunk)
    requires WellFormed(c)
    ensures c.data != []
  {}

  /** The same size lines over letters. */
  function Lettered(cs: seq<Chunk>): (ds: seq<Chunk>)
    ensures |ds| == |cs|
    ensures forall i :: 0 <= i < |cs| ==> ds[i] == Chunk(cs[i].digits, cs[i].ext, seq(|cs[i].data|, _ => G))
  {
    seq(|cs|, i requires 0 <= i < |cs| => Chunk(cs[i].digits, cs[i].ext, seq(|cs[i].data|, _ => G)))
  }

  lemma LetteredLines(cs: seq<Chunk>)
    requires forall c :: c in cs ==> WellFormed(c)
    ensures SameLines(cs, Lettered(cs))
    ensures forall c :: c in Lettered(cs) ==> WellFormed(c) && AllG(c.data)
    ensures (exists c :: c in cs && !Short(c)) ==> exists c :: c in Lettered(cs) && !Short(c)
  {
    hide IsHex, IsExt;
    var ds := Lettered(cs);
    forall i | 0 <= i < |cs| ensures WellFormed(ds[i]) && AllG(ds[i].data) {
      assert cs[i] in cs;
    }
    if c :| c in cs && !Short(c) {
      var i :| 0 <= i < |cs| && cs[i] == c;
      assert ds[i] in ds && !Short(ds[i]);
    }
  }

  lemma SameLinesKeep(cs: seq<Chunk>, ds: seq<Chunk>)
    requires SameLines(cs, ds) && forall c :: c in cs ==> WellFormed(c) && Short(c)
    ensures forall c :: c in ds ==> WellFormed(c) && Short(c)
  {
    hide IsHex, IsExt;
    forall i | 0 <= i < |ds| ensures WellFormed(ds[i]) && Short(ds[i]) {
      assert cs[i] in cs;
    }
  }

  /** Decoding inverts encoding, whatever data the chunks carry and whatever follows
      the last-chunk line, if and only if no chunk's size has more than 63 digits. The
      last-chunk line may have any number of zeros. */
  lemma DecodeInvertsEncodeIff(cs: seq<Chunk>, zeros: seq<Byte>, ext: seq<Byte>)
    requires (forall c :: c in cs ==> WellFormed(c)) && SizeLine(zeros, ext, 0)
    ensures (forall ds, trailer: seq<Byte> :: SameLines(cs, ds) ==>
               Decode(Encode(ds, zeros, ext) + trailer) == Body(Payload(ds), true))
            <==> forall c :: c in cs ==> Short(c)
  {
    hide Decode, Payload, WellFormed, SizeLine, EncodeChunks, SameLines, AllG;
    if forall c :: c in cs ==> Short(c) {
      forall ds, trailer: seq<Byte> | SameLines(cs, ds)
        ensures Decode(Encode(ds, zeros, ext) + trailer) == Body(Payload(ds), true)
      {
        SameLinesKeep(cs, ds);
        DecodeInvertsEncode(ds, zeros, ext, trailer);
      }
    } else {
      var ds := Lettered(cs);
      LetteredLines(cs);
      LongLineEnds(ds, zeros + ext + CRLF + []);
      assert Encode(ds, zeros, ext) + [] == EncodeChunks(ds) + (zeros + ext + CRLF + []);
    }
  }

  /** Every cut before the end of the last-chunk line is reported, having written a
      prefix, under the same condition and no other. */
  lemma TruncationSeenIff(cs: seq<Chunk>, zeros: seq<Byte>, ext: seq<Byte>)
    requires (forall c :: c in cs ==> WellFormed(c)) && SizeLine(zeros, ext, 0)
    ensures (forall ds, p :: SameLines(cs, ds) && p < Encode(ds, zeros, ext) ==>
               !Decode(p).complete && Decode(p).bytes <= Payload(ds))
            <==> forall c :: c in cs ==> Short(c)
  {
    hide Decode, Payload, WellFormed, SizeLine, EncodeChunks, SameLines, AllG;
    if forall c :: c in cs ==> Short(c) {
      forall ds, p | SameLines(cs, ds) && p < Encode(ds, zeros, ext)
        ensures !Decode(p).complete && Decode(p).bytes <= Payload(ds)
      {
        SameLinesKeep(cs, ds);
        TruncationSeen(ds, zeros, ext, p);
      }
    } else {
      var ds := Lettered(cs);
      LetteredLines(cs);
      var p := EncodeChunks(ds) + (zeros + ext);
      LongLineEnds(ds, zeros + ext);
      assert Encode(ds, zeros, ext) == p + CRLF;
      assert p < Encode(ds, zeros, ext);
    }
  }

  lemma {:induction false} ZeroDigits(n: nat)
    ensures Digits(seq(n, _ => 48), 16, 0) == 0
  {
    if n > 0 {
      assert seq(n, _ => 48)[1..] == seq(n - 1, _ => 48);
      ZeroDigits(n - 1);
    }
  }

  /** "000…05" with sixty-three zeros, for five bytes of data. */
  function PaddedChunk(data: seq<Byte>): Chunk { Chunk(seq(63, _ => 48) + [53], [], data) }

  /** It is well-formed, and the client takes it for the last chunk: nothing is
      written and the transfer counts as complete. */
  lemma PaddedSizeLost(data: seq<Byte>, rest: seq<Byte>)
    requires |data| == 5
    ensures WellFormed(PaddedChunk(data))
    ensures Decode(EncodeChunk(PaddedChunk(data)) + rest) == Body([], true)
  {
    hide Decode, LineFrom, Take, SizeOf;
    var c, zeros := PaddedChunk(data), seq(63, _ => 48);
    PaddedWellFormed(data);
    LongChunk(c, rest);
    PaddedSize(c);
  }

  lemma PaddedWellFormed(data: seq<Byte>)
    requires |data| == 5
    ensures WellFormed(PaddedChunk(data))
  {
    var zeros: seq<Byte> := seq(63, _ => 48);
    ZeroDigits(63);
    DigitsAppend(zeros, [53], 0);
    assert Digits([53], 16, 0) == 5;
    HexDigits(zeros + [53]);
  }

  lemma PaddedSize(c: Chunk)
    requires c.digits == seq(63, _ => 48) + [53] && c.ext == []
    ensures SizeOf(Take(c.digits + c.ext, LINE_MAX)) == 0
  {
    var t := Take(c.digits + c.ext, LINE_MAX);
    assert t == seq(63, _ => 48);
    ZeroDigits(63);
    SizeOfDigits(t);
  }
}
