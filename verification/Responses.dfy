/** What the client makes of a response as a server writes it: a status line, header
    lines, the blank line and a body. Said of the lines and the body themselves, for
    every share of the body that may have come with the headers. */
module Responses {
  import opened Words
  import opened CText
  import opened Numerals
  import opened Stream
  import opened Headers
  import opened HeaderMeaning
  import opened Chunked
  import opened ChunkedCodec
  import opened PlainBody
  import opened Transfer

  /** A response whose header block fits the header buffer. */
  ghost predicate Sent(first: seq<Byte>, ls: seq<seq<Byte>>, st: int, l: seq<Byte>) {
    && OneLine(first) && HeaderLines(ls) && |first| + |Block(ls)| + 4 <= 8191
    && StatusIs(first, st) && LocationIs(ls, l)
  }

  /** Whether the client goes elsewhere, and whether it can. */
  predicate Moved(st: int, l: seq<Byte>, follow: bool) { 300 <= st < 400 && follow && l != [] }

  predicate IsUrl(l: seq<Byte>) { Ascii("http://") <= l || Ascii("https://") <= l }

  /** The first bytes that fit the output. */
  function Fitting(b: seq<Byte>, room: nat): seq<Byte> { if |b| <= room then b else b[..room] }

  /** The blank line, the fields and the status are found where they were put. */
  lemma Landmarks(first: seq<Byte>, ls: seq<seq<Byte>>, body: seq<Byte>, st: int, l: seq<Byte>, have: nat)
    requires Sent(first, ls, st, l)
    requires |first| + |Block(ls)| + 4 <= have <= |Response(first, ls, body)|
    ensures var s := Response(first, ls, body);
            && Find(Window(s), BLANK_LINE) == |first| + |Block(ls)|
            && StatusOf(s[..have]) == Some(st)
            && s[|first| + |Block(ls)| + 4..] == body
            && var f := FieldsOf(CString(HeadOf(s)));
               f.location == l && (f.chunked <==> AsksChunked(ls)) && LengthIs(ls, f.length)
  {
    hide Find, StatusOf, FieldsOf, CString, OneLine, HeaderLines, StatusIs, LocationIs, Block, AsksChunked, LengthIs;
    var s, head := Response(first, ls, body), first + Block(ls);
    var off := |head| + 4;
    assert s == head + BLANK_LINE + body;
    BlankEnds(first, ls);
    var w := Window(s);
    assert w == head + BLANK_LINE + w[off..] by {
      assert w[..off] == head + BLANK_LINE;
    }
    FindStable(head + BLANK_LINE, w[off..], BLANK_LINE);
    assert s[..|head|] == head;
    NoNul(first, ls);
    CStringIs(head, |head|);
    assert head[..|head|] == head;
    HeadMeans(first, ls);
    OneLocation(ls, l, FieldsOf(head).location);
    StatusSeen(first, ls, body, st, have);
  }

  lemma StatusSeen(first: seq<Byte>, ls: seq<seq<Byte>>, body: seq<Byte>, st: int, have: nat)
    requires OneLine(first) && StatusIs(first, st)
    requires |first| + |Block(ls)| + 4 <= have <= |Response(first, ls, body)|
    ensures StatusOf(Response(first, ls, body)[..have]) == Some(st)
  {
    hide StatusOf, StatusIs, Block, OneLine;
    var s := Response(first, ls, body);
    var more := s[|first|..have];
    assert s[..have] == first + more;
    assert more[0] == 13 by {
      if ls == [] { BlockNone(); } else { BlockHead(ls); }
    }
    StatusMeans(first, more, st);
  }

  /** The outcomes, on the response's own lines. */
  lemma OutcomesSent(first: seq<Byte>, ls: seq<seq<Byte>>, body: seq<Byte>, st: int, l: seq<Byte>,
                     failing: bool, room: nat, follow: bool, have: nat)
    requires Sent(first, ls, st, l)
    requires |first| + |Block(ls)| + 4 <= have <= |Response(first, ls, body)|
    ensures var s := Response(first, ls, body);
            && Find(Window(s), BLANK_LINE) == |first| + |Block(ls)|
            && var r := ResultFor(s, failing, room, follow, have);
               && (r == Result(Redirected(l), []) <==> Moved(st, l, follow) && IsUrl(l))
               && (r == Result(Failed(8), []) <==> Moved(st, l, follow) && !IsUrl(l))
               && (r == Result(Failed(6), []) <==> st >= 400)
               && (r.outcome.Saved? <==> !Moved(st, l, follow) && st < 400)
  {
    hide Find, StatusOf, FieldsOf, CString, Sent, Block, AsksChunked, LengthIs, ResultFor, Decode, PlainBodyOf,
         Window, Response;
    Landmarks(first, ls, body, st, l, have);
    OutcomesExactly(Response(first, ls, body), failing, room, follow, have);
  }

  /** A chunked response that is neither a redirect nor an error, with whole chunks of
      at most 63 size digits: what is written is exactly the payload, as far as there
      is room for it. */
  lemma ChunkedSent(first: seq<Byte>, ls: seq<seq<Byte>>, cs: seq<Chunk>, zeros: seq<Byte>, ext: seq<Byte>,
                    trailer: seq<Byte>, st: int, l: seq<Byte>, failing: bool, room: nat, follow: bool, have: nat)
    requires Sent(first, ls, st, l) && !Moved(st, l, follow) && st < 400 && AsksChunked(ls)
    requires forall c :: c in cs ==> WellFormed(c) && ChunkedCodec.Short(c)
    requires SizeLine(zeros, ext, 0)
    requires |first| + |Block(ls)| + 4 <= have <= |Response(first, ls, Encode(cs, zeros, ext) + trailer)|
    ensures var s := Response(first, ls, Encode(cs, zeros, ext) + trailer);
            && Find(Window(s), BLANK_LINE) == |first| + |Block(ls)|
            && ResultFor(s, failing, room, follow, have)
               == Result(Saved(if |Payload(cs)| <= room then 0 else 7), Fitting(Payload(cs), room))
  {
    hide Find, StatusOf, FieldsOf, CString, Sent, Block, AsksChunked, LengthIs, ResultFor, Decode, PlainBodyOf,
         Window, Response, WellFormed, ChunkedCodec.Short, SizeLine, Encode, Payload;
    var body := Encode(cs, zeros, ext) + trailer;
    Landmarks(first, ls, body, st, l, have);
    OutcomesExactly(Response(first, ls, body), failing, room, follow, have);
    DecodeInvertsEncode(cs, zeros, ext, trailer);
  }

  /** A plain response that announced n bytes (none: -1), for every body that follows:
      at most n of it is written unless more than n came with the headers, in which
      case all of it is; a read error matters unless all n bytes came. */
  lemma PlainSent(first: seq<Byte>, ls: seq<seq<Byte>>, body: seq<Byte>, n: int, st: int, l: seq<Byte>,
                  failing: bool, room: nat, follow: bool, have: nat)
    requires Sent(first, ls, st, l) && !Moved(st, l, follow) && st < 400 && !AsksChunked(ls) && LengthIs(ls, n)
    requires |first| + |Block(ls)| + 4 <= have <= |Response(first, ls, body)|
    ensures var s := Response(first, ls, body);
            var early := have - (|first| + |Block(ls)| + 4);
            var counted := 0 <= n && early <= n;
            var b := if counted then Fitting(body, n) else body;
            && Find(Window(s), BLANK_LINE) == |first| + |Block(ls)|
            && ResultFor(s, failing, room, follow, have)
               == Result(Saved(if |b| <= room && (!failing || (counted && n <= |body|)) then 0 else 7), Fitting(b, room))
  {
    hide Find, StatusOf, FieldsOf, CString, Sent, Block, AsksChunked, LengthIs, ResultFor, Decode, CutAt,
         Window, Response, PlainBodyOf;
    var s, off := Response(first, ls, body), |first| + |Block(ls)| + 4;
    Landmarks(first, ls, body, st, l, have);
    OutcomesExactly(s, failing, room, follow, have);
    OneLength(ls, n, FieldsOf(CString(HeadOf(s))).length);
    var early := have - off;
    assert s[off..have] == body[..early] && s[have..] == body[early..];
    PlainCut(body, early, n, failing);
  }

  lemma PlainCut(body: seq<Byte>, early: nat, n: int, failing: bool)
    requires early <= |body|
    ensures PlainBodyOf(body[..early], body[early..], n, failing)
            == if 0 <= n && early <= n then Body(Fitting(body, n), |body| >= n || !failing) else Body(body, !failing)
  {
    CutValue(body, early, n, failing);
  }

  // ------------------------------------------------------------------- an example

  const STATUS_LINE: seq<Byte> := Ascii("HTTP/1.1") + [32] + Ascii("200 OK")
  const ENCODING_LINE: seq<Byte> := Ascii("Transfer-Encoding") + [58, 32] + CHUNKED_WORD
  const HELLO: seq<Byte> := Ascii("hello")
  const HELLO_CHUNK := Chunk([53], [], HELLO)

  /** "HTTP/1.1 200 OK", "Transfer-Encoding: chunked", and the chunk "hello": the output
      is "hello", however the response was cut. */
  lemma HelloArrives(failing: bool, room: nat, follow: bool, have: nat)
    requires room >= 5
    requires 15 + 28 + 4 <= have <= |Response(STATUS_LINE, [ENCODING_LINE], Encode([HELLO_CHUNK], [48], []) + [13, 10])|
    ensures var s := Response(STATUS_LINE, [ENCODING_LINE], Encode([HELLO_CHUNK], [48], []) + [13, 10]);
            && Find(Window(s), BLANK_LINE) == 43
            && ResultFor(s, failing, room, follow, have) == Result(Saved(0), HELLO)
  {
    hide Encode, Response, Find, Window, ResultFor, OneLine, StatusIs, LocationIs, AsksChunked, WellFormed,
         SizeLine, Block, ChunkedCodec.Short;
    LineSizes();
    StatusLineMeans();
    EncodingLineMeans();
    HelloEncodes();
    BlockHead([ENCODING_LINE]);
    BlockNone();
    assert [ENCODING_LINE][1..] == [];
    assert Payload([HELLO_CHUNK]) == HELLO by {
      assert [HELLO_CHUNK][1..] == [];
    }
    ChunkedSent(STATUS_LINE, [ENCODING_LINE], [HELLO_CHUNK], [48], [], [13, 10], 200, [], failing, room, follow, have);
  }

  lemma LineSizes()
    ensures |STATUS_LINE| == 15 && |ENCODING_LINE| == 26 && |HELLO| == 5
  {}

  lemma StatusLineMeans()
    ensures OneLine(STATUS_LINE) && StatusIs(STATUS_LINE, 200)
  {
    hide Shows, OneLine, StatusIs;
    StatusParts();
    TwoHundredShown(Ascii("200 OK"));
    StatusFromParts(Ascii("HTTP/1.1"), Ascii("200 OK"), 200);
  }

  lemma StatusParts()
    ensures OneLine(Ascii("HTTP/1.1")) && OneLine(Ascii("200 OK"))
    ensures Ascii("HTTP/") <= Ascii("HTTP/1.1") && 32 !in Ascii("HTTP/1.1")
  {}

  lemma StatusFromParts(version: seq<Byte>, t: seq<Byte>, st: int)
    requires OneLine(version) && OneLine(t) && Ascii("HTTP/") <= version && 32 !in version
    requires t != [] && t[0] != 32 && !(9 <= t[0] <= 13) && Shows(t, 0x7fff_ffff, st)
    ensures OneLine(version + [32] + t) && StatusIs(version + [32] + t, st)
  {
    hide Shows, Ascii;
    var s, sp := version + [32] + t, |version|;
    assert s[..sp] == version && s[sp] == 32 && s[sp + 1..] == t && s[sp + 1] == t[0];
    assert Ascii("HTTP/") <= s;
  }

  lemma TwoHundredShown(t: seq<Byte>)
    requires |t| > 3 && t[..3] == [50, 48, 48] && t[3] == 32
    ensures Shows(t, 0x7fff_ffff, 200)
  {
    assert t[0] == t[..3][0] && t[1] == t[..3][1] && t[2] == t[..3][2];
    assert NumberIn(t, 0, 0, 3);
    var d := t[0..3];
    assert d == t[..3];
    assert d[..2] == [50, 48] && [50, 48][..1] == [50] && [50][..0] == [];
    assert Value([50]) == 2;
    assert Value([50, 48]) == 20;
    assert Value(d) == 200;
  }

  lemma EncodingLineMeans()
    ensures HeaderLines([ENCODING_LINE]) && AsksChunked([ENCODING_LINE]) && LocationIs([ENCODING_LINE], [])
  {
    hide OneLine, Carries, Contains;
    var ls := [ENCODING_LINE];
    EncodingParts();
    assert Carries(ls[0], ENCODING_NAME, CHUNKED_WORD);
    assert Contains(CHUNKED_WORD, CHUNKED_WORD) by {
      WholePart(CHUNKED_WORD);
    }
    forall v ensures !Carries(ls[0], LOCATION_NAME, v) {
      NoLocation(v);
    }
  }

  lemma WholePart(t: seq<Byte>)
    ensures Contains(t, t)
  {
    assert t <= t[0..];
  }

  lemma NoLocation(v: seq<Byte>)
    ensures !Carries(ENCODING_LINE, LOCATION_NAME, v)
  {
    Names();
    assert ENCODING_LINE[..8][0] == 84 && LOCATION_NAME[0] == 108;
  }

  lemma EncodingParts()
    ensures OneLine(ENCODING_LINE) && ENCODING_LINE != [] && Carries(ENCODING_LINE, ENCODING_NAME, CHUNKED_WORD)
  {
    var name := Ascii("Transfer-Encoding");
    NameInCapitals();
    HeaderFromParts(name, ENCODING_NAME, [32], CHUNKED_WORD);
    assert name + [58, 32] + CHUNKED_WORD == name + [58] + [32] + CHUNKED_WORD;
  }

  lemma NameInCapitals()
    ensures OneLine(Ascii("Transfer-Encoding")) && SameLetters(Ascii("Transfer-Encoding"), ENCODING_NAME)
    ensures OneLine(CHUNKED_WORD) && CHUNKED_WORD != [] && CHUNKED_WORD[0] == 99
  {}

  lemma HeaderFromParts(written: seq<Byte>, name: seq<Byte>, blanks: seq<Byte>, v: seq<Byte>)
    requires OneLine(written) && OneLine(v) && SameLetters(written, name) && Blanks(blanks)
    requires v != [] ==> v[0] != 32 && v[0] != 9
    ensures OneLine(written + [58] + blanks + v) && Carries(written + [58] + blanks + v, name, v)
  {
    hide SameLetters;
    assert |written| == |name| by { SameLength(written, name); }
    var line := written + [58] + blanks + v;
    var k := |line| - |v|;
    assert line[..|name|] == written && line[|name| + 1..k] == blanks && line[k..] == v;
  }

  lemma SameLength(s: seq<Byte>, w: seq<Byte>)
    requires SameLetters(s, w)
    ensures |s| == |w|
  {}

  lemma HelloEncodes()
    ensures WellFormed(HELLO_CHUNK) && ChunkedCodec.Short(HELLO_CHUNK) && SizeLine([48], [], 0)
  {
    assert [53][..0] == [] && [48][..0] == [];
    assert HexValue([53]) == 5;
    assert HexValue([48]) == 0;
  }
}
