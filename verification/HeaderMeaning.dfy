/** What read_headers() takes from a response, said of the lines a server sends: the
    last number of a Content-Length line, whether a Transfer-Encoding line mentions
    "chunked", the last Location that fits, and the number on the status line. */
module HeaderMeaning {
  import opened Words
  import opened CText
  import opened Numerals
  import opened Headers

  // -------------------------------------------------------------- the response

  /** Text that can stand on one line: no carriage return ends it, no NUL hides the
      rest. */
  predicate OneLine(t: seq<Byte>) { 13 !in t && 0 !in t }

  predicate HeaderLines(ls: seq<seq<Byte>>) { forall i :: 0 <= i < |ls| ==> OneLine(ls[i]) && ls[i] != [] }

  /** Each line after the CR LF that ends the one before. */
  function Block(ls: seq<seq<Byte>>): seq<Byte> {
    if ls == [] then [] else [13, 10] + ls[0] + Block(ls[1..])
  }

  function Response(first: seq<Byte>, ls: seq<seq<Byte>>, body: seq<Byte>): seq<Byte> {
    first + Block(ls) + [13, 10, 13, 10] + body
  }

  // ------------------------------------------------------------------- one line

  function Upper(c: Byte): Byte { if 97 <= c <= 122 then c - 32 else c }

  /** s is the lower-case word w, in any letter case. */
  predicate SameLetters(s: seq<Byte>, w: seq<Byte>) {
    |s| == |w| && forall i :: 0 <= i < |w| ==> s[i] == w[i] || s[i] == Upper(w[i])
  }

  predicate Blanks(t: seq<Byte>) { forall i :: 0 <= i < |t| ==> t[i] == 32 || t[i] == 9 }

  /** The line is header `name` with value v: the name, a colon, blanks, the value. */
  predicate Carries(line: seq<Byte>, name: seq<Byte>, v: seq<Byte>) {
    var k := |line| - |v|;
    && |name| < k && SameLetters(line[..|name|], name) && line[|name|] == 58
    && Blanks(line[|name| + 1..k]) && v == line[k..]
    && (v != [] ==> v[0] != 32 && v[0] != 9)
  }

  const LENGTH_NAME: seq<Byte> := Ascii("content-length")
  const ENCODING_NAME: seq<Byte> := Ascii("transfer-encoding")
  const LOCATION_NAME: seq<Byte> := Ascii("location")
  const CHUNKED_WORD: seq<Byte> := Ascii("chunked")

  // ------------------------------------------------------------ what they all say

  ghost predicate AsksChunked(ls: seq<seq<Byte>>) {
    exists i, v :: 0 <= i < |ls| && Carries(ls[i], ENCODING_NAME, v) && Contains(v, CHUNKED_WORD)
  }

  ghost predicate LastLength(ls: seq<seq<Byte>>, i: nat, v: seq<Byte>) {
    && i < |ls| && Carries(ls[i], LENGTH_NAME, v)
    && forall j, w :: i < j < |ls| ==> !Carries(ls[j], LENGTH_NAME, w)
  }

  /** The number on the last Content-Length line; -1 without any. */
  ghost predicate LengthIs(ls: seq<seq<Byte>>, n: int) {
    || (n == -1 && forall i, v :: 0 <= i < |ls| ==> !Carries(ls[i], LENGTH_NAME, v))
    || (exists i, v :: LastLength(ls, i, v) && Shows(v, 0x7fff_ffff_ffff_ffff, n))
  }

  ghost predicate LastLocation(ls: seq<seq<Byte>>, i: nat, l: seq<Byte>) {
    && i < |ls| && Carries(ls[i], LOCATION_NAME, l) && |l| < 2048
    && forall j, w :: i < j < |ls| && Carries(ls[j], LOCATION_NAME, w) ==> |w| >= 2048
  }

  /** The last Location of fewer than 2048 bytes; empty without any. */
  ghost predicate LocationIs(ls: seq<seq<Byte>>, l: seq<Byte>) {
    || (l == [] && forall i, v :: 0 <= i < |ls| && Carries(ls[i], LOCATION_NAME, v) ==> |v| >= 2048)
    || (exists i :: LastLocation(ls, i, l))
  }

  /** The status line: "HTTP/", and behind its first space something that is not white
      space; st is the number there. */
  ghost predicate StatusIs(first: seq<Byte>, st: int) {
    && Ascii("HTTP/") <= first
    && exists sp :: 0 <= sp < |first| && first[sp] == 32 && 32 !in first[..sp]
                    && (exists x :: sp < x < |first| && first[x] != 32 && !(9 <= first[x] <= 13))
                    && Shows(first[sp + 1..], 0x7fff_ffff, st)
  }

  // --------------------------------------------------------------- reading lines

  /** A lower-case name as the client looks for it. */
  predicate IsName(name: seq<Byte>) { forall i :: 0 <= i < |name| ==> 97 <= name[i] <= 122 || name[i] == 45 }

  lemma Names()
    ensures IsName(LENGTH_NAME) && LENGTH_NAME + [58] == CONTENT_LENGTH && |LENGTH_NAME| == 14
    ensures IsName(ENCODING_NAME) && ENCODING_NAME + [58] == TRANSFER_ENCODING && |ENCODING_NAME| == 17
    ensures IsName(LOCATION_NAME) && LOCATION_NAME + [58] == Headers.LOCATION && |LOCATION_NAME| == 8
    ensures CHUNKED_WORD == CHUNKED
  {
    hide IsName;
    LengthName();
    EncodingName();
    LocationName();
  }

  lemma LengthName()
    ensures IsName(LENGTH_NAME) && LENGTH_NAME + [58] == CONTENT_LENGTH && |LENGTH_NAME| == 14
  {}

  lemma EncodingName()
    ensures IsName(ENCODING_NAME) && ENCODING_NAME + [58] == TRANSFER_ENCODING && |ENCODING_NAME| == 17
  {}

  lemma LocationName()
    ensures IsName(LOCATION_NAME) && LOCATION_NAME + [58] == Headers.LOCATION && |LOCATION_NAME| == 8
    ensures CHUNKED_WORD == CHUNKED
  {}

  lemma {:induction false} BlankSkip(t: seq<Byte>, v: seq<Byte>)
    requires |v| <= |t| && v == t[|t| - |v|..] && Blanks(t[..|t| - |v|])
    requires v != [] ==> v[0] != 32 && v[0] != 9
    ensures SkipBlank(t) == v
  {
    if |t| > |v| {
      assert t[0] == t[..|t| - |v|][0];
      assert t[1..][|t| - 1 - |v|..] == v;
      assert t[1..][..|t| - 1 - |v|] == t[..|t| - |v|][1..];
      BlankSkip(t[1..], v);
    }
  }

  lemma {:induction false} Skipped(t: seq<Byte>)
    ensures var v := SkipBlank(t);
            && |v| <= |t| && v == t[|t| - |v|..] && Blanks(t[..|t| - |v|])
            && (v != [] ==> v[0] != 32 && v[0] != 9)
  {
    if t != [] && IsBlank(t[0]) {
      Skipped(t[1..]);
      var v := SkipBlank(t);
      assert t[1..][|t| - 1 - |v|..] == t[|t| - |v|..];
      assert t[..|t| - |v|] == [t[0]] + t[1..][..|t| - 1 - |v|];
    } else {
      assert t[..0] == [];
    }
  }

  lemma NameIff(line: seq<Byte>, name: seq<Byte>)
    requires IsName(name)
    ensures CiPrefix(line, name + [58])
            <==> |name| < |line| && SameLetters(line[..|name|], name) && line[|name|] == 58
  {
    var pat := name + [58];
    if CiPrefix(line, pat) {
      forall i | 0 <= i < |name| ensures line[i] == name[i] || line[i] == Upper(name[i]) {
        assert Lower(line[i]) == Lower(pat[i]) && pat[i] == name[i];
      }
      assert Lower(line[|name|]) == Lower(pat[|name|]) && pat[|name|] == 58;
    }
    if |name| < |line| && SameLetters(line[..|name|], name) && line[|name|] == 58 {
      forall i | 0 <= i < |pat| ensures Lower(line[i]) == Lower(pat[i]) {
        if i < |name| {
          assert line[..|name|][i] == line[i] && pat[i] == name[i];
        }
      }
    }
  }

  /** The client's test for a header, and the value it goes on with. */
  lemma CarriesIff(line: seq<Byte>, name: seq<Byte>, v: seq<Byte>)
    requires IsName(name)
    ensures Carries(line, name, v) <==> CiPrefix(line, name + [58]) && v == SkipBlank(line[|name| + 1..])
  {
    hide CiPrefix, SkipBlank, SameLetters;
    NameIff(line, name);
    if |name| < |line| {
      var t := line[|name| + 1..];
      Skipped(t);
      var k := |line| - |v|;
      if Carries(line, name, v) {
        assert t[|t| - |v|..] == line[k..];
        assert t[..|t| - |v|] == line[|name| + 1..k];
        BlankSkip(t, v);
      }
      if v == SkipBlank(t) {
        assert t[|t| - |v|..] == line[k..];
        assert t[..|t| - |v|] == line[|name| + 1..k];
      }
    }
  }

  lemma OneName(line: seq<Byte>)
    ensures CiPrefix(line, CONTENT_LENGTH) ==> !CiPrefix(line, TRANSFER_ENCODING) && !CiPrefix(line, Headers.LOCATION)
    ensures CiPrefix(line, TRANSFER_ENCODING) ==> !CiPrefix(line, Headers.LOCATION)
  {
    if |line| > 8 {
      assert Lower(CONTENT_LENGTH[0]) == 99 && Lower(TRANSFER_ENCODING[0]) == 116 && Lower(Headers.LOCATION[0]) == 108;
    }
  }

  /** What one more line does to the fields. */
  lemma LineMeans(f: Fields, line: seq<Byte>, v: seq<Byte>)
    ensures var g := ApplyLine(f, line);
            && (Carries(line, LENGTH_NAME, v) ==> Shows(v, 0x7fff_ffff_ffff_ffff, g.length))
            && (Carries(line, ENCODING_NAME, v) ==> (g.chunked <==> f.chunked || Contains(v, CHUNKED_WORD)))
            && (Carries(line, LOCATION_NAME, v) ==> g.location == if |v| < 2048 then v else f.location)
  {
    hide Strto, SkipBlank, CiPrefix, Find, Carries, Shows, Contains;
    Names();
    CarriesIff(line, LENGTH_NAME, v);
    CarriesIff(line, ENCODING_NAME, v);
    CarriesIff(line, LOCATION_NAME, v);
    OneName(line);
    FindMeans(v, CHUNKED);
    ShowsIff(v, 0x7fff_ffff_ffff_ffff, Strto(v, 10, LLONG_MAX));
  }

  /** A line that carries none of a header's values leaves its field alone. */
  lemma LineLeaves(f: Fields, line: seq<Byte>)
    ensures var g := ApplyLine(f, line);
            && ((forall v :: !Carries(line, LENGTH_NAME, v)) ==> g.length == f.length)
            && ((forall v :: !Carries(line, ENCODING_NAME, v)) ==> g.chunked == f.chunked)
            && ((forall v :: !Carries(line, LOCATION_NAME, v)) ==> g.location == f.location)
  {
    hide Strto, SkipBlank, CiPrefix, Find, Carries;
    Names();
    if |line| >= 15 { CarriesIff(line, LENGTH_NAME, SkipBlank(line[15..])); }
    if |line| >= 18 { CarriesIff(line, ENCODING_NAME, SkipBlank(line[18..])); }
    if |line| >= 9 { CarriesIff(line, LOCATION_NAME, SkipBlank(line[9..])); }
    PrefixFits(line);
  }

  lemma PrefixFits(line: seq<Byte>)
    ensures CiPrefix(line, CONTENT_LENGTH) ==> |line| >= 15
    ensures CiPrefix(line, TRANSFER_ENCODING) ==> |line| >= 18
    ensures CiPrefix(line, Headers.LOCATION) ==> |line| >= 9
  {}

  lemma OneValue(line: seq<Byte>, name: seq<Byte>, v: seq<Byte>, w: seq<Byte>)
    requires IsName(name) && Carries(line, name, v) && Carries(line, name, w)
    ensures v == w
  {
    hide Carries, SkipBlank, CiPrefix;
    CarriesIff(line, name, v);
    CarriesIff(line, name, w);
  }

  // ------------------------------------------------------------- the whole header

  /** The fields after these lines. */
  function Applied(ls: seq<seq<Byte>>): Fields {
    if ls == [] then NO_FIELDS else ApplyLine(Applied(ls[..|ls| - 1]), ls[|ls| - 1])
  }

  lemma {:induction false} AppliedMeans(ls: seq<seq<Byte>>)
    ensures Applied(ls).chunked <==> AsksChunked(ls)
    ensures LengthIs(ls, Applied(ls).length)
    ensures LocationIs(ls, Applied(ls).location)
  {
    hide ApplyLine, Carries, AsksChunked, LengthIs, LocationIs;
    if ls == [] {
      NothingSaid();
    } else {
      var front, line := ls[..|ls| - 1], ls[|ls| - 1];
      assert ls == front + [line];
      AppliedMeans(front);
      var f := Applied(front);
      ChunkedStep(front, line, f);
      LengthStep(front, line, f);
      LocationStep(front, line, f);
    }
  }

  lemma NothingSaid()
    ensures !AsksChunked([]) && LengthIs([], -1) && LocationIs([], [])
  {}

  lemma ChunkedStep(front: seq<seq<Byte>>, line: seq<Byte>, f: Fields)
    requires f.chunked <==> AsksChunked(front)
    ensures ApplyLine(f, line).chunked <==> AsksChunked(front + [line])
  {
    hide ApplyLine, Carries, Contains;
    var ls := front + [line];
    assert forall i :: 0 <= i < |front| ==> ls[i] == front[i];
    LineLeaves(f, line);
    if v :| Carries(line, ENCODING_NAME, v) {
      LineMeans(f, line, v);
      assert ls[|front|] == line;
      forall w | Carries(line, ENCODING_NAME, w) ensures w == v {
        Names();
        OneValue(line, ENCODING_NAME, v, w);
      }
    }
    if AsksChunked(front) {
      var i, v :| 0 <= i < |front| && Carries(front[i], ENCODING_NAME, v) && Contains(v, CHUNKED_WORD);
      assert Carries(ls[i], ENCODING_NAME, v);
    }
  }

  lemma LengthStep(front: seq<seq<Byte>>, line: seq<Byte>, f: Fields)
    requires LengthIs(front, f.length)
    ensures LengthIs(front + [line], ApplyLine(f, line).length)
  {
    hide ApplyLine, Carries, Shows;
    var ls := front + [line];
    assert forall i :: 0 <= i < |front| ==> ls[i] == front[i];
    LineLeaves(f, line);
    if v :| Carries(line, LENGTH_NAME, v) {
      LineMeans(f, line, v);
      assert LastLength(ls, |front|, v);
    } else if i, v :| LastLength(front, i, v) && Shows(v, 0x7fff_ffff_ffff_ffff, f.length) {
      assert LastLength(ls, i, v);
    }
  }

  lemma LocationStep(front: seq<seq<Byte>>, line: seq<Byte>, f: Fields)
    requires LocationIs(front, f.location)
    ensures LocationIs(front + [line], ApplyLine(f, line).location)
  {
    hide ApplyLine, Carries;
    var ls, l := front + [line], f.location;
    assert forall i :: 0 <= i < |front| ==> ls[i] == front[i];
    LineLeaves(f, line);
    if v :| Carries(line, LOCATION_NAME, v) {
      LineMeans(f, line, v);
      forall w | Carries(line, LOCATION_NAME, w) ensures w == v {
        Names();
        OneValue(line, LOCATION_NAME, v, w);
      }
      if |v| < 2048 {
        assert LastLocation(ls, |front|, v);
        return;
      }
    }
    if i :| LastLocation(front, i, l) {
      assert LastLocation(ls, i, l);
    }
  }

  /** The walk reads the block a line at a time. */
  lemma {:induction false} WalkBlock(h: seq<Byte>, pre: seq<Byte>, done: seq<seq<Byte>>, ls: seq<seq<Byte>>)
    requires HeaderLines(ls) && ls != [] && h == pre + Block(ls)
    ensures Walk(h, |pre|, Applied(done)) == Applied(done + ls)
    decreases |ls|
  {
    hide ApplyLine, Find, Block, Applied;
    var line, more := ls[0], ls[1..];
    BlockHead(ls);
    var t := line + Block(more);
    assert h[|pre| + 2..] == t;
    LineEnd(line, more);
    OneMore(done, line);
    if more == [] {
      BlockNone();
      assert t == line && ls == [line];
    } else {
      var upTo := pre + [13, 10] + line;
      assert h == upTo + Block(more);
      WalkBlock(h, upTo, done + [line], more);
      assert done + [line] + more == done + ls;
      assert t[..|line|] == line;
    }
  }

  lemma OneMore(done: seq<seq<Byte>>, line: seq<Byte>)
    ensures Applied(done + [line]) == ApplyLine(Applied(done), line)
  {
    hide ApplyLine;
    assert (done + [line])[..|done|] == done;
  }

  lemma BlockHead(ls: seq<seq<Byte>>)
    requires ls != []
    ensures Block(ls) == [13, 10] + ls[0] + Block(ls[1..]) && |Block(ls)| >= 2 && Block(ls)[0] == 13 && Block(ls)[1] == 10
  {}

  /** A line ends where the block goes on. */
  lemma {:induction false} LineEnd(line: seq<Byte>, more: seq<seq<Byte>>)
    requires OneLine(line)
    ensures Find(line + Block(more), CRLF) == if more == [] then -1 else |line|
  {
    hide Block;
    var t := line + Block(more);
    if line != [] {
      assert t[0] == line[0] && line[0] in line;
      assert |t| >= 2 ==> t[..2] != CRLF by {
        assert |t| >= 2 ==> t[..2][0] == line[0];
      }
      assert t[1..] == line[1..] + Block(more);
      LineEnd(line[1..], more);
    } else if more == [] {
      assert Block(more) == [] by { BlockNone(); }
      assert t == [];
    } else {
      BlockHead(more);
      assert t == Block(more);
      assert t[..2] == [13, 10];
    }
  }

  lemma BlockNone()
    ensures Block([]) == []
  {}

  /** What the header text says, whatever its lines. */
  lemma HeadMeans(first: seq<Byte>, ls: seq<seq<Byte>>)
    requires OneLine(first) && HeaderLines(ls)
    ensures var f := FieldsOf(first + Block(ls));
            && (f.chunked <==> AsksChunked(ls))
            && LengthIs(ls, f.length)
            && LocationIs(ls, f.location)
  {
    hide AsksChunked, LengthIs, LocationIs, Block, Walk, Find, ApplyLine;
    LineEnd(first, ls);
    if ls != [] {
      WalkBlock(first + Block(ls), first, [], ls);
      assert [] + ls == ls;
    }
    AppliedMeans(ls);
  }

  /** A header says one length and one location. */
  lemma OneLength(ls: seq<seq<Byte>>, a: int, b: int)
    requires LengthIs(ls, a) && LengthIs(ls, b)
    ensures a == b
  {
    hide Carries, Shows;
    if i: nat, v :| LastLength(ls, i, v) && Shows(v, 0x7fff_ffff_ffff_ffff, a) {
      if j: nat, w :| LastLength(ls, j, w) && Shows(w, 0x7fff_ffff_ffff_ffff, b) {
        Names();
        assert i == j;
        OneValue(ls[i], LENGTH_NAME, v, w);
        ShowsIff(v, 0x7fff_ffff_ffff_ffff, a);
        ShowsIff(v, 0x7fff_ffff_ffff_ffff, b);
      }
    }
  }

  lemma OneLocation(ls: seq<seq<Byte>>, a: seq<Byte>, b: seq<Byte>)
    requires LocationIs(ls, a) && LocationIs(ls, b)
    ensures a == b
  {
    hide Carries;
    if i: nat, j: nat :| LastLocation(ls, i, a) && LastLocation(ls, j, b) {
      Names();
      assert i == j;
      OneValue(ls[i], LOCATION_NAME, a, b);
    }
  }

  // ------------------------------------------------------------ where it ends

  /** Nothing in a header is its blank line. */
  lemma {:induction false} BlankEnds(line: seq<Byte>, ls: seq<seq<Byte>>)
    requires OneLine(line) && HeaderLines(ls)
    ensures Find(line + Block(ls) + BLANK_LINE, BLANK_LINE) == |line + Block(ls)|
    decreases |ls|, |line|
  {
    hide Block, Find;
    var t := line + Block(ls) + BLANK_LINE;
    if line != [] {
      assert t[0] == line[0] && line[0] in line;
      var u := line[1..] + Block(ls) + BLANK_LINE;
      assert t == [line[0]] + u;
      BlankEnds(line[1..], ls);
      NotHere(line[0], u);
    } else if ls == [] {
      BlockNone();
      assert t == BLANK_LINE;
      FindFirst(t, BLANK_LINE, 0);
    } else {
      BlockHead(ls);
      var u := ls[0] + Block(ls[1..]) + BLANK_LINE;
      assert t == [13] + ([10] + u);
      assert u[0] == ls[0][0] && ls[0][0] in ls[0];
      BlankEnds(ls[0], ls[1..]);
      NotHere(10, u);
      NotHere(13, [10] + u);
    }
  }

  /** A blank line behind a byte that does not begin one. */
  lemma NotHere(c: Byte, u: seq<Byte>)
    requires c != 13 || (|u| > 1 && u[1] != 13)
    requires Find(u, BLANK_LINE) >= 0
    ensures Find([c] + u, BLANK_LINE) == Find(u, BLANK_LINE) + 1
  {
    hide Find;
    var t := [c] + u;
    assert |t| >= 4 ==> t[..4][0] == c && t[..4][2] == u[1];
    FindFurther(c, u, BLANK_LINE);
  }

  lemma FindFurther(c: Byte, u: seq<Byte>, pat: seq<Byte>)
    requires Find(u, pat) >= 0 && (|pat| <= |u| + 1 ==> ([c] + u)[..|pat|] != pat)
    ensures Find([c] + u, pat) == Find(u, pat) + 1
  {
    assert ([c] + u)[1..] == u;
  }

  lemma {:induction false} NoNul(line: seq<Byte>, ls: seq<seq<Byte>>)
    requires OneLine(line) && HeaderLines(ls)
    ensures 0 !in line + Block(ls)
    decreases |ls|
  {
    if ls != [] {
      NoNul(ls[0], ls[1..]);
      assert Block(ls) == [13, 10] + (ls[0] + Block(ls[1..]));
    }
  }

  // --------------------------------------------------------------- the status

  /** The number on the status line is the status, whatever follows the line. */
  lemma StatusMeans(first: seq<Byte>, more: seq<Byte>, st: int)
    requires OneLine(first) && StatusIs(first, st) && more != [] && more[0] == 13
    ensures StatusOf(first + more) == Some(st)
  {
    hide Strto, Find, CString, SkipSpace, Shows, Ascii;
    var sp :| 0 <= sp < |first| && first[sp] == 32 && 32 !in first[..sp]
              && (exists x :: sp < x < |first| && first[x] != 32 && !(9 <= first[x] <= 13))
              && Shows(first[sp + 1..], 0x7fff_ffff, st);
    var x :| sp < x < |first| && first[x] != 32 && !(9 <= first[x] <= 13);
    SomeNonSpace(first[sp + 1..], x - sp - 1);
    StatusText(first, more);
    NumberAfter(first, CString(first + more), sp);
    ShowsIff(first[sp + 1..], 0x7fff_ffff, st);
  }

  /** The first space and the number behind it, with more text behind the line. */
  lemma NumberAfter(first: seq<Byte>, text: seq<Byte>, sp: nat)
    requires sp < |first| && first[sp] == 32 && 32 !in first[..sp] && SkipSpace(first[sp + 1..]) != []
    requires first <= text && |text| > |first| && text[|first|] == 13
    ensures Find(text, [32]) == sp
    ensures Strto(text[sp + 1..], 10, LONG_MAX) == Strto(first[sp + 1..], 10, LONG_MAX)
  {
    hide Strto, Find, SkipSpace;
    var more := text[|first|..];
    FirstSpace(first, more, sp);
    assert text == first + more;
    assert text[sp + 1..] == first[sp + 1..] + more;
    DecimalStops(first[sp + 1..], more, LONG_MAX);
  }

  lemma {:induction false} SomeNonSpace(t: seq<Byte>, x: nat)
    requires x < |t| && t[x] != 32 && !(9 <= t[x] <= 13)
    ensures SkipSpace(t) != []
  {
    if IsSpace(t[0]) {
      SomeNonSpace(t[1..], x - 1);
    }
  }

  lemma StatusText(first: seq<Byte>, more: seq<Byte>)
    requires OneLine(first) && Ascii("HTTP/") <= first && more != [] && more[0] == 13
    ensures HTTP <= first + more
    ensures var t := CString(first + more); first <= t && |t| > |first| && t[|first|] == 13
  {
    assert HTTP == Ascii("HTTP/");
    assert (first + more)[..5] == first[..5];
    assert first[..|first|] == first;
    CStringIs(first, |first|);
    CStringAppend(first, more);
    assert CString(more) == [more[0]] + CString(more[1..]);
  }

  lemma {:induction false} FirstSpace(first: seq<Byte>, more: seq<Byte>, sp: nat)
    requires sp < |first| && first[sp] == 32 && 32 !in first[..sp]
    ensures Find(first + more, [32]) == sp
  {
    var t := first + more;
    if sp == 0 {
      assert t[..1] == [32];
    } else {
      assert first[0] in first[..sp];
      assert t[..1] == [first[0]];
      assert first[1..][..sp - 1] == first[..sp][1..];
      FirstSpace(first[1..], more, sp - 1);
      assert t[1..] == first[1..] + more;
    }
  }
}
