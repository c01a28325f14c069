/** From the response bytes to the output file: fetch() of board/hget/hget.c once
    the request is sent, and when its outcome is independent of how the stream was
    cut into reads. */
module Transfer {
  import opened Words
  import opened CText
  import opened Stream
  import opened Chunked
  import opened PlainBody
  import opened Headers

  datatype Outcome = Failed(code: int) | Redirected(location: seq<Byte>) | Saved(code: int)

  const HTTP_URL: seq<Byte> := [104, 116, 116, 112, 58, 47, 47]          // "http://"
  const HTTPS_URL: seq<Byte> := [104, 116, 116, 112, 115, 58, 47, 47]    // "https://"

  predicate Absolute(location: seq<Byte>) { HTTP_URL <= location || HTTPS_URL <= location }

  /** What the headers decide before any body is read. */
  function Early(status: int, f: Fields, follow: bool): Option<Outcome> {
    if 300 <= status < 400 && f.location != [] && follow then
      Some(if Absolute(f.location) then Redirected(f.location) else Failed(EX_REDIRECT))
    else if status >= 400 then Some(Failed(EX_HTTP))
    else None
  }

  /** A finished transfer: how it ended and every byte it wrote. */
  datatype Result = Result(outcome: Outcome, written: seq<Byte>)

  /** The transfer of stream s when exactly `have` bytes of it were in the header
      buffer at the blank line; `room` is what the output can take. */
  function ResultFor(s: seq<Byte>, failing: bool, room: nat, follow: bool, have: nat): Result
    requires Find(Window(s), BLANK_LINE) + 4 <= have <= |s| && Find(Window(s), BLANK_LINE) >= 0
  {
    var off := Find(Window(s), BLANK_LINE) + 4;
    var f := FieldsOf(CString(HeadOf(s)));
    match StatusOf(s[..have])
    case None => Result(Failed(EX_PROTO), [])
    case Some(status) =>
      match Early(status, f, follow)
      case Some(o) => Result(o, [])
      case None =>
        var b := if f.chunked then Decode(s[off..have] + s[have..])
                 else PlainBodyOf(s[off..have], s[have..], f.length, failing);
        Result(Saved(if b.complete && |b.bytes| <= room then EX_OK else EX_IO), Take(b.bytes, room))
  }

  /** What comes of a transfer, by the status number, the location and whether
      redirects are followed; only what is left over reads a body, and only that
      writes. */
  lemma OutcomesExactly(s: seq<Byte>, failing: bool, room: nat, follow: bool, have: nat)
    requires Find(Window(s), BLANK_LINE) + 4 <= have <= |s| && Find(Window(s), BLANK_LINE) >= 0
    ensures var r := ResultFor(s, failing, room, follow, have);
            var off := Find(Window(s), BLANK_LINE) + 4;
            var f := FieldsOf(CString(HeadOf(s)));
            var absolute := Ascii("http://") <= f.location || Ascii("https://") <= f.location;
            match StatusOf(s[..have])
            case None => r == Result(Failed(9), [])
            case Some(status) =>
              var moved := 300 <= status < 400 && follow && f.location != [];
              && (forall l :: r.outcome == Redirected(l) <==> moved && absolute && l == f.location)
              && (r.outcome == Failed(8) <==> moved && !absolute)
              && (r.outcome == Failed(6) <==> status >= 400)
              && (r.outcome.Saved? <==> !moved && status < 400)
              && (!r.outcome.Saved? ==> r.written == [])
              && (r.outcome.Saved? ==>
                   var b := if f.chunked then Decode(s[off..]) else PlainBodyOf(s[off..have], s[have..], f.length, failing);
                   && r.outcome == Saved(if b.complete && |b.bytes| <= room then 0 else 7)
                   && r.written == if |b.bytes| <= room then b.bytes else b.bytes[..room])
  {
    hide Find, StatusOf, FieldsOf, CString, Decode, PlainBodyOf, Window;
    var off := Find(Window(s), BLANK_LINE) + 4;
    assert s[off..have] + s[have..] == s[off..];
    Prefixes();
  }

  lemma Prefixes()
    ensures HTTP_URL == Ascii("http://") && HTTPS_URL == Ascii("https://")
  {}

  /** read_headers, the redirect and status tests, and the body. */
  method Run(c: Conn, hdrbuf: array<Byte>, out: Sink, follow: bool) returns (o: Outcome)
    requires hdrbuf.Length == 8192 && out.written == []
    modifies c, hdrbuf, out
    ensures var s := old(c.stream);
            var e := Find(Window(s), BLANK_LINE);
            if e < 0 then o == Failed(if |s| < 8191 && c.failing then 7 else 9) && out.written == []
            else exists have :: e + 4 <= have <= 8191 && have <= |s|
                             && Result(o, out.written) == ResultFor(s, c.failing, old(out.room), follow, have)
  {
    hide Find, StatusOf, FieldsOf, CString, Decode, PlainBodyOf, Window, Early;
    ghost var s := c.stream;
    var code, status, f, off, have := ReadHeaders(c, hdrbuf);
    if code != EX_OK {
      assert Find(Window(s), BLANK_LINE) >= 0 ==>
        Result(Failed(code), []) == ResultFor(s, c.failing, out.room, follow, have);
      return Failed(code);
    }
    assert s[have..] == c.stream && s[off..have] == hdrbuf[off..have];
    var early := Early(status, f, follow);
    if early.Some? {
      assert Result(early.value, []) == ResultFor(s, c.failing, out.room, follow, have);
      return early.value;
    }
    var rc, n;
    if f.chunked {
      rc, n := BodyChunked(hdrbuf[off..have], c, out);
    } else {
      rc, n := BodyPlain(hdrbuf[off..have], f.length, c, out);
    }
    o := Saved(rc);
    assert forall t: seq<Byte> :: [] + t == t;
    assert Result(o, out.written) == ResultFor(s, c.failing, old(out.room), follow, have);
  }

  // ------------------------------------------------------------------ the status

  /** The header text settles the status by itself: it is not HTTP, or a NUL hides
      what follows, or its first space is followed by something other than white
      space. */
  predicate Settled(head: seq<Byte>) {
    || !(HTTP <= head)
    || var t := CString(head);
       var i := Find(t, [32]);
       if i < 0 then |t| < |head| else |t| < |head| || SkipSpace(t[i + 1..]) != []
  }

  /** Whatever follows the blank line, however much of it is in the buffer, the
      status is the one the header block alone gives. */
  ghost predicate StatusCutFree(head: seq<Byte>) {
    forall extra: seq<Byte> :: |head| + 4 + |extra| <= HDR_MAX ==>
      StatusOf(head + BLANK_LINE + extra) == StatusOf(head + BLANK_LINE)
  }

  lemma HttpPrefix(head: seq<Byte>, extra: seq<Byte>)
    ensures HTTP <= head + BLANK_LINE + extra <==> HTTP <= head
  {
    var b := head + BLANK_LINE + extra;
    if |head| < 5 {
      assert b[|head|] == CR;
    } else {
      assert b[..5] == head[..5];
    }
  }

  lemma SettledStatus(head: seq<Byte>, extra: seq<Byte>)
    requires Settled(head)
    ensures StatusOf(head + BLANK_LINE + extra) == StatusOf(head + BLANK_LINE)
  {
    hide Strto, Find, CString, SkipSpace;
    HttpPrefix(head, extra);
    HttpPrefix(head, []);
    assert head + BLANK_LINE + [] == head + BLANK_LINE;
    if HTTP <= head {
      SettledText(head, BLANK_LINE + extra);
      SettledText(head, BLANK_LINE);
      assert head + BLANK_LINE + extra == head + (BLANK_LINE + extra);
    }
  }

  /** With HTTP at the front, a settled header gives the status of its own text. */
  lemma SettledText(head: seq<Byte>, more: seq<Byte>)
    requires Settled(head) && HTTP <= head && BLANK_LINE <= more
    ensures StatusOf(head + more) == StatusOf(head)
  {
    hide Strto, Find, SkipSpace, CString;
    assert HTTP <= head + more;
    var t := CString(head);
    CStringAppend(head, more);
    CStringHead(more);
    if |t| == |head| {
      CStringWhole(head);
      NumberInHead(head, CString(more));
    }
  }

  lemma CStringHead(more: seq<Byte>)
    requires BLANK_LINE <= more
    ensures CString(more) != [] && CString(more)[0] == CR
  {
    assert more[0] == CR;
  }

  lemma CStringWhole(t: seq<Byte>)
    requires |CString(t)| == |t|
    ensures CString(t) == t
  {}

  lemma NumberInHead(head: seq<Byte>, m: seq<Byte>)
    requires m != [] && m[0] == CR && 0 <= Find(head, [32]) < |head|
    requires SkipSpace(head[Find(head, [32]) + 1..]) != []
    ensures Find(head + m, [32]) == Find(head, [32])
    ensures Strto((head + m)[Find(head, [32]) + 1..], 10, LONG_MAX) == Strto(head[Find(head, [32]) + 1..], 10, LONG_MAX)
  {
    hide Strto, Find, SkipSpace;
    var i := Find(head, [32]);
    FindStable(head, m, [32]);
    FindBound(head, [32]);
    assert (head + m)[i + 1..] == head[i + 1..] + m;
    DecimalStops(head[i + 1..], m, LONG_MAX);
  }

  lemma UnsettledText(head: seq<Byte>, extra: seq<Byte>)
    requires !Settled(head) && 0 !in extra
    ensures var t := head + BLANK_LINE + extra;
            && CString(t) == t && HTTP <= t
            && StatusOf(t) == (var i := Find(t, [32]);
                               if i < 0 then None else Some(Strto(t[i + 1..], 10, LONG_MAX)))
  {
    hide Strto, Find, SkipSpace;
    var t := head + BLANK_LINE + extra;
    assert CString(head) == head;
    assert 0 !in t;
    CStringIs(t, |t|);
    assert t[..|t|] == t;
    HttpPrefix(head, extra);
  }

  /** A space that is not in the header text is found after the blank line, and a
      number that has not begun there begins after it. */
  lemma UnsettledDiffers(head: seq<Byte>)
    requires !Settled(head)
    ensures StatusOf(head + BLANK_LINE + [32]) != StatusOf(head + BLANK_LINE)
         || StatusOf(head + BLANK_LINE + [53]) != StatusOf(head + BLANK_LINE)
  {
    hide Strto, Find, SkipSpace;
    UnsettledText(head, [32]);
    UnsettledText(head, [53]);
    UnsettledText(head, []);
    var base := head + BLANK_LINE;
    assert base + [] == base;
    assert CString(head) == head;
    var i := Find(head, [32]);
    if i < 0 {
      NoSpaceInBlank(head);
      FindFirst(base + [32], [32], |base|);
    } else {
      FindBound(head, [32]);
      NumberAfterHead(head, i);
    }
  }

  lemma NumberAfterHead(head: seq<Byte>, i: int)
    requires i == Find(head, [32]) && 0 <= i < |head| && SkipSpace(head[i + 1..]) == []
    ensures var t := head + BLANK_LINE; Find(t, [32]) == i && Strto(t[i + 1..], 10, LONG_MAX) == 0
    ensures var t := head + BLANK_LINE + [53]; Find(t, [32]) == i && Strto(t[i + 1..], 10, LONG_MAX) == 5
  {
    hide Strto, Find, SkipSpace;
    SpacesThen(head[i + 1..]);
    SpaceInHead(head, i, BLANK_LINE);
    SpaceInHead(head, i, BLANK_LINE + [53]);
    assert head + (BLANK_LINE + [53]) == head + BLANK_LINE + [53];
  }

  lemma SpaceInHead(head: seq<Byte>, i: int, more: seq<Byte>)
    requires i == Find(head, [32]) && 0 <= i < |head|
    ensures Find(head + more, [32]) == i && (head + more)[i + 1..] == head[i + 1..] + more
  {
    hide Find;
    FindStable(head, more, [32]);
  }

  lemma SpacesThen(after: seq<Byte>)
    requires SkipSpace(after) == []
    ensures Strto(after + BLANK_LINE, 10, LONG_MAX) == 0
    ensures Strto(after + (BLANK_LINE + [53]), 10, LONG_MAX) == 5
  {
    SkipSpaceAppend(after, BLANK_LINE);
    SkipSpaceAppend(after, BLANK_LINE + [53]);
    SkipSpaceAppend(BLANK_LINE, [53]);
    BlankSkipped();
    assert Digits([53][1..], 10, 5) == 5;
    assert Digits([53], 10, 0) == 5;
  }

  lemma BlankSkipped()
    ensures SkipSpace(BLANK_LINE) == [] && SkipSpace([53]) == [53]
  {
    assert SkipSpace([LF]) == [] by { assert [LF][1..] == []; }
    assert SkipSpace([CR, LF]) == [] by { assert [CR, LF][1..] == [LF]; }
    assert SkipSpace([LF, CR, LF]) == [] by { assert [LF, CR, LF][1..] == [CR, LF]; }
    assert BLANK_LINE[1..] == [LF, CR, LF];
  }

  lemma {:induction false} NoSpaceInBlank(head: seq<Byte>)
    requires Find(head, [32]) < 0
    ensures Find(head + BLANK_LINE, [32]) < 0
  {
    var j := Find(head + BLANK_LINE, [32]);
    if j >= 0 {
      assert (head + BLANK_LINE)[j] == (head + BLANK_LINE)[j..j + 1][0] == 32;
      assert j < |head|;
      assert head[j..j + 1] == [32];
      FindFirst(head, [32], j);
    }
  }

  /** The status is independent of the cuts, for every body, exactly when the
      header text settles it or leaves no room for body in the buffer. */
  lemma StatusCutFreeIff(head: seq<Byte>)
    requires |head| + 4 <= HDR_MAX
    ensures StatusCutFree(head) <==> Settled(head) || |head| + 4 == HDR_MAX
  {
    hide StatusOf, Settled;
    if Settled(head) {
      forall extra: seq<Byte>
        ensures StatusOf(head + BLANK_LINE + extra) == StatusOf(head + BLANK_LINE)
      {
        SettledStatus(head, extra);
      }
    } else if |head| + 4 == HDR_MAX {
      forall extra: seq<Byte> | |head| + 4 + |extra| <= HDR_MAX
        ensures StatusOf(head + BLANK_LINE + extra) == StatusOf(head + BLANK_LINE)
      {
        assert head + BLANK_LINE + extra == head + BLANK_LINE;
      }
    } else {
      UnsettledDiffers(head);
    }
  }

  const BARE: seq<Byte> := HTTP + [49, 46, 49]         // "HTTP/1.1"

  /** A header block that is just "HTTP/1.1": malformed when it arrives alone, a
      success when the first bytes of a body " 200" arrive with it. */
  lemma StatusDependsOnCut()
    ensures StatusOf(BARE + BLANK_LINE) == None
    ensures StatusOf(BARE + BLANK_LINE + [32, 50, 48, 48]) == Some(200)
  {
    hide Strto, Find, SkipSpace;
    BareUnsettled();
    var base, body := BARE + BLANK_LINE, [32, 50, 48, 48];
    UnsettledText(BARE, []);
    UnsettledText(BARE, body);
    assert base + [] == base;
    NoSpaceInBlank(BARE);
    SpaceAfter(base, body);
    assert (base + body)[|base| + 1..] == [50, 48, 48];
    TwoHundred();
  }

  lemma BareUnsettled()
    ensures !Settled(BARE) && Find(BARE, [32]) < 0
  {
    hide Find;
    CStringIs(BARE, |BARE|);
    assert BARE[..|BARE|] == BARE;
    FindAbsent(BARE, 32);
  }

  lemma {:induction false} FindAbsent(s: seq<Byte>, c: Byte)
    requires c !in s
    ensures Find(s, [c]) < 0
  {
    if s != [] {
      FindAbsent(s[1..], c);
      assert s[..1] == [s[0]];
    }
  }

  lemma SpaceAfter(base: seq<Byte>, body: seq<Byte>)
    requires Find(base, [32]) < 0 && body != [] && body[0] == 32
    ensures Find(base + body, [32]) == |base|
  {
    hide Find;
    FindFirst(base + body, [32], |base|);
    var i := Find(base + body, [32]);
    if i < |base| {
      assert (base + body)[i] == (base + body)[i..i + 1][0] == 32;
      assert base[i..i + 1] == [32];
      FindFirst(base, [32], i);
    }
  }

  lemma TwoHundred()
    ensures Strto([50, 48, 48], 10, LONG_MAX) == 200
  {
    var t: seq<Byte> := [50, 48, 48];
    assert t[1..] == [48, 48] && [48, 48][1..] == [48] && [48][1..] == [];
    assert Digits([48], 10, 20) == 200;
    assert Digits([48, 48], 10, 2) == 200;
    assert Digits(t, 10, 0) == 200;
  }

  // ------------------------------------------------------------ the whole transfer

  /** How a transfer ends that offers body b to an output with this much room. */
  function Delivered(b: Body, room: nat): Result {
    Result(Saved(if b.complete && |b.bytes| <= room then EX_OK else EX_IO), Take(b.bytes, room))
  }

  /** Whether a plain or chunked body can be told apart by the share of it that came
      with the headers: not when it is chunked or of no announced length, when no
      surplus over that length can get into the header buffer, or when the surplus
      cannot show because the output is too small for the announced length. */
  predicate BodyCannotShow(s: seq<Byte>, off: nat, f: Fields, room: nat) {
    f.chunked || f.length < 0 || |s| - off <= f.length || |Window(s)| - off <= f.length || room < f.length
  }

  /** The exact condition, on the status as the headers alone give it and as the full
      buffer gives it: neither gives one; or the headers' own leads to an outcome; or
      both give one, the full buffer's leads to no early outcome, and the body cannot
      show the cuts either. */
  predicate CutsCannotShow(s: seq<Byte>, room: nat, follow: bool)
    requires Find(Window(s), BLANK_LINE) >= 0
  {
    var off := Find(Window(s), BLANK_LINE) + 4;
    var f := FieldsOf(CString(HeadOf(s)));
    var least, most := StatusOf(HeadOf(s) + BLANK_LINE), StatusOf(Window(s));
    || (least.None? && most.None?)
    || (least.Some? && Early(least.value, f, follow).Some?)
    || (least.Some? && most.Some? && Early(most.value, f, follow).None? && BodyCannotShow(s, off, f, room))
  }

  /** The result in terms of the body and the share of it that came early. */
  function OfCut(body: seq<Byte>, cut: nat, f: Fields, status: Option<int>, failing: bool, room: nat, follow: bool): Result
    requires cut <= |body|
  {
    match status
    case None => Result(Failed(EX_PROTO), [])
    case Some(st) =>
      match Early(st, f, follow)
      case Some(o) => Result(o, [])
      case None => Delivered(if f.chunked then Decode(body) else CutAt(body, cut, f.length, failing), room)
  }

  /** The result with `have` bytes in the buffer, in those terms. */
  lemma ResultCut(s: seq<Byte>, failing: bool, room: nat, follow: bool, have: nat)
    requires Find(Window(s), BLANK_LINE) >= 0
    requires Find(Window(s), BLANK_LINE) + 4 <= have <= |Window(s)| <= |s|
    ensures var off := Find(Window(s), BLANK_LINE) + 4;
            ResultFor(s, failing, room, follow, have)
            == OfCut(s[off..], have - off, FieldsOf(CString(HeadOf(s))), StatusOf(s[..have]), failing, room, follow)
  {
    hide Find, StatusOf, FieldsOf, CString, Decode, PlainBodyOf, Early, Take;
    var off := Find(Window(s), BLANK_LINE) + 4;
    var body := s[off..];
    assert s[off..have] + s[have..] == body;
    assert body[..have - off] == s[off..have] && body[have - off..] == s[have..];
  }

  /** A longer buffer: a status that is there stays there, and moves away from zero if
      it moves. */
  ghost predicate Grows(a: Option<int>, b: Option<int>) {
    a.Some? ==> b.Some? && if b.value >= 0 then a.value <= b.value else a.value <= 0
  }

  lemma StatusGrows(buf: seq<Byte>, more: seq<Byte>)
    ensures Grows(StatusOf(buf), StatusOf(buf + more))
  {
    hide Strto, Find, CString;
    CStringAppend(buf, more);
    var t, u := CString(buf), CString(buf + more);
    if StatusOf(buf).Some? {
      assert (buf + more)[..5] == buf[..5];
      var i := Find(t, [32]);
      TextGrows(t, u);
      FindStable(t, u[|t|..], [32]);
      FindBound(t, [32]);
      assert u[i + 1..] == t[i + 1..] + u[|t|..];
      StrtoMore(t[i + 1..], u[|t|..], LONG_MAX);
    }
  }

  lemma TextGrows(t: seq<Byte>, u: seq<Byte>)
    requires t <= u
    ensures u == t + u[|t|..]
  {}

  /** The status at every share lies between the two. */
  lemma StatusBetween(s: seq<Byte>, have: nat)
    requires Find(Window(s), BLANK_LINE) >= 0
    requires Find(Window(s), BLANK_LINE) + 4 <= have <= |Window(s)|
    ensures Grows(StatusOf(HeadOf(s) + BLANK_LINE), StatusOf(s[..have]))
    ensures Grows(StatusOf(s[..have]), StatusOf(Window(s)))
    ensures have == Find(Window(s), BLANK_LINE) + 4 ==> StatusOf(s[..have]) == StatusOf(HeadOf(s) + BLANK_LINE)
    ensures have == |Window(s)| ==> StatusOf(s[..have]) == StatusOf(Window(s))
  {
    hide Find, StatusOf, Grows;
    var e := Find(Window(s), BLANK_LINE);
    var w := Window(s);
    WindowSize(s);
    BlankAt(s, have, e);
    var base := HeadOf(s) + BLANK_LINE;
    Cuts(s, e, have, |w|);
    assert base == s[..e + 4] && w == s[..|w|];
    StatusGrows(base, s[e + 4..have]);
    assert base + s[e + 4..have] == s[..have];
    StatusGrows(s[..have], w[have..]);
    assert s[..have] + w[have..] == w;
  }

  lemma Cuts(s: seq<Byte>, e: nat, i: nat, n: nat)
    requires e + 4 <= i <= n <= |s|
    ensures s[..e] + s[e..e + 4] == s[..e + 4]
    ensures s[..e + 4] + s[e + 4..i] == s[..i]
    ensures s[..i] + s[..n][i..] == s[..n]
  {}

  lemma EarlyGrows(a: int, b: int, f: Fields, follow: bool)
    requires if b >= 0 then a <= b else a <= 0
    ensures Early(a, f, follow).Some? ==> Early(b, f, follow).Some?
  {}

  /** A status that leads to an outcome has begun in the header text, and is settled. */
  lemma OutcomeIsSettled(head: seq<Byte>, f: Fields, follow: bool)
    requires StatusOf(head + BLANK_LINE).Some? && Early(StatusOf(head + BLANK_LINE).value, f, follow).Some?
    ensures Settled(head)
  {
    hide StatusOf, Settled;
    if !Settled(head) {
      UnsettledZero(head);
    }
  }

  lemma UnsettledZero(head: seq<Byte>)
    requires !Settled(head)
    ensures StatusOf(head + BLANK_LINE).Some? ==> StatusOf(head + BLANK_LINE).value == 0
  {
    hide Strto, Find, SkipSpace;
    UnsettledText(head, []);
    var base := head + BLANK_LINE;
    assert base + [] == base;
    assert CString(head) == head;
    var i := Find(head, [32]);
    if i < 0 {
      NoSpaceInBlank(head);
    } else {
      FindBound(head, [32]);
      NumberAfterHead(head, i);
    }
  }

  lemma OutcomeStays(s: seq<Byte>, have: nat, f: Fields, follow: bool)
    requires Find(Window(s), BLANK_LINE) >= 0
    requires Find(Window(s), BLANK_LINE) + 4 <= have <= |Window(s)|
    requires var st := StatusOf(HeadOf(s) + BLANK_LINE); st.Some? && Early(st.value, f, follow).Some?
    ensures StatusOf(s[..have]) == StatusOf(HeadOf(s) + BLANK_LINE)
  {
    hide Find, StatusOf, Settled, Early;
    OutcomeIsSettled(HeadOf(s), f, follow);
    SameStatus(s, have);
  }

  /** What Early decides is never what a body ends in, nor a missing status. */
  lemma OutcomesDiffer(body: seq<Byte>, i: nat, j: nat, f: Fields, a: Option<int>, b: Option<int>,
                       failing: bool, room: nat, follow: bool)
    requires i <= |body| && j <= |body|
    requires (a.None? && b.Some?)
          || (a.Some? && b.Some? && Early(a.value, f, follow).None? && Early(b.value, f, follow).Some?)
    ensures OfCut(body, i, f, a, failing, room, follow) != OfCut(body, j, f, b, failing, room, follow)
  {
    hide Decode, CutAt, Take;
  }

  /** The statuses and the bodies together, one share against all. */
  ghost predicate AllSame(body: seq<Byte>, most: nat, f: Fields, st: nat -> Option<int>,
                          failing: bool, room: nat, follow: bool)
    requires most <= |body|
  {
    forall i :: 0 <= i <= most ==>
      OfCut(body, i, f, st(i), failing, room, follow) == OfCut(body, 0, f, st(0), failing, room, follow)
  }

  lemma AllSameIff(body: seq<Byte>, most: nat, f: Fields, st: nat -> Option<int>, failing: bool, room: nat, follow: bool)
    requires most <= |body|
    requires forall i :: 0 <= i <= most ==> Grows(st(0), st(i)) && Grows(st(i), st(most))
    requires st(0).Some? && Early(st(0).value, f, follow).Some? ==> forall i :: 0 <= i <= most ==> st(i) == st(0)
    ensures AllSame(body, most, f, st, failing, room, follow)
            <==> || (st(0).None? && st(most).None?)
                 || (st(0).Some? && Early(st(0).value, f, follow).Some?)
                 || (st(0).Some? && st(most).Some? && Early(st(most).value, f, follow).None?
                     && (f.chunked || f.length < 0 || |body| <= f.length || most <= f.length || room < f.length))
  {
    hide OfCut, Early, Decode, CutAt, Delivered;
    if st(0).None? {
      if st(most).Some? {
        OutcomesDiffer(body, 0, most, f, st(0), st(most), failing, room, follow);
      } else {
        NoneSame(body, most, f, st, failing, room, follow);
      }
    } else if Early(st(0).value, f, follow).Some? {
      OutcomeSame(body, most, f, st, failing, room, follow);
    } else if Early(st(most).value, f, follow).Some? {
      OutcomesDiffer(body, 0, most, f, st(0), st(most), failing, room, follow);
    } else {
      BodiesSameIff(body, most, f, st, failing, room, follow);
    }
  }

  lemma NoneSame(body: seq<Byte>, most: nat, f: Fields, st: nat -> Option<int>, failing: bool, room: nat, follow: bool)
    requires most <= |body| && st(most).None?
    requires forall i :: 0 <= i <= most ==> Grows(st(i), st(most))
    ensures AllSame(body, most, f, st, failing, room, follow)
  {
    hide Decode, CutAt, Delivered;
  }

  lemma OutcomeSame(body: seq<Byte>, most: nat, f: Fields, st: nat -> Option<int>, failing: bool, room: nat, follow: bool)
    requires most <= |body| && st(0).Some? && Early(st(0).value, f, follow).Some?
    requires forall i :: 0 <= i <= most ==> st(i) == st(0)
    ensures AllSame(body, most, f, st, failing, room, follow)
  {
    hide Decode, CutAt, Delivered, Early;
  }

  lemma BodiesSameIff(body: seq<Byte>, most: nat, f: Fields, st: nat -> Option<int>, failing: bool, room: nat,
                      follow: bool)
    requires most <= |body| && st(0).Some? && st(most).Some? && Early(st(most).value, f, follow).None?
    requires forall i :: 0 <= i <= most ==> Grows(st(0), st(i)) && Grows(st(i), st(most))
    ensures AllSame(body, most, f, st, failing, room, follow)
            <==> f.chunked || f.length < 0 || |body| <= f.length || most <= f.length || room < f.length
  {
    hide Early, Decode, CutAt, Delivered, OfCut;
    forall i | 0 <= i <= most
      ensures OfCut(body, i, f, st(i), failing, room, follow)
              == Delivered(if f.chunked then Decode(body) else CutAt(body, i, f.length, failing), room)
    {
      EarlyGrows(st(i).value, st(most).value, f, follow);
      NoOutcome(body, i, f, st(i), failing, room, follow);
    }
    if !f.chunked {
      DeliveredCutFreeIff(body, most, f.length, failing, room);
    }
  }

  lemma NoOutcome(body: seq<Byte>, i: nat, f: Fields, st: Option<int>, failing: bool, room: nat, follow: bool)
    requires i <= |body| && st.Some? && Early(st.value, f, follow).None?
    ensures OfCut(body, i, f, st, failing, room, follow)
            == Delivered(if f.chunked then Decode(body) else CutAt(body, i, f.length, failing), room)
  {
    hide Early, Decode, CutAt, Delivered;
  }

  /** For every stream with a blank line: the outcome and every byte written are the
      same for all shares of it that may have come with the headers, if and only if the
      cuts cannot show. Every run ends in the result of one of these shares (Run). */
  lemma TransferCutFreeIff(s: seq<Byte>, failing: bool, room: nat, follow: bool)
    requires Find(Window(s), BLANK_LINE) >= 0
    ensures var off := Find(Window(s), BLANK_LINE) + 4;
            (forall i, j :: off <= i <= |Window(s)| && off <= j <= |Window(s)| ==>
               ResultFor(s, failing, room, follow, i) == ResultFor(s, failing, room, follow, j))
            <==> CutsCannotShow(s, room, follow)
  {
    hide Find, StatusOf, FieldsOf, CString, Decode, Early, Settled, Take, ResultFor, CutAt, Delivered, OfCut, Grows;
    WindowSize(s);
    FindBound(Window(s), BLANK_LINE);
    var off := Find(Window(s), BLANK_LINE) + 4;
    var f := FieldsOf(CString(HeadOf(s)));
    var body := s[off..];
    var most := |Window(s)| - off;
    var st := (i: nat) => if off + i <= |s| then StatusOf(s[..off + i]) else None;
    forall i | 0 <= i <= most
      ensures ResultFor(s, failing, room, follow, off + i) == OfCut(body, i, f, st(i), failing, room, follow)
      ensures Grows(StatusOf(HeadOf(s) + BLANK_LINE), st(i)) && Grows(st(i), StatusOf(Window(s)))
      ensures i == 0 ==> st(i) == StatusOf(HeadOf(s) + BLANK_LINE)
      ensures i == most ==> st(i) == StatusOf(Window(s))
    {
      ResultCut(s, failing, room, follow, off + i);
      StatusBetween(s, off + i);
    }
    if st(0).Some? && Early(st(0).value, f, follow).Some? {
      forall i | 0 <= i <= most ensures st(i) == st(0) {
        OutcomeStays(s, off + i, f, follow);
      }
    }
    AllSameIff(body, most, f, st, failing, room, follow);
    SharesMatch(s, failing, room, follow, off, most, body, f, st);
  }

  lemma SharesMatch(s: seq<Byte>, failing: bool, room: nat, follow: bool, off: nat, most: nat, body: seq<Byte>,
                    f: Fields, st: nat -> Option<int>)
    requires Find(Window(s), BLANK_LINE) >= 0 && off == Find(Window(s), BLANK_LINE) + 4
    requires most == |Window(s)| - off && |Window(s)| <= |s| && most <= |body|
    requires forall i :: 0 <= i <= most ==>
               ResultFor(s, failing, room, follow, off + i) == OfCut(body, i, f, st(i), failing, room, follow)
    ensures (forall i, j :: off <= i <= |Window(s)| && off <= j <= |Window(s)| ==>
               ResultFor(s, failing, room, follow, i) == ResultFor(s, failing, room, follow, j))
            <==> AllSame(body, most, f, st, failing, room, follow)
  {
    hide Find, ResultFor, OfCut;
    forall i | off <= i <= |Window(s)|
      ensures ResultFor(s, failing, room, follow, i) == OfCut(body, i - off, f, st(i - off), failing, room, follow)
    {
      assert off + (i - off) == i;
    }
    if forall i, j :: off <= i <= |Window(s)| && off <= j <= |Window(s)| ==>
         ResultFor(s, failing, room, follow, i) == ResultFor(s, failing, room, follow, j) {
      forall i | 0 <= i <= most
        ensures OfCut(body, i, f, st(i), failing, room, follow) == OfCut(body, 0, f, st(0), failing, room, follow)
      {
        assert ResultFor(s, failing, room, follow, off + i) == ResultFor(s, failing, room, follow, off + 0);
      }
    }
  }

  lemma DeliveredValue(b: seq<Byte>, cut: nat, length: int, failing: bool, room: nat)
    requires cut <= |b|
    ensures Delivered(CutAt(b, cut, length, failing), room)
            == if 0 <= length && cut <= length then Delivered(Body(Take(b, length), |b| >= length || !failing), room)
               else Delivered(Body(b, !failing), room)
  {
    hide CutAt, Take;
    CutValue(b, cut, length, failing);
  }

  /** A plain body into an output of limited room. */
  lemma DeliveredCutFreeIff(b: seq<Byte>, most: nat, length: int, failing: bool, room: nat)
    requires most <= |b|
    ensures (forall i :: 0 <= i <= most ==>
               Delivered(CutAt(b, i, length, failing), room) == Delivered(CutAt(b, 0, length, failing), room))
            <==> length < 0 || |b| <= length || most <= length || room < length
    ensures !(length < 0 || |b| <= length || most <= length || room < length) ==>
              Delivered(CutAt(b, most, length, failing), room) != Delivered(CutAt(b, 0, length, failing), room)
  {
    hide CutAt;
    DeliveredValue(b, 0, length, failing, room);
    DeliveredValue(b, most, length, failing, room);
    forall i | 0 <= i <= most
      ensures Delivered(CutAt(b, i, length, failing), room)
              == if 0 <= length && i <= length then Delivered(Body(Take(b, length), |b| >= length || !failing), room)
                 else Delivered(Body(b, !failing), room)
    {
      DeliveredValue(b, i, length, failing, room);
    }
    if 0 <= length < |b| {
      SurplusShows(b, length, failing, room);
    }
  }

  /** A body shorter than announced passes for a success exactly when reading it did
      not fail and the output took it. */
  lemma ShortPassesIff(b: seq<Byte>, cut: nat, length: nat, failing: bool, room: nat)
    requires cut <= |b|
    ensures var r := Delivered(CutAt(b, cut, length, failing), room);
            r.outcome == Saved(EX_OK) && |r.written| < length <==> |b| < length && !failing && |b| <= room
  {
    hide CutAt;
    CutValue(b, cut, length, failing);
  }

  /** So for a whole transfer with a plain body of announced length, whatever share of
      it came with the headers. */
  lemma ShortTransferPassesIff(s: seq<Byte>, failing: bool, room: nat, follow: bool, have: nat)
    requires Find(Window(s), BLANK_LINE) >= 0
    requires Find(Window(s), BLANK_LINE) + 4 <= have <= |Window(s)|
    requires var f, st := FieldsOf(CString(HeadOf(s))), StatusOf(s[..have]);
             st.Some? && Early(st.value, f, follow).None? && !f.chunked && f.length >= 0
    ensures var r := ResultFor(s, failing, room, follow, have);
            var length := FieldsOf(CString(HeadOf(s))).length;
            var sent := |s| - (Find(Window(s), BLANK_LINE) + 4);
            r.outcome == Saved(EX_OK) && |r.written| < length <==> sent < length && !failing && sent <= room
  {
    hide Find, StatusOf, FieldsOf, CString, Decode, Early, Take, ResultFor, CutAt, Delivered, OfCut;
    WindowSize(s);
    var off := Find(Window(s), BLANK_LINE) + 4;
    var f := FieldsOf(CString(HeadOf(s)));
    ResultCut(s, failing, room, follow, have);
    NoOutcome(s[off..], have - off, f, StatusOf(s[..have]), failing, room, follow);
    ShortPassesIff(s[off..], have - off, f.length, failing, room);
  }

  /** Announced length or everything: an output too small for the first cannot tell. */
  lemma SurplusShows(b: seq<Byte>, length: nat, failing: bool, room: nat)
    requires length < |b|
    ensures Delivered(Body(Take(b, length), true), room) == Delivered(Body(b, !failing), room) <==> room < length
  {
    if room < length {
      assert b[..length][..room] == b[..room];
    } else if room == length {
      assert b[..room] == Take(b, length);
    }
  }

  lemma WindowSize(s: seq<Byte>)
    ensures Window(s) <= s && |Window(s)| <= HDR_MAX
  {}

  lemma SameStatus(s: seq<Byte>, have: nat)
    requires Find(Window(s), BLANK_LINE) >= 0
    requires Find(Window(s), BLANK_LINE) + 4 <= have <= |Window(s)|
    requires Settled(HeadOf(s)) || Find(Window(s), BLANK_LINE) + 4 == HDR_MAX
    ensures StatusOf(s[..have]) == StatusOf(HeadOf(s) + BLANK_LINE)
  {
    hide Find, StatusOf, Settled;
    var e := Find(Window(s), BLANK_LINE);
    var head := HeadOf(s);
    WindowSize(s);
    BlankAt(s, have, e);
    var extra := s[e + 4..have];
    assert s[..have] == head + BLANK_LINE + extra by {
      assert s[..have] == s[..e] + s[e..e + 4] + s[e + 4..have];
    }
    StatusCutFreeIff(head);
  }
}
