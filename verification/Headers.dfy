/** read_headers() of board/hget/hget.c: fill the header buffer until the blank
    line, then parse it in place. */
module Headers {
  import opened Words
  import opened CText
  import opened Stream

  const HDR_MAX: nat := 8191
  const LOCATION_MAX: nat := 2048
  const BLANK_LINE: seq<Byte> := [CR, LF, CR, LF]

  /** What the header lines say. */
  datatype Fields = Fields(length: int, chunked: bool, location: seq<Byte>)

  const NO_FIELDS := Fields(-1, false, [])

  // -------------------------------------------------------------- what it means

  /** The bytes that fit the header buffer. */
  function Window(s: seq<Byte>): seq<Byte> { Take(s, HDR_MAX) }

  // "content-length:", "transfer-encoding:", "location:", "chunked" and "HTTP/"
  const CONTENT_LENGTH: seq<Byte> := [99, 111, 110, 116, 101, 110, 116, 45, 108, 101, 110, 103, 116, 104, 58]
  const TRANSFER_ENCODING: seq<Byte> :=
    [116, 114, 97, 110, 115, 102, 101, 114, 45, 101, 110, 99, 111, 100, 105, 110, 103, 58]
  const LOCATION: seq<Byte> := [108, 111, 99, 97, 116, 105, 111, 110, 58]
  const CHUNKED: seq<Byte> := [99, 104, 117, 110, 107, 101, 100]
  const HTTP: seq<Byte> := [72, 84, 84, 80, 47]

  function ApplyLine(f: Fields, line: seq<Byte>): Fields {
    if CiPrefix(line, CONTENT_LENGTH) then f.(length := Strto(SkipBlank(line[15..]), 10, LLONG_MAX))
    else if CiPrefix(line, TRANSFER_ENCODING) then
      (if Find(SkipBlank(line[18..]), CHUNKED) >= 0 then f.(chunked := true) else f)
    else if CiPrefix(line, LOCATION) then
      var v := SkipBlank(line[9..]);
      if |v| < LOCATION_MAX then f.(location := v) else f
    else f
  }

  /** The lines of header text h after the CRLF at index `at`. */
  function Walk(h: seq<Byte>, at: nat, f: Fields): Fields
    requires at + 2 <= |h|
    decreases |h| - at
  {
    var line := h[at + 2..];
    var rel := Find(line, CRLF);
    if rel < 0 then ApplyLine(f, line)
    else Walk(h, at + 2 + rel, ApplyLine(f, line[..rel]))
  }

  function FieldsOf(h: seq<Byte>): Fields {
    var i := Find(h, CRLF);
    if i < 0 then NO_FIELDS else Walk(h, i, NO_FIELDS)
  }

  /** The status, from everything in the buffer: the client looks for the first
      space of the whole buffer, not of the header text. */
  function StatusOf(buf: seq<Byte>): Option<int> {
    if !(HTTP <= buf) then None
    else
      var t := CString(buf);
      var i := Find(t, [32]);
      if i < 0 then None else Some(Strto(t[i + 1..], 10, LONG_MAX))
  }

  // --------------------------------------------------------- filling the buffer

  /** Read until the blank line is in the buffer, the buffer is full or the stream
      ends. How much lies beyond the blank line is up to the cuts; where it is, or
      why it was not found, is not. */
  method Fill(c: Conn, b: array<Byte>) returns (code: int, end: int, have: nat)
    requires b.Length == 8192
    modifies c, b
    ensures have <= HDR_MAX && b[..have] + c.stream == old(c.stream)
    ensures var s := old(c.stream);
            var e := Find(Window(s), BLANK_LINE);
            if e >= 0 then code == EX_OK && end == e && e + 4 <= have
            else code == (if |s| < HDR_MAX && c.failing then EX_IO else EX_PROTO)
  {
    hide Find;
    ghost var s := c.stream;
    have, end := 0, -1;
    while have < HDR_MAX
      invariant have <= HDR_MAX && b[..have] + c.stream == s
      invariant end == -1
      decreases HDR_MAX - have
    {
      end := Find(b[..have], BLANK_LINE);
      if end >= 0 {
        break;
      }
      end := -1;
      var n, data := c.Read(HDR_MAX - have);
      if n < 0 {
        assert b[..have] == s == Window(s);
        return EX_IO, end, have;
      }
      if n == 0 {
        break;
      }
      ghost var before := b[..have];
      forall i | 0 <= i < n {
        b[have + i] := data[i];
      }
      assert b[..have + n] == before + data;
      have := have + n;
    }
    if end < 0 {
      end := Find(b[..have], BLANK_LINE);
    }
    FoundInWindow(b[..have], c.stream, s);
    code := if end < 0 then EX_PROTO else EX_OK;
  }

  lemma FoundInWindow(got: seq<Byte>, rest: seq<Byte>, s: seq<Byte>)
    requires got + rest == s && |got| <= HDR_MAX
    ensures Find(got, BLANK_LINE) >= 0 ==> Find(Window(s), BLANK_LINE) == Find(got, BLANK_LINE)
    ensures |got| == HDR_MAX || rest == [] ==> Window(s) == got
  {
    var w := Window(s);
    assert w == got + w[|got|..];
    if Find(got, BLANK_LINE) >= 0 {
      FindStable(got, w[|got|..], BLANK_LINE);
    }
  }

  // ------------------------------------------------------------------- parsing

  lemma {:induction false} CStringDrop(b: seq<Byte>, k: nat)
    requires k <= |CString(b)|
    ensures k <= |b| && CString(b[k..]) == CString(b)[k..]
  {
    if k > 0 {
      CStringDrop(b[1..], k - 1);
      assert b[1..][k - 1..] == b[k..];
    } else {
      assert b[0..] == b;
    }
  }

  /** Cutting a string at one of its own positions. */
  lemma CStringCut(b: seq<Byte>, start: nat, next: nat)
    requires start <= next < |CString(b)|
    ensures next < |b| && CString(b[next := 0][start..]) == CString(b)[start..next]
  {
    var t := b[next := 0][start..];
    var n := next - start;
    assert t[..n] == CString(b)[start..next];
    forall x | x in t[..n] ensures x != 0 {
      assert x in CString(b);
    }
    CStringIs(t, n);
  }

  /** The header walk with its NULs written into the buffer and taken out again. */
  method ParseFields(b: array<Byte>, end: nat) returns (f: Fields)
    requires end < b.Length && b[end] == CR
    modifies b
    ensures b[..] == old(b[..])
    ensures f == FieldsOf(CString(old(b[..end])))
  {
    hide Find, ApplyLine, CString;
    ghost var orig := b[..];
    b[end] := 0;
    ghost var patched := b[..];
    ghost var h := CString(patched);
    HeaderText(orig, end);
    f := NO_FIELDS;
    var line := Find(CString(b[..]), CRLF);
    while line >= 0
      invariant b[..] == patched && line <= |h|
      invariant line >= 0 ==> line + 2 <= |h|
      invariant FieldsOf(h) == if line >= 0 then Walk(h, line, f) else f
      decreases if line < 0 then 0 else |h| - line
    {
      f, line := ParseLine(b, line + 2, f, h);
    }
    b[end] := CR;
    assert b[..] == orig;
  }

  lemma HeaderText(orig: seq<Byte>, end: nat)
    requires end < |orig|
    ensures CString(orig[end := 0]) == CString(orig[..end])
    ensures |CString(orig[end := 0])| <= end
  {
    var h := CString(orig[..end]);
    CStringIs(orig[end := 0], |h|);
  }

  /** One line: it is cut off with a NUL while it is looked at. */
  method ParseLine(b: array<Byte>, start: nat, f0: Fields, ghost h: seq<Byte>) returns (f: Fields, next: int)
    requires h == CString(b[..]) && start <= |h|
    modifies b
    ensures b[..] == old(b[..])
    ensures var line := h[start..];
            var rel := Find(line, CRLF);
            && (rel < 0 ==> next == -1 && f == ApplyLine(f0, line))
            && (rel >= 0 ==> next == start + rel && next + 2 <= |h| && f == ApplyLine(f0, line[..rel]))
  {
    hide ApplyLine, CString;
    ghost var orig := b[..];
    CStringDrop(orig, start);
    var rel := Find(CString(b[start..]), CRLF);
    assert b[start..] == orig[start..];
    if rel < 0 {
      f := ApplyLine(f0, CString(b[start..]));
      return f, -1;
    }
    next := start + rel;
    CStringCut(orig, start, next);
    assert h[start..][rel..rel + 2] == CRLF;
    assert b[next] == CR by {
      assert h[next] == CR;
    }
    b[next] := 0;
    assert b[..] == orig[next := 0];
    assert b[start..] == orig[next := 0][start..];
    f := ApplyLine(f0, CString(b[start..]));
    assert h[start..][..rel] == h[start..next];
    b[next] := CR;
    assert b[..] == orig;
  }

  // ------------------------------------------------------------- the function

  /** The header bytes before the blank line. */
  function HeadOf(s: seq<Byte>): seq<Byte>
    requires Find(Window(s), BLANK_LINE) >= 0
  {
    s[..Find(Window(s), BLANK_LINE)]
  }

  /** read_headers(). On success the buffer holds the first `have` bytes of the
      stream, of which bodyOff are header; the fields depend on the header text
      alone, the status on the whole buffer. */
  method ReadHeaders(c: Conn, b: array<Byte>) returns (code: int, status: int, f: Fields, bodyOff: nat, have: nat)
    requires b.Length == 8192
    modifies c, b
    ensures have <= HDR_MAX && b[..have] + c.stream == old(c.stream)
    ensures var s := old(c.stream);
            var e := Find(Window(s), BLANK_LINE);
            && (e < 0 ==> code == (if |s| < HDR_MAX && c.failing then EX_IO else EX_PROTO))
            && (e >= 0 ==>
                 && bodyOff == e + 4 <= have
                 && code == (if StatusOf(s[..have]).Some? then EX_OK else EX_PROTO)
                 && (code == EX_OK ==> status == StatusOf(s[..have]).value && f == FieldsOf(CString(HeadOf(s)))))
  {
    hide Find, FieldsOf, Strto, CString;
    var end;
    status, f, bodyOff := 0, NO_FIELDS, 0;
    code, end, have := Fill(c, b);
    if code != EX_OK {
      return;
    }
    ghost var s := old(c.stream);
    b[have] := 0;
    assert s[..have] == b[..have];
    bodyOff := end + 4;
    BlankAt(s, have, end);
    Terminated(b[..], have);
    if !(HTTP <= b[..have]) {
      return EX_PROTO, status, f, bodyOff, have;
    }
    var text := CString(b[..]);
    var sp := Find(text, [32]);
    if sp < 0 {
      return EX_PROTO, status, f, bodyOff, have;
    }
    FindBound(text, [32]);
    status := Strto(text[sp + 1..], 10, LONG_MAX);
    ghost var before := b[..];
    f := ParseFields(b, end);
    assert before[..end] == s[..end];
    assert b[..have] == before[..have];
  }

  lemma FindBound(s: seq<Byte>, pat: seq<Byte>)
    ensures Find(s, pat) >= 0 ==> Find(s, pat) + |pat| <= |s|
  {}

  lemma BlankAt(s: seq<Byte>, have: nat, end: int)
    requires end == Find(Window(s), BLANK_LINE) && 0 <= end && end + 4 <= have <= |s|
    ensures s[end] == CR && s[end..end + 4] == BLANK_LINE
  {
    var w := Window(s);
    assert w[end..end + 4] == BLANK_LINE;
    assert w <= s;
    assert s[end..end + 4] == w[end..end + 4];
    assert s[end] == s[end..end + 4][0];
  }

  lemma Terminated(b: seq<Byte>, have: nat)
    requires have < |b| && b[have] == 0
    ensures CString(b) == CString(b[..have])
  {
    HeaderText(b, have);
    assert b[have := 0] == b;
  }
}
