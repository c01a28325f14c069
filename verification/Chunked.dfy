/** body_chunked() of board/hget/hget.c: the chunked transfer coding, read one
    byte at a time between chunks and in buffer-sized pieces inside them, first
    from what was left over after the headers and then from the connection. */
module Chunked {
  import opened Words
  import opened CText
  import opened Stream

  const IOBUF: nat := 16384
  const LINE_MAX: nat := 63

  // -------------------------------------------------------------- what it means

  datatype LineResult = NoLine | Line(text: seq<Byte>, rest: seq<Byte>)

  /** Up to the next line feed, without carriage returns, the first 63 bytes. */
  function LineFrom(s: seq<Byte>, text: seq<Byte>): (r: LineResult)
    ensures r.Line? ==> |r.rest| < |s| && r.rest == s[|s| - |r.rest|..]
  {
    if s == [] then NoLine
    else if s[0] == LF then Line(text, s[1..])
    else if s[0] != CR && |text| < LINE_MAX then LineFrom(s[1..], text + [s[0]])
    else LineFrom(s[1..], text)
  }

  function SizeOf(text: seq<Byte>): int { Strto(text, 16, LONG_MAX) }

  /** The body a byte stream carries, and whether it was terminated. */
  datatype Body = Body(bytes: seq<Byte>, complete: bool)

  function Decode(s: seq<Byte>): Body
    decreases |s|
  {
    match LineFrom(s, [])
    case NoLine => Body([], false)
    case Line(text, rest) =>
      if text == [] then Decode(rest)
      else
        var n := SizeOf(text);
        if n <= 0 then Body([], true)
        else if |rest| < n then Body(rest, false)
        else
          var b := Decode(rest[n..]);
          Body(rest[..n] + b.bytes, b.complete)
  }

  // ------------------------------------------------------------- what it does

  /** The bytes still to come: what is pending in the header buffer, then the
      connection. */
  function Ahead(pend: seq<Byte>, c: Conn): seq<Byte>
    reads c
  {
    pend + c.stream
  }

  /** One chunk-size line; None when the stream ends first. */
  method ReadLine(pend0: seq<Byte>, c: Conn) returns (line: Option<seq<Byte>>, pend: seq<Byte>)
    modifies c
    ensures var r := LineFrom(old(Ahead(pend0, c)), []);
            match line
            case None => r.NoLine?
            case Some(text) => r == Line(text, Ahead(pend, c))
  {
    pend := pend0;
    var text: seq<Byte> := [];
    while true
      invariant LineFrom(Ahead(pend, c), text) == LineFrom(old(Ahead(pend0, c)), [])
      decreases |Ahead(pend, c)|
    {
      ghost var before := Ahead(pend, c);
      var ch: Byte;
      if pend != [] {
        ch := pend[0];
        pend := pend[1..];
      } else {
        var n, data := c.Read(1);
        if n <= 0 {
          return None, pend;
        }
        ch := data[0];
      }
      assert before == [ch] + Ahead(pend, c);
      assert before[1..] == Ahead(pend, c);
      if ch == LF {
        return Some(text), pend;
      }
      if ch != CR && |text| < LINE_MAX {
        text := text + [ch];
      }
    }
  }

  /** At most `want` bytes, from the header buffer while it lasts; none when the
      stream has ended. */
  method NextPiece(want: nat, pend0: seq<Byte>, c: Conn) returns (piece: seq<Byte>, pend: seq<Byte>)
    requires want > 0
    modifies c
    ensures old(Ahead(pend0, c)) == piece + Ahead(pend, c) && |piece| <= want
    ensures piece == [] ==> old(Ahead(pend0, c)) == []
  {
    pend := pend0;
    if pend != [] {
      var got := if |pend| < want then |pend| else want;
      piece, pend := pend[..got], pend[got..];
    } else {
      var n, data := c.Read(want);
      piece := data;
    }
  }

  /** The payload of one chunk. ok is false when the stream ended inside it or the
      output was full. */
  method CopyChunk(chunk: nat, pend0: seq<Byte>, c: Conn, out: Sink) returns (ok: bool, pend: seq<Byte>)
    modifies c, out
    ensures var s := old(Ahead(pend0, c));
            && ok == (chunk <= |s| && chunk <= old(out.room))
            && out.written == old(out.written) + Take(Take(s, chunk), old(out.room))
            && (ok ==> Ahead(pend, c) == s[chunk..] && out.room == old(out.room) - chunk)
  {
    hide Take, Ahead;
    pend := pend0;
    var remain := chunk;
    ghost var s, room := Ahead(pend0, c), out.room;
    ghost var taken: seq<Byte> := [];
    while remain > 0
      invariant 0 <= remain && |taken| + remain == chunk && |taken| <= room
      invariant s == taken + Ahead(pend, c)
      invariant out.written == old(out.written) + taken && out.room == room - |taken|
    {
      var piece;
      piece, pend := NextPiece(if remain < IOBUF then remain else IOBUF, pend, c);
      if piece == [] {
        TakeAll(s, chunk, room);
        return false, pend;
      }
      ghost var after := Ahead(pend, c);
      assert s == taken + piece + after;
      var fits := out.WriteAll(piece);
      if !fits {
        TakeFull(taken, piece, after, chunk, room);
        return false, pend;
      }
      TakeAll(piece, |piece|, room - |taken|);
      remain := remain - |piece|;
      taken := taken + piece;
    }
    TakeFirst(taken, Ahead(pend, c), room);
    ok := true;
  }

  lemma TakeAll(s: seq<Byte>, n: nat, room: nat)
    requires |s| <= n && |s| <= room
    ensures Take(Take(s, n), room) == s && Take(s, room) == s
  {}

  lemma TakeFirst(a: seq<Byte>, b: seq<Byte>, room: nat)
    requires |a| <= room
    ensures Take(Take(a + b, |a|), room) == a && (a + b)[|a|..] == b
  {
    assert (a + b)[..|a|] == a;
  }

  lemma TakeFull(a: seq<Byte>, piece: seq<Byte>, b: seq<Byte>, n: nat, room: nat)
    requires |a| <= room < |a| + |piece| <= n
    ensures Take(Take(a + piece + b, n), room) == a + Take(piece, room - |a|)
  {
    var s := a + piece + b;
    assert Take(Take(s, n), room) == s[..room];
    assert s[..room] == a + piece[..room - |a|];
  }

  datatype Verdict = Copied(n: nat) | Stop(code: int)

  /** One turn of the loop: a line, and the chunk it announces. */
  method NextChunk(pend0: seq<Byte>, c: Conn, out: Sink) returns (v: Verdict, pend: seq<Byte>, ghost piece: seq<Byte>)
    modifies c, out
    ensures var b := Decode(old(Ahead(pend0, c)));
            match v
            case Copied(n) =>
              && n == |piece| && |Ahead(pend, c)| < |old(Ahead(pend0, c))|
              && b == After(piece, Decode(Ahead(pend, c)))
              && out.written == old(out.written) + piece && out.room == old(out.room) - n
            case Stop(code) => Ends(b, old(out.written), old(out.room), out.written, code) && (code == EX_OK ==> b.bytes == [])
  {
    hide Decode, SizeOf, Take, Ahead, LineFrom, After;
    ghost var s := Ahead(pend0, c);
    DecodeStep(s);
    var line: Option<seq<Byte>>;
    line, pend := ReadLine(pend0, c);
    piece := [];
    TakeAll([], 0, out.room);
    if line.None? {
      return Stop(EX_IO), pend, piece;
    }
    if line.value == [] {
      AfterNothing(Decode(Ahead(pend, c)));
      return Copied(0), pend, piece;
    }
    var chunk := SizeOf(line.value);
    if chunk <= 0 {
      return Stop(EX_OK), pend, piece;
    }
    ghost var rest := Ahead(pend, c);
    var ok: bool;
    ok, pend := CopyChunk(chunk, pend, c, out);
    if !ok {
      CutShort(rest, chunk, old(out.room), Decode(s));
      return Stop(EX_IO), pend, piece;
    }
    piece := rest[..chunk];
    TakeFirst(piece, rest[chunk..], old(out.room));
    assert rest == piece + rest[chunk..];
    v := Copied(chunk);
  }

  /** The output holds what it had plus the body, as far as there was room, and
      the code says whether that is all of it. */
  ghost predicate Ends(b: Body, before: seq<Byte>, room: nat, written: seq<Byte>, code: int) {
    && written == before + Take(b.bytes, room)
    && code == if b.complete && |b.bytes| <= room then EX_OK else EX_IO
  }

  /** body_chunked(): whatever the cuts, what is written is the body the bytes
      carry, as far as the output takes it. */
  method BodyChunked(pend0: seq<Byte>, c: Conn, out: Sink) returns (code: int, count: nat)
    modifies c, out
    ensures var b := Decode(old(Ahead(pend0, c)));
            && Ends(b, old(out.written), old(out.room), out.written, code)
            && (code == EX_OK ==> count == |b.bytes|)
  {
    hide Decode, Ahead, After, Ends;
    var pend := pend0;
    ghost var b, room := Decode(Ahead(pend0, c)), out.room;
    ghost var done: seq<Byte> := [];
    count := 0;
    AfterNothing(b);
    while true
      invariant |done| <= room && count == |done|
      invariant out.written == old(out.written) + done && out.room == room - |done|
      invariant b == After(done, Decode(Ahead(pend, c)))
      decreases |Ahead(pend, c)|
    {
      ghost var now := Decode(Ahead(pend, c));
      ghost var written := out.written;
      var v;
      ghost var piece;
      v, pend, piece := NextChunk(pend, c, out);
      if v.Stop? {
        EndsAfter(done, now, old(out.written), room, out.written, v.code);
        return v.code, count;
      }
      AfterAfter(done, piece, Decode(Ahead(pend, c)));
      assert out.written == old(out.written) + (done + piece);
      done := done + piece;
      count := count + v.n;
    }
  }

  /** A body with more in front of it. */
  function After(done: seq<Byte>, b: Body): Body { Body(done + b.bytes, b.complete) }

  lemma AfterNothing(b: Body)
    ensures After([], b) == b
  {
    assert [] + b.bytes == b.bytes;
  }

  lemma AfterAfter(a: seq<Byte>, p: seq<Byte>, b: Body)
    ensures After(a, After(p, b)) == After(a + p, b)
  {
    assert a + (p + b.bytes) == a + p + b.bytes;
  }

  lemma EndsAfter(done: seq<Byte>, b: Body, before: seq<Byte>, room: nat, written: seq<Byte>, code: int)
    requires |done| <= room && Ends(b, before + done, room - |done|, written, code)
    ensures Ends(After(done, b), before, room, written, code)
    ensures b.bytes == [] ==> After(done, b).bytes == done
  {
    assert Take(done + b.bytes, room) == done + Take(b.bytes, room - |done|);
    assert before + done + Take(b.bytes, room - |done|) == before + (done + Take(b.bytes, room - |done|));
  }

  lemma DecodeStep(s: seq<Byte>)
    ensures match LineFrom(s, [])
            case NoLine => Decode(s) == Body([], false)
            case Line(text, rest) =>
              && |rest| < |s|
              && (text == [] ==> Decode(s) == Decode(rest))
              && (text != [] ==>
                   var n := SizeOf(text);
                   && (n <= 0 ==> Decode(s) == Body([], true))
                   && (|rest| < n ==> Decode(s) == Body(rest, false))
                   && (0 < n <= |rest| ==> Decode(s) == After(rest[..n], Decode(rest[n..]))))
  {
    hide SizeOf;
  }

  /** Where copying a chunk stops early, the output is already as full as it gets
      or the stream is exhausted. */
  lemma CutShort(rest: seq<Byte>, chunk: nat, room: nat, b: Body)
    requires !(chunk <= |rest| && chunk <= room)
    requires |rest| < chunk ==> b == Body(rest, false)
    requires |rest| >= chunk ==> b == After(rest[..chunk], Decode(rest[chunk..]))
    ensures Take(b.bytes, room) == Take(Take(rest, chunk), room)
    ensures !(b.complete && |b.bytes| <= room)
  {
    hide Decode;
    if |rest| >= chunk {
      assert b.bytes[..room] == rest[..room];
    }
  }

  // -------------------------------------------------------- what complete means

  /** The k bytes at the front of s are empty lines and whole chunks. */
  predicate Chunks(s: seq<Byte>, k: nat)
    requires k <= |s|
    decreases |s|
  {
    k == 0 ||
    match LineFrom(s, [])
    case NoLine => false
    case Line(text, rest) =>
      var head := |s| - |rest|;
      if text == [] then head <= k && Chunks(rest, k - head)
      else
        var n := SizeOf(text);
        0 < n <= |rest| && head + n <= k && Chunks(rest[n..], k - head - n)
  }

  /** The line at the front of s ends a body: it is not empty, and strtol makes no
      positive number of it. */
  predicate EndLine(s: seq<Byte>) {
    match LineFrom(s, [])
    case NoLine => false
    case Line(text, _) => text != [] && SizeOf(text) <= 0
  }

  /** Some whole chunks, and then a line that ends the body. */
  ghost predicate Finished(s: seq<Byte>) {
    exists k :: 0 <= k <= |s| && Chunks(s, k) && EndLine(s[k..])
  }

  /** Behind an empty line or a whole chunk it goes on with `later`, from byte k. */
  lemma ChunkAt(s: seq<Byte>, text: seq<Byte>, rest: seq<Byte>, k: nat)
    requires LineFrom(s, []) == Line(text, rest) && |rest| < |s| && 0 < k <= |s|
    ensures text == [] ==> (Chunks(s, k) <==> |s| - |rest| <= k && Chunks(rest, k - (|s| - |rest|)))
    ensures text != [] && 0 < SizeOf(text) <= |rest| ==>
              var head := |s| - |rest| + SizeOf(text);
              Chunks(s, k) <==> head <= k && Chunks(rest[SizeOf(text)..], k - head)
  {
    hide LineFrom, SizeOf;
  }

  lemma NoEndLine(s: seq<Byte>, text: seq<Byte>, rest: seq<Byte>)
    requires LineFrom(s, []) == Line(text, rest) && (text == [] || 0 < SizeOf(text))
    ensures !EndLine(s)
  {
    hide SizeOf, LineFrom;
  }

  /** What comes behind the first chunk or empty line of s. */
  predicate Later(s: seq<Byte>, later: seq<Byte>) {
    match LineFrom(s, [])
    case NoLine => false
    case Line(text, rest) =>
      if text == [] then later == rest else 0 < SizeOf(text) <= |rest| && later == rest[SizeOf(text)..]
  }

  lemma LaterAt(s: seq<Byte>, later: seq<Byte>, k: nat)
    requires Later(s, later) && k <= |later|
    ensures |later| < |s| && later[k..] == s[|s| - |later| + k..] && !EndLine(s)
    ensures Chunks(s, |s| - |later| + k) <==> Chunks(later, k)
  {
    hide LineFrom, SizeOf, Chunks, EndLine;
    match LineFrom(s, [])
    case Line(text, rest) =>
      NoEndLine(s, text, rest);
      Dropped(s, |s| - |rest|, if text == [] then 0 else SizeOf(text));
      Dropped(s, |s| - |later|, k);
      ChunkAt(s, text, rest, |s| - |later| + k);
  }

  lemma FrontFirst(s: seq<Byte>, later: seq<Byte>, k: nat)
    requires Later(s, later) && 0 < k <= |s| && Chunks(s, k)
    ensures |s| - |later| <= k
  {
    hide LineFrom, SizeOf, Chunks;
    match LineFrom(s, [])
    case Line(text, rest) => ChunkAt(s, text, rest, k);
  }

  /** It decides whether it is finished. */
  lemma Shift(s: seq<Byte>, later: seq<Byte>)
    requires Later(s, later)
    ensures Finished(s) <==> Finished(later)
  {
    hide Later, Chunks, EndLine;
    assert s[0..] == s;
    LaterAt(s, later, 0);
    if Finished(s) {
      var k :| 0 <= k <= |s| && Chunks(s, k) && EndLine(s[k..]);
      assert k > 0;
      FrontFirst(s, later, k);
      LaterAt(s, later, k - (|s| - |later|));
    }
    if Finished(later) {
      var k :| 0 <= k <= |later| && Chunks(later, k) && EndLine(later[k..]);
      LaterAt(s, later, k);
    }
  }

  lemma Dropped(s: seq<Byte>, a: nat, b: nat)
    requires a + b <= |s|
    ensures s[a..][b..] == s[a + b..]
  {}

  /** A body counts as complete exactly when whole chunks are followed by such a line.
      That is a zero size, and anything that is no size at all. */
  lemma {:induction false} CompleteIff(s: seq<Byte>)
    ensures Decode(s).complete <==> Finished(s)
    decreases |s|
  {
    hide SizeOf, LineFrom, Decode, Finished;
    DecodeStep(s);
    match LineFrom(s, [])
    case NoLine =>
      NoChunks(s);
    case Line(text, rest) =>
      var n := SizeOf(text);
      if text == [] {
        CompleteIff(rest);
        Shift(s, rest);
      } else if n <= 0 {
        FinishedAtOnce(s, text, rest);
      } else if n <= |rest| {
        CompleteIff(rest[n..]);
        Shift(s, rest[n..]);
      } else {
        NoChunks(s);
      }
  }

  lemma FinishedAtOnce(s: seq<Byte>, text: seq<Byte>, rest: seq<Byte>)
    requires LineFrom(s, []) == Line(text, rest) && text != [] && SizeOf(text) <= 0
    ensures Finished(s)
  {
    hide SizeOf, LineFrom;
    assert s[0..] == s;
    assert Chunks(s, 0) && EndLine(s[0..]);
  }

  /** Without a whole chunk or an empty line in front there are none. */
  lemma NoChunks(s: seq<Byte>)
    requires match LineFrom(s, [])
             case NoLine => true
             case Line(text, rest) => text != [] && 0 < SizeOf(text) && |rest| < SizeOf(text)
    ensures !Finished(s)
  {
    hide SizeOf, LineFrom;
    assert s[0..] == s;
    assert !EndLine(s);
    assert forall k :: 0 < k <= |s| ==> !Chunks(s, k);
  }

  /** "zz" or "-1" where a size belongs: the body ends there, and well. */
  lemma CorruptSizeEnds(rest: seq<Byte>)
    ensures Decode([122, 122, LF] + rest) == Body([], true)
    ensures Decode([45, 49, LF] + rest) == Body([], true)
  {
    CorruptLine(122, 122, rest);
    CorruptLine(45, 49, rest);
    assert SizeOf([122, 122]) == 0;
    assert [45, 49][1..] == [49];
    assert Digits([49], 16, 0) == 1;
    assert SizeOf([45, 49]) == -1;
    DecodeStep([122, 122, LF] + rest);
    DecodeStep([45, 49, LF] + rest);
  }

  lemma CorruptLine(a: Byte, b: Byte, rest: seq<Byte>)
    requires a !in {CR, LF} && b !in {CR, LF}
    ensures LineFrom([a, b, LF] + rest, []) == Line([a, b], rest)
  {
    var s := [a, b, LF] + rest;
    assert s[1..] == [b, LF] + rest && ([b, LF] + rest)[1..] == [LF] + rest && ([LF] + rest)[1..] == rest;
    assert [] + [a] == [a] && [a] + [b] == [a, b];
    assert LineFrom([LF] + rest, [a, b]) == Line([a, b], rest);
    assert LineFrom([b, LF] + rest, [a]) == Line([a, b], rest);
  }
}
