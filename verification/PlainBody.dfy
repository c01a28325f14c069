/** body_plain() of board/hget/hget.c: a body delimited by Content-Length, or by
    the end of the stream when there is none. */
module PlainBody {
  import opened Words
  import opened Stream
  import opened Chunked

  /** What is left to read once the bytes that came with the headers are counted;
      negative means "to the end", also when more came than was announced. */
  function Remaining(left: seq<Byte>, length: int): int {
    if length >= 0 then length - |left| else length
  }

  /** The bytes offered to the output, and whether the transfer counts as done:
      a short body is not an error unless reading fails. */
  function PlainBodyOf(left: seq<Byte>, rest: seq<Byte>, length: int, failing: bool): Body {
    var r := Remaining(left, length);
    if r < 0 then Body(left + rest, !failing)
    else Body(left + Take(rest, r), |rest| >= r || !failing)
  }

  method BodyPlain(left: seq<Byte>, length: int, c: Conn, out: Sink) returns (code: int, count: nat)
    modifies c, out
    ensures var b := PlainBodyOf(left, old(c.stream), length, c.failing);
            && Ends(b, old(out.written), old(out.room), out.written, code)
            && (code == EX_OK ==> count == |b.bytes|)
  {
    hide Ends, PlainBodyOf;
    var remain := length;
    count := 0;
    if left != [] {
      var fits := out.WriteAll(left);
      if !fits {
        FullAtOnce(left, c.stream, length, c.failing, old(out.written), old(out.room));
        return EX_IO, count;
      }
      count := |left|;
      if remain >= 0 {
        remain := remain - |left|;
      }
    }
    TakeAll(left, |left|, old(out.room));
    assert old(out.written) + [] == old(out.written);
    assert out.written == old(out.written) + left && out.room == old(out.room) - |left|;
    var n;
    code, n := CopyRest(remain, c, out);
    RestAfter(left, old(c.stream), length, c.failing, old(out.written), old(out.room), out.written, code);
    count := count + n;
  }

  /** The read loop: to the end of the stream when remain is negative. */
  method CopyRest(remain0: int, c: Conn, out: Sink) returns (code: int, count: nat)
    modifies c, out
    ensures var b := PlainBodyOf([], old(c.stream), remain0, c.failing);
            && Ends(b, old(out.written), old(out.room), out.written, code)
            && (code == EX_OK ==> count == |b.bytes|)
  {
    hide Take, Ends, PlainBodyOf;
    var remain := remain0;
    ghost var s, room := c.stream, out.room;
    ghost var done: seq<Byte> := [];
    count := 0;
    while remain != 0
      invariant s == done + c.stream && count == |done| <= room
      invariant out.written == old(out.written) + done && out.room == room - |done|
      invariant remain0 < 0 ==> remain == remain0
      invariant remain0 >= 0 ==> remain == remain0 - |done| >= 0
      decreases |c.stream|
    {
      var want := if 0 < remain < IOBUF then remain else IOBUF;
      var n, piece := c.Read(want);
      if n < 0 {
        Exhausted(done, remain0, c.failing, old(out.written), room);
        return EX_IO, count;
      }
      if n == 0 {
        break;
      }
      ghost var before := out.written;
      var fits := out.WriteAll(piece);
      if !fits {
        assert s == done + (piece + c.stream);
        FullInRest(done, piece, c.stream, remain0, c.failing, room, old(out.written), out.written);
        return EX_IO, count;
      }
      TakeAll(piece, n, room - |done|);
      done := done + piece;
      count := count + n;
      if remain > 0 {
        remain := remain - n;
      }
    }
    if remain == 0 {
      Counted(done, c.stream, remain0, c.failing, old(out.written), room);
    } else {
      Exhausted(done, remain0, c.failing, old(out.written), room);
    }
    code := EX_OK;
  }

  lemma Exhausted(done: seq<Byte>, remain0: int, failing: bool, before: seq<Byte>, room: nat)
    requires |done| <= room && (remain0 < 0 || |done| < remain0)
    ensures Ends(PlainBodyOf([], done, remain0, failing), before, room, before + done, if failing then EX_IO else EX_OK)
    ensures |PlainBodyOf([], done, remain0, failing).bytes| == |done|
    ensures done + [] == done
  {
    assert [] + done == done;
    TakeAll(done, if remain0 < 0 then |done| else remain0, room + |done|);
    TakeAll(done, |done|, room);
  }

  lemma Counted(done: seq<Byte>, rest: seq<Byte>, remain0: int, failing: bool, before: seq<Byte>, room: nat)
    requires |done| == remain0 <= room
    ensures Ends(PlainBodyOf([], done + rest, remain0, failing), before, room, before + done, EX_OK)
    ensures |PlainBodyOf([], done + rest, remain0, failing).bytes| == |done|
  {
    assert Take(done + rest, remain0) == done;
  }

  lemma FullInRest(done: seq<Byte>, piece: seq<Byte>, rest: seq<Byte>, remain0: int, failing: bool, room: nat,
                   before: seq<Byte>, written: seq<Byte>)
    requires |done| <= room < |done| + |piece| && (remain0 < 0 || |done| + |piece| <= remain0)
    requires written == before + done + Take(piece, room - |done|)
    ensures Ends(PlainBodyOf([], done + (piece + rest), remain0, failing), before, room, written, EX_IO)
  {
    var b := PlainBodyOf([], done + (piece + rest), remain0, failing);
    assert (done + piece) <= b.bytes;
    FullAt(done, piece, b, room);
    assert before + done + Take(piece, room - |done|) == before + (done + Take(piece, room - |done|));
  }

  lemma FullAtOnce(left: seq<Byte>, rest: seq<Byte>, length: int, failing: bool, before: seq<Byte>, room: nat)
    requires room < |left|
    ensures Ends(PlainBodyOf(left, rest, length, failing), before, room, before + Take(left, room), EX_IO)
  {
    FullAt([], left, PlainBodyOf(left, rest, length, failing), room);
    assert [] + Take(left, room) == Take(left, room);
  }

  lemma FullAt(done: seq<Byte>, piece: seq<Byte>, b: Body, room: nat)
    requires |done| <= room < |done| + |piece| && done + piece <= b.bytes
    ensures Take(b.bytes, room) == done + Take(piece, room - |done|) && |b.bytes| > room
  {
    assert b.bytes[..room] == (done + piece)[..room];
  }

  lemma RestAfter(left: seq<Byte>, rest: seq<Byte>, length: int, failing: bool,
                  before: seq<Byte>, room: nat, written: seq<Byte>, code: int)
    requires |left| <= room
    requires Ends(PlainBodyOf([], rest, Remaining(left, length), failing), before + left, room - |left|, written, code)
    ensures Ends(PlainBodyOf(left, rest, length, failing), before, room, written, code)
    ensures |PlainBodyOf(left, rest, length, failing).bytes|
            == |left| + |PlainBodyOf([], rest, Remaining(left, length), failing).bytes|
  {
    hide Take;
    var b := PlainBodyOf([], rest, Remaining(left, length), failing);
    EndsAfter(left, b, before, room, written, code);
    assert [] + rest == rest;
    var r := Remaining(left, length);
    assert r >= 0 ==> [] + Take(rest, r) == Take(rest, r);
  }

  // ------------------------------------------------------------------ the cut

  /** The body of stream b when the first `cut` bytes of it came with the headers. */
  function CutAt(b: seq<Byte>, cut: nat, length: int, failing: bool): Body
    requires cut <= |b|
  {
    PlainBodyOf(b[..cut], b[cut..], length, failing)
  }

  lemma CutValue(b: seq<Byte>, cut: nat, length: int, failing: bool)
    requires cut <= |b|
    ensures CutAt(b, cut, length, failing)
            == if 0 <= length && cut <= length then Body(Take(b, length), |b| >= length || !failing)
               else Body(b, !failing)
  {
    assert b[..cut] + b[cut..] == b;
    if 0 <= length && cut <= length {
      assert b[..cut] + Take(b[cut..], length - cut) == Take(b, length);
    }
  }

  /** A plain body does not depend on how much of it arrived with the headers,
      except when the peer sends more than it announced and the surplus can get
      into the header buffer: then all of it is written. */
  lemma PlainCutFreeIff(b: seq<Byte>, most: nat, length: int, failing: bool)
    requires most <= |b|
    ensures (forall i, j :: 0 <= i <= most && 0 <= j <= most ==>
               CutAt(b, i, length, failing) == CutAt(b, j, length, failing))
            <==> length < 0 || |b| <= length || most <= length
  {
    hide CutAt;
    forall i | 0 <= i <= most
      ensures CutAt(b, i, length, failing)
              == if 0 <= length && i <= length then Body(Take(b, length), |b| >= length || !failing)
                 else Body(b, !failing)
    {
      CutValue(b, i, length, failing);
    }
    if 0 <= length < |b| && length < most {
      assert CutAt(b, 0, length, failing) != CutAt(b, most, length, failing);
    }
  }

  /** One byte announced and two sent: one is written, or both, as the first read
      happened to end. */
  lemma SurplusDependsOnCut()
    ensures CutAt([1, 2], 0, 1, false).bytes == [1] && CutAt([1, 2], 2, 1, false).bytes == [1, 2]
  {
    CutValue([1, 2], 0, 1, false);
    CutValue([1, 2], 2, 1, false);
  }

  /** Two bytes announced and one sent: the transfer counts as done. */
  lemma ShortBodyPasses(cut: nat)
    requires cut <= 1
    ensures CutAt([1], cut, 2, false) == Body([1], true)
  {
    CutValue([1], cut, 2, false);
  }
}
