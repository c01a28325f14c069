/** The two ends of a transfer, with an adversary at each. The connection returns
    its bytes in pieces of whatever length it likes and ends in EOF or an error;
    the output accepts writes in pieces, until it is full. */
module Stream {
  import opened Words

  const EX_OK := 0
  const EX_HTTP := 6
  const EX_IO := 7
  const EX_REDIRECT := 8
  const EX_PROTO := 9

  class Conn {
    var stream: seq<Byte>    // what the peer has still to deliver
    const failing: bool      // how it ends: a read error, or end of stream
    var cuts: seq<nat>       // how much each coming read returns, at most

    constructor (s: seq<Byte>, f: bool, c: seq<nat>)
      ensures stream == s && failing == f
    {
      stream, failing, cuts := s, f, c;
    }

    /** conn_read(): at least one byte when there is one, never more than asked;
        0 at the end of the stream, -1 on an error. The contract says nothing
        about the cuts: a caller proved with it is right for every one of them. */
    method Read(max: nat) returns (n: int, data: seq<Byte>)
      requires max > 0
      modifies this
      ensures data + stream == old(stream)
      ensures n > 0 ==> n == |data| <= max
      ensures n <= 0 ==> old(stream) == [] && data == [] && n == if failing then -1 else 0
    {
      if stream == [] {
        return if failing then -1 else 0, [];
      }
      var want := if cuts == [] then max else if cuts[0] == 0 then 1 else cuts[0];
      cuts := if cuts == [] then [] else cuts[1..];
      n := if want < max then want else max;
      n := if n < |stream| then n else |stream|;
      data := stream[..n];
      stream := stream[n..];
    }
  }

  /** A write that returned early, or was interrupted before writing anything. */
  datatype WriteEvent = Short(n: nat) | Interrupted

  function Take(s: seq<Byte>, n: nat): seq<Byte> { if n < |s| then s[..n] else s }

  class Sink {
    var written: seq<Byte>
    var room: nat
    var events: seq<WriteEvent>

    constructor (r: nat, e: seq<WriteEvent>)
      ensures written == [] && room == r
    {
      written, room, events := [], r, e;
    }

    /** write(): -1 with EINTR, -1 with an error once the output is full, or the
        number of bytes taken. */
    method Write(data: seq<Byte>) returns (n: int, interrupted: bool)
      requires data != []
      modifies this
      ensures interrupted ==> n == -1 && written == old(written) && room == old(room) && |events| < |old(events)|
      ensures !interrupted && n < 0 ==> n == -1 && room == old(room) == 0 && written == old(written)
      ensures !interrupted && n >= 0 ==>
        0 < n <= |data| && n <= old(room) && written == old(written) + data[..n] && room == old(room) - n
    {
      var e := if events == [] then Short(|data|) else events[0];
      events := if events == [] then [] else events[1..];
      if e.Interrupted? {
        return -1, true;
      }
      if room == 0 {
        return -1, false;
      }
      n := if e.n == 0 then 1 else e.n;
      n := if n < |data| then n else |data|;
      n := if n < room then n else room;
      written := written + data[..n];
      room := room - n;
      interrupted := false;
    }

    /** write_all(): everything, or as much as there was room for. */
    method WriteAll(data: seq<Byte>) returns (ok: bool)
      modifies this
      ensures ok <==> |data| <= old(room)
      ensures written == old(written) + Take(data, old(room))
      ensures room == old(room) - |Take(data, old(room))|
    {
      var off := 0;
      while off < |data|
        invariant 0 <= off <= |data| && off <= old(room)
        invariant written == old(written) + data[..off] && room == old(room) - off
        decreases |data| - off, |events|
      {
        var n, interrupted := Write(data[off..]);
        if n < 0 {
          if interrupted {
            continue;
          }
          return false;
        }
        assert data[..off] + data[off..][..n] == data[..off + n];
        off := off + n;
      }
      assert data[..off] == data;
      ok := true;
    }
  }
}
