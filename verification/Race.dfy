/** tcp_connect() of board/hget/hget.c as an owner of descriptors: every candidate
    is connected to at once and the first to succeed wins. The kernel is an
    adversary: any call may fail, any descriptor may be ready, broken or neither
    at every poll, and descriptor numbers are reused as soon as they are free. */
module Race {
  import opened Candidates

  const O_NONBLOCK: int := 0x800

  /** What poll() reports of a slot: nothing, or an event, with POLLERR or POLLHUP
      or without. */
  datatype Event = Quiet | Ready | Broken

  datatype PollFd = PollFd(fd: int, revents: Event)

  /** The slots with what poll() reported of each. */
  function Reported(s: seq<PollFd>, revents: seq<Event>): seq<PollFd>
    requires |s| == |revents|
  {
    seq(|s|, i requires 0 <= i < |s| => PollFd(s[i].fd, revents[i]))
  }

  /** A slot that has connected. */
  predicate Connected(p: PollFd, healthy: set<int>) { p.revents.Ready? && p.fd in healthy }

  /** A slot with an event that has not connected. */
  predicate Settled(p: PollFd, healthy: set<int>) { !p.revents.Quiet? && !Connected(p, healthy) }

  /** The descriptors reported as connected. */
  function Reached(report: seq<PollFd>, healthy: set<int>): set<int> {
    set p | p in report && Connected(p, healthy) :: p.fd
  }

  /** The last report says that this descriptor's connection has failed. */
  predicate Failed(report: seq<PollFd>, healthy: set<int>, fd: int) {
    exists p :: p in report && p.fd == fd && Settled(p, healthy)
  }

  datatype ConnectResult = Done | InProgress | Refused

  class Kernel {
    var open: set<int>             // descriptors in use
    var made: multiset<int>        // every successful socket(), counted
    var gone: multiset<int>        // every close(), counted
    var born: map<int, int>        // the flags a descriptor was created with
    var mode: map<int, int>        // the flags it has now
    var tried: multiset<int>       // every connect(), counted
    var failed: multiset<int>      // every attempt known to have failed, counted
    var trying: set<int>           // descriptors whose attempt is under way
    var connected: set<int>        // descriptors reported as connected
    var unwatched: set<int>        // descriptors whose attempt some poll() left out
    var healthy: set<int>          // descriptors without a pending error
    var report: seq<PollFd>        // what the last poll() said
    var waited: nat                // milliseconds poll() was allowed to take
    var asked: nat                 // calls of socket()
    var broken: nat                // times poll() failed, not just interrupted

    /** Every opening is matched by one close, except those of what is open; and only
        on open descriptors are attempts under way. */
    ghost predicate Balanced()
      reads this`open, this`made, this`gone, this`trying
    {
      made == gone + multiset(open) && trying <= open && forall fd :: fd in open ==> fd >= 0
    }

    constructor ()
      ensures open == {} && Balanced()
    {
      open, made, gone, born, mode, trying := {}, multiset{}, multiset{}, map[], map[], {};
    }

    method Socket() returns (fd: int)
      requires Balanced()
      modifies this`open, this`made, this`born, this`mode, this`asked, this`trying, this`connected,
               this`unwatched
      ensures Balanced() && asked == old(asked) + 1
      ensures fd < 0 ==> open == old(open) && born == old(born) && mode == old(mode)
      ensures made == if fd >= 0 then old(made) + multiset{fd} else old(made)
      ensures fd < 0 ==> trying == old(trying) && connected == old(connected) && unwatched == old(unwatched)
      ensures fd >= 0 ==>
        trying == old(trying) - {fd} && connected == old(connected) - {fd} && unwatched == old(unwatched) - {fd}
      ensures fd >= 0 ==>
        && fd !in old(open) && open == old(open) + {fd} && fd in born
        && born == old(born)[fd := born[fd]] && mode == old(mode)[fd := born[fd]]
    {
      hide Balanced;
      var f: int := *;
      var flags: int := *;
      asked := asked + 1;
      if f < 0 || f in open {
        return -1;
      }
      fd := f;
      Enter(fd);
      connected, unwatched := connected - {fd}, unwatched - {fd};
      born, mode := born[fd := flags], mode[fd := flags];
    }

    /** A free number comes into use. */
    method Enter(fd: int)
      requires Balanced() && fd >= 0 && fd !in open
      modifies this`open, this`made, this`trying
      ensures Balanced() && open == old(open) + {fd} && made == old(made) + multiset{fd}
      ensures trying == old(trying) - {fd}
    {
      Opened(made, gone, open, fd);
      open, made, trying := open + {fd}, made + multiset{fd}, trying - {fd};
    }

    method SetFlags(fd: int, flags: int)
      requires fd in open
      modifies this`mode
      ensures mode == old(mode)[fd := flags]
    {
      mode := mode[fd := flags];
    }

    /** Closing a descriptor that is not open, or closing one twice, is ruled out
        by the precondition. */
    method Close(fd: int)
      requires Balanced() && fd in open
      modifies this`open, this`gone, this`trying
      ensures Balanced() && open == old(open) - {fd} && trying == old(trying) - {fd}
    {
      assert multiset(open) == multiset(open - {fd}) + multiset{fd};
      open, gone, trying := open - {fd}, gone + multiset{fd}, trying - {fd};
    }

    /** Only a descriptor that will not block is connected. */
    method Connect(fd: int) returns (r: ConnectResult)
      requires Balanced() && fd in open && fd in mode && mode[fd] / 0x800 % 2 == 1
      modifies this`tried, this`failed, this`trying, this`connected
      ensures Balanced()
      ensures tried == old(tried) + multiset{fd}
      ensures failed == if r.Refused? then old(failed) + multiset{fd} else old(failed)
      ensures trying == if r.InProgress? then old(trying) + {fd} else old(trying)
      ensures connected == if r.Done? then old(connected) + {fd} else old(connected)
    {
      r := *;
      tried := tried + multiset{fd};
      match r
      case Done => connected := connected + {fd};
      case InProgress => trying := trying + {fd};
      case Refused => failed := failed + multiset{fd};
    }

    /** poll(): events on any of the slots, or none and a time-out, an interruption
        or an error. Meanwhile any attempt may have succeeded or failed. */
    method Poll(slots: seq<PollFd>, slice: nat) returns (rc: int, eintr: bool, revents: seq<Event>)
      modifies this`waited, this`healthy, this`broken, this`report, this`connected, this`unwatched
      ensures |revents| == |slots| && report == Reported(slots, revents)
      ensures rc <= 0 ==> forall p :: p in report ==> p.revents.Quiet?
      ensures waited == old(waited) + slice
      ensures broken == old(broken) + if rc < 0 && !eintr then 1 else 0
      ensures connected == old(connected) + (Reached(report, healthy) * trying)
      ensures unwatched == old(unwatched) + (trying - FdSet(slots))
    {
      rc, eintr, healthy := *, *, *;
      revents := [];
      while |revents| < |slots|
        invariant |revents| <= |slots|
        invariant rc <= 0 ==> forall e :: e in revents ==> e.Quiet?
      {
        var e: Event := *;
        revents := revents + [if rc <= 0 then Quiet else e];
      }
      report := Reported(slots, revents);
      connected := connected + (Reached(report, healthy) * trying);
      unwatched := unwatched + (trying - FdSet(slots));
      waited := waited + slice;
      broken := broken + if rc < 0 && !eintr then 1 else 0;
    }

    /** getsockopt(SO_ERROR) succeeded and reported no error. It is with this call
        that a failure becomes known. */
    method NoError(fd: int) returns (ok: bool)
      requires Balanced() && fd in open
      modifies this`failed, this`trying
      ensures Balanced()
      ensures ok == (fd in healthy)
      ensures var lost := fd in old(trying) && Failed(report, healthy, fd);
              && failed == (if lost then old(failed) + multiset{fd} else old(failed))
              && trying == (if lost then old(trying) - {fd} else old(trying))
    {
      ok := fd in healthy;
      if fd in trying && Failed(report, healthy, fd) {
        failed, trying := failed + multiset{fd}, trying - {fd};
      }
    }
  }

  /** The last slot moved into slot i. */
  function Removed<T>(s: seq<T>, i: nat): seq<T>
    requires i < |s|
  {
    s[i := s[|s| - 1]][..|s| - 1]
  }

  lemma RemovedSlots(s: seq<PollFd>, i: nat)
    requires i < |s|
    ensures Removed(s, i)[..i] == s[..i]
    ensures forall p :: p in Removed(s, i) ==> p in s
    ensures forall p :: p in s && p != s[i] ==> p in Removed(s, i)
  {
    var t, n := Removed(s, i), |s| - 1;
    forall p | p in t ensures p in s {
      var j :| 0 <= j < |t| && t[j] == p;
      assert p == s[if j == i then n else j];
    }
    forall p | p in s && p != s[i] ensures p in t {
      var j :| 0 <= j < |s| && s[j] == p;
      assert t[if j == n then i else j] == p;
    }
  }

  /** The descriptors in a list of slots; a blanked slot holds none. */
  function FdSet(s: seq<PollFd>): set<int> { set p | p in s && p.fd >= 0 :: p.fd }

  predicate Distinct(s: seq<PollFd>) {
    forall i, j :: 0 <= i < j < |s| && s[i].fd >= 0 ==> s[i].fd != s[j].fd
  }

  lemma InFdSet(s: seq<PollFd>, i: nat)
    requires i < |s|
    ensures s[i].fd >= 0 ==> s[i].fd in FdSet(s)
  {
    assert s[i] in s;
  }

  lemma Push(s: seq<PollFd>, fd: int)
    requires Distinct(s) && fd >= 0 && fd !in FdSet(s)
    ensures Distinct(s + [PollFd(fd, Quiet)]) && FdSet(s + [PollFd(fd, Quiet)]) == FdSet(s) + {fd}
  {
    forall i | 0 <= i < |s| ensures s[i].fd != fd {
      InFdSet(s, i);
    }
  }

  /** Moving the last slot into a vacated one keeps exactly the other descriptors. */
  lemma SwapRemoves(s: seq<PollFd>, i: nat)
    requires i < |s| && Distinct(s) && s[i].fd >= 0
    ensures var t := Removed(s, i);
            Distinct(t) && FdSet(t) == FdSet(s) - {s[i].fd}
  {
    var n := |s| - 1;
    var t := Removed(s, i);
    forall x | x in FdSet(s) && x != s[i].fd ensures x in FdSet(t) {
      var p :| p in s && p.fd == x;
      var j :| 0 <= j < |s| && s[j] == p;
      assert t[if j == n then i else j] == p;
    }
    forall x | x in FdSet(t) ensures x in FdSet(s) && x != s[i].fd {
      var p :| p in t && p.fd == x;
      var j :| 0 <= j < |t| && t[j] == p;
      assert p == s[if j == i then n else j];
    }
  }

  /** Blanking a slot takes exactly its descriptor out. */
  lemma Blank(s: seq<PollFd>, i: nat)
    requires i < |s| && Distinct(s) && s[i].fd >= 0
    ensures var t := s[i := s[i].(fd := -1)];
            Distinct(t) && FdSet(t) == FdSet(s) - {s[i].fd}
  {
    var t := s[i := s[i].(fd := -1)];
    forall x | x in FdSet(s) && x != s[i].fd ensures x in FdSet(t) {
      var p :| p in s && p.fd == x;
      var j :| 0 <= j < |s| && s[j] == p;
      assert t[j] == p;
    }
    forall x | x in FdSet(t) ensures x in FdSet(s) && x != s[i].fd {
      var p :| p in t && p.fd == x && x >= 0;
      var j :| 0 <= j < |t| && t[j] == p;
      assert j != i && s[j] == p;
    }
  }

  /** Each slot holds a descriptor of the race, open, with its own original flags. */
  ghost predicate Racing(open: set<int>, born: map<int, int>, slots: seq<PollFd>, flags: seq<int>, before: set<int>) {
    && |slots| == |flags| && Distinct(slots)
    && (forall i :: 0 <= i < |slots| ==>
         slots[i].fd >= 0 && slots[i].fd in born && flags[i] == born[slots[i].fd])
    && FdSet(slots) !! before
    && open == before + FdSet(slots)
  }

  lemma RacingBorn(open: set<int>, born: map<int, int>, slots: seq<PollFd>, flags: seq<int>, before: set<int>,
                   fd: int, f: int)
    requires Racing(open, born, slots, flags, before) && fd !in open
    ensures Racing(open, born[fd := f], slots, flags, before)
    ensures fd !in FdSet(slots) && fd !in before
  {
    forall i | 0 <= i < |slots| ensures slots[i].fd != fd {
      InFdSet(slots, i);
    }
  }

  lemma RacingPush(open: set<int>, born: map<int, int>, slots: seq<PollFd>, flags: seq<int>, before: set<int>, fd: int)
    requires Racing(open, born, slots, flags, before) && fd !in open && fd >= 0 && fd in born
    ensures Racing(open + {fd}, born, slots + [PollFd(fd, Quiet)], flags + [born[fd]], before)
    ensures FdSet(slots + [PollFd(fd, Quiet)]) == FdSet(slots) + {fd}
  {
    Push(slots, fd);
  }

  lemma RacingDrop(open: set<int>, born: map<int, int>, slots: seq<PollFd>, flags: seq<int>, before: set<int>, i: nat)
    requires Racing(open, born, slots, flags, before) && i < |slots|
    ensures slots[i].fd in open
    ensures |flags| == |slots|
    ensures Racing(open - {slots[i].fd}, born, Removed(slots, i), Removed(flags, i), before)
    ensures FdSet(Removed(slots, i)) == FdSet(slots) - {slots[i].fd}
  {
    SwapRemoves(slots, i);
    InFdSet(slots, i);
  }

  /** Beside the slots there is one more open descriptor of the race. */
  ghost predicate WonBy(open: set<int>, slots: seq<PollFd>, before: set<int>, winner: int) {
    && Distinct(slots) && winner >= 0 && winner !in before && winner !in FdSet(slots)
    && FdSet(slots) !! before
    && open == before + {winner} + FdSet(slots)
  }

  lemma RacingWon(open: set<int>, born: map<int, int>, slots: seq<PollFd>, flags: seq<int>, before: set<int>, i: nat)
    requires Racing(open, born, slots, flags, before) && i < |slots|
    ensures slots[i].fd in open && slots[i].fd in born && flags[i] == born[slots[i].fd]
    ensures WonBy(open, slots[i := slots[i].(fd := -1)], before, slots[i].fd)
    ensures slots[i].fd !in before && slots[i].fd >= 0 && slots[i].fd in FdSet(slots)
  {
    Blank(slots, i);
    InFdSet(slots, i);
  }

  /** The winner is back in the mode it was created in. */
  predicate Restored(born: map<int, int>, mode: map<int, int>, winner: int) {
    winner in born && winner in mode && mode[winner] == born[winner]
  }

  /** Descriptors from before the race keep their modes. */
  predicate SameModes(before: set<int>, mode0: map<int, int>, mode: map<int, int>) {
    forall fd :: fd in before && fd in mode0 ==> fd in mode && mode[fd] == mode0[fd]
  }

  /** The counts a race starts from. */
  datatype Base = Base(made: multiset<int>, tried: multiset<int>, failed: multiset<int>, trying: set<int>)

  /** The books of a race: every descriptor it opened was connected with, except the
      one at hand; and every attempt has failed, except those that are in the slots,
      which are still under way, and nothing else is that was not before. */
  ghost predicate Books(b: Base, made: multiset<int>, tried: multiset<int>, failed: multiset<int>,
                        slots: set<int>, trying: set<int>, hand: multiset<int>) {
    && made + b.tried == b.made + tried + hand
    && tried + b.failed == b.tried + failed + multiset(slots)
    && slots <= trying <= slots + b.trying
  }

  lemma BooksMade(b: Base, made: multiset<int>, tried: multiset<int>, failed: multiset<int>,
                  slots: set<int>, trying: set<int>, fd: int)
    requires Books(b, made, tried, failed, slots, trying, multiset{}) && fd !in slots
    ensures Books(b, made + multiset{fd}, tried, failed, slots, trying - {fd}, multiset{fd})
  {
    var x := multiset{fd};
    assert made + x + b.tried == (made + b.tried) + x;
  }

  lemma BooksTried(b: Base, made: multiset<int>, tried: multiset<int>, failed: multiset<int>,
                   slots: set<int>, trying: set<int>, fd: int)
    requires Books(b, made, tried, failed, slots, trying, multiset{fd}) && fd !in slots
    ensures Books(b, made, tried + multiset{fd}, failed + multiset{fd}, slots, trying, multiset{})
    ensures Books(b, made, tried + multiset{fd}, failed, slots + {fd}, trying + {fd}, multiset{})
  {
    var x := multiset{fd};
    OneMore(slots, fd);
    assert tried + x + b.failed == (tried + b.failed) + x;
    assert b.tried + (failed + x) + multiset(slots) == (b.tried + failed + multiset(slots)) + x;
    assert b.made + (tried + x) == b.made + tried + x;
  }

  lemma BooksTrying(b: Base, made: multiset<int>, tried: multiset<int>, failed: multiset<int>,
                    slots: set<int>, trying: set<int>, fd: int)
    requires Books(b, made, tried, failed, slots, trying, multiset{}) && fd in slots
    ensures fd in trying
  {}

  lemma BooksLost(b: Base, made: multiset<int>, tried: multiset<int>, failed: multiset<int>,
                  slots: set<int>, trying: set<int>, fd: int)
    requires Books(b, made, tried, failed, slots, trying, multiset{}) && fd in slots
    ensures Books(b, made, tried, failed + multiset{fd}, slots - {fd}, trying - {fd}, multiset{})
  {
    OneMore(slots - {fd}, fd);
    assert slots - {fd} + {fd} == slots;
  }

  /** The flags with O_NONBLOCK set. */
  function Nonblocking(f: int): (g: int)
    ensures g / 0x800 % 2 == 1 && (g == f || g == f + 0x800)
  {
    if f / O_NONBLOCK % 2 == 0 then f + O_NONBLOCK else f
  }

  /** tcp_connect()'s local state: the nfd occupied slots of its two arrays. */
  class Racer {
    const k: Kernel
    var pfd: seq<PollFd>
    var flags: seq<int>
    ghost const base: Base

    constructor (kernel: Kernel)
      ensures k == kernel && pfd == [] && flags == []
      ensures base == Base(kernel.made, kernel.tried, kernel.failed, kernel.trying)
    {
      k, pfd, flags := kernel, [], [];
      base := Base(kernel.made, kernel.tried, kernel.failed, kernel.trying);
    }

    ghost predicate Balance(hand: multiset<int>)
      reads this, k
    {
      Books(base, k.made, k.tried, k.failed, FdSet(pfd), k.trying, hand)
    }

    ghost predicate Live(before: set<int>)
      reads this, k
    {
      k.Balanced() && Racing(k.open, k.born, pfd, flags, before) && Balance(multiset{})
    }

    ghost predicate Won(before: set<int>, winner: int)
      reads this, k
    {
      k.Balanced() && WonBy(k.open, pfd, before, winner) && Restored(k.born, k.mode, winner)
    }

    /** socket() and the two fcntl() calls. */
    method Open(ghost before: set<int>) returns (fd: int, f: int)
      requires Live(before)
      modifies k
      ensures k.waited == old(k.waited) && k.broken == old(k.broken) && k.asked == old(k.asked) + 1
      ensures k.connected <= old(k.connected) && k.unwatched <= old(k.unwatched)
      ensures SameModes(before, old(k.mode), k.mode)
      ensures fd < 0 ==> Live(before)
      ensures fd >= 0 ==>
        && fd !in old(k.open) && fd !in before && k.open == old(k.open) + {fd} && k.Balanced()
        && Racing(old(k.open), k.born, pfd, flags, before)
        && fd in k.born && k.born[fd] == f
        && fd in k.mode && k.mode[fd] / 0x800 % 2 == 1 && (k.mode[fd] == f || k.mode[fd] == f + 0x800)
        && fd !in FdSet(pfd) && fd !in k.trying && Balance(multiset{fd})
    {
      hide FdSet, Distinct, Nonblocking, Books, Racing, Kernel.Balanced;
      fd := k.Socket();
      f := 0;
      if fd < 0 {
        return;
      }
      RacingBorn(old(k.open), old(k.born), pfd, flags, before, fd, k.born[fd]);
      BooksMade(base, old(k.made), k.tried, k.failed, FdSet(pfd), old(k.trying), fd);
      f := k.mode[fd];
      k.SetFlags(fd, Nonblocking(f));
    }

    /** One candidate: a descriptor that is connecting, or a winner at once. */
    method Start(ghost before: set<int>) returns (winner: int)
      requires Live(before)
      modifies this, k
      ensures k.waited == old(k.waited) && k.broken == old(k.broken) && k.asked == old(k.asked) + 1
      ensures |pfd| <= |old(pfd)| + 1 && SameModes(before, old(k.mode), k.mode)
      ensures k.unwatched <= old(k.unwatched)
      ensures if winner < 0 then Live(before) && k.connected <= old(k.connected)
              else Won(before, winner) && winner in k.connected
    {
      hide Racing, WonBy, FdSet, Distinct, Books, Restored, Kernel.Balanced;
      var fd, f := Open(before);
      if fd < 0 {
        return -1;
      }
      winner := Attempt(fd, f, old(k.open), before);
    }

    /** connect() on a new descriptor, and what becomes of it. */
    method Attempt(fd: int, f: int, ghost others: set<int>, ghost before: set<int>) returns (winner: int)
      requires fd >= 0 && fd !in others && fd !in before && k.open == others + {fd} && k.Balanced()
      requires Racing(others, k.born, pfd, flags, before) && fd in k.born && k.born[fd] == f
      requires fd !in FdSet(pfd) && fd !in k.trying && Balance(multiset{fd})
      requires fd in k.mode && k.mode[fd] / 0x800 % 2 == 1
      modifies this, k`open, k`gone, k`mode, k`tried, k`failed, k`trying, k`connected
      ensures |pfd| <= |old(pfd)| + 1 && SameModes(before, old(k.mode), k.mode)
      ensures if winner < 0 then Live(before) && k.connected <= old(k.connected)
              else Won(before, winner) && winner in k.connected
    {
      hide Racing, WonBy, FdSet, Distinct, Books, Restored, Kernel.Balanced;
      BooksTried(base, k.made, k.tried, k.failed, FdSet(pfd), k.trying, fd);
      var r := k.Connect(fd);
      if r.Done? {
        WinAtOnce(fd, f, others, before);
        return fd;
      }
      if r.Refused? {
        k.Close(fd);
        assert k.open == others && k.trying == old(k.trying) && k.connected == old(k.connected);
        return -1;
      }
      Enlist(fd, f, others, before);
      winner := -1;
    }

    /** A descriptor that connected at once is put back into its own mode. */
    method WinAtOnce(fd: int, f: int, ghost others: set<int>, ghost before: set<int>)
      requires fd >= 0 && fd !in others && fd !in before && k.open == others + {fd} && k.Balanced()
      requires Racing(others, k.born, pfd, flags, before) && fd in k.born && k.born[fd] == f
      modifies k`mode
      ensures Won(before, fd) && SameModes(before, old(k.mode), k.mode)
    {
      hide Racing, WonBy, FdSet, Distinct, Kernel.Balanced;
      k.SetFlags(fd, f);
      WonAtOnce(others, k.born, pfd, flags, before, fd);
    }

    /** A descriptor whose attempt is under way takes the next slot. */
    method Enlist(fd: int, f: int, ghost others: set<int>, ghost before: set<int>)
      requires fd >= 0 && fd !in others && k.open == others + {fd} && k.Balanced()
      requires Racing(others, k.born, pfd, flags, before) && fd in k.born && k.born[fd] == f
      requires Books(base, k.made, k.tried, k.failed, FdSet(pfd) + {fd}, k.trying, multiset{})
      modifies this
      ensures Live(before) && |pfd| == |old(pfd)| + 1
    {
      hide Racing, WonBy, FdSet, Distinct, Books, Kernel.Balanced;
      RacingPush(others, k.born, pfd, flags, before, fd);
      pfd, flags := pfd + [PollFd(fd, Quiet)], flags + [f];
    }

    /** The slots after a poll: drop the ones that failed, stop at one that has
        connected. No slot is passed over, wherever the removals moved it: without a
        winner none had connected, and exactly the slots without an event are left. */
    method Sweep(revents: seq<Event>, ghost before: set<int>) returns (winner: int)
      requires Live(before) && |revents| == |pfd| && k.report == Reported(pfd, revents)
      modifies this, k`open, k`gone, k`mode, k`failed, k`trying
      ensures SameModes(before, old(k.mode), k.mode)
      ensures if winner < 0 then Live(before) else Won(before, winner)
      ensures var was := Reported(old(pfd), revents);
              if winner < 0 then
                && (forall p :: p in was ==> !Connected(p, k.healthy))
                && (forall p :: p in pfd <==> p in was && p.revents.Quiet?)
              else exists p :: p in was && p.fd == winner && Connected(p, k.healthy)
    {
      hide Racing, FdSet, Distinct, Removed, Books, Kernel.Balanced;
      winner := -1;
      ghost var was := Reported(pfd, revents);
      Report(revents, before);
      var i := 0;
      while i < |pfd|
        invariant 0 <= i <= |pfd| && Live(before) && |flags| == |pfd|
        invariant k.mode == old(k.mode)
        invariant forall p :: p in pfd[..i] ==> p.revents.Quiet?
        invariant forall p :: p in pfd ==> p in was
        invariant forall p :: p in was && p !in pfd ==> Settled(p, k.healthy)
        decreases |pfd| - i
      {
        if pfd[i].revents.Quiet? {
          assert pfd[..i + 1] == pfd[..i] + [pfd[i]];
          i := i + 1;
          continue;
        }
        RemovedSlots(pfd, i);
        winner := Judge(i, before);
        if winner >= 0 {
          return;
        }
      }
      assert pfd[..i] == pfd;
    }

    /** A slot with an event: it has won, or it is closed and its place taken by
        the last slot. */
    method Judge(i: nat, ghost before: set<int>) returns (winner: int)
      requires Live(before) && i < |pfd| && |flags| == |pfd|
      requires pfd[i] in k.report && !pfd[i].revents.Quiet?
      modifies this, k`open, k`gone, k`mode, k`failed, k`trying
      ensures winner >= 0 <==> Connected(old(pfd)[i], k.healthy)
      ensures if winner < 0 then
                Live(before) && pfd == Removed(old(pfd), i) && |flags| == |pfd| == |old(pfd)| - 1 && k.mode == old(k.mode)
              else winner == old(pfd)[i].fd && Won(before, winner) && SameModes(before, old(k.mode), k.mode)
    {
      hide Racing, FdSet, Distinct, WonBy, Books, Kernel.Balanced;
      RacingWon(k.open, k.born, pfd, flags, before, i);
      var fd := pfd[i].fd;
      BooksTrying(base, k.made, k.tried, k.failed, FdSet(pfd), k.trying, fd);
      var ok := k.NoError(fd);
      if ok && pfd[i].revents.Ready? {
        k.SetFlags(fd, flags[i]);
        pfd := pfd[i := pfd[i].(fd := -1)];
        return fd;
      }
      BooksLost(base, k.made, k.tried, old(k.failed), FdSet(pfd), old(k.trying), fd);
      Drop(i, fd, before);
      winner := -1;
    }

    /** A failed attempt is closed, and the last slot takes its place. */
    method Drop(i: nat, fd: int, ghost before: set<int>)
      requires k.Balanced() && Racing(k.open, k.born, pfd, flags, before)
      requires i < |pfd| && |flags| == |pfd| && pfd[i].fd == fd
      requires Books(base, k.made, k.tried, k.failed, FdSet(pfd) - {fd}, k.trying, multiset{}) && fd !in k.trying
      modifies this, k`open, k`gone, k`trying
      ensures Live(before) && pfd == Removed(old(pfd), i) && |flags| == |pfd| == |old(pfd)| - 1
    {
      hide Racing, FdSet, Distinct, WonBy, Books, Kernel.Balanced;
      RacingDrop(k.open, k.born, pfd, flags, before, i);
      k.Close(fd);
      assert k.trying == old(k.trying);
      var n := |pfd| - 1;
      pfd, flags := pfd[i := pfd[n]][..n], flags[i := flags[n]][..n];
    }

    /** The last loop: everything still in a slot. */
    method CloseRest(winner: int, ghost keep: set<int>)
      requires k.Balanced() && k.open == keep + FdSet(pfd) && FdSet(pfd) !! keep && Distinct(pfd)
      requires winner !in FdSet(pfd)
      modifies k`open, k`gone, k`trying
      ensures k.Balanced() && k.open == keep
    {
      hide Distinct, FdSet, Kernel.Balanced;
      var i := 0;
      assert pfd[0..] == pfd;
      while i < |pfd|
        invariant 0 <= i <= |pfd|
        invariant k.Balanced() && k.open == keep + FdSet(pfd[i..])
      {
        PopFirst(pfd, i, keep);
        InFdSet(pfd, i);
        if pfd[i].fd >= 0 && pfd[i].fd != winner {
          k.Close(pfd[i].fd);
        }
        i := i + 1;
      }
      assert pfd[i..] == [];
      EmptyFdSet();
    }

    /** poll() fills in the revents of every slot. */
    method Report(revents: seq<Event>, ghost before: set<int>)
      requires Live(before) && |revents| == |pfd|
      modifies this`pfd
      ensures Live(before) && |flags| == |pfd| && pfd == Reported(old(pfd), revents)
    {
      var slots := pfd;
      pfd := Reported(slots, revents);
      SameFds(slots, pfd);
    }
  }

  lemma SameFds(s: seq<PollFd>, t: seq<PollFd>)
    requires |s| == |t| && forall i :: 0 <= i < |s| ==> s[i].fd == t[i].fd
    ensures FdSet(s) == FdSet(t)
  {
    forall x | x in FdSet(s) ensures x in FdSet(t) {
      var i :| 0 <= i < |s| && s[i].fd == x;
      InFdSet(t, i);
    }
    forall x | x in FdSet(t) ensures x in FdSet(s) {
      var i :| 0 <= i < |t| && t[i].fd == x;
      InFdSet(s, i);
    }
  }

  lemma WonAtOnce(open: set<int>, born: map<int, int>, slots: seq<PollFd>, flags: seq<int>, before: set<int>, fd: int)
    requires Racing(open, born, slots, flags, before) && fd >= 0 && fd !in open
    ensures WonBy(open + {fd}, slots, before, fd)
  {}

  lemma EmptyFdSet()
    ensures FdSet([]) == {}
  {}

  lemma PopFirst(s: seq<PollFd>, i: nat, keep: set<int>)
    requires i < |s| && Distinct(s) && FdSet(s) !! keep
    ensures s[i].fd >= 0 ==> s[i].fd in FdSet(s) && s[i].fd !in keep && s[i].fd !in FdSet(s[i + 1..])
    ensures FdSet(s[i..]) == FdSet(s[i + 1..]) + (if s[i].fd >= 0 then {s[i].fd} else {})
  {
    InFdSet(s, i);
    assert s[i..] == [s[i]] + s[i + 1..];
    forall p | p in s[i + 1..] && s[i].fd >= 0 ensures p.fd != s[i].fd {
      var j :| 0 <= j < |s[i + 1..]| && s[i + 1..][j] == p;
      assert s[i + 1 + j] == p;
    }
  }

  /** Connect to the first of n candidates to answer, within the time limit. On
      every run, whatever the kernel answers: what is open afterwards is what was
      open before and the winner; counting repeated numbers, what was opened on the
      way is what was closed on the way and the winner; the winner is back in its
      original mode; and no more than the limit is spent waiting. A winner has been
      reported as connected. Without a winner, every candidate was asked for a socket
      and every socket opened was tried; no attempt was reported as connected; and
      unless the time was used up or poll() failed, every single attempt has failed.
      With or without one, no poll left out an attempt of this race. */
  method TcpConnect(k: Kernel, n: nat, limitMs: nat) returns (winner: int)
    requires k.Balanced()
    modifies k
    ensures k.Balanced()
    ensures k.open == old(k.open) + (if winner >= 0 then {winner} else {})
    ensures winner >= 0 ==> winner !in old(k.open) && Restored(k.born, k.mode, winner)
    ensures SameModes(old(k.open), old(k.mode), k.mode)
    ensures k.waited <= old(k.waited) + limitMs
    ensures winner >= 0 ==> winner in k.connected
    ensures k.unwatched <= old(k.unwatched) + old(k.trying) && old(k.trying) <= old(k.open)
    ensures winner < 0 ==>
      && (n <= 8 ==> k.asked == old(k.asked) + n)
      && k.made + old(k.tried) == old(k.made) + k.tried
      && k.connected <= old(k.connected)
      && (k.waited < old(k.waited) + limitMs && k.broken == old(k.broken) ==>
           k.tried + old(k.failed) == old(k.tried) + k.failed)
    ensures k.made + old(k.gone) == old(k.made) + k.gone + (if winner >= 0 then multiset{winner} else multiset{})
  {
    hide Racing, WonBy, FdSet, Distinct, Restored, SameModes, Books;
    ghost var before := k.open;
    var r := new Racer(k);
    NobodyYet(k.open, k.born, r.base);
    winner := Compete(r, n, limitMs, before);
    if winner < 0 {
      BooksClosed(r.base, k.made, k.tried, k.failed, r.pfd, k.trying);
    }
    CleanUp(r, winner, before);
    Tally(before, winner);
  }

  /** The attempts and the wait for them. */
  method Compete(r: Racer, n: nat, limitMs: nat, ghost before: set<int>) returns (winner: int)
    requires r as object != r.k && r.Live(before) && r.pfd == []
    modifies r, r.k
    ensures if winner < 0 then r.Live(before) && r.k.connected <= old(r.k.connected)
            else r.Won(before, winner) && winner in r.k.connected
    ensures SameModes(before, old(r.k.mode), r.k.mode) && r.k.waited <= old(r.k.waited) + limitMs
    ensures r.k.unwatched <= old(r.k.unwatched) + r.base.trying
    ensures winner < 0 ==>
      && (n <= MAX_ADDRS ==> r.k.asked == old(r.k.asked) + n)
      && (r.k.waited < old(r.k.waited) + limitMs && r.k.broken == old(r.k.broken) ==> r.pfd == [])
  {
    hide Racing, WonBy, FdSet, Distinct, Restored, SameModes, Books, Kernel.Balanced;
    winner := StartAll(r, n, before);
    if winner < 0 {
      winner := Wait(r, limitMs, before, old(r.k.mode));
    }
  }

  /** Close what is left in the slots. */
  method CleanUp(r: Racer, winner: int, ghost before: set<int>)
    requires if winner < 0 then r.Live(before) else r.Won(before, winner)
    modifies r.k`open, r.k`gone, r.k`trying
    ensures r.k.Balanced() && r.k.open == before + (if winner >= 0 then {winner} else {})
    ensures winner >= 0 ==> winner !in before && Restored(r.k.born, r.k.mode, winner)
  {
    hide Racing, WonBy, FdSet, Distinct, Restored, Kernel.Balanced;
    if winner < 0 {
      Remaining(r.k.open, r.k.born, r.pfd, r.flags, before);
      r.CloseRest(winner, before);
    } else {
      RemainingWon(r.k.open, r.pfd, before, winner);
      r.CloseRest(winner, before + {winner});
    }
  }

  lemma Tally(before: set<int>, winner: int)
    requires winner >= 0 ==> winner !in before
    ensures multiset(before + (if winner >= 0 then {winner} else {}))
            == multiset(before) + (if winner >= 0 then multiset{winner} else multiset{})
  {
    if winner >= 0 {
      OneMore(before, winner);
    } else {
      assert before + {} == before;
    }
  }

  lemma Opened(made: multiset<int>, gone: multiset<int>, open: set<int>, fd: int)
    requires made == gone + multiset(open) && fd !in open
    ensures made + multiset{fd} == gone + multiset(open + {fd})
  {
    OneMore(open, fd);
  }

  lemma OneMore(s: set<int>, x: int)
    requires x !in s
    ensures multiset(s + {x}) == multiset(s) + multiset{x}
  {}

  method StartAll(r: Racer, n: nat, ghost before: set<int>) returns (winner: int)
    requires r as object != r.k && r.Live(before) && r.pfd == []
    modifies r, r.k
    ensures r.k.waited == old(r.k.waited) && r.k.broken == old(r.k.broken)
    ensures SameModes(before, old(r.k.mode), r.k.mode) && r.k.unwatched <= old(r.k.unwatched)
    ensures if winner < 0 then r.Live(before) && r.k.connected <= old(r.k.connected)
            else r.Won(before, winner) && winner in r.k.connected
    ensures winner < 0 && n <= MAX_ADDRS ==> r.k.asked == old(r.k.asked) + n
  {
    hide Racing, WonBy, FdSet, Distinct, Books, Restored, Kernel.Balanced;
    winner := -1;
    var isel := 0;
    while isel < n && |r.pfd| < MAX_ADDRS && winner < 0
      invariant r.k.waited == old(r.k.waited) && r.k.broken == old(r.k.broken)
      invariant r.k.asked == old(r.k.asked) + isel
      invariant 0 <= isel && |r.pfd| <= isel && (n <= MAX_ADDRS ==> isel <= n)
      invariant SameModes(before, old(r.k.mode), r.k.mode) && r.k.unwatched <= old(r.k.unwatched)
      invariant if winner < 0 then r.Live(before) && r.k.connected <= old(r.k.connected)
                else r.Won(before, winner) && winner in r.k.connected
      decreases n - isel
    {
      winner := r.Start(before);
      isel := isel + 1;
    }
  }

  /** The poll loop. It ends because every pass takes at least 1 off the deadline. */
  method Wait(r: Racer, limitMs: nat, ghost before: set<int>, ghost mode0: map<int, int>) returns (winner: int)
    requires r as object != r.k && SameModes(before, mode0, r.k.mode) && r.Live(before)
    modifies r, r.k`open, r.k`gone, r.k`mode, r.k`waited, r.k`healthy, r.k`broken, r.k`report, r.k`connected,
             r.k`failed, r.k`trying, r.k`unwatched
    ensures r.k.unwatched <= old(r.k.unwatched) + r.base.trying
    ensures r.k.waited <= old(r.k.waited) + limitMs
    ensures SameModes(before, mode0, r.k.mode)
    ensures if winner < 0 then r.Live(before) && r.k.connected == old(r.k.connected)
            else r.Won(before, winner) && winner in r.k.connected
    ensures winner < 0 && r.k.waited < old(r.k.waited) + limitMs && r.k.broken == old(r.k.broken) ==> r.pfd == []
  {
    hide Racing, WonBy, FdSet, Distinct, Books, Restored, Kernel.Balanced;
    winner := -1;
    var deadline: int := limitMs;
    while winner < 0 && |r.pfd| > 0 && deadline > 0
      invariant r.k.waited + deadline == old(r.k.waited) + limitMs && deadline >= 0
      invariant r.k.broken == old(r.k.broken) && SameModes(before, mode0, r.k.mode)
      invariant r.k.unwatched <= old(r.k.unwatched) + r.base.trying
      invariant if winner < 0 then r.Live(before) && r.k.connected == old(r.k.connected)
                else r.Won(before, winner) && winner in r.k.connected
      decreases deadline
    {
      var slice := if deadline > 1000 then 1000 else deadline;
      AllWatched(r.base, r.k.made, r.k.tried, r.k.failed, FdSet(r.pfd), r.k.trying);
      var rc, eintr, revents := r.k.Poll(r.pfd, slice);
      deadline := deadline - slice;
      if rc <= 0 {
        NobodyReached(r.k.report, r.k.healthy);
        if rc == 0 || eintr {
          continue;
        }
        break;
      }
      winner := Settle(r, revents, old(r.k.connected), before);
    }
  }

  /** What a poll with events leads to. */
  method Settle(r: Racer, revents: seq<Event>, ghost known: set<int>, ghost before: set<int>) returns (winner: int)
    requires r as object != r.k && r.Live(before)
    requires |revents| == |r.pfd| && r.k.report == Reported(r.pfd, revents)
    requires r.k.connected == known + Reached(r.k.report, r.k.healthy) * r.k.trying
    modifies r, r.k`open, r.k`gone, r.k`mode, r.k`failed, r.k`trying
    ensures SameModes(before, old(r.k.mode), r.k.mode)
    ensures if winner < 0 then r.Live(before) && r.k.connected == known
            else r.Won(before, winner) && winner in r.k.connected
  {
    hide Racing, WonBy, FdSet, Distinct, Books, Restored, SameModes, Kernel.Balanced;
    ghost var slots, trying := r.pfd, r.k.trying;
    ghost var was := Reported(slots, revents);
    AllTrying(r.base, r.k.made, r.k.tried, r.k.failed, slots, trying, was);
    winner := r.Sweep(revents, before);
    if winner < 0 {
      NobodyReached(was, r.k.healthy);
    } else {
      ghost var p :| p in was && p.fd == winner && Connected(p, r.k.healthy);
      assert p.fd in Reached(was, r.k.healthy);
    }
  }

  lemma AllWatched(b: Base, made: multiset<int>, tried: multiset<int>, failed: multiset<int>,
                   slots: set<int>, trying: set<int>)
    requires Books(b, made, tried, failed, slots, trying, multiset{})
    ensures trying - slots <= b.trying
  {}

  /** Every slot with a descriptor belongs to an attempt that is under way. */
  lemma AllTrying(b: Base, made: multiset<int>, tried: multiset<int>, failed: multiset<int>,
                  slots: seq<PollFd>, trying: set<int>, was: seq<PollFd>)
    requires Books(b, made, tried, failed, FdSet(slots), trying, multiset{})
    requires |was| == |slots| && forall i :: 0 <= i < |slots| ==> was[i].fd == slots[i].fd
    ensures forall p :: p in was && p.fd >= 0 ==> p.fd in trying
  {
    SameFds(slots, was);
  }

  lemma NobodyReached(was: seq<PollFd>, healthy: set<int>)
    requires forall p :: p in was ==> !Connected(p, healthy)
    ensures Reached(was, healthy) == {}
  {}

  /** The books at the end: what is not in a slot any more has failed. */
  lemma BooksClosed(b: Base, made: multiset<int>, tried: multiset<int>, failed: multiset<int>,
                    slots: seq<PollFd>, trying: set<int>)
    requires Books(b, made, tried, failed, FdSet(slots), trying, multiset{})
    ensures made + b.tried == b.made + tried
    ensures slots == [] ==> tried + b.failed == b.tried + failed
  {
    if slots == [] {
      EmptyFdSet();
    }
  }

  lemma NobodyYet(open: set<int>, born: map<int, int>, b: Base)
    ensures Racing(open, born, [], [], open)
    ensures Books(b, b.made, b.tried, b.failed, FdSet([]), b.trying, multiset{})
  {
    EmptyFdSet();
  }

  lemma Remaining(open: set<int>, born: map<int, int>, slots: seq<PollFd>, flags: seq<int>, before: set<int>)
    requires Racing(open, born, slots, flags, before)
    ensures open == before + FdSet(slots) && FdSet(slots) !! before && Distinct(slots)
    ensures forall fd :: fd in FdSet(slots) ==> fd >= 0
  {}

  lemma RemainingWon(open: set<int>, slots: seq<PollFd>, before: set<int>, winner: int)
    requires WonBy(open, slots, before, winner)
    ensures open == before + {winner} + FdSet(slots) && FdSet(slots) !! before + {winner} && Distinct(slots)
    ensures winner !in FdSet(slots) && winner !in before
  {}
}
