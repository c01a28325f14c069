/** main() of tools/tar2cpio.py: from the members of a tar archive to the records of
    an initramfs, with /init and the device nodes added. */
module Initramfs {
  import opened Words
  import opened CText
  import opened Cpio

  datatype Kind = Directory | Symlink | File | CharDevice | BlockDevice | Fifo | HardLink | OtherKind

  /** A member; content is the file's bytes, the symlink's target, or the bytes of
      the file a hard link names. */
  datatype Member = Member(kind: Kind, name: seq<Byte>, mode: nat, uid: int, gid: int, mtime: int,
                           content: seq<Byte>, devmajor: int, devminor: int)

  const S_IFIFO: nat := 0x1000
  const S_IFCHR: nat := 0x2000
  const S_IFDIR: nat := 0x4000
  const S_IFBLK: nat := 0x6000
  const S_IFREG: nat := 0x8000
  const S_IFLNK: nat := 0xA000

  const INIT := Ascii("init")
  const SBIN_INIT := Ascii("sbin/init")
  const FSTAB := Ascii("etc/fstab")
  const DEVTMPFS := Ascii("devtmpfs")
  const FSTAB_LINE := Ascii("devtmpfs\t/dev\t\tdevtmpfs\tdefaults\t0\t0\n")

  datatype Node = Node(name: seq<Byte>, mode: nat, major: int, minor: int)

  const NODES: seq<Node> := [
    Node(Ascii("dev/console"), 0x180, 5, 1),      // 0600
    Node(Ascii("dev/null"), 0x1B6, 1, 3),         // 0666
    Node(Ascii("dev/zero"), 0x1B6, 1, 5),
    Node(Ascii("dev/full"), 0x1B6, 1, 7),
    Node(Ascii("dev/random"), 0x1B6, 1, 8),
    Node(Ascii("dev/urandom"), 0x1B6, 1, 9),
    Node(Ascii("dev/tty"), 0x1B6, 5, 0),
    Node(Ascii("dev/ttyS0"), 0x190, 4, 64)]       // 0620

  /** Bitwise or. */
  function Or(a: nat, b: nat): nat
    decreases a + b
  {
    if a == 0 && b == 0 then 0 else (if a % 2 == 0 && b % 2 == 0 then 0 else 1) + 2 * Or(a / 2, b / 2)
  }

  /** lstrip("./"): every leading dot and slash goes, also a hidden file's own. */
  function Strip(name: seq<Byte>): seq<Byte> {
    if name != [] && name[0] in {46, 47} then Strip(name[1..]) else name
  }

  function WithDevtmpfs(name: seq<Byte>, data: seq<Byte>): seq<Byte> {
    if name == FSTAB && Find(data, DEVTMPFS) < 0 then data + FSTAB_LINE else data
  }

  /** The record of a member, none for a kind the converter does not know. */
  function RecordOf(m: Member, name: seq<Byte>): Option<Rec> {
    match m.kind
    case Directory => Some(Rec(name, Or(S_IFDIR, m.mode), m.uid, m.gid, 2, m.mtime, [], 0, 0))
    case Symlink => Some(Rec(name, Or(S_IFLNK, 0x1FF), m.uid, m.gid, 1, m.mtime, m.content, 0, 0))
    case File => Some(Rec(name, Or(S_IFREG, m.mode), m.uid, m.gid, 1, m.mtime, WithDevtmpfs(name, m.content), 0, 0))
    case CharDevice => Some(Rec(name, Or(S_IFCHR, m.mode), m.uid, m.gid, 1, m.mtime, [], m.devmajor, m.devminor))
    case BlockDevice => Some(Rec(name, Or(S_IFBLK, m.mode), m.uid, m.gid, 1, m.mtime, [], m.devmajor, m.devminor))
    case Fifo => Some(Rec(name, Or(S_IFIFO, m.mode), m.uid, m.gid, 1, m.mtime, [], 0, 0))
    case HardLink => Some(Rec(name, Or(S_IFREG, m.mode), m.uid, m.gid, 1, m.mtime, m.content, 0, 0))
    case OtherKind => None
  }

  datatype State = State(recs: seq<Rec>, seen: set<seq<Byte>>)

  function TakeOne(st: State, m: Member): State {
    var name := Strip(m.name);
    if name == [] || name in st.seen then st
    else match RecordOf(m, name)
      case None => State(st.recs, st.seen + {name})
      case Some(r) => State(st.recs + [r], st.seen + {name})
  }

  function TakeAll(ms: seq<Member>): State {
    if ms == [] then State([], {}) else TakeOne(TakeAll(ms[..|ms| - 1]), ms[|ms| - 1])
  }

  function NodeRec(n: Node): Rec { Rec(n.name, Or(S_IFCHR, n.mode), 0, 0, 1, 0, [], n.major, n.minor) }

  function AddNodes(recs: seq<Rec>, seen: set<seq<Byte>>, k: nat): seq<Rec>
    requires k <= |NODES|
  {
    if k == 0 then recs else
      var r := AddNodes(recs, seen, k - 1);
      if NODES[k - 1].name in seen then r else r + [NodeRec(NODES[k - 1])]
  }

  function WithInit(st: State): seq<Rec> {
    if INIT in st.seen then st.recs
    else st.recs + [INIT_REC]
  }

  /** Everything before the trailer. */
  function Records(ms: seq<Member>): seq<Rec> {
    var st := TakeAll(ms);
    AddNodes(WithInit(st), st.seen, |NODES|)
  }

  const INIT_REC := Rec(INIT, Or(S_IFLNK, 0x1FF), 0, 0, 1, 0, SBIN_INIT, 0, 0)

  /** The loop over the members; seen is every name met. */
  method CopyMembers(w: Writer, ms: seq<Member>) returns (seen: set<seq<Byte>>)
    requires w.out == []
    modifies w
    ensures seen == TakeAll(ms).seen && w.out == EncodeAll(TakeAll(ms).recs)
  {
    hide Encode, RecordOf, Strip;
    seen := {};
    var i := 0;
    while i < |ms|
      invariant 0 <= i <= |ms|
      invariant seen == TakeAll(ms[..i]).seen && w.out == EncodeAll(TakeAll(ms[..i]).recs)
    {
      assert ms[..i + 1][..i] == ms[..i];
      var m := ms[i];
      var name := Strip(m.name);
      i := i + 1;
      if name == [] || name in seen {
        continue;
      }
      seen := seen + {name};
      var r := RecordOf(m, name);
      if r.Some? {
        AppendRec(TakeAll(ms[..i - 1]).recs, r.value);
        w.Entry(r.value);
      }
    }
    assert ms[..i] == ms;
  }

  /** The loop over the device nodes. */
  method CopyNodes(w: Writer, seen: set<seq<Byte>>, ghost recs: seq<Rec>)
    requires w.out == EncodeAll(recs)
    modifies w
    ensures w.out == EncodeAll(AddNodes(recs, seen, |NODES|))
  {
    hide Encode, EncodeAll, NodeRec;
    var i := 0;
    while i < |NODES|
      invariant 0 <= i <= |NODES|
      invariant w.out == EncodeAll(AddNodes(recs, seen, i))
    {
      if NODES[i].name !in seen {
        AppendRec(AddNodes(recs, seen, i), NodeRec(NODES[i]));
        w.Entry(NodeRec(NODES[i]));
      }
      i := i + 1;
    }
  }

  method Convert(ms: seq<Member>) returns (out: seq<Byte>)
    ensures out == EncodeAll(Records(ms)) + Encode(Rec(TRAILER, 0, 0, 0, 1, 0, [], 0, 0))
  {
    hide Encode, EncodeAll, TakeAll, AddNodes, Or;
    var w := new Writer();
    var seen := CopyMembers(w, ms);
    ghost var st := TakeAll(ms);
    if INIT !in seen {
      AppendRec(st.recs, INIT_REC);
      w.Entry(INIT_REC);
    }
    CopyNodes(w, seen, WithInit(st));
    w.Entry(TRAILER_REC);
    out := w.out;
  }

  lemma AppendRec(rs: seq<Rec>, r: Rec)
    ensures EncodeAll(rs + [r]) == EncodeAll(rs) + Encode(r)
  {
    hide Encode;
    assert (rs + [r])[..|rs|] == rs;
  }

  // -------------------------------------------------------------- no name twice

  ghost predicate NamesDistinct(rs: seq<Rec>) {
    forall i, j :: 0 <= i < j < |rs| ==> rs[i].name != rs[j].name
  }

  lemma RecordName(m: Member, name: seq<Byte>)
    ensures RecordOf(m, name).Some? ==> RecordOf(m, name).value.name == name
  {}

  lemma {:induction false} TakenDistinct(ms: seq<Member>)
    ensures var st := TakeAll(ms); NamesDistinct(st.recs) && forall r :: r in st.recs ==> r.name in st.seen
  {
    hide RecordOf, Strip;
    if ms != [] {
      TakenDistinct(ms[..|ms| - 1]);
      RecordName(ms[|ms| - 1], Strip(ms[|ms| - 1].name));
    }
  }

  /** Member k is the first with its name, and the name is not empty. */
  ghost predicate IsFirst(ms: seq<Member>, k: nat)
    requires k < |ms|
  {
    Strip(ms[k].name) != [] && forall i :: 0 <= i < k ==> Strip(ms[i].name) != Strip(ms[k].name)
  }

  /** Some first member of its name has this record. */
  ghost predicate Wanted(ms: seq<Member>, r: Rec) {
    exists k :: 0 <= k < |ms| && IsFirst(ms, k) && RecordOf(ms[k], Strip(ms[k].name)) == Some(r)
  }

  /** What the last member adds to the records wanted. */
  lemma WantedStep(ms: seq<Member>, r: Rec)
    requires ms != []
    ensures var n := |ms| - 1;
            Wanted(ms, r) <==> Wanted(ms[..n], r) || (IsFirst(ms, n) && RecordOf(ms[n], Strip(ms[n].name)) == Some(r))
  {
    hide RecordOf, Strip;
    var n := |ms| - 1;
    var shorter := ms[..n];
    forall k | 0 <= k < n ensures IsFirst(ms, k) == IsFirst(shorter, k) && ms[k] == shorter[k] {}
  }

  /** A record is emitted exactly for the first member of each name, when its kind
      is known. */
  lemma {:induction false} FirstWins(ms: seq<Member>)
    ensures forall r :: r in TakeAll(ms).recs <==> Wanted(ms, r)
  {
    hide RecordOf, Strip;
    if ms != [] {
      var n := |ms| - 1;
      FirstWins(ms[..n]);
      SeenIsMet(ms[..n]);
      assert IsFirst(ms, n) <==> Strip(ms[n].name) != [] && Strip(ms[n].name) !in TakeAll(ms[..n]).seen;
      forall r ensures r in TakeAll(ms).recs <==> Wanted(ms, r) { WantedStep(ms, r); }
    }
  }

  /** A name not yet in seen is one no earlier member had. */
  lemma {:induction false} SeenIsMet(ms: seq<Member>)
    ensures forall name :: name in TakeAll(ms).seen <==>
              name != [] && exists i :: 0 <= i < |ms| && Strip(ms[i].name) == name
  {
    hide RecordOf, Strip;
    if ms != [] {
      var n := |ms| - 1;
      SeenIsMet(ms[..n]);
      forall name ensures name in TakeAll(ms).seen <==> name in TakeAll(ms[..n]).seen || (name != [] && name == Strip(ms[n].name)) {}
    }
  }

  predicate IsNode(name: seq<Byte>, k: nat)
    requires k <= |NODES|
  {
    exists i :: 0 <= i < k && NODES[i].name == name
  }

  lemma NodesDistinct()
    ensures forall i, j :: 0 <= i < j < |NODES| ==> NODES[i].name != NODES[j].name
    ensures forall i :: 0 <= i < |NODES| ==> NODES[i].name != INIT
  {
    forall i | 0 <= i < |NODES| ensures NODES[i].name != INIT {
      assert NODES[i].name[0] == 100;
    }
    assert NODES[0].name[4] == 99 && NODES[1].name[4] == 110 && NODES[2].name[4] == 122 && NODES[3].name[4] == 102;
    assert NODES[4].name[4] == 114 && NODES[5].name[4] == 117 && NODES[6].name[4] == 116 && NODES[7].name[4] == 116;
    assert |NODES[6].name| == 7 && |NODES[7].name| == 9;
  }

  lemma {:induction false} NodesAdded(recs: seq<Rec>, seen: set<seq<Byte>>, k: nat)
    requires k <= |NODES| && NamesDistinct(recs)
    requires forall r :: r in recs ==> r.name in seen || r.name == INIT
    ensures var a := AddNodes(recs, seen, k);
            && NamesDistinct(a) && recs <= a
            && (forall r :: r in a ==> r.name in seen || r.name == INIT || IsNode(r.name, k))
            && (forall i :: 0 <= i < k && NODES[i].name !in seen ==> NodeRec(NODES[i]) in a)
  {
    hide Or;
    if k > 0 {
      NodesAdded(recs, seen, k - 1);
      NodesDistinct();
      var a := AddNodes(recs, seen, k - 1);
      forall r | r in a && NODES[k - 1].name !in seen ensures r.name != NODES[k - 1].name {}
      forall name | IsNode(name, k - 1) ensures IsNode(name, k) {}
      assert IsNode(NODES[k - 1].name, k);
    }
  }

  lemma {:induction false} NothingElseAdded(recs: seq<Rec>, seen: set<seq<Byte>>, k: nat)
    requires k <= |NODES|
    ensures forall r :: r in AddNodes(recs, seen, k) ==> r in recs || exists i :: 0 <= i < k && r == NodeRec(NODES[i])
  {
    hide NodeRec;
    if k > 0 {
      NothingElseAdded(recs, seen, k - 1);
    }
  }

  /** The archive of any tar: no name appears twice, every member kept, and /init
      and each device node that the tar did not name are there. */
  lemma RecordsDistinct(ms: seq<Member>)
    ensures var rs := Records(ms); var st := TakeAll(ms);
            && NamesDistinct(rs) && st.recs <= rs
            && (INIT !in st.seen ==> INIT_REC in rs)
            && (forall i :: 0 <= i < |NODES| && NODES[i].name !in st.seen ==> NodeRec(NODES[i]) in rs)
  {
    hide TakeAll, Or, NodeRec;
    TakenDistinct(ms);
    var st := TakeAll(ms);
    var w := WithInit(st);
    NodesAdded(w, st.seen, |NODES|);
    if INIT !in st.seen {
      assert w[|w| - 1] in Records(ms);
    }
  }

  /** What a reader of the format unpacks is what was emitted, if and only if every
      number fits its field and no name has a NUL in it or is the trailer's. */
  lemma InitramfsReadsBack(ms: seq<Member>, after: seq<Byte>)
    ensures DecodeAll(EncodeAll(Records(ms)) + Encode(TRAILER_REC) + after) == Some(Records(ms))
            <==> forall r :: r in Records(ms) ==> Storable(r)
    ensures (forall r :: r in Records(ms) ==> Storable(r)) ==> |EncodeAll(Records(ms))| % 4 == 0
  {
    hide Records, DecodeAll, EncodeAll, Encode, Fits;
    ArchiveRoundTrip(Records(ms), after);
    if forall r :: r in Records(ms) ==> Storable(r) {
      HeadersAligned(Records(ms));
    }
  }

  /** A plain file of no particular content. */
  function PlainFile(name: seq<Byte>, mtime: int): Member {
    Member(File, name, 0, 0, 0, mtime, [], 0, 0)
  }

  lemma {:induction false} OrZero(a: nat)
    ensures Or(a, 0) == a
  {
    if a > 0 {
      OrZero(a / 2);
    }
  }

  lemma OneFile(name: seq<Byte>, mtime: int)
    requires name != [] && name[0] !in {46, 47} && name != FSTAB
    ensures TakeAll([PlainFile(name, mtime)]).recs == [Rec(name, S_IFREG, 0, 0, 1, mtime, [], 0, 0)]
  {
    hide Or;
    OrZero(S_IFREG);
    var ms := [PlainFile(name, mtime)];
    assert ms[..0] == [];
  }

  /** A tar with a file called TRAILER!!! unpacks as nothing at all, /init and the
      device nodes included. */
  lemma TrailerNamedFile(after: seq<Byte>)
    ensures DecodeAll(EncodeAll(Records([PlainFile(TRAILER, 0)])) + Encode(TRAILER_REC) + after) == Some([])
  {
    hide Records, DecodeAll, EncodeAll, Encode, TakeAll;
    var ms := [PlainFile(TRAILER, 0)];
    OneFile(TRAILER, 0);
    RecordsDistinct(ms);
    var rs, t := Records(ms), Rec(TRAILER, S_IFREG, 0, 0, 1, 0, [], 0, 0);
    assert rs[0] == t;
    assert [] + [t] + rs[1..] == rs;
    CStringIs(TRAILER, |TRAILER|);
    assert TRAILER[..|TRAILER|] == TRAILER;
    TrailerNameCuts([], t, rs[1..], after);
  }

  /** A file dated 2^32 seconds after the epoch makes an archive that does not read
      back: its field has nine digits. */
  lemma LateFile(after: seq<Byte>)
    ensures DecodeAll(EncodeAll(Records([PlainFile([97], TWO32)])) + Encode(TRAILER_REC) + after)
            != Some(Records([PlainFile([97], TWO32)]))
  {
    hide Records, DecodeAll, EncodeAll, Encode, TakeAll;
    var ms := [PlainFile([97], TWO32)];
    OneFile([97], TWO32);
    RecordsDistinct(ms);
    InitramfsReadsBack(ms, after);
    assert Records(ms)[0] in Records(ms);
  }

  const A_NUL_B: seq<Byte> := [97, 0, 98]

  /** A file whose name has a NUL in it does not come back: it unpacks as "a". */
  lemma NulNamedFile(after: seq<Byte>)
    ensures DecodeAll(EncodeAll(Records([PlainFile(A_NUL_B, 0)])) + Encode(TRAILER_REC) + after)
            != Some(Records([PlainFile(A_NUL_B, 0)]))
    ensures Decode(EncodeAll(Records([PlainFile(A_NUL_B, 0)])) + Encode(TRAILER_REC) + after).Read?
    ensures Decode(EncodeAll(Records([PlainFile(A_NUL_B, 0)])) + Encode(TRAILER_REC) + after).r.name == [97]
  {
    hide Records, DecodeAll, EncodeAll, Encode, TakeAll, Decode;
    var ms := [PlainFile(A_NUL_B, 0)];
    OneFile(A_NUL_B, 0);
    RecordsDistinct(ms);
    InitramfsReadsBack(ms, after);
    var rs := Records(ms);
    assert rs[0] in rs && 0 == rs[0].name[1];
    assert rs == [rs[0]] + rs[1..];
    EncodeAllCons(rs[0], rs[1..]);
    var tail := EncodeAll(rs[1..]) + Encode(TRAILER_REC) + after;
    assert EncodeAll(rs) + Encode(TRAILER_REC) + after == Encode(rs[0]) + tail;
    DecodeEncode(rs[0], tail);
    assert A_NUL_B[..1] == [97];
    CStringIs(A_NUL_B, 1);
  }
}
